/**
 The bottom-up mergesort of HASH_SRT, as a function on sequences, and what it computes: the sorted
 permutation in which equivalent elements keep their order.
 */
module UthashMerge {
  import opened Bits

  function Min(a: nat, b: nat): nat {
    if a < b then a else b
  }

  /** Merging two runs; on a tie the element of the first run goes first. */
  function Merge<T>(cmp: (T, T) -> int, p: seq<T>, q: seq<T>): (s: seq<T>)
    ensures |s| == |p| + |q|
    decreases |p| + |q|
  {
    if p == [] then q
    else if q == [] then p
    else if cmp(p[0], q[0]) <= 0 then [p[0]] + Merge(cmp, p[1..], q)
    else [q[0]] + Merge(cmp, p, q[1..])
  }

  /** One pass over the list: neighbouring runs of length `w` are merged in pairs. */
  function Pass<T>(cmp: (T, T) -> int, s: seq<T>, w: nat): (r: seq<T>)
    requires w > 0
    ensures |r| == |s|
    decreases |s|
  {
    if s == [] then []
    else
      var mid, end := Min(w, |s|), Min(w + w, |s|);
      Merge(cmp, s[..mid], s[mid..end]) + Pass(cmp, s[end..], w)
  }

  /** Passes with doubled run lengths, until one of them has made a single merge. */
  function Passes<T>(cmp: (T, T) -> int, s: seq<T>, w: nat): (r: seq<T>)
    requires w > 0
    ensures |r| == |s|
    decreases |s| - w
  {
    if |s| <= 2 * w then Pass(cmp, s, w) else Passes(cmp, Pass(cmp, s, w), 2 * w)
  }

  // ---------------------------------------------------------------------------------------------
  // The number of comparisons
  // ---------------------------------------------------------------------------------------------

  /** As long as both runs have elements, each element that is taken costs one comparison. */
  function MergeCount<T>(cmp: (T, T) -> int, p: seq<T>, q: seq<T>): (n: nat)
    ensures n <= |p| + |q|
    decreases |p| + |q|
  {
    if p == [] || q == [] then 0
    else 1 + if cmp(p[0], q[0]) <= 0 then MergeCount(cmp, p[1..], q) else MergeCount(cmp, p, q[1..])
  }

  /** Merging two runs takes at least as many comparisons as the shorter one has elements, and less than both
      have together. */
  lemma {:induction false} MergeCountBounds<T>(cmp: (T, T) -> int, p: seq<T>, q: seq<T>)
    ensures MergeCount(cmp, p, q) >= if |p| < |q| then |p| else |q|
    ensures p != [] && q != [] ==> MergeCount(cmp, p, q) < |p| + |q|
    decreases |p| + |q|
  {
    if p != [] && q != [] {
      MergeCountBounds(cmp, p[1..], q);
      MergeCountBounds(cmp, p, q[1..]);
    }
  }

  function PassCount<T>(cmp: (T, T) -> int, s: seq<T>, w: nat): (n: nat)
    requires w > 0
    ensures n <= |s|
    decreases |s|
  {
    if s == [] then 0
    else
      var mid, end := Min(w, |s|), Min(w + w, |s|);
      MergeCount(cmp, s[..mid], s[mid..end]) + PassCount(cmp, s[end..], w)
  }

  function PassesCount<T>(cmp: (T, T) -> int, s: seq<T>, w: nat): nat
    requires w > 0
    decreases |s| - w
  {
    PassCount(cmp, s, w) + if |s| <= 2 * w then 0 else PassesCount(cmp, Pass(cmp, s, w), 2 * w)
  }

  /** The number of passes over a list of length `n`, from runs of length `w` on. */
  function Rounds(n: nat, w: nat): (rounds: nat)
    requires w > 0
    decreases n - w
  {
    if n <= 2 * w then 1 else 1 + Rounds(n, 2 * w)
  }

  /** The passes are at most as many as the logarithm of the length, rounded up. */
  lemma {:induction false} RoundsLogarithmic(n: nat, w: nat)
    requires w > 0
    ensures Rounds(n, w) > 1 ==> w * Pow2(Rounds(n, w) - 1) < n
    decreases n - w
  {
    if n > 2 * w {
      RoundsLogarithmic(n, 2 * w);
      var k := Rounds(n, 2 * w);
      if k > 1 {
        assert w * Pow2(k) == 2 * w * Pow2(k - 1);
      }
    }
  }

  /** The sort makes at most one comparison for each element in each pass. */
  lemma {:induction false} PassesBound<T>(cmp: (T, T) -> int, s: seq<T>, w: nat)
    requires w > 0
    ensures PassesCount(cmp, s, w) <= |s| * Rounds(|s|, w)
    decreases |s| - w
  {
    hide Pass, PassCount;
    if |s| > 2 * w {
      PassesBound(cmp, Pass(cmp, s, w), 2 * w);
      OneMoreRound(|s|, Rounds(|s|, 2 * w));
    }
  }

  lemma OneMoreRound(n: nat, k: nat)
    ensures n * (1 + k) == n + n * k
  {
  }

  // ---------------------------------------------------------------------------------------------
  // What a stable sort is
  // ---------------------------------------------------------------------------------------------

  /** `cmp` is a total preorder on the elements of `dom`. */
  ghost predicate Preorder<T>(cmp: (T, T) -> int, dom: set<T>) {
    && (forall a, b | a in dom && b in dom :: cmp(a, b) <= 0 || cmp(b, a) <= 0)
    && (forall a, b, c | a in dom && b in dom && c in dom :: cmp(a, b) <= 0 && cmp(b, c) <= 0 ==> cmp(a, c) <= 0)
  }

  ghost predicate Sorted<T>(cmp: (T, T) -> int, s: seq<T>) {
    forall i, j | 0 <= i < j < |s| :: cmp(s[i], s[j]) <= 0
  }

  predicate Equivalent<T>(cmp: (T, T) -> int, a: T, b: T) {
    cmp(a, b) <= 0 && cmp(b, a) <= 0
  }

  /** The elements equivalent to `x`, in their order. */
  function Class<T>(cmp: (T, T) -> int, s: seq<T>, x: T): seq<T> {
    if s == [] then [] else (if Equivalent(cmp, s[0], x) then [s[0]] else []) + Class(cmp, s[1..], x)
  }

  /** `t` is a sorted permutation of `s`, and the elements equivalent to any element of `dom` are in the
      same order in both. */
  ghost predicate StableSorted<T>(cmp: (T, T) -> int, s: seq<T>, t: seq<T>, dom: set<T>) {
    && Sorted(cmp, t) && multiset(t) == multiset(s)
    && forall x | x in dom :: Class(cmp, t, x) == Class(cmp, s, x)
  }

  /** In a class the elements have the order that they have in the list. */
  lemma {:induction false} ClassAt<T>(cmp: (T, T) -> int, s: seq<T>, x: T, i: nat) returns (m: nat)
    requires i < |s| && Equivalent(cmp, s[i], x)
    ensures m < |Class(cmp, s, x)| && Class(cmp, s, x)[m] == s[i]
    decreases |s|
  {
    m := 0;
    if i > 0 {
      m := ClassAt(cmp, s[1..], x, i - 1);
      m := if Equivalent(cmp, s[0], x) then m + 1 else m;
    }
  }

  lemma {:induction false} ClassPair<T>(cmp: (T, T) -> int, s: seq<T>, x: T, i: nat, j: nat) returns (m: nat, n: nat)
    requires i < j < |s| && Equivalent(cmp, s[i], x) && Equivalent(cmp, s[j], x)
    ensures m < n < |Class(cmp, s, x)| && Class(cmp, s, x)[m] == s[i] && Class(cmp, s, x)[n] == s[j]
    decreases |s|
  {
    if i == 0 {
      m := 0;
      n := ClassAt(cmp, s[1..], x, j - 1);
      n := n + 1;
    } else {
      m, n := ClassPair(cmp, s[1..], x, i - 1, j - 1);
      if Equivalent(cmp, s[0], x) {
        m, n := m + 1, n + 1;
      }
    }
  }

  lemma {:induction false} ClassDistinct<T>(cmp: (T, T) -> int, s: seq<T>, x: T)
    requires forall i, j | 0 <= i < j < |s| :: s[i] != s[j]
    ensures forall y | y in Class(cmp, s, x) :: y in s
    ensures forall i, j | 0 <= i < j < |Class(cmp, s, x)| :: Class(cmp, s, x)[i] != Class(cmp, s, x)[j]
  {
    if s != [] {
      ClassDistinct(cmp, s[1..], x);
      var rest := Class(cmp, s[1..], x);
      forall j | 0 <= j < |rest| ensures rest[j] != s[0] {
        assert rest[j] in s[1..];
      }
      assert Class(cmp, s, x) == rest || Class(cmp, s, x) == [s[0]] + rest;
    }
  }

  /** Stability by positions: of two equivalent elements, the one that came first still does. */
  lemma StableOrder<T>(cmp: (T, T) -> int, s: seq<T>, t: seq<T>, dom: set<T>, i: nat, j: nat, p: nat, q: nat)
    requires StableSorted(cmp, s, t, dom) && Preorder(cmp, dom)
    requires forall i, j | 0 <= i < j < |s| :: s[i] != s[j]
    requires i < j < |s| && p < |t| && q < |t| && t[p] == s[i] && t[q] == s[j] && s[i] in dom
    requires cmp(s[i], s[j]) <= 0 && cmp(s[j], s[i]) <= 0
    ensures p < q
  {
    var x := s[i];
    var m, n := ClassPair(cmp, s, x, i, j);
    ClassDistinct(cmp, s, x);
    if q < p {
      var n', m' := ClassPair(cmp, t, x, q, p);
    }
  }

  // ---------------------------------------------------------------------------------------------
  // Permutations
  // ---------------------------------------------------------------------------------------------

  lemma {:induction false} MergeMultiset<T>(cmp: (T, T) -> int, p: seq<T>, q: seq<T>)
    ensures multiset(Merge(cmp, p, q)) == multiset(p) + multiset(q)
    decreases |p| + |q|
  {
    if p != [] && q != [] {
      assert p == [p[0]] + p[1..] && q == [q[0]] + q[1..];
      if cmp(p[0], q[0]) <= 0 {
        MergeMultiset(cmp, p[1..], q);
      } else {
        MergeMultiset(cmp, p, q[1..]);
      }
    }
  }

  lemma {:induction false} PassMultiset<T>(cmp: (T, T) -> int, s: seq<T>, w: nat)
    requires w > 0
    ensures multiset(Pass(cmp, s, w)) == multiset(s)
    decreases |s|
  {
    if s != [] {
      var mid, end := Min(w, |s|), Min(w + w, |s|);
      assert s == s[..mid] + s[mid..end] + s[end..];
      MergeMultiset(cmp, s[..mid], s[mid..end]);
      PassMultiset(cmp, s[end..], w);
    }
  }

  lemma {:induction false} PassesMultiset<T>(cmp: (T, T) -> int, s: seq<T>, w: nat)
    requires w > 0
    ensures multiset(Passes(cmp, s, w)) == multiset(s)
    decreases |s| - w
  {
    PassMultiset(cmp, s, w);
    if |s| > 2 * w {
      PassesMultiset(cmp, Pass(cmp, s, w), 2 * w);
    }
  }

  // ---------------------------------------------------------------------------------------------
  // Merging
  // ---------------------------------------------------------------------------------------------

  ghost predicate Lower<T>(cmp: (T, T) -> int, e: T, s: seq<T>) {
    forall i | 0 <= i < |s| :: cmp(e, s[i]) <= 0
  }

  predicate In<T>(s: seq<T>, dom: set<T>) {
    forall i | 0 <= i < |s| :: s[i] in dom
  }

  lemma SortedCons<T>(cmp: (T, T) -> int, s: seq<T>)
    requires s != []
    ensures Sorted(cmp, s) <==> Lower(cmp, s[0], s[1..]) && Sorted(cmp, s[1..])
  {
    assert s == [s[0]] + s[1..];
  }

  lemma {:induction false} MergeLower<T>(cmp: (T, T) -> int, e: T, p: seq<T>, q: seq<T>)
    requires Lower(cmp, e, p) && Lower(cmp, e, q)
    ensures Lower(cmp, e, Merge(cmp, p, q))
    decreases |p| + |q|
  {
    if p != [] && q != [] {
      if cmp(p[0], q[0]) <= 0 {
        MergeLower(cmp, e, p[1..], q);
      } else {
        MergeLower(cmp, e, p, q[1..]);
      }
    }
  }

  /** What is above the head of a sorted run that is above `e` is above `e`. */
  lemma LowerTransitive<T>(cmp: (T, T) -> int, e: T, s: seq<T>, dom: set<T>)
    requires Preorder(cmp, dom) && e in dom && In(s, dom) && Sorted(cmp, s)
    requires s != [] && cmp(e, s[0]) <= 0
    ensures Lower(cmp, e, s)
  {
    forall i | 0 <= i < |s| ensures cmp(e, s[i]) <= 0 {
      assert i == 0 || cmp(s[0], s[i]) <= 0;
    }
  }

  lemma Flip<T>(cmp: (T, T) -> int, a: T, b: T, dom: set<T>)
    requires Preorder(cmp, dom) && a in dom && b in dom && cmp(a, b) > 0
    ensures cmp(b, a) <= 0
  {
  }

  lemma {:induction false} MergeSorted<T>(cmp: (T, T) -> int, p: seq<T>, q: seq<T>, dom: set<T>)
    requires Preorder(cmp, dom) && In(p, dom) && In(q, dom) && Sorted(cmp, p) && Sorted(cmp, q)
    ensures Sorted(cmp, Merge(cmp, p, q))
    decreases |p| + |q|
  {
    hide Preorder, Sorted, Lower;
    if p != [] && q != [] {
      var m := Merge(cmp, p, q);
      SortedCons(cmp, p);
      SortedCons(cmp, q);
      SortedCons(cmp, m);
      if cmp(p[0], q[0]) <= 0 {
        MergeSorted(cmp, p[1..], q, dom);
        LowerTransitive(cmp, p[0], q, dom);
        MergeLower(cmp, p[0], p[1..], q);
        assert m[1..] == Merge(cmp, p[1..], q);
      } else {
        MergeSorted(cmp, p, q[1..], dom);
        Flip(cmp, p[0], q[0], dom);
        LowerTransitive(cmp, q[0], p, dom);
        MergeLower(cmp, q[0], p, q[1..]);
        assert m[1..] == Merge(cmp, p, q[1..]);
      }
    }
  }

  lemma ClassCons<T>(cmp: (T, T) -> int, e: T, s: seq<T>, x: T)
    ensures Class(cmp, [e] + s, x) == (if Equivalent(cmp, e, x) then [e] else []) + Class(cmp, s, x)
  {
    assert ([e] + s)[1..] == s;
  }

  lemma {:induction false} ClassConcat<T>(cmp: (T, T) -> int, a: seq<T>, b: seq<T>, x: T)
    ensures Class(cmp, a + b, x) == Class(cmp, a, x) + Class(cmp, b, x)
  {
    if a == [] {
      assert a + b == b;
    } else {
      ClassConcat(cmp, a[1..], b, x);
      assert a + b == [a[0]] + (a[1..] + b);
      ClassCons(cmp, a[0], a[1..] + b, x);
    }
  }

  lemma {:induction false} ClassEmpty<T>(cmp: (T, T) -> int, s: seq<T>, x: T)
    requires forall i | 0 <= i < |s| :: !Equivalent(cmp, s[i], x)
    ensures Class(cmp, s, x) == []
  {
    if s != [] {
      ClassEmpty(cmp, s[1..], x);
    }
  }

  lemma Apart<T>(cmp: (T, T) -> int, p: T, e: T, y: T, x: T, dom: set<T>)
    requires Preorder(cmp, dom) && p in dom && e in dom && y in dom && x in dom
    requires (e == p || cmp(p, e) <= 0) && cmp(p, y) > 0 && Equivalent(cmp, y, x)
    ensures !Equivalent(cmp, e, x)
  {
  }

  lemma Regroup<T>(e: seq<T>, a: seq<T>, b: seq<T>)
    ensures e + (a + b) == (e + a) + b
    ensures e == [] || a == [] ==> e + (a + b) == a + (e + b)
  {
  }

  /** When the head of a run is above `y`, nothing in the run is equivalent to anything equivalent to `y`. */
  lemma NoneBelow<T>(cmp: (T, T) -> int, p: seq<T>, y: T, x: T, dom: set<T>)
    requires Preorder(cmp, dom) && In(p, dom) && Sorted(cmp, p) && p != []
    requires x in dom && y in dom && cmp(p[0], y) > 0 && Equivalent(cmp, y, x)
    ensures Class(cmp, p, x) == []
  {
    forall i | 0 <= i < |p| ensures !Equivalent(cmp, p[i], x) {
      assert i == 0 || cmp(p[0], p[i]) <= 0;
      Apart(cmp, p[0], p[i], y, x, dom);
    }
    ClassEmpty(cmp, p, x);
  }

  /** Merging puts the elements of the first run in front of the equivalent ones of the second. */
  lemma {:induction false} MergeClass<T>(cmp: (T, T) -> int, p: seq<T>, q: seq<T>, x: T, dom: set<T>)
    requires Preorder(cmp, dom) && In(p, dom) && In(q, dom) && x in dom && Sorted(cmp, p) && Sorted(cmp, q)
    ensures Class(cmp, Merge(cmp, p, q), x) == Class(cmp, p, x) + Class(cmp, q, x)
    decreases |p| + |q|
  {
    hide *;
    if p == [] || q == [] {
      MergeNothing(cmp, p, q, x);
    } else {
      TailIn(p, dom);
      TailIn(q, dom);
      SortedCons(cmp, p);
      SortedCons(cmp, q);
      MergeHead(cmp, p, q);
      if cmp(p[0], q[0]) <= 0 {
        MergeClass(cmp, p[1..], q, x, dom);
        ClassCons(cmp, p[0], Merge(cmp, p[1..], q), x);
        ClassCons(cmp, p[0], p[1..], x);
        assert p == [p[0]] + p[1..];
        Regroup(if Equivalent(cmp, p[0], x) then [p[0]] else [], Class(cmp, p[1..], x), Class(cmp, q, x));
      } else {
        MergeClass(cmp, p, q[1..], x, dom);
        ClassCons(cmp, q[0], Merge(cmp, p, q[1..]), x);
        ClassCons(cmp, q[0], q[1..], x);
        assert q == [q[0]] + q[1..];
        if Equivalent(cmp, q[0], x) {
          NoneBelow(cmp, p, q[0], x, dom);
        }
        Regroup(if Equivalent(cmp, q[0], x) then [q[0]] else [], Class(cmp, p, x), Class(cmp, q[1..], x));
      }
    }
  }

  lemma MergeNothing<T>(cmp: (T, T) -> int, p: seq<T>, q: seq<T>, x: T)
    requires p == [] || q == []
    ensures Class(cmp, Merge(cmp, p, q), x) == Class(cmp, p, x) + Class(cmp, q, x)
  {
    assert Class(cmp, [], x) == [];
  }

  lemma MergeHead<T>(cmp: (T, T) -> int, p: seq<T>, q: seq<T>)
    requires p != [] && q != []
    ensures Merge(cmp, p, q)
         == if cmp(p[0], q[0]) <= 0 then [p[0]] + Merge(cmp, p[1..], q) else [q[0]] + Merge(cmp, p, q[1..])
  {
  }

  lemma TailIn<T>(s: seq<T>, dom: set<T>)
    requires In(s, dom) && s != []
    ensures In(s[1..], dom) && s[0] in dom
  {
  }

  lemma MergeStable<T>(cmp: (T, T) -> int, a: seq<T>, a': seq<T>, b: seq<T>, b': seq<T>, dom: set<T>)
    requires Preorder(cmp, dom) && In(a, dom) && In(b, dom)
    requires StableSorted(cmp, a, a', dom) && StableSorted(cmp, b, b', dom)
    ensures StableSorted(cmp, a + b, Merge(cmp, a', b'), dom)
  {
    hide Preorder, Sorted, Merge;
    var m := Merge(cmp, a', b');
    PermutationIn(a, a', dom);
    PermutationIn(b, b', dom);
    MergeSorted(cmp, a', b', dom);
    MergeMultiset(cmp, a', b');
    forall x | x in dom ensures Class(cmp, m, x) == Class(cmp, a + b, x) {
      MergeClass(cmp, a', b', x, dom);
      ClassConcat(cmp, a, b, x);
    }
  }

  lemma PermutationIn<T>(s: seq<T>, t: seq<T>, dom: set<T>)
    requires multiset(t) == multiset(s) && In(s, dom)
    ensures In(t, dom)
  {
    forall i | 0 <= i < |t| ensures t[i] in dom {
      assert t[i] in multiset(t);
      assert t[i] in multiset(s);
    }
  }

  // ---------------------------------------------------------------------------------------------
  // Passes
  // ---------------------------------------------------------------------------------------------

  /** `t` is `s` with every block of length `w` sorted. */
  ghost predicate Blocks<T>(cmp: (T, T) -> int, s: seq<T>, t: seq<T>, w: nat, dom: set<T>)
    requires w > 0
    decreases |s|
  {
    && |t| == |s|
    && (s != [] ==>
          var m := Min(w, |s|);
          StableSorted(cmp, s[..m], t[..m], dom) && Blocks(cmp, s[m..], t[m..], w, dom))
  }

  lemma {:induction false} Singles<T>(cmp: (T, T) -> int, s: seq<T>, dom: set<T>)
    ensures Blocks(cmp, s, s, 1, dom)
  {
    if s != [] {
      Singles(cmp, s[1..], dom);
      assert StableSorted(cmp, s[..1], s[..1], dom);
    }
  }

  lemma {:induction false} PassBlocks<T>(cmp: (T, T) -> int, s: seq<T>, t: seq<T>, w: nat, dom: set<T>)
    requires w > 0 && Blocks(cmp, s, t, w, dom) && Preorder(cmp, dom) && In(s, dom)
    ensures Blocks(cmp, s, Pass(cmp, t, w), 2 * w, dom)
    decreases |s|
  {
    hide Preorder, StableSorted, Merge;
    if s != [] {
      var mid, end := Min(w, |s|), Min(w + w, |s|);
      SecondBlock(cmp, s, t, w, mid, end, dom);
      PassBlocks(cmp, s[end..], t[end..], w, dom);
      MergeStable(cmp, s[..mid], t[..mid], s[mid..end], t[mid..end], dom);
      var r := Pass(cmp, t, w);
      hide Blocks;
      assert r == Merge(cmp, t[..mid], t[mid..end]) + Pass(cmp, t[end..], w);
      assert r[..end] == Merge(cmp, t[..mid], t[mid..end]) && r[end..] == Pass(cmp, t[end..], w);
      assert s[..end] == s[..mid] + s[mid..end];
      FirstBlock(cmp, s, r, 2 * w, end, dom);
    }
  }

  lemma FirstBlock<T>(cmp: (T, T) -> int, s: seq<T>, r: seq<T>, w: nat, end: nat, dom: set<T>)
    requires w > 0 && s != [] && end == Min(w, |s|) && |r| == |s|
    requires StableSorted(cmp, s[..end], r[..end], dom) && Blocks(cmp, s[end..], r[end..], w, dom)
    ensures Blocks(cmp, s, r, w, dom)
  {
  }

  lemma SecondBlock<T>(cmp: (T, T) -> int, s: seq<T>, t: seq<T>, w: nat, mid: nat, end: nat, dom: set<T>)
    requires w > 0 && s != [] && Blocks(cmp, s, t, w, dom) && mid == Min(w, |s|) && end == Min(w + w, |s|)
    ensures |t| == |s|
    ensures StableSorted(cmp, s[..mid], t[..mid], dom) && StableSorted(cmp, s[mid..end], t[mid..end], dom)
    ensures Blocks(cmp, s[end..], t[end..], w, dom)
  {
    hide StableSorted;
    var s', t' := s[mid..], t[mid..];
    assert Blocks(cmp, s', t', w, dom);
    assert s'[..end - mid] == s[mid..end] && s'[end - mid..] == s[end..];
    assert t'[..end - mid] == t[mid..end] && t'[end - mid..] == t[end..];
    if mid == |s| {
      NothingStable(cmp, s[mid..end], t[mid..end], dom);
    }
  }

  lemma NothingStable<T>(cmp: (T, T) -> int, s: seq<T>, t: seq<T>, dom: set<T>)
    requires s == [] && t == []
    ensures StableSorted<T>(cmp, s, t, dom)
  {
  }

  lemma {:induction false} PassesBlocks<T>(cmp: (T, T) -> int, s: seq<T>, t: seq<T>, w: nat, dom: set<T>)
    requires w > 0 && Blocks(cmp, s, t, w, dom) && Preorder(cmp, dom) && In(s, dom)
    ensures StableSorted(cmp, s, Passes(cmp, t, w), dom)
    decreases |s| - w
  {
    hide Preorder, StableSorted, Pass, In;
    PassBlocks(cmp, s, t, w, dom);
    if |s| <= 2 * w {
      var r := Pass(cmp, t, w);
      assert s[..|s|] == s && r[..|s|] == r;
      if s == [] {
        NothingStable(cmp, s, r, dom);
      }
    } else {
      PassesBlocks(cmp, s, Pass(cmp, t, w), 2 * w, dom);
    }
  }

  /** The mergesort sorts stably, for every list and every total preorder on its elements. */
  lemma PassesStable<T>(cmp: (T, T) -> int, s: seq<T>)
    requires Preorder(cmp, set x | x in s)
    ensures StableSorted(cmp, s, Passes(cmp, s, 1), set x | x in s)
  {
    hide Preorder, StableSorted, Passes;
    Singles(cmp, s, set x | x in s);
    PassesBlocks(cmp, s, s, 1, set x | x in s);
  }
}
