/** HASH_SRT: the bottom-up mergesort on the list in insertion order, in place. */
module UthashSort {
  import opened Bits
  import opened UthashLists
  import opened UthashTable
  import opened UthashMerge

  // ---------------------------------------------------------------------------------------------
  // The state inside a pass
  // ---------------------------------------------------------------------------------------------

  /** `out` has been relinked, except for the successor of its last element. */
  ghost predicate Relinked(h: Heap, out: seq<Elem>) {
    forall i {:trigger RelinkedAt(h, out, i)} | 0 <= i < |out| :: RelinkedAt(h, out, i)
  }

  ghost predicate RelinkedAt(h: Heap, out: seq<Elem>, i: nat)
    requires i < |out|
  {
    out[i] in h && h[out[i]].prev == Nth(out, i - 1) && (i + 1 < |out| ==> h[out[i]].next == out[i + 1])
  }

  /** An element that has not been taken yet still has its old successor. */
  ghost predicate Untaken(h: Heap, s: seq<Elem>, out: seq<Elem>, k: nat)
    requires k < |s|
  {
    s[k] in h && h[s[k]].next == Nth(s, k + 1) && s[k] !in out
  }

  /** `out` has been written; of the input `s` the positions from `a` to `mid` and from `b` on remain. */
  ghost predicate Taken(h: Heap, s: seq<Elem>, out: seq<Elem>, a: nat, mid: nat, b: nat) {
    && a <= mid <= b <= |s| && Distinct(out) && Relinked(h, out)
    && forall k {:trigger Untaken(h, s, out, k)} | a <= k < mid || b <= k < |s| :: Untaken(h, s, out, k)
  }

  /** The writes that put `e` behind the last element of the output. */
  ghost function Emitted(h: Heap, last: Elem?, e: Elem): Heap
    requires e in h && (last != null ==> last in h)
  {
    var h1 := if last != null then h[last := h[last].(next := e)] else h;
    h1[e := h1[e].(prev := last)]
  }

  lemma LastIn(h: Heap, out: seq<Elem>)
    requires Relinked(h, out)
    ensures out != [] ==> out[|out| - 1] in h
  {
    if out != [] {
      assert RelinkedAt(h, out, |out| - 1);
    }
  }

  lemma EmitStep(h: Heap, s: seq<Elem>, out: seq<Elem>, a: nat, mid: nat, b: nat, k: nat)
    requires Distinct(s) && Taken(h, s, out, a, mid, b) && (k == a < mid || k == b < |s|)
    ensures s[k] in h && h[s[k]].next == Nth(s, k + 1) && (out != [] ==> out[|out| - 1] in h && out[|out| - 1] != s[k])
    ensures var h' := Emitted(h, Nth(out, |out| - 1), s[k]);
            && h'.Keys == h.Keys
            && (k == a < mid ==> Taken(h', s, out + [s[k]], a + 1, mid, b))
            && (k == b < |s| ==> Taken(h', s, out + [s[k]], a, mid, b + 1))
  {
    assert Untaken(h, s, out, k);
    LastIn(h, out);
    var e, out' := s[k], out + [s[k]];
    var h' := Emitted(h, Nth(out, |out| - 1), e);
    forall i | 0 <= i < |out'| ensures RelinkedAt(h', out', i) {
      if i < |out| {
        assert RelinkedAt(h, out, i);
      }
    }
    forall j | (a <= j < mid || b <= j < |s|) && j != k ensures Untaken(h', s, out', j) {
      assert Untaken(h, s, out, j);
    }
  }

  /** The end of a pass. */
  lemma Closed(h: Heap, out: seq<Elem>)
    requires Relinked(h, out) && Distinct(out) && out != []
    ensures out[|out| - 1] in h
    ensures Linked(h[out[|out| - 1] := h[out[|out| - 1]].(next := null)], out)
  {
    LastIn(h, out);
    var h' := h[out[|out| - 1] := h[out[|out| - 1]].(next := null)];
    forall i | 0 <= i < |out| ensures LinkedAt(h', out, i) {
      assert RelinkedAt(h, out, i);
    }
  }

  lemma Opened(h: Heap, s: seq<Elem>)
    requires Linked(h, s)
    ensures Taken(h, s, [], 0, 0, 0)
  {
    forall k | 0 <= k < |s| ensures Untaken(h, s, [], k) {
      assert LinkedAt(h, s, k);
    }
  }

  /** Between two merges it does not matter how the remaining input is divided. */
  lemma NextMerge(h: Heap, s: seq<Elem>, out: seq<Elem>, a: nat, mid: nat, b: nat, mid': nat)
    requires Taken(h, s, out, a, mid, b) && (a == mid || mid == b) && mid' <= |s|
    ensures a == mid && b <= mid' ==> Taken(h, s, out, b, mid', mid')
    ensures a == mid ==> Taken(h, s, out, b, b, b)
  {
    forall k | b <= k < |s| ensures Untaken(h, s, out, k) {
    }
  }

  lemma TakenAt(h: Heap, s: seq<Elem>, out: seq<Elem>, a: nat, mid: nat, b: nat, k: nat)
    requires Taken(h, s, out, a, mid, b) && (a <= k < mid || b <= k < |s|)
    ensures s[k] in h && h[s[k]].next == Nth(s, k + 1)
  {
    assert Untaken(h, s, out, k);
  }

  // ---------------------------------------------------------------------------------------------
  // The method
  // ---------------------------------------------------------------------------------------------

  /** Take `e` over into the output list. */
  method Emit(tail: Elem?, e: Elem, ghost es: set<Elem>)
    requires e in es && (tail != null ==> tail in es && tail != e)
    modifies es`prev, es`next
    ensures AppHeap(es) == Emitted(old(AppHeap(es)), tail, e)
  {
    if tail != null {
      tail.next := e;
    }
    e.prev := tail;
  }

  /** The loop that finds the end of the first run. */
  method FindSecond(p: Elem, insize: nat, ghost s: seq<Elem>, ghost i: nat, ghost out: seq<Elem>, ghost es: set<Elem>)
      returns (q: Elem?, psize: nat)
    requires i < |s| && p == s[i] && Taken(AppHeap(es), s, out, i, i, i) && insize > 0
    ensures psize == Min(insize, |s| - i) && q == Nth(s, i + psize)
  {
    q, psize := p, 0;
    var k := 0;
    while k < insize
      invariant k <= insize && k == psize <= |s| - i && q == Nth(s, i + psize) && q != null
    {
      TakenAt(AppHeap(es), s, out, i, i, i, i + psize);
      assert AppHeap(es)[q] == Links(q.prev, q.next);
      psize := psize + 1;
      q := q.next;
      if q == null {
        break;
      }
      k := k + 1;
    }
  }

  /** Which element of two runs is taken next. */
  predicate TakeFirst(cmp: (Elem, Elem) -> int, s: seq<Elem>, a: nat, mid: nat, b: nat, end: nat)
    requires a <= mid <= b <= end <= |s|
  {
    a < mid && (b == end || cmp(s[a], s[b]) <= 0)
  }

  lemma MergeNext(cmp: (Elem, Elem) -> int, s: seq<Elem>, a: nat, mid: nat, b: nat, end: nat, out: seq<Elem>)
    requires a <= mid <= b <= end <= |s|
    ensures a == mid && b == end ==> out + Merge(cmp, s[a..mid], s[b..end]) == out && MergeCount(cmp, s[a..mid], s[b..end]) == 0
    ensures (a < mid || b < end) ==>
              var first := TakeFirst(cmp, s, a, mid, b, end);
              MergeCount(cmp, s[a..mid], s[b..end])
              == (if a < mid && b < end then 1 else 0)
                 + if first then MergeCount(cmp, s[a + 1..mid], s[b..end]) else MergeCount(cmp, s[a..mid], s[b + 1..end])
    ensures TakeFirst(cmp, s, a, mid, b, end) ==>
              out + Merge(cmp, s[a..mid], s[b..end]) == out + [s[a]] + Merge(cmp, s[a + 1..mid], s[b..end])
    ensures (a < mid || b < end) && !TakeFirst(cmp, s, a, mid, b, end) ==>
              b < end && out + Merge(cmp, s[a..mid], s[b..end]) == out + [s[b]] + Merge(cmp, s[a..mid], s[b + 1..end])
  {
    var p, q := s[a..mid], s[b..end];
    if a < mid {
      assert p[0] == s[a] && p[1..] == s[a + 1..mid];
    }
    if b < end {
      assert q[0] == s[b] && q[1..] == s[b + 1..end];
    }
    assert a == mid && b < end ==> q == [s[b]] + q[1..];
    assert a < mid && b == end ==> p == [s[a]] + p[1..];
  }

  /** The second half of the merging loop: the chosen element goes behind the output. */
  method EmitAt(tail: Elem?, e: Elem, ghost s: seq<Elem>, ghost out: seq<Elem>, ghost a: nat, ghost mid: nat, ghost b: nat,
                ghost k: nat, ghost es: set<Elem>)
    requires Distinct(s) && Taken(AppHeap(es), s, out, a, mid, b) && (k == a < mid || k == b < |s|) && e == s[k]
    requires tail == Nth(out, |out| - 1)
    modifies es`prev, es`next
    ensures k == a < mid ==> Taken(AppHeap(es), s, out + [e], a + 1, mid, b)
    ensures k == b < |s| ==> Taken(AppHeap(es), s, out + [e], a, mid, b + 1)
  {
    EmitStep(AppHeap(es), s, out, a, mid, b, k);
    hide Taken, Emitted;
    Emit(tail, e, es);
  }

  lemma SuccessorOf(es: set<Elem>, s: seq<Elem>, out: seq<Elem>, a: nat, mid: nat, b: nat)
    requires Taken(AppHeap(es), s, out, a, mid, b)
    ensures a < mid ==> s[a] in es && s[a].next == Nth(s, a + 1)
    ensures b < |s| ==> s[b] in es && s[b].next == Nth(s, b + 1)
  {
    if a < mid {
      TakenAt(AppHeap(es), s, out, a, mid, b, a);
      assert AppHeap(es)[s[a]] == Links(s[a].prev, s[a].next);
    }
    if b < |s| {
      TakenAt(AppHeap(es), s, out, a, mid, b, b);
      assert AppHeap(es)[s[b]] == Links(s[b].prev, s[b].next);
    }
  }

  /** The cascade of tests that decides from which run the next element comes. */
  method Choose(p: Elem?, psize: nat, q: Elem?, qsize: nat, cmp: (Elem, Elem) -> int,
                ghost s: seq<Elem>, ghost a: nat, ghost mid: nat, ghost b: nat, ghost end: nat)
      returns (fromFirst: bool, ghost comparisons: nat)
    requires a <= mid <= b <= end <= |s| && psize == mid - a && (qsize == 0 || q == null <==> b == end)
    requires (a < mid ==> p == s[a]) && q == Nth(s, b) && (a < mid || b < end)
    ensures (fromFirst <==> TakeFirst(cmp, s, a, mid, b, end)) && comparisons == if a < mid && b < end then 1 else 0
  {
    comparisons := 0;
    if psize == 0 {
      fromFirst := false;
    } else if qsize == 0 || q == null {
      fromFirst := true;
    } else {
      fromFirst := cmp(p, q) <= 0;
      comparisons := 1;
    }
  }

  /** What the variables of the merging loop stand for. */
  ghost predicate Cursors(s: seq<Elem>, a: nat, mid: nat, b: nat, end: nat, insize: nat, p: Elem?, psize: nat, q: Elem?, qsize: nat)
  {
    && a <= mid <= b <= end == Min(mid + insize, |s|) && psize == mid - a && qsize == insize - (b - mid)
    && (a < mid ==> p == s[a]) && q == Nth(s, b)
  }

  /** The body of the merging loop. */
  method TakeNext(p: Elem?, psize: nat, q: Elem?, qsize: nat, insize: nat, tail: Elem?, cmp: (Elem, Elem) -> int,
                  ghost s: seq<Elem>, ghost a: nat, ghost mid: nat, ghost b: nat, ghost end: nat,
                  ghost out: seq<Elem>, ghost es: set<Elem>)
      returns (e: Elem, p': Elem?, psize': nat, q': Elem?, qsize': nat, ghost a': nat, ghost b': nat,
               ghost comparisons: nat)
    requires Cursors(s, a, mid, b, end, insize, p, psize, q, qsize) && (psize > 0 || (qsize > 0 && q != null))
    requires Distinct(s) && Taken(AppHeap(es), s, out, a, mid, b) && tail == Nth(out, |out| - 1)
    modifies es`prev, es`next
    ensures Cursors(s, a', mid, b', end, insize, p', psize', q', qsize') && psize' + qsize' < psize + qsize
    ensures Taken(AppHeap(es), s, out + [e], a', mid, b')
    ensures comparisons + MergeCount(cmp, s[a'..mid], s[b'..end]) == MergeCount(cmp, s[a..mid], s[b..end])
    ensures out + [e] + Merge(cmp, s[a'..mid], s[b'..end]) == out + Merge(cmp, s[a..mid], s[b..end])
  {
    hide Taken, Distinct, Merge, MergeCount, AppHeap, TakeFirst;
    MergeNext(cmp, s, a, mid, b, end, out);
    SuccessorOf(es, s, out, a, mid, b);
    p', psize', q', qsize', a', b' := p, psize, q, qsize, a, b;
    var fromFirst;
    fromFirst, comparisons := Choose(p, psize, q, qsize, cmp, s, a, mid, b, end);
    if fromFirst {
      e, p', psize', a' := p, p.next, psize - 1, a + 1;
      EmitAt(tail, e, s, out, a, mid, b, a, es);
    } else {
      e, q', qsize', b' := q, q.next, qsize - 1, b + 1;
      EmitAt(tail, e, s, out, a, mid, b, b, es);
    }
  }

  /** The loop that merges two runs. */
  method MergeRuns(first: Elem, second: Elem?, psize0: nat, insize: nat, list0: Elem?, tail0: Elem?, cmp: (Elem, Elem) -> int,
                   ghost s: seq<Elem>, ghost i: nat, ghost mid: nat, ghost end: nat, ghost out0: seq<Elem>, ghost es: set<Elem>)
      returns (q: Elem?, list: Elem?, tail: Elem?, ghost out: seq<Elem>, ghost comparisons: nat)
    requires i < mid <= |s| && first == s[i] && psize0 == mid - i && second == Nth(s, mid) && end == Min(mid + insize, |s|)
    requires Distinct(s) && Taken(AppHeap(es), s, out0, i, mid, mid)
    requires list0 == Nth(out0, 0) && tail0 == Nth(out0, |out0| - 1)
    modifies es`prev, es`next
    ensures out == out0 + Merge(cmp, s[i..mid], s[mid..end])
    ensures Taken(AppHeap(es), s, out, end, end, end) && q == Nth(s, end)
    ensures list == Nth(out, 0) && tail == Nth(out, |out| - 1)
    ensures comparisons == MergeCount(cmp, s[i..mid], s[mid..end])
  {
    hide Taken, Distinct, Merge, MergeCount, Relinked, AppHeap;
    ghost var a, b, goal := i, mid, out0 + Merge(cmp, s[i..mid], s[mid..end]);
    ghost var total := MergeCount(cmp, s[i..mid], s[mid..end]);
    var p: Elem?, psize, qsize := first, psize0, insize;
    q, list, tail, out, comparisons := second, list0, tail0, out0, 0;
    while psize > 0 || (qsize > 0 && q != null)
      invariant Cursors(s, a, mid, b, end, insize, p, psize, q, qsize)
      invariant Taken(AppHeap(es), s, out, a, mid, b) && out + Merge(cmp, s[a..mid], s[b..end]) == goal
      invariant list == Nth(out, 0) && tail == Nth(out, |out| - 1)
      invariant comparisons + MergeCount(cmp, s[a..mid], s[b..end]) == total
      decreases psize + qsize
    {
      var e;
      ghost var n;
      e, p, psize, q, qsize, a, b, n := TakeNext(p, psize, q, qsize, insize, tail, cmp, s, a, mid, b, end, out, es);
      if tail == null {
        list := e;
      }
      out := out + [e];
      tail := e;
      comparisons := comparisons + n;
    }
    MergeNext(cmp, s, a, mid, b, end, out);
    NextMerge(AppHeap(es), s, out, a, mid, b, b);
  }

  lemma PassNext(cmp: (Elem, Elem) -> int, s: seq<Elem>, w: nat, i: nat, mid: nat, end: nat, out: seq<Elem>)
    requires w > 0 && i < |s| && mid == Min(i + w, |s|) && end == Min(i + w + w, |s|)
    ensures out + Pass(cmp, s[i..], w) == out + Merge(cmp, s[i..mid], s[mid..end]) + Pass(cmp, s[end..], w)
    ensures PassCount(cmp, s[i..], w) == MergeCount(cmp, s[i..mid], s[mid..end]) + PassCount(cmp, s[end..], w)
  {
    hide *;
    RelativeMin(w, i, |s|);
    Slices(s, i, mid, end);
    PassAs(cmp, s[i..], w, mid - i, end - i, s[i..mid], s[mid..end], s[end..], out);
  }

  lemma RelativeMin(w: nat, i: nat, n: nat)
    requires i <= n
    ensures Min(w, n - i) == Min(i + w, n) - i && Min(w + w, n - i) == Min(i + w + w, n) - i
    ensures i < n && w > 0 ==> i < Min(i + w, n)
    ensures Min(i + w, n) <= Min(i + w + w, n) == Min(Min(i + w, n) + w, n) <= n
  {
  }

  lemma PassAs(cmp: (Elem, Elem) -> int, r: seq<Elem>, w: nat, mid: nat, end: nat, p: seq<Elem>, q: seq<Elem>,
               rest: seq<Elem>, out: seq<Elem>)
    requires w > 0 && r != [] && mid == Min(w, |r|) && end == Min(w + w, |r|)
    requires r[..mid] == p && r[mid..end] == q && r[end..] == rest
    ensures out + Pass(cmp, r, w) == out + Merge(cmp, p, q) + Pass(cmp, rest, w)
    ensures PassCount(cmp, r, w) == MergeCount(cmp, p, q) + PassCount(cmp, rest, w)
  {
    hide Merge, MergeCount;
    assert Pass(cmp, r, w) == Merge(cmp, p, q) + Pass(cmp, rest, w);
    assert PassCount(cmp, r, w) == MergeCount(cmp, p, q) + PassCount(cmp, rest, w);
    hide *;
    Regroup(out, Merge(cmp, p, q), Pass(cmp, rest, w));
  }

  lemma Slices(s: seq<Elem>, i: nat, mid: nat, end: nat)
    requires i <= mid <= end <= |s|
    ensures s[i..][..mid - i] == s[i..mid]
    ensures s[i..][mid - i..end - i] == s[mid..end]
    ensures s[i..][end - i..] == s[end..]
  {
  }

  lemma PassEnd(cmp: (Elem, Elem) -> int, s: seq<Elem>, w: nat, out: seq<Elem>)
    requires w > 0
    ensures out + Pass(cmp, s[|s|..], w) == out
    ensures [] + Pass(cmp, s[0..], w) == Pass(cmp, s, w)
    ensures PassCount(cmp, s[|s|..], w) == 0 && PassCount(cmp, s[0..], w) == PassCount(cmp, s, w)
  {
    assert s[|s|..] == [] && s[0..] == s;
  }

  /** The list ends behind the last element of the output. */
  method CloseList(last: Elem, ghost s: seq<Elem>, ghost out: seq<Elem>, ghost i: nat, ghost es: set<Elem>)
    requires Taken(AppHeap(es), s, out, i, i, i) && out != [] && last == out[|out| - 1]
    modifies es`prev, es`next
    ensures Linked(AppHeap(es), out) && Distinct(out)
  {
    Closed(AppHeap(es), out);
    hide Linked, Relinked;
    ghost var h := AppHeap(es);
    last.next := null;
    assert AppHeap(es) == h[last := h[last].(next := null)];
  }

  /** The body of the middle loop: the next two runs are merged. */
  method MergePair(p: Elem, insize: nat, list: Elem?, tail: Elem?, cmp: (Elem, Elem) -> int,
                   ghost s: seq<Elem>, ghost i: nat, ghost out: seq<Elem>, ghost es: set<Elem>)
      returns (q: Elem?, list': Elem?, tail': Elem?, ghost out': seq<Elem>, ghost comparisons: nat)
    requires i < |s| && p == s[i] && insize > 0 && Distinct(s) && Taken(AppHeap(es), s, out, i, i, i)
    requires list == Nth(out, 0) && tail == Nth(out, |out| - 1)
    modifies es`prev, es`next
    ensures var i' := Min(i + insize + insize, |s|);
            && q == Nth(s, i') && Taken(AppHeap(es), s, out', i', i', i')
            && out' + Pass(cmp, s[i'..], insize) == out + Pass(cmp, s[i..], insize)
    ensures list' == Nth(out', 0) && tail' == Nth(out', |out'| - 1)
    ensures comparisons + PassCount(cmp, s[Min(i + insize + insize, |s|)..], insize) == PassCount(cmp, s[i..], insize)
  {
    hide *;
    ghost var mid, end := Min(i + insize, |s|), Min(i + insize + insize, |s|);
    RelativeMin(insize, i, |s|);
    PassNext(cmp, s, insize, i, mid, end, out);
    var psize;
    q, psize := FindSecond(p, insize, s, i, out, es);
    NextMerge(AppHeap(es), s, out, i, i, i, mid);
    q, list', tail', out', comparisons := MergeRuns(p, q, psize, insize, list, tail, cmp, s, i, mid, end, out, es);
  }

  /** One round of the outer loop: the list becomes `Pass`, and the number of merges tells whether that
      was the last round. */
  method OnePass(first: Elem, insize: nat, cmp: (Elem, Elem) -> int, ghost s: seq<Elem>, ghost es: set<Elem>)
      returns (list: Elem, tail: Elem, nmerges: nat, ghost comparisons: nat)
    requires s != [] && first == s[0] && Distinct(s) && Linked(AppHeap(es), s) && insize > 0
    modifies es`prev, es`next
    ensures Linked(AppHeap(es), Pass(cmp, s, insize)) && Distinct(Pass(cmp, s, insize))
    ensures list == Pass(cmp, s, insize)[0] && tail == Pass(cmp, s, insize)[|s| - 1]
    ensures (nmerges <= 1 <==> |s| <= 2 * insize) && comparisons == PassCount(cmp, s, insize)
  {
    hide Taken, Distinct, Linked, Pass, PassCount, AppHeap;
    Opened(AppHeap(es), s);
    PassEnd(cmp, s, insize, []);
    var p: Elem?, list', tail' := first, null, null;
    nmerges, comparisons := 0, 0;
    ghost var i: nat, out: seq<Elem> := 0, [];
    while p != null
      invariant i <= |s| && p == Nth(s, i) && Taken(AppHeap(es), s, out, i, i, i)
      invariant out + Pass(cmp, s[i..], insize) == Pass(cmp, s, insize)
      invariant list' == Nth(out, 0) && tail' == Nth(out, |out| - 1)
      invariant comparisons + PassCount(cmp, s[i..], insize) == PassCount(cmp, s, insize)
      invariant if nmerges == 0 then i == 0 else if nmerges == 1 then i == Min(2 * insize, |s|) else |s| > 2 * insize
      decreases |s| - i
    {
      nmerges := nmerges + 1;
      ghost var n;
      p, list', tail', out, n := MergePair(p, insize, list', tail', cmp, s, i, out, es);
      i := Min(i + insize + insize, |s|);
      comparisons := comparisons + n;
    }
    PassEnd(cmp, s, insize, out);
    CloseList(tail', s, out, i, es);
    list, tail := list', tail';
  }

  // ---------------------------------------------------------------------------------------------
  // Sorting a table
  // ---------------------------------------------------------------------------------------------

  /** The state of the outer loop. */
  ghost predicate Sorting(h: Heap, s: seq<Elem>, list: Elem, start: seq<Elem>) {
    s != [] && list == s[0] && |s| == |start| && multiset(s) == multiset(start) && Distinct(s) && Linked(h, s)
  }

  lemma SortStart(t: Table, cmp: (Elem, Elem) -> int)
    requires t.Valid()
    ensures t.head == null ==> Passes(cmp, t.order, 1) == t.order && PassesCount(cmp, t.order, 1) == 0
    ensures t.head != null ==>
      && Sorting(AppHeap(t.Members()), t.order, t.head, t.order) && t.Members() == Elements(t.order)
      && t.Bucketed(t.Members()) && t.numItems == |t.order|
      && Accepts(t.bloomBv[..], t.bloomBits, t.hash, t.Members())
    ensures forall e | e in t.Members() :: e in t.order
  {
  }

  lemma SortPass(cmp: (Elem, Elem) -> int, h: Heap, h': Heap, s: seq<Elem>, list: Elem, list': Elem, start: seq<Elem>, w: nat)
    requires Sorting(h, s, list, start) && w > 0 && list' == Pass(cmp, s, w)[0]
    requires Linked(h', Pass(cmp, s, w)) && Distinct(Pass(cmp, s, w))
    ensures Sorting(h', Pass(cmp, s, w), list', start)
  {
    PassMultiset(cmp, s, w);
  }

  lemma SortEnd(t: Table, es: set<Elem>, start: seq<Elem>, list: Elem)
    requires es == Elements(start) && Sorting(AppHeap(es), t.order, list, start)
    requires t.head == list && t.order != [] && t.tail == t.order[|t.order| - 1] && t.numItems == |start|
    requires t.Bucketed(es) && Accepts(t.bloomBv[..], t.bloomBits, t.hash, es)
    ensures t.Valid() && t.Members() == es
  {
    forall e | e in es ensures e in t.order {
      assert e in multiset(start);
      assert e in multiset(t.order);
    }
    forall e | e in t.order ensures e in es {
      assert e in multiset(t.order);
      assert e in multiset(start);
    }
    assert t.Members() == es;
    hide Linked, Distinct, Accepts, t.Bucketed, Elements;
  }

  /** The outer loop of HASH_SRT. */
  method SortList(first: Elem, cmp: (Elem, Elem) -> int, ghost start: seq<Elem>, ghost es: set<Elem>)
      returns (list: Elem, tail: Elem, ghost comparisons: nat)
    requires Sorting(AppHeap(es), start, first, start)
    modifies es`prev, es`next
    ensures var s := Passes(cmp, start, 1);
            Sorting(AppHeap(es), s, list, start) && s != [] && tail == s[|s| - 1]
    ensures comparisons == PassesCount(cmp, start, 1)
  {
    hide Sorting, Passes, Pass, PassesCount, PassCount, Distinct, Linked, AppHeap;
    OpenSorting(AppHeap(es), start, first, start);
    var insize, looping := 1, true;
    list, tail, comparisons := first, first, 0;
    ghost var s := start;
    while looping
      invariant Sorting(AppHeap(es), s, list, start) && insize > 0
      invariant if looping then insize <= |s| == |start| && Passes(cmp, s, insize) == Passes(cmp, start, 1)
                else s == Passes(cmp, start, 1) && s != [] && tail == s[|s| - 1]
      invariant comparisons + (if looping then PassesCount(cmp, s, insize) else 0) == PassesCount(cmp, start, 1)
      decreases looping, |start| - insize
    {
      OpenSorting(AppHeap(es), s, list, start);
      PassesStep(cmp, s, insize);
      ghost var h, list0 := AppHeap(es), list;
      var nmerges;
      ghost var n;
      list, tail, nmerges, n := OnePass(list, insize, cmp, s, es);
      SortPass(cmp, h, AppHeap(es), s, list0, list, start, insize);
      s := Pass(cmp, s, insize);
      if nmerges <= 1 {
        looping := false;
      }
      insize := insize * 2;
      comparisons := comparisons + n;
    }
  }

  /** The sorted list becomes the list of the table. */
  method Install(t: Table, list: Elem, tail: Elem, ghost start: seq<Elem>, ghost s: seq<Elem>, ghost es: set<Elem>)
    requires es == Elements(start) && Sorting(AppHeap(es), s, list, start) && s != [] && tail == s[|s| - 1]
    requires t.numItems == |start| && t.Bucketed(es) && Accepts(t.bloomBv[..], t.bloomBits, t.hash, es)
    modifies t`head, t`tail, t`order
    ensures t.Valid() && t.Members() == es && t.order == s
  {
    hide *;
    t.tail := tail;
    t.head := list;
    t.order := s;
    SortEnd(t, es, start, list);
  }

  /** HASH_SRT, with any comparison function: it terminates, and the table has the same elements in the
      order of the mergesort.  At most n comparisons are made in each of at most log n rounds. */
  method Sort(t: Table, cmp: (Elem, Elem) -> int) returns (ghost comparisons: nat)
    requires t.Valid()
    modifies t`head, t`tail, t`order, t.Members()`prev, t.Members()`next
    ensures t.Valid() && t.order == Passes(cmp, old(t.order), 1) && t.Members() == old(t.Members())
    ensures comparisons == PassesCount(cmp, old(t.order), 1) <= |t.order| * Rounds(|t.order|, 1)
    ensures Rounds(|t.order|, 1) > 1 ==> Pow2(Rounds(|t.order|, 1) - 1) < |t.order|
  {
    hide *;
    comparisons := 0;
    SortBounds(t.order, cmp);
    SortStart(t, cmp);
    if t.head != null {
      ghost var start, es := t.order, t.Members();
      var list, tail;
      list, tail, comparisons := SortList(t.head, cmp, start, es);
      Install(t, list, tail, start, Passes(cmp, start, 1), es);
    }
  }

  lemma SortBounds(order: seq<Elem>, cmp: (Elem, Elem) -> int)
    ensures |Passes(cmp, order, 1)| == |order| && PassesCount(cmp, order, 1) <= |order| * Rounds(|order|, 1)
    ensures Rounds(|order|, 1) > 1 ==> Pow2(Rounds(|order|, 1) - 1) < |order|
  {
    PassesBound(cmp, order, 1);
    RoundsLogarithmic(|order|, 1);
  }

  /** When the comparison is a total preorder on the elements, the result is the sorted permutation in
      which equivalent elements keep their order of insertion. */
  method SortByPreorder(t: Table, cmp: (Elem, Elem) -> int) returns (ghost comparisons: nat)
    requires t.Valid() && Preorder(cmp, t.Members())
    modifies t`head, t`tail, t`order, t.Members()`prev, t.Members()`next
    ensures t.Valid() && t.Members() == old(t.Members())
    ensures multiset(t.order) == multiset(old(t.order))
    ensures forall p, q | 0 <= p < q < |t.order| :: cmp(t.order[p], t.order[q]) <= 0
    ensures forall i, j, p, q | 0 <= i < j < |old(t.order)| && 0 <= p < |t.order| && 0 <= q < |t.order| ::
      && t.order[p] == old(t.order)[i] && t.order[q] == old(t.order)[j]
      && cmp(t.order[p], t.order[q]) <= 0 && cmp(t.order[q], t.order[p]) <= 0
      ==> p < q
    ensures comparisons == PassesCount(cmp, old(t.order), 1) <= |t.order| * Rounds(|t.order|, 1)
  {
    hide *;
    ghost var start, es := t.order, t.Members();
    PreorderedOrder(t, cmp);
    comparisons := Sort(t, cmp);
    StablePositions(cmp, start, t.order, es);
  }

  lemma PreorderedOrder(t: Table, cmp: (Elem, Elem) -> int)
    requires t.Valid() && Preorder(cmp, t.Members())
    ensures StableSorted(cmp, t.order, Passes(cmp, t.order, 1), t.Members())
    ensures (forall i, j | 0 <= i < j < |t.order| :: t.order[i] != t.order[j]) && In(t.order, t.Members())
  {
    hide Preorder, StableSorted, Passes;
    PassesStable(cmp, t.order);
  }

  lemma StablePositions(cmp: (Elem, Elem) -> int, s: seq<Elem>, t: seq<Elem>, dom: set<Elem>)
    requires StableSorted(cmp, s, t, dom) && Preorder(cmp, dom) && In(s, dom)
    requires forall i, j | 0 <= i < j < |s| :: s[i] != s[j]
    ensures multiset(t) == multiset(s)
    ensures forall p, q | 0 <= p < q < |t| :: cmp(t[p], t[q]) <= 0
    ensures forall i, j, p, q | 0 <= i < j < |s| && 0 <= p < |t| && 0 <= q < |t| ::
      t[p] == s[i] && t[q] == s[j] && cmp(t[p], t[q]) <= 0 && cmp(t[q], t[p]) <= 0 ==> p < q
  {
    forall i, j, p, q | 0 <= i < j < |s| && 0 <= p < |t| && 0 <= q < |t|
      && t[p] == s[i] && t[q] == s[j] && cmp(t[p], t[q]) <= 0 && cmp(t[q], t[p]) <= 0
      ensures p < q
    {
      hide Preorder, StableSorted;
      StableOrder(cmp, s, t, dom, i, j, p, q);
    }
  }

  lemma OpenSorting(h: Heap, s: seq<Elem>, list: Elem, start: seq<Elem>)
    requires Sorting(h, s, list, start)
    ensures s != [] && list == s[0] && Distinct(s) && Linked(h, s)
  {
  }

  lemma PassesStep(cmp: (Elem, Elem) -> int, s: seq<Elem>, w: nat)
    requires w > 0
    ensures Passes(cmp, s, w) == if |s| <= 2 * w then Pass(cmp, s, w) else Passes(cmp, Pass(cmp, s, w), 2 * w)
    ensures PassesCount(cmp, s, w)
         == PassCount(cmp, s, w) + if |s| <= 2 * w then 0 else PassesCount(cmp, Pass(cmp, s, w), 2 * w)
  {
  }
}