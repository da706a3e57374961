/**
 Whole subtrees: json_delete, and runs of the linking operations.

 A rank that decreases from nodes to their children witnesses that there is no cycle among the nodes
 that it ranks.  Every node that is not below itself has such a rank for its subtree.
 */
module JsonTree {
  import opened Options
  import opened Chars
  import opened Utf8
  import opened JsonNodes

  type Ranks = map<JsonNode, nat>

  /** With a node, `rank` ranks its children, lower. */
  ghost predicate Ranked(f: Forest, rank: Ranks) {
    forall n {:trigger RankedNode(f, rank, n)} | n in f && n in rank :: RankedNode(f, rank, n)
  }

  ghost predicate RankedNode(f: Forest, rank: Ranks, n: JsonNode)
    requires n in f
  {
    n in rank && RankedKids(f, rank, f[n].kids, rank[n])
  }

  ghost predicate RankedKids(f: Forest, rank: Ranks, kids: seq<JsonNode>, r: nat) {
    forall i | 0 <= i < |kids| :: kids[i] in f && kids[i] in rank && rank[kids[i]] < r
  }

  // ---------------------------------------------------------------------------------------------
  // Subtrees
  // ---------------------------------------------------------------------------------------------

  /** The nodes of the subtree of `n`, children before parents. */
  ghost function PostOrder(f: Forest, rank: Ranks, n: JsonNode): (ns: seq<JsonNode>)
    requires Ranked(f, rank) && n in f && n in rank
    ensures n in ns
    decreases rank[n], 1, 0
  {
    assert RankedNode(f, rank, n);
    PostOrders(f, rank, f[n].kids, rank[n]) + [n]
  }

  ghost function PostOrders(f: Forest, rank: Ranks, kids: seq<JsonNode>, r: nat): seq<JsonNode>
    requires Ranked(f, rank) && RankedKids(f, rank, kids, r)
    decreases r, 0, |kids|
  {
    if kids == [] then []
    else PostOrder(f, rank, kids[0]) + PostOrders(f, rank, kids[1..], r)
  }

  lemma {:induction false} InPostOrders(f: Forest, rank: Ranks, kids: seq<JsonNode>, r: nat, x: JsonNode) returns (i: nat)
    requires Ranked(f, rank) && RankedKids(f, rank, kids, r) && x in PostOrders(f, rank, kids, r)
    ensures i < |kids| && x in PostOrder(f, rank, kids[i])
    decreases |kids|
  {
    if x in PostOrder(f, rank, kids[0]) {
      i := 0;
    } else {
      i := InPostOrders(f, rank, kids[1..], r, x);
      i := i + 1;
    }
  }

  lemma {:induction false} IntoPostOrders(f: Forest, rank: Ranks, kids: seq<JsonNode>, r: nat, i: nat, x: JsonNode)
    requires Ranked(f, rank) && RankedKids(f, rank, kids, r)
    requires i < |kids| && x in PostOrder(f, rank, kids[i])
    ensures x in PostOrders(f, rank, kids, r)
    decreases |kids|
  {
    if i > 0 {
      IntoPostOrders(f, rank, kids[1..], r, i - 1, x);
    }
  }

  /** A node of a subtree is a live node of no higher rank, and unless it is the top its parent
      belongs to the subtree. */
  lemma {:induction false} Member(f: Forest, rank: Ranks, n: JsonNode, x: JsonNode)
    requires WellFormedForest(f) && Ranked(f, rank) && n in f && n in rank && x in PostOrder(f, rank, n)
    ensures x in f && x in rank && rank[x] <= rank[n]
    ensures x != n ==> f[x].parent != null && f[x].parent in f && f[x].parent in PostOrder(f, rank, n)
    ensures x != n ==> rank[x] < rank[n]
    decreases rank[n]
  {
    assert RankedNode(f, rank, n) && WellFormedNode(f, n);
    if x != n {
      var kids := f[n].kids;
      var i := InPostOrders(f, rank, kids, rank[n], x);
      Member(f, rank, kids[i], x);
      assert KidOf(f, n, kids[i]);
      if x != kids[i] {
        IntoPostOrders(f, rank, kids, rank[n], i, f[x].parent);
      }
    }
  }

  /** The children of a node of a subtree belong to the subtree. */
  lemma {:induction false} Closed(f: Forest, rank: Ranks, n: JsonNode, x: JsonNode, i: nat)
    requires WellFormedForest(f) && Ranked(f, rank) && n in f && n in rank && x in PostOrder(f, rank, n)
    requires x in f && i < |f[x].kids|
    ensures f[x].kids[i] in PostOrder(f, rank, n)
    decreases rank[n]
  {
    assert RankedNode(f, rank, n);
    var kids := f[n].kids;
    if x == n {
      IntoPostOrders(f, rank, kids, rank[n], i, kids[i]);
    } else {
      var j := InPostOrders(f, rank, kids, rank[n], x);
      Closed(f, rank, kids[j], x, i);
      IntoPostOrders(f, rank, kids, rank[n], j, f[x].kids[i]);
    }
  }

  /** Subtrees of different children of a node are disjoint. */
  lemma {:induction false} Disjoint(f: Forest, rank: Ranks, n: JsonNode, i: nat, j: nat, x: JsonNode)
    requires WellFormedForest(f) && Ranked(f, rank) && n in f && n in rank
    requires RankedNode(f, rank, n) && i < |f[n].kids| && j < |f[n].kids| && i != j
    requires x in PostOrder(f, rank, f[n].kids[i]) && x in f && x in rank
    ensures x !in PostOrder(f, rank, f[n].kids[j])
    decreases if rank[x] < rank[n] then rank[n] - rank[x] else 0
  {
    var a, b := f[n].kids[i], f[n].kids[j];
    assert WellFormedNode(f, n) && KidOf(f, n, a) && KidOf(f, n, b) && a != b;
    Member(f, rank, a, x);
    if x in PostOrder(f, rank, b) {
      Member(f, rank, b, x);
      if x == a {
        Member(f, rank, b, n);
        assert false;
      } else if x == b {
        Member(f, rank, a, n);
        assert false;
      } else {
        var y := f[x].parent;
        Member(f, rank, a, y);
        ParentRank(f, rank, x);
        Disjoint(f, rank, n, i, j, y);
      }
    }
  }

  lemma ParentRank(f: Forest, rank: Ranks, x: JsonNode)
    requires WellFormedForest(f) && Ranked(f, rank) && x in f && f[x].parent != null && f[x].parent in rank
    ensures f[x].parent in f && x in rank && rank[x] < rank[f[x].parent]
  {
    assert WellFormedNode(f, x) && RankedNode(f, rank, f[x].parent);
  }

  ghost predicate NoDuplicates(s: seq<JsonNode>) {
    forall i, j | 0 <= i < j < |s| :: s[i] != s[j]
  }

  lemma NoDuplicatesConcat(s: seq<JsonNode>, t: seq<JsonNode>)
    requires NoDuplicates(s) && NoDuplicates(t) && forall x | x in s :: x !in t
    ensures NoDuplicates(s + t)
  {
    forall i, j | 0 <= i < j < |s + t| ensures (s + t)[i] != (s + t)[j] {
      if i < |s| <= j {
        assert s[i] in s && t[j - |s|] in t;
      }
    }
  }

  /** The subtree of every node of a subtree is a contiguous part of the list, and the node ends it: so
      all children come before their parents. */
  lemma {:induction false} Contiguous(f: Forest, rank: Ranks, n: JsonNode, x: JsonNode)
      returns (before: seq<JsonNode>, after: seq<JsonNode>)
    requires WellFormedForest(f) && Ranked(f, rank) && n in f && n in rank && x in PostOrder(f, rank, n)
    ensures x in f && x in rank && PostOrder(f, rank, n) == before + PostOrder(f, rank, x) + after
    ensures PostOrder(f, rank, x)[|PostOrder(f, rank, x)| - 1] == x
    decreases rank[n], 1, 0
  {
    assert RankedNode(f, rank, n);
    before, after := [], [];
    if x != n {
      before, after := ContiguousBelow(f, rank, f[n].kids, rank[n], x);
      after := after + [n];
    }
  }

  lemma {:induction false} ContiguousBelow(f: Forest, rank: Ranks, kids: seq<JsonNode>, r: nat, x: JsonNode)
      returns (before: seq<JsonNode>, after: seq<JsonNode>)
    requires WellFormedForest(f) && Ranked(f, rank) && RankedKids(f, rank, kids, r) && x in PostOrders(f, rank, kids, r)
    ensures x in f && x in rank && PostOrders(f, rank, kids, r) == before + PostOrder(f, rank, x) + after
    ensures PostOrder(f, rank, x)[|PostOrder(f, rank, x)| - 1] == x
    decreases r, 0, |kids|
  {
    var first, rest := PostOrder(f, rank, kids[0]), PostOrders(f, rank, kids[1..], r);
    if x in first {
      before, after := Contiguous(f, rank, kids[0], x);
      after := after + rest;
    } else {
      before, after := ContiguousBelow(f, rank, kids[1..], r, x);
      before := first + before;
    }
  }

  /** A subtree is listed without repetition. */
  lemma {:induction false} PostOrderDistinct(f: Forest, rank: Ranks, n: JsonNode)
    requires WellFormedForest(f) && Ranked(f, rank) && n in f && n in rank
    ensures NoDuplicates(PostOrder(f, rank, n))
    decreases rank[n], 1, 0
  {
    assert RankedNode(f, rank, n);
    var kids := f[n].kids;
    PostOrdersDistinct(f, rank, n, 0);
    assert kids[0..] == kids;
    var s := PostOrders(f, rank, kids, rank[n]);
    forall x | x in s ensures x !in [n] {
      var i := InPostOrders(f, rank, kids, rank[n], x);
      Member(f, rank, kids[i], x);
    }
    NoDuplicatesConcat(s, [n]);
  }

  lemma {:induction false} PostOrdersDistinct(f: Forest, rank: Ranks, n: JsonNode, from: nat)
    requires WellFormedForest(f) && Ranked(f, rank) && n in f && n in rank
    requires RankedNode(f, rank, n) && from <= |f[n].kids|
    ensures NoDuplicates(PostOrders(f, rank, f[n].kids[from..], rank[n]))
    decreases rank[n], 0, |f[n].kids| - from
  {
    var kids := f[n].kids;
    if from < |kids| {
      PostOrderDistinct(f, rank, kids[from]);
      PostOrdersDistinct(f, rank, n, from + 1);
      assert kids[from..][1..] == kids[from + 1..];
      var rest := PostOrders(f, rank, kids[from + 1..], rank[n]);
      forall x | x in PostOrder(f, rank, kids[from]) ensures x !in rest {
        if x in rest {
          var i := InPostOrders(f, rank, kids[from + 1..], rank[n], x);
          Member(f, rank, kids[from], x);
          Disjoint(f, rank, n, from, from + 1 + i, x);
        }
      }
      NoDuplicatesConcat(PostOrder(f, rank, kids[from]), rest);
    }
  }

  /** A subtree depends only on the lists of children of its own nodes. */
  lemma {:induction false} PostOrderFrame(f: Forest, g: Forest, rank: Ranks, n: JsonNode)
    requires Ranked(f, rank) && Ranked(g, rank) && n in f && n in g && n in rank
    requires forall x | x in PostOrder(f, rank, n) :: x in f && x in g && g[x].kids == f[x].kids
    ensures PostOrder(g, rank, n) == PostOrder(f, rank, n)
    decreases rank[n], 1, 0
  {
    assert RankedNode(f, rank, n) && RankedNode(g, rank, n);
    PostOrdersFrame(f, g, rank, f[n].kids, rank[n]);
  }

  lemma {:induction false} PostOrdersFrame(f: Forest, g: Forest, rank: Ranks, kids: seq<JsonNode>, r: nat)
    requires Ranked(f, rank) && Ranked(g, rank) && RankedKids(f, rank, kids, r)
    requires forall x | x in PostOrders(f, rank, kids, r) :: x in f && x in g && g[x].kids == f[x].kids
    ensures RankedKids(g, rank, kids, r)
    ensures PostOrders(g, rank, kids, r) == PostOrders(f, rank, kids, r)
    decreases r, 0, |kids|
  {
    if kids != [] {
      PostOrdersFrame(f, g, rank, kids[1..], r);
      assert kids[0] in PostOrder(f, rank, kids[0]);
      PostOrderFrame(f, g, rank, kids[0]);
      assert forall i | 0 < i < |kids| :: kids[i] == kids[1..][i - 1];
    }
  }

  /** The list of a subtree does not depend on the rank. */
  lemma {:induction false} RankIrrelevant(f: Forest, rank: Ranks, rank': Ranks, n: JsonNode)
    requires Ranked(f, rank) && Ranked(f, rank') && n in f && n in rank && n in rank'
    ensures PostOrder(f, rank', n) == PostOrder(f, rank, n)
    decreases rank[n], 1, 0
  {
    assert RankedNode(f, rank, n) && RankedNode(f, rank', n);
    RanksIrrelevant(f, rank, rank', f[n].kids, rank[n], rank'[n]);
  }

  lemma {:induction false} RanksIrrelevant(f: Forest, rank: Ranks, rank': Ranks, kids: seq<JsonNode>, r: nat, r': nat)
    requires Ranked(f, rank) && Ranked(f, rank') && RankedKids(f, rank, kids, r) && RankedKids(f, rank', kids, r')
    ensures PostOrders(f, rank', kids, r') == PostOrders(f, rank, kids, r)
    decreases r, 0, |kids|
  {
    if kids != [] {
      RankIrrelevant(f, rank, rank', kids[0]);
      RanksIrrelevant(f, rank, rank', kids[1..], r, r');
    }
  }

  // ---------------------------------------------------------------------------------------------
  // Following the parent pointers
  // ---------------------------------------------------------------------------------------------

  type Parents = map<JsonNode, JsonNode?>

  ghost function ParentsOf(f: Forest): Parents {
    map x | x in f :: f[x].parent
  }

  /** The node `k` steps above `x`. */
  ghost function Up(ps: Parents, x: JsonNode?, k: nat): JsonNode? {
    if k == 0 then x else if x == null || x !in ps then null else Up(ps, ps[x], k - 1)
  }

  lemma {:induction false} UpAdd(ps: Parents, x: JsonNode?, i: nat, j: nat)
    ensures Up(ps, x, i + j) == Up(ps, Up(ps, x, i), j)
    decreases i
  {
    if i > 0 && x != null && x in ps {
      UpAdd(ps, ps[x], i - 1, j);
    } else if i > 0 && j > 0 {
      assert Up(ps, x, i + j) == null && Up(ps, x, i) == null;
    }
  }

  /** `x` is `n`, or somewhere below it. */
  ghost predicate Below(ps: Parents, n: JsonNode, x: JsonNode) {
    exists k: nat :: Up(ps, x, k) == n
  }

  /** `n` is below itself. */
  ghost predicate OnCycle(ps: Parents, n: JsonNode) {
    exists k: nat :: k > 0 && Up(ps, n, k) == n
  }

  /** A forest without a cycle */
  ghost predicate Acyclic(f: Forest) {
    forall n | n in f :: !OnCycle(ParentsOf(f), n)
  }

  lemma RootOffCycle(ps: Parents, n: JsonNode)
    requires n in ps && ps[n] == null
    ensures !OnCycle(ps, n)
  {
    forall k: nat | k > 0 ensures Up(ps, n, k) != n {
      assert Up(ps, n, k) == Up(ps, null, k - 1) == null;
    }
  }

  /** The first time that `n` is met on the way up from `x`, given that it is met at `k`. */
  ghost function First(ps: Parents, n: JsonNode, x: JsonNode, k: nat): (d: nat)
    requires Up(ps, x, k) == n
    ensures Up(ps, x, d) == n && forall j: nat | j < d :: Up(ps, x, j) != n
  {
    if j: nat :| j < k && Up(ps, x, j) == n then First(ps, n, x, j) else k
  }

  ghost function Depth(ps: Parents, n: JsonNode, x: JsonNode): (d: nat)
    requires Below(ps, n, x)
    ensures Up(ps, x, d) == n && forall j: nat | Up(ps, x, j) == n :: d <= j
  {
    var k: nat :| Up(ps, x, k) == n;
    First(ps, n, x, k)
  }

  ghost function MaxDepth(ps: Parents, n: JsonNode, xs: set<JsonNode>): (m: nat)
    ensures forall x | x in xs && Below(ps, n, x) :: Depth(ps, n, x) <= m
  {
    if xs == {} then 0
    else
      var x :| x in xs;
      var m := MaxDepth(ps, n, xs - {x});
      if Below(ps, n, x) && Depth(ps, n, x) > m then Depth(ps, n, x) else m
  }

  /** The rank that a node gives to the nodes below it: the more steps down, the lower. */
  ghost function RankBelow(f: Forest, n: JsonNode): Ranks {
    var ps := ParentsOf(f);
    map x | x in f && Below(ps, n, x) :: MaxDepth(ps, n, f.Keys) - Depth(ps, n, x)
  }

  /** In any forest, also one with cycles, a node that is not below itself has a rank for its subtree. */
  lemma RankBelowRanked(f: Forest, n: JsonNode)
    requires WellFormedForest(f) && n in f && !OnCycle(ParentsOf(f), n)
    ensures n in RankBelow(f, n) && Ranked(f, RankBelow(f, n))
  {
    var ps, rank := ParentsOf(f), RankBelow(f, n);
    assert Up(ps, n, 0) == n;
    forall x | x in f && x in rank ensures RankedNode(f, rank, x) {
      assert WellFormedNode(f, x);
      forall i | 0 <= i < |f[x].kids| ensures f[x].kids[i] in rank && rank[f[x].kids[i]] < rank[x] {
        KidDeeper(f, n, x, i);
      }
    }
  }

  lemma KidDeeper(f: Forest, n: JsonNode, x: JsonNode, i: nat)
    requires WellFormedForest(f) && n in f && !OnCycle(ParentsOf(f), n)
    requires x in f && Below(ParentsOf(f), n, x) && i < |f[x].kids|
    ensures f[x].kids[i] in f && Below(ParentsOf(f), n, f[x].kids[i])
    ensures Depth(ParentsOf(f), n, f[x].kids[i]) > Depth(ParentsOf(f), n, x)
  {
    var ps, y := ParentsOf(f), f[x].kids[i];
    assert WellFormedNode(f, x) && KidOf(f, x, y);
    var k := Depth(ps, n, x);
    assert Up(ps, y, k + 1) == Up(ps, x, k);
    var d := Depth(ps, n, y);
    assert d > 0;
    assert Up(ps, y, d) == Up(ps, x, d - 1);
  }

  // ---------------------------------------------------------------------------------------------
  // The subtree that json_delete frees
  // ---------------------------------------------------------------------------------------------

  lemma DetachedRoot(f: Forest, n: JsonNode)
    requires WellFormedForest(f) && n in f
    ensures WellFormedForest(Detached(f, n)) && Detached(f, n).Keys == f.Keys
    ensures Detached(f, n)[n].parent == null && !OnCycle(ParentsOf(Detached(f, n)), n)
  {
    if f[n].parent != null {
      RemovedWellFormed(f, f[n].parent, Position(f, n));
    }
    RootOffCycle(ParentsOf(Detached(f, n)), n);
  }

  /** The nodes below `n` once it is detached, children before parents. */
  ghost function Subtree(f: Forest, n: JsonNode): seq<JsonNode>
    requires WellFormedForest(f) && n in f
  {
    DetachedRoot(f, n);
    RankBelowRanked(Detached(f, n), n);
    PostOrder(Detached(f, n), RankBelow(Detached(f, n), n), n)
  }

  lemma {:induction false} InSubtree(f: Forest, rank: Ranks, n: JsonNode, x: JsonNode)
    requires WellFormedForest(f) && Ranked(f, rank) && n in f && n in rank && x in PostOrder(f, rank, n)
    ensures x in f && Below(ParentsOf(f), n, x)
    decreases if x in rank && rank[x] < rank[n] then rank[n] - rank[x] else 0
  {
    var ps := ParentsOf(f);
    Member(f, rank, n, x);
    if x == n {
      assert Up(ps, x, 0) == n;
    } else {
      var y := f[x].parent;
      Member(f, rank, n, y);
      ParentRank(f, rank, x);
      InSubtree(f, rank, n, y);
      var k: nat :| Up(ps, y, k) == n;
      assert Up(ps, x, k + 1) == n;
    }
  }

  lemma {:induction false} IntoSubtree(f: Forest, rank: Ranks, n: JsonNode, x: JsonNode, k: nat)
    requires WellFormedForest(f) && Ranked(f, rank) && n in f && n in rank && x in f && Up(ParentsOf(f), x, k) == n
    ensures x in PostOrder(f, rank, n)
    decreases k
  {
    if k > 0 && x != n {
      assert WellFormedNode(f, x);
      var y := f[x].parent;
      IntoSubtree(f, rank, n, y, k - 1);
      var i :| 0 <= i < |f[y].kids| && f[y].kids[i] == x;
      Closed(f, rank, n, y, i);
    }
  }

  /** json_delete has to do with exactly the nodes below the detached node, cycles elsewhere or not, and
      with each of them once. */
  lemma SubtreeExact(f: Forest, n: JsonNode)
    requires WellFormedForest(f) && n in f
    ensures NoDuplicates(Subtree(f, n))
    ensures forall i | 0 <= i < |Subtree(f, n)| :: Subtree(f, n)[i] in f && Below(ParentsOf(Detached(f, n)), n, Subtree(f, n)[i])
    ensures forall x | x in f && Below(ParentsOf(Detached(f, n)), n, x) :: x in Subtree(f, n)
  {
    DetachedRoot(f, n);
    var g := Detached(f, n);
    RankBelowRanked(g, n);
    var rank := RankBelow(g, n);
    PostOrderDistinct(g, rank, n);
    var s := Subtree(f, n);
    forall i | 0 <= i < |s| ensures s[i] in f && Below(ParentsOf(g), n, s[i]) {
      InSubtree(g, rank, n, s[i]);
    }
    forall x | x in f && Below(ParentsOf(g), n, x) ensures x in Subtree(f, n) {
      var k: nat :| Up(ParentsOf(g), x, k) == n;
      IntoSubtree(g, rank, n, x, k);
    }
  }

  /** With a rank at hand, the subtree of a root is the one of the rank. */
  lemma SubtreeOfRoot(f: Forest, rank: Ranks, n: JsonNode)
    requires WellFormedForest(f) && n in f && f[n].parent == null && Ranked(f, rank) && n in rank
    ensures Subtree(f, n) == PostOrder(f, rank, n)
  {
    DetachedRoot(f, n);
    RankBelowRanked(f, n);
    RankIrrelevant(f, rank, RankBelow(f, n), n);
  }

  /** Detaching a node does not change its subtree. */
  lemma SubtreeOfKid(f: Forest, rank: Ranks, n: JsonNode)
    requires WellFormedForest(f) && Ranked(f, rank) && n in f && n in rank
    ensures Subtree(f, n) == PostOrder(f, rank, n)
  {
    DetachedRanked(f, rank, n);
    DetachedRoot(f, n);
    var g := Detached(f, n);
    forall x | x in PostOrder(f, rank, n) ensures x in f && x in g && g[x].kids == f[x].kids {
      Member(f, rank, n, x);
      if f[n].parent != null && x == f[n].parent {
        ParentRank(f, rank, n);
      }
    }
    PostOrderFrame(f, g, rank, n);
    RankBelowRanked(g, n);
    RankIrrelevant(g, rank, RankBelow(g, n), n);
  }

  // ---------------------------------------------------------------------------------------------
  // json_delete
  // ---------------------------------------------------------------------------------------------

  ghost function Elements(s: seq<JsonNode>): set<JsonNode> {
    set x | x in s
  }

  /** The forest without some of its nodes: what is left after freeing them. */
  ghost function Without(f: Forest, freed: seq<JsonNode>): (g: Forest)
    ensures g.Keys == f.Keys - Elements(freed)
    ensures forall x | x in g :: g[x] == f[x]
  {
    map x | x in f && x !in freed :: f[x]
  }

  /** free(node) of a node that nothing points to. */
  lemma FreeRep(f: Forest, n: JsonNode)
    requires Rep(f) && n in f && f[n].parent == null && f[n].kids == []
    ensures Rep(Without(f, [n]))
  {
    var g := Without(f, [n]);
    var h, h' := Snapshot(f), Snapshot(g);
    forall x | x in g ensures WellFormedNode(g, x) && Linked(g, h', x) {
      assert WellFormedNode(f, x) && Linked(f, h, x) && x != n;
      forall i | 0 <= i < |f[x].kids| ensures KidOf(g, x, f[x].kids[i]) {
        assert KidOf(f, x, f[x].kids[i]);
      }
      forall i | 0 <= i < |f[x].kids| && Container(x.tag) ensures KidLinked(h', f[x].kids, i) {
        assert KidLinked(h, f[x].kids, i) && KidOf(f, x, f[x].kids[i]);
      }
    }
    assert WellFormedForest(g);
  }

  /** Detaching and freeing keep a rank valid. */
  lemma DetachedRanked(f: Forest, rank: Ranks, n: JsonNode)
    requires WellFormedForest(f) && Ranked(f, rank) && n in f && n in rank
    ensures Detached(f, n).Keys == f.Keys && Ranked(Detached(f, n), rank)
    ensures Detached(f, n)[n].parent == null && Detached(f, n)[n].kids == f[n].kids
    ensures forall x | x in f && x != f[n].parent :: Detached(f, n)[x].kids == f[x].kids
  {
    var g := Detached(f, n);
    assert WellFormedNode(f, n) && RankedNode(f, rank, n);
    if f[n].parent == n {
      ParentRank(f, rank, n);
    }
    forall x | x in g && x in rank ensures RankedNode(g, rank, x) {
      assert RankedNode(f, rank, x);
      if x == f[n].parent {
        var at, kids := Position(f, n), f[x].kids;
        assert forall i | 0 <= i < |g[x].kids| :: g[x].kids[i] == if i < at then kids[i] else kids[i + 1];
      }
    }
  }

  /** The forest after json_delete: the node is detached, and its subtree is gone. */
  ghost function Deleted(f: Forest, n: JsonNode): Forest
    requires WellFormedForest(f) && n in f
  {
    Without(Detached(f, n), Subtree(f, n))
  }

  /** The forest while json_delete walks over the children of `n`: those in front of `i` are gone. */
  ghost function Partial(f: Forest, rank: Ranks, n: JsonNode, i: nat): Forest
    requires Ranked(f, rank) && n in f && n in rank && RankedNode(f, rank, n) && i <= |f[n].kids|
    requires RankedKids(f, rank, f[n].kids[..i], rank[n])
  {
    Without(f[n := f[n].(kids := f[n].kids[i..])], PostOrders(f, rank, f[n].kids[..i], rank[n]))
  }

  lemma {:induction false} PostOrdersSnoc(f: Forest, rank: Ranks, kids: seq<JsonNode>, r: nat, i: nat)
    requires Ranked(f, rank) && RankedKids(f, rank, kids, r) && i < |kids|
    ensures RankedKids(f, rank, kids[..i], r) && RankedKids(f, rank, kids[..i + 1], r)
    ensures PostOrders(f, rank, kids[..i + 1], r)
         == PostOrders(f, rank, kids[..i], r) + PostOrder(f, rank, kids[i])
    decreases i
  {
    if i == 0 {
      assert kids[..1] == [kids[0]];
    } else {
      PostOrdersSnoc(f, rank, kids[1..], r, i - 1);
      assert kids[..i][1..] == kids[1..][..i - 1] && kids[..i + 1][1..] == kids[1..][..i];
    }
  }

  /** The nodes of the subtree of child `i` have not been freed with the children in front of it. */
  lemma StillThere(f: Forest, rank: Ranks, n: JsonNode, i: nat, x: JsonNode)
    requires WellFormedForest(f) && Ranked(f, rank) && n in f && n in rank && RankedNode(f, rank, n)
    requires i < |f[n].kids| && RankedKids(f, rank, f[n].kids[..i], rank[n])
    requires x == n || x in PostOrder(f, rank, f[n].kids[i])
    ensures x in f && x !in PostOrders(f, rank, f[n].kids[..i], rank[n])
    ensures x in PostOrder(f, rank, f[n].kids[i]) ==> x in rank && rank[x] < rank[n]
  {
    if x in PostOrder(f, rank, f[n].kids[i]) {
      Member(f, rank, f[n].kids[i], x);
    }
    if x in PostOrders(f, rank, f[n].kids[..i], rank[n]) {
      var j := InPostOrders(f, rank, f[n].kids[..i], rank[n], x);
      Member(f, rank, f[n].kids[j], x);
      Disjoint(f, rank, n, j, i, x);
    }
  }

  /** Child `i` is still there with its whole subtree, as the first child of the node. */
  lemma NextThere(f: Forest, rank: Ranks, n: JsonNode, i: nat)
    requires WellFormedForest(f) && Ranked(f, rank) && n in f && n in rank && RankedNode(f, rank, n)
    requires i < |f[n].kids| && RankedKids(f, rank, f[n].kids[..i], rank[n])
    requires WellFormedForest(Partial(f, rank, n, i)) && Ranked(Partial(f, rank, n, i), rank)
    ensures var g, c := Partial(f, rank, n, i), f[n].kids[i];
            && n in g && c in g && c in rank && rank[c] < rank[n] && c in f
            && Subtree(g, c) == PostOrder(f, rank, c)
            && g[n] == f[n].(kids := f[n].kids[i..]) && g[c].parent == n
  {
    var g, c := Partial(f, rank, n, i), f[n].kids[i];
    StillThere(f, rank, n, i, n);
    StillThere(f, rank, n, i, c);
    forall x | x in PostOrder(f, rank, c) ensures x in f && x in g && g[x].kids == f[x].kids {
      StillThere(f, rank, n, i, x);
    }
    PostOrderFrame(f, g, rank, c);
    SubtreeOfKid(g, rank, c);
    assert WellFormedNode(f, n) && KidOf(f, n, c);
  }

  /** One round of the loop: after the children in front of `i`, deleting child `i` itself. */
  lemma DeleteStep(f: Forest, rank: Ranks, n: JsonNode, i: nat)
    requires WellFormedForest(f) && Ranked(f, rank) && n in f && n in rank && RankedNode(f, rank, n)
    requires i < |f[n].kids| && RankedKids(f, rank, f[n].kids[..i], rank[n])
    requires WellFormedForest(Partial(f, rank, n, i)) && Ranked(Partial(f, rank, n, i), rank)
    ensures RankedKids(f, rank, f[n].kids[..i + 1], rank[n])
    ensures var g, c := Partial(f, rank, n, i), f[n].kids[i];
            && n in g && c in g && c in rank && rank[c] < rank[n]
            && Subtree(g, c) == PostOrder(f, rank, c)
            && Deleted(g, c) == Partial(f, rank, n, i + 1)
  {
    var g, kids := Partial(f, rank, n, i), f[n].kids;
    var c := kids[i];
    PostOrdersSnoc(f, rank, kids, rank[n], i);
    NextThere(f, rank, n, i);
    hide Ranked, PostOrder, PostOrders, Subtree;
    assert WellFormedNode(f, n) && KidOf(f, n, c) && WellFormedNode(g, n);
    assert g[n].kids[0] == c;
    assert Position(g, c) == 0;
    assert g[n].kids[..0] + g[n].kids[1..] == kids[i + 1..];
    assert Deleted(g, c) == Partial(f, rank, n, i + 1);
  }

  /** What json_delete starts from once the node is detached: from here on there is a rank. */
  lemma DeleteReady(f: Forest, n: JsonNode) returns (rank: Ranks)
    requires WellFormedForest(f) && n in f
    ensures var f1 := Detached(f, n);
            && n in f1 && n in rank && f1.Keys == f.Keys && f1[n].parent == null && WellFormedForest(f1)
            && Ranked(f1, rank) && RankedNode(f1, rank, n) && Subtree(f, n) == PostOrder(f1, rank, n)
            && RankedKids(f1, rank, f1[n].kids[..0], rank[n]) && Partial(f1, rank, n, 0) == f1
            && PostOrders(f1, rank, f1[n].kids[..0], rank[n]) == []
            && (!Container(n.tag) ==> f1[n].kids == [])
  {
    var f1 := Detached(f, n);
    DetachedRoot(f, n);
    RankBelowRanked(f1, n);
    rank := RankBelow(f1, n);
    assert RankedNode(f1, rank, n) && WellFormedNode(f1, n);
    PartialStart(f1, rank, n);
  }

  /** What is left while the children are deleted is still ranked. */
  lemma PartialRanked(f: Forest, rank: Ranks, n: JsonNode, i: nat)
    requires Ranked(f, rank) && n in f && n in rank && RankedNode(f, rank, n) && i <= |f[n].kids|
    requires RankedKids(f, rank, f[n].kids[..i], rank[n]) && WellFormedForest(Partial(f, rank, n, i))
    ensures Ranked(Partial(f, rank, n, i), rank)
  {
    hide PostOrders;
    var g := Partial(f, rank, n, i);
    forall x | x in g && x in rank ensures RankedNode(g, rank, x) {
      assert RankedNode(f, rank, x) && WellFormedNode(g, x);
      forall j | 0 <= j < |g[x].kids|
        ensures g[x].kids[j] in g && g[x].kids[j] in rank && rank[g[x].kids[j]] < rank[x]
      {
        assert KidOf(g, x, g[x].kids[j]);
        assert g[x].kids[j] == f[x].kids[if x == n then i + j else j];
      }
    }
  }

  /** What the loop of json_delete reads, and what deleting the next child amounts to. */
  lemma DeleteNext(f: Forest, rank: Ranks, n: JsonNode, i: nat, g: Forest, c: JsonNode)
    requires WellFormedForest(f) && Ranked(f, rank) && n in f && n in rank && RankedNode(f, rank, n)
    requires i <= |f[n].kids| && c == Nth(f[n].kids, i) && RankedKids(f, rank, f[n].kids[..i], rank[n])
    requires g == Partial(f, rank, n, i) && Rep(g)
    ensures i < |f[n].kids| && c in g && c in rank && rank[c] < rank[n] && g.Keys <= f.Keys && WellFormedForest(g)
    ensures c.next == Nth(f[n].kids, i + 1)
    ensures RankedKids(f, rank, f[n].kids[..i + 1], rank[n]) && Deleted(g, c) == Partial(f, rank, n, i + 1)
    ensures PostOrders(f, rank, f[n].kids[..i + 1], rank[n])
         == PostOrders(f, rank, f[n].kids[..i], rank[n]) + Subtree(g, c)
    ensures |Subtree(g, c)| < |PostOrder(f, rank, n)|
  {
    hide *;
    RepWellFormed(g);
    PartialKids(f, rank, n, i, c);
    RankedAll(f, rank, n);
    PartialRanked(f, rank, n, i);
    DeleteStep(f, rank, n, i);
    PostOrdersSnoc(f, rank, f[n].kids, rank[n], i);
    LoadNext(g, n, c);
    Smaller(f, rank, n, i);
  }

  lemma {:induction false} KidShorter(f: Forest, rank: Ranks, kids: seq<JsonNode>, r: nat, i: nat)
    requires Ranked(f, rank) && RankedKids(f, rank, kids, r) && i < |kids|
    ensures |PostOrder(f, rank, kids[i])| <= |PostOrders(f, rank, kids, r)|
    decreases |kids|
  {
    if i > 0 {
      KidShorter(f, rank, kids[1..], r, i - 1);
    }
  }

  lemma Smaller(f: Forest, rank: Ranks, n: JsonNode, i: nat)
    requires Ranked(f, rank) && n in f && n in rank && RankedNode(f, rank, n) && i < |f[n].kids|
    ensures f[n].kids[i] in f && f[n].kids[i] in rank && |PostOrder(f, rank, f[n].kids[i])| < |PostOrder(f, rank, n)|
  {
    KidShorter(f, rank, f[n].kids, rank[n], i);
  }

  lemma RankedAll(f: Forest, rank: Ranks, n: JsonNode)
    requires n in f && RankedNode(f, rank, n)
    ensures n in rank && RankedKids(f, rank, f[n].kids, rank[n])
  {
  }

  lemma PartialKids(f: Forest, rank: Ranks, n: JsonNode, i: nat, c: JsonNode)
    requires WellFormedForest(f) && Ranked(f, rank) && n in f && n in rank && RankedNode(f, rank, n)
    requires i <= |f[n].kids| && c == Nth(f[n].kids, i) && RankedKids(f, rank, f[n].kids[..i], rank[n])
    ensures var g := Partial(f, rank, n, i);
            && i < |f[n].kids| && f[n].kids[i] == c && g.Keys <= f.Keys
            && (n in g ==> |g[n].kids| == |f[n].kids| - i && g[n].kids[0] == c && Nth(g[n].kids, 1) == Nth(f[n].kids, i + 1))
  {
    hide PostOrders;
  }

  lemma NthIsNull(kids: seq<JsonNode>, i: nat)
    requires i <= |kids| && Nth(kids, i) == null
    ensures i == |kids|
  {
  }

  /** The number of calls that json_delete makes. */
  ghost function Size(f: Forest, n: JsonNode?): nat
    requires WellFormedForest(f) && (n != null ==> n in f)
  {
    if n == null then 0 else |Subtree(f, n)|
  }

  /** json_delete, on any consistent heap.  The node is detached first, so that even if the heap has
      cycles, also through the node, the calls of free are those of the nodes below it, each exactly once,
      children before parents, and of no other node.  Each node that is looked at is alive at that moment. */
  method JsonDelete(node: JsonNode?, store: Allocator, ghost f: Forest) returns (ghost f': Forest)
    requires Rep(f) && WellFormedForest(f) && f.Keys <= store.live
    requires node != null ==> node in f
    modifies f.Keys, store
    ensures Rep(f') && f'.Keys <= store.live
    ensures node == null ==> f' == f && store.freed == old(store.freed) && store.live == old(store.live)
    ensures node != null ==>
      && f' == Deleted(f, node)
      && store.freed == old(store.freed) + Subtree(f, node)
      && store.live == old(store.live) - Elements(Subtree(f, node))
    decreases Size(f, node), node != null
  {
    hide *;
    f' := f;
    if node != null {
      f' := RemoveFromParent(node, f);
      ghost var f1 := f';
      ghost var rank := DeleteReady(f, node);
      ghost var kids := f1[node].kids;
      ghost var i, done: seq<JsonNode> := 0, [];
      NoElements();
      if Container(node.tag) {
        LoadFirstKid(f1, node);
        var child := node.head;
        while child != null
          invariant i <= |kids| && child == Nth(kids, i) && RankedKids(f1, rank, kids[..i], rank[node])
          invariant Rep(f') && f' == Partial(f1, rank, node, i) && f'.Keys <= store.live
          invariant done == PostOrders(f1, rank, kids[..i], rank[node])
          invariant store.freed == old(store.freed) + done && store.live == old(store.live) - Elements(done)
          decreases |kids| - i
        {
          DeleteNext(f1, rank, node, i, f', child);
          SizeOf(f', child);
          SizeOf(f, node);
          var next := child.next;
          ghost var more := Subtree(f', child);
          f' := JsonDelete(child, store, f');
          ElementsConcat(done, more);
          done := done + more;
          child := next;
          i := i + 1;
        }
        NthIsNull(kids, i);
      }
      DeleteEnd(f, f1, rank, node);
      RepWellFormed(f');
      FreeRep(f', node);
      store.Free(node);
      ElementsConcat(done, [node]);
      f' := Without(f', [node]);
    }
  }

  lemma SizeOf(f: Forest, n: JsonNode)
    requires WellFormedForest(f) && n in f
    ensures Size(f, n) == |Subtree(f, n)|
  {
  }

  lemma NoElements()
    ensures Elements([]) == {}
  {
  }

  lemma ElementsConcat(s: seq<JsonNode>, t: seq<JsonNode>)
    ensures Elements(s + t) == Elements(s) + Elements(t)
    ensures |t| == 1 ==> Elements(t) == {t[0]}
  {
  }

  lemma RepWellFormed(f: Forest)
    requires Rep(f)
    ensures WellFormedForest(f)
  {
  }

  /** What json_delete reads from a list before it deletes the first child of it. */
  lemma LoadFirstKid(f: Forest, n: JsonNode)
    requires Rep(f) && n in f && Container(n.tag)
    ensures n.head == Nth(f[n].kids, 0)
  {
    assert Linked(f, Snapshot(f), n) && Snapshot(f)[n] == LinksOf(n);
  }

  lemma LoadNext(f: Forest, n: JsonNode, c: JsonNode)
    requires Rep(f) && n in f && f[n].kids != [] && f[n].kids[0] == c
    ensures c in f && c.next == Nth(f[n].kids, 1)
  {
    assert WellFormedNode(f, n) && KidOf(f, n, c) && Linked(f, Snapshot(f), n) && Snapshot(f)[c] == LinksOf(c);
    assert KidLinked(Snapshot(f), f[n].kids, 0);
  }

  /** After the loop only the node itself is left to free. */
  lemma DeleteEnd(f: Forest, f1: Forest, rank: Ranks, n: JsonNode)
    requires WellFormedForest(f) && n in f && f1 == Detached(f, n) && n in f1 && f1[n].parent == null
    requires WellFormedForest(f1) && Ranked(f1, rank) && n in rank && RankedNode(f1, rank, n)
    requires Subtree(f, n) == PostOrder(f1, rank, n)
    ensures var kids := f1[n].kids;
            && kids[..|kids|] == kids && RankedKids(f1, rank, kids, rank[n])
            && Subtree(f, n) == PostOrders(f1, rank, kids, rank[n]) + [n]
            && var g := Partial(f1, rank, n, |kids|);
            && n in g && g[n].parent == null && g[n].kids == []
            && Without(g, [n]) == Deleted(f, n)
  {
    var kids := f1[n].kids;
    assert kids[..|kids|] == kids;
    if n in PostOrders(f1, rank, kids, rank[n]) {
      var i := InPostOrders(f1, rank, kids, rank[n], n);
      Member(f1, rank, kids[i], n);
    }
  }

  lemma PartialStart(f: Forest, rank: Ranks, n: JsonNode)
    requires Ranked(f, rank) && n in f && n in rank && RankedNode(f, rank, n)
    ensures RankedKids(f, rank, f[n].kids[..0], rank[n])
    ensures Partial(f, rank, n, 0) == f
    ensures PostOrders(f, rank, f[n].kids[..0], rank[n]) == []
  {
    assert f[n].kids[0..] == f[n].kids;
  }

  // ---------------------------------------------------------------------------------------------
  // Linking keeps a forest free of cycles exactly when no node is put below itself
  // ---------------------------------------------------------------------------------------------

  /** The way up is the same as long as it has not met the node whose parent differs. */
  lemma {:induction false} UpSame(ps: Parents, ps': Parents, c: JsonNode, x: JsonNode?, k: nat)
    requires ps.Keys == ps'.Keys && forall n | n in ps && n != c :: ps'[n] == ps[n]
    requires forall j: nat | j < k :: Up(ps, x, j) != c
    ensures Up(ps', x, k) == Up(ps, x, k)
    decreases k
  {
    if k > 0 && x != null && x in ps {
      assert Up(ps, x, 0) == x;
      forall j: nat | j < k - 1 ensures Up(ps, ps[x], j) != c {
        assert Up(ps, x, j + 1) == Up(ps, ps[x], j);
      }
      UpSame(ps, ps', c, ps[x], k - 1);
    }
  }

  /** Whether `c` is met does not depend on the parent of `c`. */
  lemma BelowSame(ps: Parents, ps': Parents, c: JsonNode, x: JsonNode)
    requires ps.Keys == ps'.Keys && forall n | n in ps && n != c :: ps'[n] == ps[n]
    requires Below(ps, c, x)
    ensures Below(ps', c, x)
  {
    UpSame(ps, ps', c, x, Depth(ps, c, x));
  }

  /** A new parent for `c` makes a cycle exactly when it is `c` or below `c`. */
  lemma ParentMakesCycle(ps: Parents, c: JsonNode, p: JsonNode)
    requires c in ps && p in ps && ps[c] == null
    ensures var ps' := ps[c := p];
            (exists x :: x in ps && OnCycle(ps', x)) <==> (exists x :: x in ps && OnCycle(ps, x)) || Below(ps, c, p)
  {
    var ps' := ps[c := p];
    if Below(ps, c, p) {
      BelowSame(ps, ps', c, p);
      var k: nat :| Up(ps', p, k) == c;
      assert Up(ps', c, k + 1) == c;
      assert OnCycle(ps', c);
    }
    forall x | x in ps && OnCycle(ps, x) ensures OnCycle(ps', x) {
      var k: nat :| k > 0 && Up(ps, x, k) == x;
      forall j: nat | j < k ensures Up(ps, x, j) != c {
        PastRoot(ps, c, x, j, k);
      }
      UpSame(ps, ps', c, x, k);
    }
    forall x | x in ps && OnCycle(ps', x) ensures OnCycle(ps, x) || Below(ps, c, p) {
      var k: nat :| k > 0 && Up(ps', x, k) == x;
      if j: nat :| j < k && Up(ps', x, j) == c {
        UpAdd(ps', x, j, k - j);
        UpAdd(ps', c, k - j, j);
        assert Up(ps', p, k - 1) == Up(ps', c, k) == c;
        BelowSame(ps', ps, c, p);
      } else {
        UpSame(ps', ps, c, x, k);
      }
    }
  }

  /** There is nothing above a root. */
  lemma PastRoot(ps: Parents, c: JsonNode, x: JsonNode, j: nat, k: nat)
    requires c in ps && ps[c] == null && j < k && Up(ps, x, k) != null
    ensures Up(ps, x, j) != c
  {
    UpAdd(ps, x, j, k - j);
    assert Up(ps, c, k - j) == Up(ps, null, k - j - 1) == null;
  }

  /** Linking leaves a forest free of cycles if and only if it was and the new parent is not below the
      child; a node is below itself. */
  lemma LinkingKeepsTree(f: Forest, p: JsonNode, c: JsonNode, at: nat)
    requires WellFormedForest(f) && CanInsert(f, p, c) && at <= |f[p].kids|
    ensures Acyclic(Inserted(f, p, c, at)) <==> Acyclic(f) && !Below(ParentsOf(f), c, p)
  {
    var ps := ParentsOf(f);
    ParentMakesCycle(ps, c, p);
    assert ParentsOf(Inserted(f, p, c, at)) == ps[c := p];
  }

  /** Detaching a node makes no cycle. */
  lemma DetachedAcyclic(f: Forest, n: JsonNode)
    requires WellFormedForest(f) && n in f && Acyclic(f)
    ensures Acyclic(Detached(f, n))
  {
    DetachedRoot(f, n);
    var ps, ps' := ParentsOf(f), ParentsOf(Detached(f, n));
    forall x | x in f ensures !OnCycle(ps', x) {
      if k: nat :| k > 0 && Up(ps', x, k) == x {
        forall j: nat | j < k ensures Up(ps', x, j) != n {
          PastRoot(ps', n, x, j, k);
        }
        UpSame(ps', ps, n, x, k);
      }
    }
  }

  // ---------------------------------------------------------------------------------------------
  // The public operations and runs of them
  // ---------------------------------------------------------------------------------------------

  ghost function Keyed(f: Forest, c: JsonNode, key: Option<Text>): Forest
    requires c in f
  {
    f[c := f[c].(key := key)]
  }

  /** Setting the key of a root, as json_append_member does before it links the value. */
  method SetKey(child: JsonNode, key: Text, ghost f: Forest) returns (ghost f': Forest)
    requires Rep(f) && child in f && f[child].parent == null
    modifies child
    ensures f' == Keyed(f, child, Some(key)) && Rep(f') && child.key == Some(key)
  {
    ghost var h := Snapshot(f);
    SnapshotStored(f);
    Load(f, h, child);
    f' := Keyed(f, child, Some(key));
    KeyedConsistent(f, h, child, key);
    hide Consistent, Snapshot, LinksOf;
    child.key := Some(key);
    ghost var h' := Store(f, h, child, h[child].(key := Some(key)));
    StoredRep(f, f', h');
  }

  lemma KeyedConsistent(f: Forest, h: Heap, c: JsonNode, key: Text)
    requires Consistent(f, h) && c in f && f[c].parent == null
    ensures Consistent(Keyed(f, c, Some(key)), h[c := h[c].(key := Some(key))])
  {
    var f', h' := Keyed(f, c, Some(key)), h[c := h[c].(key := Some(key))];
    KeyedWellFormed(f, c, Some(key));
    forall n | n in f' ensures Linked(f', h', n) {
      assert Linked(f, h, n);
      forall i | 0 <= i < |f[n].kids| && Container(n.tag) ensures KidLinked(h', f[n].kids, i) {
        assert KidLinked(h, f[n].kids, i);
      }
    }
  }

  /** One call of the linking interface.  The key is used when the parent is an object. */
  datatype Op =
    | Append(parent: JsonNode, child: JsonNode, key: Text)
    | Prepend(parent: JsonNode, child: JsonNode, key: Text)
    | Remove(node: JsonNode)

  /** What the source asserts: a container, and a child without a parent.  The child may be the parent
      itself. */
  ghost predicate Legal(f: Forest, op: Op) {
    match op
    case Remove(n) => n in f
    case _ =>
      && op.parent in f && op.child in f
      && Container(op.parent.tag) && f[op.child].parent == null
  }

  /** No root carries a key: a new node has none, and json_remove_from_parent clears it. */
  ghost predicate RootsKeyless(f: Forest) {
    forall n | n in f && f[n].parent == null :: f[n].key == None
  }

  ghost function KeyFor(parent: JsonNode, key: Text): Option<Text> {
    if parent.tag == ObjectTag then Some(key) else None
  }

  /** The effect of a call on the forest: the child list of the parent as a pure sequence. */
  ghost function Step(f: Forest, op: Op): Forest
    requires WellFormedForest(f) && Legal(f, op)
  {
    match op
    case Append(p, c, key) => Inserted(Keyed(f, c, KeyFor(p, key)), p, c, |f[p].kids|)
    case Prepend(p, c, key) => Inserted(Keyed(f, c, KeyFor(p, key)), p, c, 0)
    case Remove(n) => Detached(f, n)
  }

  /** json_append_element, json_append_member, json_prepend_element, json_prepend_member and
      json_remove_from_parent */
  method Perform(op: Op, ghost f: Forest) returns (ghost f': Forest)
    requires Rep(f) && RootsKeyless(f) && Legal(f, op)
    modifies f.Keys
    ensures WellFormedForest(f) && f' == Step(f, op) && Rep(f') && RootsKeyless(f')
  {
    RepWellFormed(f);
    StepRootsKeyless(f, op);
    match op
    case Append(p, c, key) =>
      f' := f;
      if p.tag == ObjectTag {
        f' := SetKey(c, key, f);
      }
      f' := AppendNode(p, c, f');
    case Prepend(p, c, key) =>
      f' := f;
      if p.tag == ObjectTag {
        f' := SetKey(c, key, f);
      }
      f' := PrependNode(p, c, f');
    case Remove(n) =>
      f' := RemoveFromParent(n, f);
  }

  lemma StepRootsKeyless(f: Forest, op: Op)
    requires WellFormedForest(f) && Legal(f, op) && RootsKeyless(f)
    ensures RootsKeyless(Step(f, op))
    ensures !op.Remove? && op.parent.tag == ArrayTag ==> Keyed(f, op.child, KeyFor(op.parent, op.key)) == f
  {
    if op.Remove? && f[op.node].parent != null {
      assert WellFormedNode(f, op.node);
    }
  }

  lemma StepWellFormed(f: Forest, op: Op)
    requires WellFormedForest(f) && Legal(f, op)
    ensures WellFormedForest(Step(f, op)) && Step(f, op).Keys == f.Keys
  {
    match op
    case Remove(n) =>
      if f[n].parent != null {
        RemovedWellFormed(f, f[n].parent, Position(f, n));
      }
    case Append(p, c, key) =>
      KeyedWellFormed(f, c, KeyFor(p, key));
      InsertedWellFormed(Keyed(f, c, KeyFor(p, key)), p, c, |f[p].kids|);
    case Prepend(p, c, key) =>
      KeyedWellFormed(f, c, KeyFor(p, key));
      InsertedWellFormed(Keyed(f, c, KeyFor(p, key)), p, c, 0);
  }

  lemma KeyedWellFormed(f: Forest, c: JsonNode, key: Option<Text>)
    requires WellFormedForest(f) && c in f && f[c].parent == null
    ensures WellFormedForest(Keyed(f, c, key))
  {
    var f' := Keyed(f, c, key);
    forall n | n in f' ensures WellFormedNode(f', n) {
      assert WellFormedNode(f, n);
      forall i | 0 <= i < |f[n].kids| ensures KidOf(f', n, f[n].kids[i]) {
        assert KidOf(f, n, f[n].kids[i]);
      }
    }
  }

  /** A call leaves a forest free of cycles if and only if it was and the call does not link a node under
      a node below it, or under itself. */
  lemma StepKeepsTree(f: Forest, op: Op)
    requires WellFormedForest(f) && Legal(f, op)
    ensures op.Remove? && Acyclic(f) ==> Acyclic(Step(f, op))
    ensures !op.Remove? ==> (Acyclic(Step(f, op)) <==> Acyclic(f) && !Below(ParentsOf(f), op.child, op.parent))
  {
    match op
    case Remove(n) =>
      if Acyclic(f) {
        DetachedAcyclic(f, n);
      }
    case Append(p, c, key) =>
      KeyedWellFormed(f, c, KeyFor(p, key));
      assert ParentsOf(Keyed(f, c, KeyFor(p, key))) == ParentsOf(f);
      LinkingKeepsTree(Keyed(f, c, KeyFor(p, key)), p, c, |f[p].kids|);
    case Prepend(p, c, key) =>
      KeyedWellFormed(f, c, KeyFor(p, key));
      assert ParentsOf(Keyed(f, c, KeyFor(p, key))) == ParentsOf(f);
      LinkingKeepsTree(Keyed(f, c, KeyFor(p, key)), p, c, 0);
  }

  ghost predicate LegalRun(f: Forest, ops: seq<Op>)
    requires WellFormedForest(f)
    decreases |ops|
  {
    ops == [] || (Legal(f, ops[0]) && (StepWellFormed(f, ops[0]); LegalRun(Step(f, ops[0]), ops[1..])))
  }

  ghost function StepAll(f: Forest, ops: seq<Op>): Forest
    requires WellFormedForest(f) && LegalRun(f, ops)
    decreases |ops|
  {
    if ops == [] then f else (StepWellFormed(f, ops[0]); StepAll(Step(f, ops[0]), ops[1..]))
  }

  /** Any sequence of calls leaves the pointers of every node as the pure sequences demand. */
  method Run(ops: seq<Op>, ghost f: Forest) returns (ghost f': Forest)
    requires Rep(f) && WellFormedForest(f) && RootsKeyless(f) && LegalRun(f, ops)
    modifies f.Keys
    ensures f' == StepAll(f, ops) && Rep(f') && RootsKeyless(f')
  {
    hide RootsKeyless, Rep, WellFormedForest, Legal, Step;
    f' := f;
    var i := 0;
    while i < |ops|
      invariant i <= |ops| && Rep(f') && WellFormedForest(f') && RootsKeyless(f') && f'.Keys == f.Keys
      invariant LegalRun(f', ops[i..]) && StepAll(f', ops[i..]) == StepAll(f, ops)
    {
      assert ops[i..][0] == ops[i] && ops[i..][1..] == ops[i + 1..];
      StepWellFormed(f', ops[i]);
      f' := Perform(ops[i], f');
      i := i + 1;
    }
  }

  /** Two nodes, each of which is the only child of the other */
  ghost function Mutual(a: JsonNode, b: JsonNode): Forest {
    map[a := Info(b, None, [b]), b := Info(a, None, [a])]
  }

  /** A node that is its own only child */
  ghost function Selfish(a: JsonNode): Forest {
    map[a := Info(a, None, [a])]
  }

  /** The assertions of the source do not keep trees: two arrays can be appended to each other. */
  lemma MutualAppend(a: JsonNode, b: JsonNode)
    requires a.tag == ArrayTag && b.tag == ArrayTag && a != b
    ensures var f: Forest := map[a := ROOT, b := ROOT];
            var ops := [Append(a, b, []), Append(b, a, [])];
            && WellFormedForest(f) && RootsKeyless(f) && LegalRun(f, ops)
            && StepAll(f, ops) == Mutual(a, b) && !Acyclic(Mutual(a, b))
  {
    var f: Forest := map[a := ROOT, b := ROOT];
    var ops := [Append(a, b, []), Append(b, a, [])];
    assert WellFormedForest(f) by {
      assert WellFormedNode(f, a) && WellFormedNode(f, b);
    }
    StepWellFormed(f, ops[0]);
    var f1 := Step(f, ops[0]);
    assert f1[a].kids == [b] && f1[b].kids == [];
    StepWellFormed(f1, ops[1]);
    var f2 := Step(f1, ops[1]);
    assert f2[a].kids == [b] && f2[b].kids == [a];
    assert f2 == Mutual(a, b);
    assert ops[1..] == [ops[1]];
    SingleStep(f1, ops[1]);
    var ps := ParentsOf(f2);
    assert Up(ps, a, 2) == Up(ps, b, 1) == a;
    assert OnCycle(ps, a);
  }

  lemma SingleStep(f: Forest, op: Op)
    requires WellFormedForest(f) && Legal(f, op)
    ensures LegalRun(f, [op]) && StepAll(f, [op]) == Step(f, op)
  {
    StepWellFormed(f, op);
    assert [op][0] == op && [op][1..] == [];
    assert LegalRun(Step(f, op), []) && StepAll(Step(f, op), []) == Step(f, op);
  }

  /** An array can even be appended to itself. */
  lemma SelfAppend(a: JsonNode)
    requires a.tag == ArrayTag
    ensures var f: Forest := map[a := ROOT];
            && WellFormedForest(f) && RootsKeyless(f) && Legal(f, Append(a, a, []))
            && Step(f, Append(a, a, [])) == Selfish(a) && !Acyclic(Selfish(a))
  {
    var f: Forest := map[a := ROOT];
    assert WellFormedForest(f) by {
      assert WellFormedNode(f, a);
    }
    var f1 := Step(f, Append(a, a, []));
    assert f1[a].kids == [a];
    assert f1 == Selfish(a);
    assert Up(ParentsOf(f1), a, 1) == a;
    assert OnCycle(ParentsOf(f1), a);
  }
}
