/**
 json_check: what it answers on an arbitrary heap of nodes, and when it comes to an answer at all.

 Nothing is assumed about the pointers, so the recursion has no evident measure.  `Check` is the code with
 a bound on the number of calls and rounds; that some bound suffices is what termination means, and it is
 proved equivalent to a condition on the parent pointers above the node.
 */
module JsonChecker {
  import opened Options
  import opened Chars
  import opened Utf8
  import opened JsonNodes
  import opened JsonTree

  /** Any set of nodes that is closed under the pointers that json_check follows. */
  ghost predicate Arena(nodes: set<JsonNode>)
    reads nodes
  {
    forall n | n in nodes :: (Container(n.tag) && n.head != null ==> n.head in nodes) && (n.next != null ==> n.next in nodes)
  }

  /** The nodes met by following `next` from `x`, up to a repetition. */
  ghost function Walk(x: JsonNode?, nodes: set<JsonNode>): (xs: seq<JsonNode>)
    reads nodes
    ensures forall i | 0 <= i < |xs| :: xs[i] in nodes
    decreases nodes
  {
    if x == null || x !in nodes then [] else [x] + Walk(x.next, nodes - {x})
  }

  lemma {:induction false} WalkDistinct(x: JsonNode?, nodes: set<JsonNode>)
    ensures NoDuplicates(Walk(x, nodes))
    decreases nodes
  {
    if x != null && x in nodes {
      WalkDistinct(x.next, nodes - {x});
    }
  }

  lemma {:induction false} WalkNext(x: JsonNode?, nodes: set<JsonNode>, j: nat)
    requires j + 1 < |Walk(x, nodes)|
    ensures Walk(x, nodes)[j].next == Walk(x, nodes)[j + 1]
    decreases j
  {
    if j > 0 {
      WalkNext(x.next, nodes - {x}, j - 1);
    }
  }

  // ---------------------------------------------------------------------------------------------
  // What is demanded of a tree
  // ---------------------------------------------------------------------------------------------

  /** The list of children of `n` is a finite doubly linked list from its head to its tail. */
  ghost predicate ListOk(n: JsonNode, kids: seq<JsonNode>)
    reads n, kids
  {
    && n.head == Nth(kids, 0) && n.tail == Nth(kids, |kids| - 1)
    && forall i | 0 <= i < |kids| :: KidOk(n, kids, i)
  }

  ghost predicate KidOk(n: JsonNode, kids: seq<JsonNode>, i: nat)
    requires i < |kids|
    reads kids
  {
    && kids[i].prev == Nth(kids, i - 1) && kids[i].next == Nth(kids, i + 1)
    && kids[i].parent == n && (kids[i].key.Some? <==> n.tag == ObjectTag)
  }

  ghost predicate ScalarsOk(n: JsonNode)
    reads n
  {
    && (n.key.Some? ==> WellFormed(n.key.value))
    && (n.tag == StringTag ==> WellFormed(n.str))
  }

  /** What is below `n` is a tree of at most `d` levels, with consistent lists and valid strings. */
  ghost predicate OkDepth(n: JsonNode, nodes: set<JsonNode>, d: nat)
    requires n in nodes
    reads nodes
    decreases d, 0
  {
    && d > 0 && ScalarsOk(n)
    && (Container(n.tag) ==> ListOk(n, Walk(n.head, nodes)) && KidsDepth(Walk(n.head, nodes), nodes, d - 1))
  }

  ghost predicate KidsDepth(kids: seq<JsonNode>, nodes: set<JsonNode>, d: nat)
    requires forall i | 0 <= i < |kids| :: kids[i] in nodes
    reads nodes
    decreases d, 1
  {
    forall i | 0 <= i < |kids| :: OkDepth(kids[i], nodes, d)
  }

  /** The whole subtree of `n` is a tree in order. */
  ghost predicate TreeOk(n: JsonNode, nodes: set<JsonNode>)
    requires n in nodes
    reads nodes
  {
    exists d: nat :: OkDepth(n, nodes, d)
  }

  ghost predicate KidsOk(kids: seq<JsonNode>, nodes: set<JsonNode>)
    reads nodes
  {
    forall i | 0 <= i < |kids| :: kids[i] in nodes && TreeOk(kids[i], nodes)
  }

  lemma {:induction false} DepthMore(n: JsonNode, nodes: set<JsonNode>, d: nat, e: nat)
    requires n in nodes && OkDepth(n, nodes, d) && d <= e
    ensures OkDepth(n, nodes, e)
    decreases d
  {
    if Container(n.tag) {
      var kids := Walk(n.head, nodes);
      forall i | 0 <= i < |kids| ensures OkDepth(kids[i], nodes, e - 1) {
        DepthMore(kids[i], nodes, d - 1, e - 1);
      }
    }
  }

  /** Finitely many trees have a common bound. */
  lemma {:induction false} CommonDepth(kids: seq<JsonNode>, nodes: set<JsonNode>) returns (d: nat)
    requires KidsOk(kids, nodes)
    ensures KidsDepth(kids, nodes, d)
    decreases |kids|
  {
    d := 0;
    if kids != [] {
      var k := |kids| - 1;
      assert kids[k] in nodes && TreeOk(kids[k], nodes);
      var e: nat :| OkDepth(kids[k], nodes, e);
      d := CommonDepth(kids[..k], nodes);
      var m := if d < e then e else d;
      forall i | 0 <= i < |kids| ensures OkDepth(kids[i], nodes, m) {
        if i < k {
          assert kids[..k][i] == kids[i];
          DepthMore(kids[i], nodes, d, m);
        } else {
          DepthMore(kids[i], nodes, e, m);
        }
      }
      d := m;
    }
  }

  lemma TreeOkUnfold(n: JsonNode, nodes: set<JsonNode>)
    requires n in nodes
    ensures TreeOk(n, nodes) <==>
            ScalarsOk(n) && (Container(n.tag) ==> ListOk(n, Walk(n.head, nodes)) && KidsOk(Walk(n.head, nodes), nodes))
  {
    hide ListOk, ScalarsOk;
    var kids := Walk(n.head, nodes);
    if TreeOk(n, nodes) && Container(n.tag) {
      var d: nat :| OkDepth(n, nodes, d);
      assert KidsDepth(kids, nodes, d - 1);
      forall i | 0 <= i < |kids| ensures TreeOk(kids[i], nodes) {
        assert OkDepth(kids[i], nodes, d - 1);
      }
    }
    if ScalarsOk(n) && (Container(n.tag) ==> ListOk(n, kids) && KidsOk(kids, nodes)) {
      TreeOkFold(n, nodes);
    }
  }

  lemma TreeOkFold(n: JsonNode, nodes: set<JsonNode>)
    requires n in nodes && ScalarsOk(n)
    requires Container(n.tag) ==> ListOk(n, Walk(n.head, nodes)) && KidsOk(Walk(n.head, nodes), nodes)
    ensures TreeOk(n, nodes)
  {
    var d := 0;
    if Container(n.tag) {
      d := CommonDepth(Walk(n.head, nodes), nodes);
    }
    assert OkDepth(n, nodes, d + 1);
  }

  /** What json_check demands of a node and of each of its children, the nodes that `next` leads to. */
  lemma TreeOkDemands(n: JsonNode, nodes: set<JsonNode>, i: nat)
    requires n in nodes && TreeOk(n, nodes)
    ensures (n.key != None ==> ValidUtf8(n.key.value)) && (n.tag == StringTag ==> ValidUtf8(n.str))
    ensures n.tag == ArrayTag || n.tag == ObjectTag ==>
      var kids := Walk(n.head, nodes);
      && n.head == (if kids == [] then null else kids[0]) && n.tail == (if kids == [] then null else kids[|kids| - 1])
      && (i < |kids| ==>
            && kids[i].prev == (if i == 0 then null else kids[i - 1])
            && kids[i].next == (if i == |kids| - 1 then null else kids[i + 1])
            && kids[i].parent == n && (kids[i].key != None <==> n.tag == ObjectTag) && TreeOk(kids[i], nodes))
  {
    hide TreeOk, ValidUtf8, WellFormed;
    TreeOkUnfold(n, nodes);
    if n.key != None {
      ValidUtf8IsWellFormed(n.key.value);
    }
    ValidUtf8IsWellFormed(n.str);
    if Container(n.tag) {
      ListOkAt(n, Walk(n.head, nodes), i);
    }
  }

  /** Nothing else is demanded. */
  lemma TreeOkSuffices(n: JsonNode, nodes: set<JsonNode>, kids: seq<JsonNode>)
    requires n in nodes && kids == Walk(n.head, nodes)
    requires (n.key != None ==> ValidUtf8(n.key.value)) && (n.tag == StringTag ==> ValidUtf8(n.str))
    requires n.tag == ArrayTag || n.tag == ObjectTag ==>
      && n.head == (if kids == [] then null else kids[0]) && n.tail == (if kids == [] then null else kids[|kids| - 1])
      && forall i | 0 <= i < |kids| ::
            && kids[i].prev == (if i == 0 then null else kids[i - 1])
            && kids[i].next == (if i == |kids| - 1 then null else kids[i + 1])
            && kids[i].parent == n && (kids[i].key != None <==> n.tag == ObjectTag) && TreeOk(kids[i], nodes)
    ensures TreeOk(n, nodes)
  {
    hide TreeOk, ValidUtf8, WellFormed;
    TreeOkUnfold(n, nodes);
    if n.key != None {
      ValidUtf8IsWellFormed(n.key.value);
    }
    ValidUtf8IsWellFormed(n.str);
    forall i | 0 <= i < |kids| && Container(n.tag) ensures KidOk(n, kids, i) {
      assert kids[i].prev == if i == 0 then null else kids[i - 1];
      assert kids[i].next == if i == |kids| - 1 then null else kids[i + 1];
    }
  }

  /** No node of a tree is its own child. */
  lemma {:induction false} NotOwnKid(n: JsonNode, nodes: set<JsonNode>, i: nat, d: nat)
    requires n in nodes && Container(n.tag) && i < |Walk(n.head, nodes)| && Walk(n.head, nodes)[i] == n
    ensures !OkDepth(n, nodes, d)
    decreases d
  {
    if d > 0 && OkDepth(n, nodes, d) {
      NotOwnKid(n, nodes, i, d - 1);
    }
  }

  // ---------------------------------------------------------------------------------------------
  // The code, with a bound
  // ---------------------------------------------------------------------------------------------

  /** The tests of json_check on one child. */
  predicate ChildPasses(n: JsonNode, head: JsonNode?, child: JsonNode)
    reads child, child.next
  {
    && child != n && child.next != child && child.next != head
    && child.parent == n
    && (child.next != null ==> child.next.prev == child)
    && !(n.tag == ArrayTag && child.key != None) && !(n.tag == ObjectTag && child.key == None)
  }

  /** The answer of json_check, or None when `fuel` calls and rounds do not suffice. */
  ghost function Check(n: JsonNode, nodes: set<JsonNode>, fuel: nat): Option<bool>
    requires n in nodes && Arena(nodes)
    reads nodes
    decreases fuel
  {
    if fuel == 0 then None
    else if !ScalarsOk(n) then Some(false)
    else if !Container(n.tag) then Some(true)
    else if n.head == null || n.tail == null then Some(n.head == null && n.tail == null)
    else if n.head.prev != null then Some(false)
    else CheckFrom(n, nodes, n.head, null, fuel - 1)
  }

  /** The loop of json_check, from `child` on. */
  ghost function CheckFrom(n: JsonNode, nodes: set<JsonNode>, child: JsonNode?, last: JsonNode?, fuel: nat): Option<bool>
    requires n in nodes && Arena(nodes) && (child != null ==> child in nodes)
    reads nodes
    decreases fuel
  {
    if fuel == 0 then None
    else if child == null then Some(last == n.tail)
    else if !ChildPasses(n, n.head, child) then Some(false)
    else match Check(child, nodes, fuel - 1)
      case None => None
      case Some(false) => Some(false)
      case Some(true) => CheckFrom(n, nodes, child.next, child, fuel - 1)
  }

  lemma {:induction false} MoreFuel(n: JsonNode, nodes: set<JsonNode>, fuel: nat, more: nat)
    requires n in nodes && Arena(nodes) && Check(n, nodes, fuel).Some? && fuel <= more
    ensures Check(n, nodes, more) == Check(n, nodes, fuel)
    decreases fuel
  {
    if ScalarsOk(n) && Container(n.tag) && n.head != null && n.tail != null && n.head.prev == null {
      MoreFuelFrom(n, nodes, n.head, null, fuel - 1, more - 1);
    }
  }

  lemma {:induction false} MoreFuelFrom(n: JsonNode, nodes: set<JsonNode>, child: JsonNode?, last: JsonNode?, fuel: nat, more: nat)
    requires n in nodes && Arena(nodes) && (child != null ==> child in nodes)
    requires CheckFrom(n, nodes, child, last, fuel).Some? && fuel <= more
    ensures CheckFrom(n, nodes, child, last, more) == CheckFrom(n, nodes, child, last, fuel)
    decreases fuel
  {
    if child != null && ChildPasses(n, n.head, child) {
      MoreFuel(child, nodes, fuel - 1, more - 1);
      if Check(child, nodes, fuel - 1) == Some(true) {
        MoreFuelFrom(n, nodes, child.next, child, fuel - 1, more - 1);
      }
    }
  }

  // ---------------------------------------------------------------------------------------------
  // The answer
  // ---------------------------------------------------------------------------------------------

  /** The state of the loop: `vs` has been visited and is in order, `child` is next. */
  ghost predicate Visiting(n: JsonNode, nodes: set<JsonNode>, kids: seq<JsonNode>, vs: seq<JsonNode>,
                           child: JsonNode?, last: JsonNode?)
    reads n, nodes
  {
    && kids == vs + Walk(child, nodes - Elements(vs)) && last == Nth(vs, |vs| - 1)
    && (child != null ==> child in nodes && child !in vs && child.prev == last)
    && (if vs == [] then child == n.head else vs[0] == n.head)
    && forall j | 0 <= j < |vs| :: VisitedOk(n, nodes, vs, child, j)
  }

  ghost predicate VisitedOk(n: JsonNode, nodes: set<JsonNode>, vs: seq<JsonNode>, child: JsonNode?, j: nat)
    requires j < |vs|
    reads nodes
  {
    && vs[j] in nodes && vs[j] != n
    && vs[j].parent == n && (vs[j].key.Some? <==> n.tag == ObjectTag)
    && vs[j].prev == Nth(vs, j - 1) && vs[j].next == (if j + 1 < |vs| then vs[j + 1] else child)
  }

  /** A child that fails a test spoils the tree. */
  lemma FailingChild(n: JsonNode, nodes: set<JsonNode>, kids: seq<JsonNode>, vs: seq<JsonNode>, child: JsonNode, last: JsonNode?)
    requires n in nodes && Arena(nodes) && Container(n.tag) && kids == Walk(n.head, nodes)
    requires Visiting(n, nodes, kids, vs, child, last) && !ChildPasses(n, n.head, child)
    ensures !TreeOk(n, nodes)
  {
    var i := |vs|;
    WalkDistinct(n.head, nodes);
    assert kids[i] == child;
    TreeOkUnfold(n, nodes);
    if child == n {
      forall d: nat ensures !OkDepth(n, nodes, d) {
        NotOwnKid(n, nodes, i, d);
      }
    } else {
      assert i + 1 < |kids| ==> kids[i + 1] != kids[i] && kids[i + 1] != kids[0];
      hide TreeOk, KidsOk;
      ListOkAt(n, kids, i);
      ListOkAt(n, kids, i + 1);
    }
  }

  lemma ListOkAt(n: JsonNode, kids: seq<JsonNode>, i: nat)
    ensures ListOk(n, kids) && i < |kids| ==> KidOk(n, kids, i)
  {
  }

  /** A child that passes all tests can be visited: the walk cannot come back to it. */
  lemma PassingChild(n: JsonNode, nodes: set<JsonNode>, kids: seq<JsonNode>, vs: seq<JsonNode>, child: JsonNode, last: JsonNode?)
    requires n in nodes && Arena(nodes) && Container(n.tag) && kids == Walk(n.head, nodes)
    requires Visiting(n, nodes, kids, vs, child, last) && ChildPasses(n, n.head, child)
    ensures Visiting(n, nodes, kids, vs + [child], child.next, child)
    ensures nodes - Elements(vs + [child]) < nodes - Elements(vs)
  {
    var next, vs' := child.next, vs + [child];
    assert nodes - Elements(vs) - {child} == nodes - Elements(vs');
    assert child in nodes - Elements(vs) && child !in nodes - Elements(vs');
    forall j | 0 <= j < |vs| ensures vs[j] != next {
      assert VisitedOk(n, nodes, vs, child, j);
      assert j > 0 ==> vs[j - 1] in vs;
    }
    forall j | 0 <= j < |vs'| ensures VisitedOk(n, nodes, vs', next, j) {
      if j < |vs| {
        assert VisitedOk(n, nodes, vs, child, j);
      }
    }
  }

  lemma VisitStart(n: JsonNode, nodes: set<JsonNode>)
    requires n in nodes && Arena(nodes) && Container(n.tag) && n.head != null && n.head.prev == null
    ensures Visiting(n, nodes, Walk(n.head, nodes), [], n.head, null)
  {
    assert nodes - Elements([]) == nodes;
  }

  /** After the last child, the list is in order if the tail is. */
  lemma VisitEnd(n: JsonNode, nodes: set<JsonNode>, vs: seq<JsonNode>, last: JsonNode?)
    requires n in nodes && n.head != null && Visiting(n, nodes, Walk(n.head, nodes), vs, null, last)
    ensures Walk(n.head, nodes) == vs && (ListOk(n, vs) <==> last == n.tail)
  {
    forall i | 0 <= i < |vs| ensures KidOk(n, vs, i) {
      assert VisitedOk(n, nodes, vs, null, i);
    }
  }

  /** Without a list, or with one that does not start, the answer is clear. */
  lemma NoList(n: JsonNode, nodes: set<JsonNode>)
    requires n in nodes && Arena(nodes) && Container(n.tag)
    ensures n.head == null || n.tail == null ==>
              (ListOk(n, Walk(n.head, nodes)) && KidsOk(Walk(n.head, nodes), nodes) <==> n.head == null && n.tail == null)
    ensures n.head != null && n.tail != null && n.head.prev != null ==> !ListOk(n, Walk(n.head, nodes))
  {
    ListOkAt(n, Walk(n.head, nodes), 0);
  }

  /** Whenever json_check answers, it answers whether the whole subtree is a tree in order. */
  lemma {:induction false} Answer(n: JsonNode, nodes: set<JsonNode>, fuel: nat)
    requires n in nodes && Arena(nodes) && Check(n, nodes, fuel).Some?
    ensures Check(n, nodes, fuel).value <==> TreeOk(n, nodes)
    decreases fuel
  {
    TreeOkUnfold(n, nodes);
    hide TreeOk;
    if ScalarsOk(n) && Container(n.tag) {
      NoList(n, nodes);
      hide ListOk, KidsOk;
      if n.head != null && n.tail != null && n.head.prev == null {
        VisitStart(n, nodes);
        assert KidsOk([], nodes);
        AnswerFrom(n, nodes, [], n.head, null, fuel - 1);
      }
    }
  }

  lemma {:induction false} AnswerFrom(n: JsonNode, nodes: set<JsonNode>, vs: seq<JsonNode>, child: JsonNode?, last: JsonNode?,
                                      fuel: nat)
    requires n in nodes && Arena(nodes) && ScalarsOk(n) && Container(n.tag) && n.head != null
    requires Visiting(n, nodes, Walk(n.head, nodes), vs, child, last) && KidsOk(vs, nodes)
    requires CheckFrom(n, nodes, child, last, fuel).Some?
    ensures CheckFrom(n, nodes, child, last, fuel).value <==> TreeOk(n, nodes)
    decreases fuel
  {
    hide TreeOk, ListOk, ScalarsOk;
    var kids := Walk(n.head, nodes);
    TreeOkUnfold(n, nodes);
    if child == null {
      VisitEnd(n, nodes, vs, last);
    } else if !ChildPasses(n, n.head, child) {
      FailingChild(n, nodes, kids, vs, child, last);
    } else {
      Answer(child, nodes, fuel - 1);
      if TreeOk(child, nodes) {
        PassingChild(n, nodes, kids, vs, child, last);
        AnswerFrom(n, nodes, vs + [child], child.next, child, fuel - 1);
      } else {
        assert kids[|vs|] == child;
      }
    }
  }

  // ---------------------------------------------------------------------------------------------
  // Termination
  // ---------------------------------------------------------------------------------------------

  ghost predicate Halts(n: JsonNode, nodes: set<JsonNode>)
    requires n in nodes && Arena(nodes)
    reads nodes
  {
    exists fuel: nat :: Check(n, nodes, fuel).Some?
  }

  ghost function HeapParents(nodes: set<JsonNode>): Parents
    reads nodes
  {
    map x | x in nodes :: x.parent
  }

  /** json_check of `p` comes to check its child at position `i`: the node and its list up to there are
      in order, and so are the subtrees of the earlier children. */
  ghost predicate EntersAt(p: JsonNode, nodes: set<JsonNode>, i: nat)
    requires p in nodes && Arena(nodes)
    reads nodes
  {
    var kids := Walk(p.head, nodes);
    && ScalarsOk(p) && Container(p.tag) && p.head != null && p.tail != null && p.head.prev == null && i < |kids|
    && (forall j | 0 <= j <= i :: kids[j] != p && ChildPasses(p, p.head, kids[j]))
    && forall j | 0 <= j < i :: TreeOk(kids[j], nodes)
  }

  ghost predicate Enters(p: JsonNode, c: JsonNode, nodes: set<JsonNode>)
    requires p in nodes && Arena(nodes)
    reads nodes
  {
    exists i: nat :: EntersAt(p, nodes, i) && Walk(p.head, nodes)[i] == c
  }

  /** `c` is below `p`, and checking `p` leads to checking `c`. */
  ghost predicate StepDown(ps: Parents, n: JsonNode, nodes: set<JsonNode>, i: nat)
    requires Arena(nodes)
    reads nodes
  {
    && Up(ps, n, i) != null && Up(ps, n, i) in nodes && Up(ps, n, i + 1) != null && Up(ps, n, i + 1) in nodes
    && Enters(Up(ps, n, i + 1), Up(ps, n, i), nodes)
  }

  /** The way up from `n` leads back to `n` after `k` steps, and json_check goes all the way down. */
  ghost predicate CirclesIn(n: JsonNode, nodes: set<JsonNode>, k: nat)
    requires n in nodes && Arena(nodes)
    reads nodes
  {
    && k > 0 && Up(HeapParents(nodes), n, k) == n
    && forall i: nat {:trigger StepDown(HeapParents(nodes), n, nodes, i)} | i < k :: StepDown(HeapParents(nodes), n, nodes, i)
  }

  ghost predicate Circles(n: JsonNode, nodes: set<JsonNode>)
    requires n in nodes && Arena(nodes)
    reads nodes
  {
    exists k: nat :: CirclesIn(n, nodes, k)
  }

  /** Walking up the parent pointers finds out whether json_check can fail to terminate: it always does for
      a root, for a node that is its own parent, and for a node that the way up does not lead back to. */
  lemma CircleIsCycle(n: JsonNode, nodes: set<JsonNode>)
    requires n in nodes && Arena(nodes) && Circles(n, nodes)
    ensures OnCycle(HeapParents(nodes), n) && n.parent != null && n.parent != n
  {
    var ps := HeapParents(nodes);
    var k: nat :| CirclesIn(n, nodes, k);
    assert StepDown(ps, n, nodes, 0);
    assert Up(ps, n, 1) == n.parent && Up(ps, n, 0) == n;
    hide Circles, CirclesIn, OnCycle;
    assert Enters(n.parent, n, nodes);
    hide StepDown;
    EntersParent(n.parent, n, nodes);
    OnCycleBy(ps, n, k);
  }

  lemma OnCycleBy(ps: Parents, n: JsonNode, k: nat)
    requires k > 0 && Up(ps, n, k) == n
    ensures OnCycle(ps, n)
  {
  }

  lemma EntersParent(p: JsonNode, c: JsonNode, nodes: set<JsonNode>)
    requires p in nodes && Arena(nodes) && Enters(p, c, nodes)
    ensures c in nodes && c.parent == p && c != p
  {
    var i: nat :| EntersAt(p, nodes, i) && Walk(p.head, nodes)[i] == c;
    assert ChildPasses(p, p.head, Walk(p.head, nodes)[i]);
  }

  // A circle is never left.

  lemma {:induction false} Hangs(n: JsonNode, nodes: set<JsonNode>, k: nat, i: nat, fuel: nat)
    requires n in nodes && Arena(nodes) && CirclesIn(n, nodes, k) && i <= k
    ensures var x := Up(HeapParents(nodes), n, i); x != null && x in nodes && Check(x, nodes, fuel) == None
    decreases fuel, 1
  {
    var ps, m := HeapParents(nodes), if i == 0 then k else i;
    assert StepDown(ps, n, nodes, m - 1);
    var p, c := Up(ps, n, m), Up(ps, n, m - 1);
    assert Up(ps, n, i) == p;
    if fuel > 0 {
      var at: nat :| EntersAt(p, nodes, at) && Walk(p.head, nodes)[at] == c;
      HangsFrom(n, nodes, k, m - 1, p, at, 0, null, fuel - 1);
    }
  }

  lemma {:induction false} HangsFrom(n: JsonNode, nodes: set<JsonNode>, k: nat, i: nat, p: JsonNode, at: nat, j: nat,
                                     last: JsonNode?, fuel: nat)
    requires n in nodes && Arena(nodes) && CirclesIn(n, nodes, k) && i <= k && p in nodes
    requires EntersAt(p, nodes, at) && j <= at && Walk(p.head, nodes)[at] == Up(HeapParents(nodes), n, i)
    ensures CheckFrom(p, nodes, Walk(p.head, nodes)[j], last, fuel) == None
    decreases fuel, 0
  {
    var kids := Walk(p.head, nodes);
    assert kids[j] != p && ChildPasses(p, p.head, kids[j]);
    if fuel > 0 {
      if j == at {
        Hangs(n, nodes, k, i, fuel - 1);
      } else if Check(kids[j], nodes, fuel - 1).Some? {
        Answer(kids[j], nodes, fuel - 1);
        assert TreeOk(kids[j], nodes);
        WalkNext(p.head, nodes, j);
        HangsFrom(n, nodes, k, i, p, at, j + 1, kids[j], fuel - 1);
      }
    }
  }

  // Without a circle the path of the recursion never meets a node twice.

  /** A path of the recursion */
  ghost predicate Path(nodes: set<JsonNode>, path: seq<JsonNode>)
    requires Arena(nodes)
    reads nodes
  {
    && path != [] && NoDuplicates(path) && (forall i | 0 <= i < |path| :: path[i] in nodes)
    && forall i | 0 < i < |path| :: Enters(path[i - 1], path[i], nodes)
  }

  lemma {:induction false} PathUp(nodes: set<JsonNode>, path: seq<JsonNode>, c: JsonNode, i: nat)
    requires Arena(nodes) && Path(nodes, path) && Enters(path[|path| - 1], c, nodes) && 0 < i <= |path|
    ensures Up(HeapParents(nodes), c, i) == path[|path| - i]
    decreases i
  {
    var ps := HeapParents(nodes);
    EntersParent(path[|path| - 1], c, nodes);
    if i == 1 {
      assert Up(ps, c, 1) == Up(ps, c.parent, 0);
    } else {
      PathUp(nodes, path, c, i - 1);
      var x := path[|path| - i + 1];
      assert Enters(path[|path| - i], x, nodes);
      EntersParent(path[|path| - i], x, nodes);
      UpAdd(ps, c, i - 1, 1);
      assert Up(ps, x, 1) == Up(ps, x.parent, 0);
    }
  }

  /** The recursion comes to a new node each time, unless the path closes to a circle. */
  lemma EntersNew(nodes: set<JsonNode>, path: seq<JsonNode>, c: JsonNode)
    requires Arena(nodes) && Path(nodes, path) && !Circles(path[0], nodes) && Enters(path[|path| - 1], c, nodes)
    ensures c in nodes && Path(nodes, path + [c])
    ensures nodes - Elements(path + [c]) < nodes - Elements(path)
  {
    EntersParent(path[|path| - 1], c, nodes);
    forall j | 0 <= j < |path| ensures path[j] != c {
      if path[j] == c {
        if j > 0 {
          assert Enters(path[j - 1], path[j], nodes);
          EntersParent(path[j - 1], path[j], nodes);
        } else {
          ClosedPath(nodes, path, c);
        }
      }
    }
    NoDuplicatesConcat(path, [c]);
    hide Enters;
    assert c in nodes - Elements(path) && c !in nodes - Elements(path + [c]);
    forall i | 0 < i < |path + [c]| ensures Enters((path + [c])[i - 1], (path + [c])[i], nodes) {
    }
  }

  lemma ClosedPath(nodes: set<JsonNode>, path: seq<JsonNode>, c: JsonNode)
    requires Arena(nodes) && Path(nodes, path) && Enters(path[|path| - 1], c, nodes) && path[0] == c
    ensures c in nodes && Circles(c, nodes)
  {
    var ps, k := HeapParents(nodes), |path|;
    PathUp(nodes, path, c, k);
    forall i: nat | i < k ensures StepDown(ps, c, nodes, i) {
      PathUp(nodes, path, c, i + 1);
      if i > 0 {
        PathUp(nodes, path, c, i);
        assert Enters(path[k - i - 1], path[k - i], nodes);
      }
    }
    assert CirclesIn(c, nodes, k);
  }

  lemma {:induction false} Halting(nodes: set<JsonNode>, path: seq<JsonNode>) returns (fuel: nat)
    requires Arena(nodes) && Path(nodes, path) && !Circles(path[0], nodes)
    ensures Check(path[|path| - 1], nodes, fuel).Some?
    decreases nodes - Elements(path), 1
  {
    var n := path[|path| - 1];
    fuel := 1;
    if ScalarsOk(n) && Container(n.tag) && n.head != null && n.tail != null && n.head.prev == null {
      VisitStart(n, nodes);
      assert nodes - Elements([]) == nodes;
      var f := HaltingFrom(nodes, path, [], n.head, null);
      fuel := f + 1;
    }
  }

  /** The children visited so far passed, and their subtrees are in order. */
  ghost predicate Passed(n: JsonNode, nodes: set<JsonNode>, vs: seq<JsonNode>)
    requires Arena(nodes)
    reads n, nodes
  {
    forall j | 0 <= j < |vs| :: vs[j] in nodes && vs[j] != n && ChildPasses(n, n.head, vs[j]) && TreeOk(vs[j], nodes)
  }

  lemma {:induction false} HaltingFrom(nodes: set<JsonNode>, path: seq<JsonNode>, vs: seq<JsonNode>, child: JsonNode?, last: JsonNode?)
      returns (fuel: nat)
    requires Arena(nodes) && Path(nodes, path) && !Circles(path[0], nodes)
    requires var n := path[|path| - 1];
             && ScalarsOk(n) && Container(n.tag) && n.head != null && n.tail != null && n.head.prev == null
             && Visiting(n, nodes, Walk(n.head, nodes), vs, child, last) && Passed(n, nodes, vs)
    ensures CheckFrom(path[|path| - 1], nodes, child, last, fuel).Some?
    decreases nodes - Elements(path), 0, nodes - Elements(vs)
  {
    var n := path[|path| - 1];
    fuel := 1;
    if child != null && ChildPasses(n, n.head, child) {
      var kids := Walk(n.head, nodes);
      EntersNext(n, nodes, vs, child, last);
      EntersNew(nodes, path, child);
      var f := Halting(nodes, path + [child]);
      Answer(child, nodes, f);
      fuel := f + 1;
      if TreeOk(child, nodes) {
        PassingChild(n, nodes, kids, vs, child, last);
        var g := HaltingFrom(nodes, path, vs + [child], child.next, child);
        fuel := f + g + 1;
        MoreFuel(child, nodes, f, f + g);
        MoreFuelFrom(n, nodes, child.next, child, g, f + g);
      }
    }
  }

  lemma EntersNext(n: JsonNode, nodes: set<JsonNode>, vs: seq<JsonNode>, child: JsonNode, last: JsonNode?)
    requires n in nodes && Arena(nodes)
    requires ScalarsOk(n) && Container(n.tag) && n.head != null && n.tail != null && n.head.prev == null
    requires Visiting(n, nodes, Walk(n.head, nodes), vs, child, last) && Passed(n, nodes, vs) && ChildPasses(n, n.head, child)
    ensures Enters(n, child, nodes)
  {
    var kids := Walk(n.head, nodes);
    assert kids[|vs|] == child && forall j | 0 <= j < |vs| :: kids[j] == vs[j];
    assert EntersAt(n, nodes, |vs|);
  }

  /** json_check terminates if and only if it does not go round in a circle of parent pointers. */
  lemma HaltsExact(n: JsonNode, nodes: set<JsonNode>)
    requires n in nodes && Arena(nodes)
    ensures Halts(n, nodes) <==> !Circles(n, nodes)
  {
    if k: nat :| CirclesIn(n, nodes, k) {
      forall fuel: nat ensures Check(n, nodes, fuel) == None {
        Hangs(n, nodes, k, 0, fuel);
      }
    } else {
      var fuel := Halting(nodes, [n]);
    }
  }

  // ---------------------------------------------------------------------------------------------
  // The method
  // ---------------------------------------------------------------------------------------------

  /** The least sufficient bound */
  ghost function Calls(n: JsonNode, nodes: set<JsonNode>): (calls: nat)
    requires n in nodes && Arena(nodes)
    reads nodes
    ensures Halts(n, nodes) ==> Check(n, nodes, calls).Some?
    ensures forall fuel: nat | Check(n, nodes, fuel).Some? :: calls <= fuel
  {
    if fuel: nat :| Check(n, nodes, fuel).Some? then Least(n, nodes, fuel) else 0
  }

  ghost function Least(n: JsonNode, nodes: set<JsonNode>, fuel: nat): (calls: nat)
    requires n in nodes && Arena(nodes) && Check(n, nodes, fuel).Some?
    reads nodes
    ensures Check(n, nodes, calls).Some? && forall less: nat | less < calls :: Check(n, nodes, less) == None
    decreases fuel
  {
    if less: nat :| less < fuel && Check(n, nodes, less).Some? then Least(n, nodes, less) else fuel
  }

  /** json_check answers whether the whole subtree is in order, on any heap on which it terminates. */
  method JsonCheck(node: JsonNode, ghost nodes: set<JsonNode>) returns (ok: bool)
    requires node in nodes && Arena(nodes) && !Circles(node, nodes)
    ensures ok <==> TreeOk(node, nodes)
    decreases Calls(node, nodes), 1
  {
    HaltsExact(node, nodes);
    ghost var fuel := Calls(node, nodes);
    Answer(node, nodes, fuel);
    hide Circles, Halts, TreeOk, WellFormed;
    if node.key.Some? {
      var keyOk := Utf8.Validate(node.key.value);
      if !keyOk {
        return false;
      }
    }
    if node.tag == StringTag {
      ok := Utf8.Validate(node.str);
    } else if node.tag == ArrayTag || node.tag == ObjectTag {
      var head, tail := node.head, node.tail;
      if head == null || tail == null {
        ok := head == null && tail == null;
      } else if head.prev != null {
        ok := false;
      } else {
        ok := CheckChildren(node, nodes, fuel - 1);
      }
    } else {
      ok := true;
    }
  }

  /** The loop of json_check */
  method CheckChildren(node: JsonNode, ghost nodes: set<JsonNode>, ghost fuel: nat) returns (ok: bool)
    requires node in nodes && Arena(nodes) && Container(node.tag) && node.head != null
    requires CheckFrom(node, nodes, node.head, null, fuel).Some?
    ensures CheckFrom(node, nodes, node.head, null, fuel) == Some(ok)
    decreases fuel, 0
  {
    var child, last: JsonNode? := node.head, null;
    ghost var left: nat := fuel;
    ghost var all := CheckFrom(node, nodes, node.head, null, fuel);
    hide Circles, Halts, TreeOk, Check;
    while child != null
      invariant child != null ==> child in nodes
      invariant left <= fuel && CheckFrom(node, nodes, child, last, left) == all
      decreases left
    {
      if !ChildPasses(node, node.head, child) {
        return false;
      }
      ChildHalts(child, nodes, left - 1);
      var childOk := JsonCheck(child, nodes);
      if !childOk {
        return false;
      }
      last, child := child, child.next;
      left := left - 1;
    }
    ok := last == node.tail;
  }

  lemma ChildHalts(child: JsonNode, nodes: set<JsonNode>, fuel: nat)
    requires child in nodes && Arena(nodes) && Check(child, nodes, fuel).Some?
    ensures !Circles(child, nodes) && Calls(child, nodes) <= fuel
    ensures Check(child, nodes, fuel) == Some(TreeOk(child, nodes))
  {
    HaltsExact(child, nodes);
    Answer(child, nodes, fuel);
  }

  // ---------------------------------------------------------------------------------------------
  // Consistent forests
  // ---------------------------------------------------------------------------------------------

  lemma {:induction false} WalkIsKids(f: Forest, n: JsonNode, i: nat)
    requires Rep(f) && n in f && Container(n.tag) && i <= |f[n].kids|
    ensures Walk(Nth(f[n].kids, i), f.Keys - Elements(f[n].kids[..i])) == f[n].kids[i..]
    decreases |f[n].kids| - i
  {
    var kids := f[n].kids;
    assert WellFormedNode(f, n) && Linked(f, Snapshot(f), n);
    if i < |kids| {
      var k := kids[i];
      assert KidOf(f, n, k) && KidLinked(Snapshot(f), kids, i) && Snapshot(f)[k] == LinksOf(k);
      WalkIsKids(f, n, i + 1);
      assert f.Keys - Elements(kids[..i]) - {k} == f.Keys - Elements(kids[..i + 1]) by {
        assert kids[..i + 1] == kids[..i] + [k];
      }
      assert kids[i..] == [k] + kids[i + 1..];
    }
  }

  /** The list of every container is the one that json_check demands. */
  lemma RepListOk(f: Forest, n: JsonNode)
    requires Rep(f) && n in f && Container(n.tag)
    ensures Walk(n.head, f.Keys) == f[n].kids && ListOk(n, f[n].kids)
  {
    var kids := f[n].kids;
    assert WellFormedNode(f, n) && Linked(f, Snapshot(f), n) && Snapshot(f)[n] == LinksOf(n);
    WalkIsKids(f, n, 0);
    assert f.Keys - Elements(kids[..0]) == f.Keys && kids[0..] == kids;
    forall i | 0 <= i < |kids| ensures KidOk(n, kids, i) {
      var k := kids[i];
      assert KidOf(f, n, k) && KidLinked(Snapshot(f), kids, i) && Snapshot(f)[k] == LinksOf(k);
      assert Linked(f, Snapshot(f), k);
    }
  }

  /** json_check can be called on the nodes of a consistent forest, and finds its parents. */
  lemma RepArena(f: Forest)
    requires Rep(f)
    ensures Arena(f.Keys) && HeapParents(f.Keys) == ParentsOf(f)
  {
    var h := Snapshot(f);
    forall n | n in f
      ensures Container(n.tag) && n.head != null ==> n.head in f
      ensures n.next != null ==> n.next in f
      ensures n.parent == f[n].parent
    {
      assert WellFormedNode(f, n) && Linked(f, h, n) && h[n] == LinksOf(n);
      if Container(n.tag) && n.head != null {
        assert KidOf(f, n, f[n].kids[0]);
      }
      if f[n].parent != null {
        NextInForest(f, n);
      }
    }
  }

  lemma NextInForest(f: Forest, n: JsonNode)
    requires Rep(f) && n in f && f[n].parent != null
    ensures n.next != null ==> n.next in f
  {
    var p, h := f[n].parent, Snapshot(f);
    assert WellFormedNode(f, n) && WellFormedNode(f, p) && Linked(f, h, p) && h[n] == LinksOf(n);
    var i :| 0 <= i < |f[p].kids| && f[p].kids[i] == n;
    assert KidLinked(h, f[p].kids, i);
    assert i + 1 < |f[p].kids| ==> KidOf(f, p, f[p].kids[i + 1]);
  }

  lemma TreeOkUnfolds(f: Forest, n: JsonNode)
    requires Rep(f) && n in f
    ensures TreeOk(n, f.Keys) <==> ScalarsOk(n) && KidsOk(f[n].kids, f.Keys)
  {
    assert WellFormedNode(f, n);
    TreeOkUnfold(n, f.Keys);
    hide ListOk, KidsOk, TreeOk, ScalarsOk;
    if Container(n.tag) {
      RepListOk(f, n);
    } else {
      NoKids(f.Keys);
    }
  }

  lemma NoKids(nodes: set<JsonNode>)
    ensures KidsOk([], nodes)
  {
  }

  ghost predicate AllScalarsOk(ns: seq<JsonNode>)
    reads ns
  {
    forall i | 0 <= i < |ns| :: ScalarsOk(ns[i])
  }

  lemma AllScalarsConcat(a: seq<JsonNode>, b: seq<JsonNode>)
    ensures AllScalarsOk(a + b) <==> AllScalarsOk(a) && AllScalarsOk(b)
  {
    if AllScalarsOk(a + b) {
      forall i | 0 <= i < |a| ensures ScalarsOk(a[i]) {
        assert ScalarsOk((a + b)[i]);
      }
      forall i | 0 <= i < |b| ensures ScalarsOk(b[i]) {
        assert ScalarsOk((a + b)[|a| + i]);
      }
    }
  }

  lemma {:induction false} RankedChecks(f: Forest, rank: Ranks, n: JsonNode)
    requires Rep(f) && Ranked(f, rank) && n in f && n in rank
    ensures TreeOk(n, f.Keys) <==> AllScalarsOk(PostOrder(f, rank, n))
    decreases rank[n], 1, 0
  {
    assert RankedNode(f, rank, n);
    TreeOkUnfolds(f, n);
    RankedKidsCheck(f, rank, f[n].kids, rank[n]);
    var s := PostOrders(f, rank, f[n].kids, rank[n]);
    assert PostOrder(f, rank, n) == s + [n];
    assert AllScalarsOk([n]) <==> ScalarsOk(n) by {
      assert [n][0] == n;
    }
    hide *;
    AllScalarsConcat(s, [n]);
  }

  lemma {:induction false} RankedKidsCheck(f: Forest, rank: Ranks, kids: seq<JsonNode>, r: nat)
    requires Rep(f) && Ranked(f, rank) && RankedKids(f, rank, kids, r)
    ensures KidsOk(kids, f.Keys) <==> AllScalarsOk(PostOrders(f, rank, kids, r))
    decreases r, 0, |kids|
  {
    if kids != [] {
      RankedChecks(f, rank, kids[0]);
      RankedKidsCheck(f, rank, kids[1..], r);
      AllScalarsConcat(PostOrder(f, rank, kids[0]), PostOrders(f, rank, kids[1..], r));
      hide Rep, TreeOk, AllScalarsOk, PostOrder;
      assert forall i | 0 < i < |kids| :: kids[i] == kids[1..][i - 1];
    }
  }

  /** A tree of `d` levels has no room for a way up that comes back. */
  lemma {:induction false} LevelsDown(f: Forest, x: JsonNode, j: nat, n: JsonNode, d: nat)
    requires Rep(f) && x in f && n in f && Up(ParentsOf(f), x, j) == n && OkDepth(n, f.Keys, d)
    ensures j < d && OkDepth(x, f.Keys, d - j)
    decreases j
  {
    if j > 0 {
      assert WellFormedNode(f, x);
      var p := f[x].parent;
      LevelsDown(f, p, j - 1, n, d);
      var i :| 0 <= i < |f[p].kids| && f[p].kids[i] == x;
      hide Rep, OkDepth, Up;
      KidDepth(f, p, i, d - (j - 1));
    }
  }

  lemma KidDepth(f: Forest, p: JsonNode, i: nat, d: nat)
    requires Rep(f) && p in f && OkDepth(p, f.Keys, d) && i < |f[p].kids|
    ensures f[p].kids[i] in f && 1 < d && OkDepth(f[p].kids[i], f.Keys, d - 1)
  {
    assert WellFormedNode(f, p) && KidOf(f, p, f[p].kids[i]);
    RepListOk(f, p);
    assert KidsDepth(f[p].kids, f.Keys, d - 1);
    assert OkDepth(f[p].kids[i], f.Keys, d - 1);
  }

  lemma {:induction false} CycleNotOk(f: Forest, n: JsonNode, k: nat, d: nat)
    requires Rep(f) && n in f && k > 0 && Up(ParentsOf(f), n, k) == n
    ensures !OkDepth(n, f.Keys, d)
    decreases d
  {
    if OkDepth(n, f.Keys, d) {
      LevelsDown(f, n, k, n, d);
      CycleNotOk(f, n, k, d - k);
    }
  }

  /** On a consistent forest, with or without cycles, a subtree is in order if and only if its top is not
      below itself and all strings and keys in it are valid. */
  lemma ForestChecks(f: Forest, n: JsonNode)
    requires Rep(f) && WellFormedForest(f) && n in f
    ensures TreeOk(n, f.Keys) <==> !OnCycle(ParentsOf(f), n) && AllScalarsOk(Subtree(f, n))
  {
    if k: nat :| k > 0 && Up(ParentsOf(f), n, k) == n {
      forall d: nat ensures !OkDepth(n, f.Keys, d) {
        CycleNotOk(f, n, k, d);
      }
    } else {
      var rank := RankBelow(f, n);
      RankBelowRanked(f, n);
      RankedChecks(f, rank, n);
      SubtreeOfKid(f, rank, n);
    }
  }

  // ---------------------------------------------------------------------------------------------
  // Termination on consistent forests
  // ---------------------------------------------------------------------------------------------

  lemma {:induction false} UpTimes(ps: Parents, x: JsonNode, k: nat, m: nat)
    requires Up(ps, x, k) == x
    ensures Up(ps, x, m * k) == x
    decreases m
  {
    if m > 0 {
      UpTimes(ps, x, k, m - 1);
      assert m * k == (m - 1) * k + k;
      UpAdd(ps, x, (m - 1) * k, k);
    }
  }

  /** Two nodes that are below themselves have different parents. */
  lemma CycleInjective(ps: Parents, x: JsonNode, y: JsonNode)
    requires x in ps && y in ps && OnCycle(ps, x) && OnCycle(ps, y) && ps[x] == ps[y]
    ensures x == y
  {
    var a: nat :| a > 0 && Up(ps, x, a) == x;
    var b: nat :| b > 0 && Up(ps, y, b) == y;
    UpTimes(ps, x, a, b);
    UpTimes(ps, y, b, a);
    assert a * b == b * a > 0;
    assert Up(ps, x, a * b) == Up(ps, ps[x], a * b - 1);
    assert Up(ps, y, a * b) == Up(ps, ps[y], a * b - 1);
  }

  /** What is above a node that is below itself is so, too. */
  lemma CycleAbove(ps: Parents, n: JsonNode, k: nat, i: nat)
    requires k > 0 && Up(ps, n, k) == n && i <= k
    ensures Up(ps, n, i) != null && OnCycle(ps, Up(ps, n, i))
  {
    var x := Up(ps, n, i);
    UpAdd(ps, n, i, k - i);
    UpAdd(ps, n, k, i);
    UpAdd(ps, x, k - i, i);
    NothingAbove(ps, k - i);
    OnCycleBy(ps, x, k);
  }

  lemma NothingAbove(ps: Parents, k: nat)
    ensures Up(ps, null, k) == null
  {
  }

  /** On a consistent forest whose strings are valid, json_check goes down from every node of a cycle to the
      next one. */
  lemma EntersOnCycle(f: Forest, p: JsonNode, c: JsonNode)
    requires Rep(f) && Arena(f.Keys) && p in f && c in f && f[c].parent == p && p != c
    requires OnCycle(ParentsOf(f), c) && f[p].parent != p && forall x | x in f :: ScalarsOk(x)
    ensures Enters(p, c, f.Keys)
  {
    assert WellFormedNode(f, c) && WellFormedNode(f, p);
    var kids := f[p].kids;
    var at :| 0 <= at < |kids| && kids[at] == c;
    RepListOk(f, p);
    assert KidOk(p, kids, 0);
    forall j | 0 <= j <= at ensures kids[j] != p && ChildPasses(p, p.head, kids[j]) {
      assert KidOf(f, p, kids[j]) && KidOk(p, kids, j);
      if j + 1 < |kids| {
        assert KidOk(p, kids, j + 1);
      }
    }
    forall j | 0 <= j < at ensures TreeOk(kids[j], f.Keys) {
      assert KidOf(f, p, kids[j]);
      SiblingOk(f, c, kids[j]);
    }
    assert EntersAt(p, f.Keys, at);
  }

  lemma SiblingOk(f: Forest, c: JsonNode, s: JsonNode)
    requires Rep(f) && c in f && s in f && s != c && f[s].parent == f[c].parent && OnCycle(ParentsOf(f), c)
    requires forall x | x in f :: ScalarsOk(x)
    ensures TreeOk(s, f.Keys)
  {
    hide *;
    RepWellFormed(f);
    ForestChecks(f, s);
    SubtreeScalars(f, s);
    SiblingOffCycle(f, c, s);
  }

  lemma SubtreeScalars(f: Forest, n: JsonNode)
    requires WellFormedForest(f) && n in f && forall x | x in f :: ScalarsOk(x)
    ensures AllScalarsOk(Subtree(f, n))
  {
    SubtreeExact(f, n);
    var s := Subtree(f, n);
    hide *;
    AllOk(f, s);
  }

  lemma AllOk(f: Forest, s: seq<JsonNode>)
    requires (forall i | 0 <= i < |s| :: s[i] in f) && forall x | x in f :: ScalarsOk(x)
    ensures AllScalarsOk(s)
  {
  }

  lemma SiblingOffCycle(f: Forest, c: JsonNode, s: JsonNode)
    requires c in f && s in f && s != c && f[s].parent == f[c].parent && OnCycle(ParentsOf(f), c)
    ensures !OnCycle(ParentsOf(f), s)
  {
    hide OnCycle;
    if OnCycle(ParentsOf(f), s) {
      CycleInjective(ParentsOf(f), c, s);
    }
  }

  /** On a consistent forest with valid strings json_check terminates if and only if the node is not below
      itself, or is its own parent. */
  lemma ForestHalts(f: Forest, n: JsonNode)
    requires Rep(f) && n in f && forall x | x in f :: ScalarsOk(x)
    ensures Arena(f.Keys)
    ensures Halts(n, f.Keys) <==> !OnCycle(ParentsOf(f), n) || f[n].parent == n
  {
    RepArena(f);
    HaltsExact(n, f.Keys);
    hide Halts;
    if Circles(n, f.Keys) {
      CircleIsCycle(n, f.Keys);
    }
    if OnCycle(ParentsOf(f), n) && f[n].parent != n {
      CycleCircles(f, n);
    }
  }

  lemma CycleCircles(f: Forest, n: JsonNode)
    requires Rep(f) && Arena(f.Keys) && HeapParents(f.Keys) == ParentsOf(f) && n in f && forall x | x in f :: ScalarsOk(x)
    requires OnCycle(ParentsOf(f), n) && f[n].parent != n
    ensures Circles(n, f.Keys)
  {
    var ps := ParentsOf(f);
    var k: nat :| k > 0 && Up(ps, n, k) == n;
    forall i: nat | i < k ensures StepDown(ps, n, f.Keys, i) {
      CycleStep(f, n, k, i);
    }
    assert CirclesIn(n, f.Keys, k);
  }

  lemma CycleStep(f: Forest, n: JsonNode, k: nat, i: nat)
    requires Rep(f) && Arena(f.Keys) && n in f && forall x | x in f :: ScalarsOk(x)
    requires Up(ParentsOf(f), n, k) == n && f[n].parent != n && i < k
    ensures StepDown(ParentsOf(f), n, f.Keys, i)
  {
    hide Rep, Arena, Up, OnCycle, Enters, ScalarsOk;
    CycleNodes(f, n, k, i);
    EntersOnCycle(f, Up(ParentsOf(f), n, i + 1), Up(ParentsOf(f), n, i));
  }

  /** A step of the cycle: two different nodes of the forest, neither of which is its own parent. */
  lemma CycleNodes(f: Forest, n: JsonNode, k: nat, i: nat)
    requires n in f && Up(ParentsOf(f), n, k) == n && f[n].parent != n && i < k
    ensures var c, p := Up(ParentsOf(f), n, i), Up(ParentsOf(f), n, i + 1);
            && c != null && c in f && p != null && p in f && f[c].parent == p && p != c && f[p].parent != p
            && OnCycle(ParentsOf(f), c)
  {
    var ps := ParentsOf(f);
    CycleAbove(ps, n, k, i);
    CycleAbove(ps, n, k, i + 1);
    UpAdd(ps, n, i, 1);
    UpAdd(ps, n, i + 1, 1);
    var c, p := Up(ps, n, i), Up(ps, n, i + 1);
    CycleInForest(ps, c);
    CycleInForest(ps, p);
    hide OnCycle;
    assert Up(ps, c, 1) == Up(ps, ps[c], 0) == p && Up(ps, p, 1) == Up(ps, ps[p], 0);
    if p == c {
      OwnParent(f, n, k, i);
    }
    if f[p].parent == p {
      OwnParent(f, n, k, i + 1);
    }
  }

  lemma CycleInForest(ps: Parents, x: JsonNode)
    requires OnCycle(ps, x)
    ensures x in ps
  {
  }

  /** A cycle through a node that is its own parent has no other node. */
  lemma OwnParent(f: Forest, n: JsonNode, k: nat, i: nat)
    requires Up(ParentsOf(f), n, k) == n && i <= k && n in f
    requires Up(ParentsOf(f), n, i) != null && Up(ParentsOf(f), n, i + 1) == Up(ParentsOf(f), n, i)
    ensures f[n].parent == n
  {
    var ps := ParentsOf(f);
    var x := Up(ps, n, i);
    UpAdd(ps, n, i, 1);
    UpTimes(ps, x, 1, k - i);
    UpAdd(ps, n, i, k - i);
    assert Up(ps, n, 1) == Up(ps, ps[n], 0);
  }

  /** After two arrays have been appended to each other, json_check of either does not terminate. */
  lemma MutualHangs(a: JsonNode, b: JsonNode, fuel: nat)
    requires a.tag == ArrayTag && b.tag == ArrayTag && a != b && Rep(Mutual(a, b))
    ensures Arena({a, b}) && Check(a, {a, b}, fuel) == None
  {
    var f := Mutual(a, b);
    assert f.Keys == {a, b};
    forall x | x in f ensures ScalarsOk(x) {
      assert Linked(f, Snapshot(f), x) && Snapshot(f)[x] == LinksOf(x);
    }
    var ps := ParentsOf(f);
    assert Up(ps, a, 2) == Up(ps, b, 1) == a;
    OnCycleBy(ps, a, 2);
    hide Rep, Check;
    ForestHalts(f, a);
  }

  /** After an array has been appended to itself, json_check terminates and does not accept it. */
  lemma SelfishFails(a: JsonNode)
    requires a.tag == ArrayTag && Rep(Selfish(a))
    ensures Arena({a}) && !Circles(a, {a}) && !TreeOk(a, {a})
  {
    var f := Selfish(a);
    assert f.Keys == {a};
    assert Linked(f, Snapshot(f), a) && Snapshot(f)[a] == LinksOf(a);
    assert a.parent == a;
    var ps := ParentsOf(f);
    assert Up(ps, a, 1) == a;
    OnCycleBy(ps, a, 1);
    hide Circles, TreeOk;
    RepArena(f);
    RepWellFormed(f);
    ForestChecks(f, a);
    if Circles(a, {a}) {
      CircleIsCycle(a, {a});
    }
  }
}
