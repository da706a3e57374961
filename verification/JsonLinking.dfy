/**
 What the linking interface of json.c does, said in terms of lists of children and of pointers: the laws
 that determine `Step`, `StepAll` and the order of `Subtree`, what a consistent heap looks like, and which nodes
 a value is stored in.
 */
module JsonLinking {
  import opened Options
  import opened Chars
  import opened JsonGrammar
  import opened JsonNodes
  import opened JsonTree
  import opened JsonBuilder

  // ---------------------------------------------------------------------------------------------
  // Pointers
  // ---------------------------------------------------------------------------------------------

  /** The pointers of a node of a consistent heap. */
  lemma NodePointers(f: Forest, n: JsonNode)
    requires Rep(f) && n in f
    ensures n.parent == f[n].parent && n.key == f[n].key
    ensures n.parent == null ==> n.prev == null && n.next == null
    ensures n.parent != null ==> n.parent in f && n in f[n.parent].kids
    ensures f[n].kids != [] ==> n.tag == ArrayTag || n.tag == ObjectTag
    ensures n.tag == ArrayTag || n.tag == ObjectTag ==>
      if f[n].kids == [] then n.head == null && n.tail == null
      else n.head == f[n].kids[0] && n.tail == f[n].kids[|f[n].kids| - 1]
  {
    assert WellFormedNode(f, n) && Linked(f, Snapshot(f), n) && Snapshot(f)[n] == LinksOf(n);
  }

  /** The pointers of the children: the list in both directions, the parent, and a key exactly in objects. */
  lemma KidPointers(f: Forest, n: JsonNode, i: nat)
    requires Rep(f) && n in f && i < |f[n].kids|
    ensures var kids := f[n].kids;
      && kids[i] in f && kids[i].parent == n && kids[i].key.Some? == (n.tag == ObjectTag)
      && kids[i].prev == (if i == 0 then null else kids[i - 1])
      && kids[i].next == (if i == |kids| - 1 then null else kids[i + 1])
      && forall j | 0 <= j < |kids| && j != i :: kids[j] != kids[i]
  {
    var h, kid := Snapshot(f), f[n].kids[i];
    assert WellFormedNode(f, n) && KidOf(f, n, kid) && Linked(f, h, n) && Linked(f, h, kid) && h[kid] == LinksOf(kid);
    assert KidLinked(h, f[n].kids, i);
  }

  /** A value is stored in the tags, the scalar members, the order of the children and their keys. */
  lemma ValuePointers(f: Forest, n: JsonNode, v: Json)
    requires Rep(f) && n in f
    ensures Denotes(f, n, v) <==>
      match v
      case Null => n.tag == NullTag
      case Bool(b) => n.tag == BoolTag && n.flag == b
      case Str(s) => n.tag == StringTag && n.str == s
      case Num(t) => n.tag == NumberTag && n.number == t
      case Arr(vs) =>
        n.tag == ArrayTag && |f[n].kids| == |vs| && forall i | 0 <= i < |vs| :: Denotes(f, f[n].kids[i], vs[i])
      case Obj(ms) =>
        && n.tag == ObjectTag && |f[n].kids| == |ms|
        && forall i | 0 <= i < |ms| :: f[n].kids[i].key == Some(ms[i].key) && Denotes(f, f[n].kids[i], ms[i].value)
  {
    hide Rep;
    forall i | 0 <= i < |f[n].kids| ensures f[n].kids[i] in f && f[n].kids[i].key == f[f[n].kids[i]].key {
      KidPointers(f, n, i);
      NodePointers(f, f[n].kids[i]);
    }
  }

  // ---------------------------------------------------------------------------------------------
  // One call
  // ---------------------------------------------------------------------------------------------

  /** json_append_element and json_append_member: the child comes last. */
  lemma AppendEffect(f: Forest, p: JsonNode, c: JsonNode, key: Text)
    requires WellFormedForest(f) && p in f && c in f && (p.tag == ArrayTag || p.tag == ObjectTag) && f[c].parent == null
    ensures Legal(f, Append(p, c, key))
    ensures var f' := Step(f, Append(p, c, key));
      && f'.Keys == f.Keys
      && f'[p].kids == f[p].kids + [c] && (forall n | n in f && n != p :: f'[n].kids == f[n].kids)
      && f'[c].parent == p && f'[c].key == (if p.tag == ObjectTag then Some(key) else None)
      && forall n | n in f && n != c :: f'[n].parent == f[n].parent && f'[n].key == f[n].key
  {
  }

  /** json_prepend_element and json_prepend_member: the child comes first. */
  lemma PrependEffect(f: Forest, p: JsonNode, c: JsonNode, key: Text)
    requires WellFormedForest(f) && p in f && c in f && (p.tag == ArrayTag || p.tag == ObjectTag) && f[c].parent == null
    ensures Legal(f, Prepend(p, c, key))
    ensures var f' := Step(f, Prepend(p, c, key));
      && f'.Keys == f.Keys
      && f'[p].kids == [c] + f[p].kids && (forall n | n in f && n != p :: f'[n].kids == f[n].kids)
      && f'[c].parent == p && f'[c].key == (if p.tag == ObjectTag then Some(key) else None)
      && forall n | n in f && n != c :: f'[n].parent == f[n].parent && f'[n].key == f[n].key
  {
  }

  /** json_remove_from_parent: the list closes over the gap, and the node becomes a root without a key. */
  lemma RemoveEffect(f: Forest, n: JsonNode) returns (at: nat)
    requires WellFormedForest(f) && n in f
    ensures Legal(f, Remove(n))
    ensures f[n].parent == null ==> Step(f, Remove(n)) == f
    ensures f[n].parent != null ==>
      var p, f' := f[n].parent, Step(f, Remove(n));
      && p in f && f'.Keys == f.Keys
      && at < |f[p].kids| && f[p].kids[at] == n && f'[p].kids == f[p].kids[..at] + f[p].kids[at + 1..]
      && (forall m | m in f && m != p :: f'[m].kids == f[m].kids)
      && f'[n].parent == null && f'[n].key == None
      && forall m | m in f && m != n :: f'[m].parent == f[m].parent && f'[m].key == f[m].key
  {
    at := if f[n].parent == null then 0 else Position(f, n);
  }

  // ---------------------------------------------------------------------------------------------
  // Runs
  // ---------------------------------------------------------------------------------------------

  /** A run is its calls one after the other. */
  lemma {:induction false} RunInOrder(f: Forest, ops: seq<Op>, more: seq<Op>)
    requires WellFormedForest(f) && LegalRun(f, ops) && WellFormedForest(StepAll(f, ops)) && LegalRun(StepAll(f, ops), more)
    ensures StepAll(f, []) == f
    ensures LegalRun(f, ops + more) && StepAll(f, ops + more) == StepAll(StepAll(f, ops), more)
    decreases |ops|
  {
    if ops == [] {
      assert ops + more == more;
    } else {
      StepWellFormed(f, ops[0]);
      RunInOrder(Step(f, ops[0]), ops[1..], more);
      assert (ops + more)[0] == ops[0] && (ops + more)[1..] == ops[1..] + more;
    }
  }

  lemma RunOfOne(f: Forest, op: Op)
    requires WellFormedForest(f) && Legal(f, op)
    ensures LegalRun(f, [op]) && StepAll(f, [op]) == Step(f, op) && WellFormedForest(Step(f, op))
  {
    SingleStep(f, op);
    StepWellFormed(f, op);
  }

  ghost function Appends(p: JsonNode, cs: seq<JsonNode>, keys: seq<Text>): (ops: seq<Op>)
    requires |cs| == |keys|
    ensures |ops| == |cs| && forall i | 0 <= i < |cs| :: ops[i] == Append(p, cs[i], keys[i])
  {
    seq(|cs|, i requires 0 <= i < |cs| => Append(p, cs[i], keys[i]))
  }

  /** Appending one node after the other to a container, as the handlers build their replies: the children
      stand in the order of the calls, with the keys that were given, behind those that were there. */
  lemma {:induction false} AppendsInOrder(f: Forest, p: JsonNode, cs: seq<JsonNode>, keys: seq<Text>)
    requires WellFormedForest(f) && |cs| == |keys| && p in f && (p.tag == ArrayTag || p.tag == ObjectTag)
    requires forall i | 0 <= i < |cs| :: cs[i] in f && f[cs[i]].parent == null
    requires forall i, j | 0 <= i < j < |cs| :: cs[i] != cs[j]
    ensures LegalRun(f, Appends(p, cs, keys))
    ensures var f' := StepAll(f, Appends(p, cs, keys));
      && f'.Keys == f.Keys
      && f'[p].kids == f[p].kids + cs && (forall n | n in f && n != p :: f'[n].kids == f[n].kids)
      && (forall i | 0 <= i < |cs| :: f'[cs[i]].parent == p && f'[cs[i]].key == if p.tag == ObjectTag then Some(keys[i]) else None)
      && forall n | n in f && n !in cs :: f'[n].parent == f[n].parent && f'[n].key == f[n].key
  {
    hide *;
    AppendsAt(f, p, cs, keys, p);
    forall n | n in f
      ensures n in StepAll(f, Appends(p, cs, keys))
      ensures n != p ==> StepAll(f, Appends(p, cs, keys))[n].kids == f[n].kids
    {
      AppendsAt(f, p, cs, keys, n);
    }
    forall i | 0 <= i < |cs|
      ensures StepAll(f, Appends(p, cs, keys))[cs[i]].parent == p
      ensures StepAll(f, Appends(p, cs, keys))[cs[i]].key == if p.tag == ObjectTag then Some(keys[i]) else None
    {
      AppendsAt(f, p, cs, keys, cs[i]);
    }
    forall n | n in f && n !in cs
      ensures StepAll(f, Appends(p, cs, keys))[n].parent == f[n].parent && StepAll(f, Appends(p, cs, keys))[n].key == f[n].key
    {
      AppendsAt(f, p, cs, keys, n);
    }
  }

  /** What the calls do to one node. */
  lemma {:induction false} AppendsAt(f: Forest, p: JsonNode, cs: seq<JsonNode>, keys: seq<Text>, n: JsonNode)
    requires WellFormedForest(f) && |cs| == |keys| && p in f && (p.tag == ArrayTag || p.tag == ObjectTag) && n in f
    requires forall i | 0 <= i < |cs| :: cs[i] in f && f[cs[i]].parent == null
    requires forall i, j | 0 <= i < j < |cs| :: cs[i] != cs[j]
    ensures LegalRun(f, Appends(p, cs, keys))
    ensures var f' := StepAll(f, Appends(p, cs, keys));
      && f'.Keys == f.Keys
      && f'[n].kids == (if n == p then f[n].kids + cs else f[n].kids)
      && (forall i | 0 <= i < |cs| && cs[i] == n ::
            f'[n].parent == p && f'[n].key == if p.tag == ObjectTag then Some(keys[i]) else None)
      && (n !in cs ==> f'[n].parent == f[n].parent && f'[n].key == f[n].key)
    decreases |cs|
  {
    hide *;
    if cs == [] {
      NoCalls(f, Appends(p, cs, keys));
    } else {
      FirstAppend(f, p, cs, keys);
      AppendEffect(f, p, cs[0], keys[0]);
      var f1 := Step(f, Append(p, cs[0], keys[0]));
      AppendsAt(f1, p, cs[1..], keys[1..], n);
      assert n in cs ==> n == cs[0] || n in cs[1..];
      assert f[p].kids + [cs[0]] + cs[1..] == f[p].kids + cs;
      forall i | 0 <= i < |cs| && cs[i] == n
        ensures StepAll(f, Appends(p, cs, keys))[n].parent == p
        ensures StepAll(f, Appends(p, cs, keys))[n].key == if p.tag == ObjectTag then Some(keys[i]) else None
      {
        if i > 0 {
          assert cs[1..][i - 1] == n && keys[1..][i - 1] == keys[i];
        } else {
          assert n !in cs[1..];
        }
      }
    }
  }

  lemma FirstAppend(f: Forest, p: JsonNode, cs: seq<JsonNode>, keys: seq<Text>)
    requires WellFormedForest(f) && |cs| == |keys| && p in f && (p.tag == ArrayTag || p.tag == ObjectTag) && cs != []
    requires forall i | 0 <= i < |cs| :: cs[i] in f && f[cs[i]].parent == null
    requires forall i, j | 0 <= i < j < |cs| :: cs[i] != cs[j]
    ensures Legal(f, Append(p, cs[0], keys[0]))
    ensures var f1, rest := Step(f, Append(p, cs[0], keys[0])), Appends(p, cs[1..], keys[1..]);
      && WellFormedForest(f1) && f1.Keys == f.Keys
      && (forall i | 0 <= i < |cs| - 1 :: cs[1..][i] in f1 && f1[cs[1..][i]].parent == null)
      && (LegalRun(f1, rest) ==> LegalRun(f, Appends(p, cs, keys)) && StepAll(f, Appends(p, cs, keys)) == StepAll(f1, rest))
  {
    hide *;
    AppendEffect(f, p, cs[0], keys[0]);
    RunCons(f, Append(p, cs[0], keys[0]), Appends(p, cs[1..], keys[1..]));
    assert Appends(p, cs, keys) == [Append(p, cs[0], keys[0])] + Appends(p, cs[1..], keys[1..]);
  }

  lemma NoCalls(f: Forest, ops: seq<Op>)
    requires WellFormedForest(f) && ops == []
    ensures LegalRun(f, ops) && StepAll(f, ops) == f
  {
  }

  lemma RunCons(f: Forest, op: Op, ops: seq<Op>)
    requires WellFormedForest(f) && Legal(f, op)
    ensures WellFormedForest(Step(f, op))
    ensures LegalRun(Step(f, op), ops) ==> LegalRun(f, [op] + ops) && StepAll(f, [op] + ops) == StepAll(Step(f, op), ops)
  {
    StepWellFormed(f, op);
    assert ([op] + ops)[1..] == ops;
  }

  // ---------------------------------------------------------------------------------------------
  // The order of freeing
  // ---------------------------------------------------------------------------------------------

  /** json_delete frees the subtrees of the children of a node in the order of the list, and the node last. */
  lemma SiblingsInOrder(f: Forest, n: JsonNode, i: nat, j: nat)
      returns (before: seq<JsonNode>, between: seq<JsonNode>, after: seq<JsonNode>)
    requires WellFormedForest(f) && n in f && WellFormedForest(Detached(f, n)) && n in Detached(f, n)
    requires i < j < |Detached(f, n)[n].kids|
    ensures var g := Detached(f, n);
            var a, b := g[n].kids[i], g[n].kids[j];
            && a in g && b in g
            && Subtree(f, n) == before + Subtree(g, a) + between + Subtree(g, b) + after + [n]
  {
    hide *;
    var g, kids := Detached(f, n), Detached(f, n)[n].kids;
    DetachedRoot(f, n);
    RankBelowRanked(g, n);
    var rank := RankBelow(g, n);
    RankedAt(g, rank, n, i);
    RankedAt(g, rank, n, j);
    SubtreeOfKid(g, rank, kids[i]);
    SubtreeOfKid(g, rank, kids[j]);
    SubtreeTop(f, n);
    before, between, after := TwoSplits(g, rank, kids, rank[n], i, j);
  }

  lemma RankedAt(f: Forest, rank: Ranks, n: JsonNode, i: nat)
    requires Ranked(f, rank) && n in f && n in rank && i < |f[n].kids|
    ensures RankedKids(f, rank, f[n].kids, rank[n]) && f[n].kids[i] in f && f[n].kids[i] in rank
  {
    assert RankedNode(f, rank, n);
  }

  lemma SubtreeTop(f: Forest, n: JsonNode)
    requires WellFormedForest(f) && n in f
    ensures var g, rank := Detached(f, n), RankBelow(Detached(f, n), n);
      && n in g && n in rank && Ranked(g, rank) && RankedKids(g, rank, g[n].kids, rank[n])
      && Subtree(f, n) == PostOrders(g, rank, g[n].kids, rank[n]) + [n]
  {
    DetachedRoot(f, n);
    var g, rank := Detached(f, n), RankBelow(Detached(f, n), n);
    RankBelowRanked(g, n);
    assert RankedNode(g, rank, n);
    hide Detached, RankBelow, Ranked, RankedKids, WellFormedForest;
  }

  lemma TwoSplits(f: Forest, rank: Ranks, kids: seq<JsonNode>, r: nat, i: nat, j: nat)
      returns (before: seq<JsonNode>, between: seq<JsonNode>, after: seq<JsonNode>)
    requires Ranked(f, rank) && RankedKids(f, rank, kids, r) && i < j < |kids|
    ensures kids[i] in f && kids[j] in f && kids[i] in rank && kids[j] in rank
    ensures PostOrders(f, rank, kids, r)
         == before + PostOrder(f, rank, kids[i]) + between + PostOrder(f, rank, kids[j]) + after
  {
    hide PostOrder, PostOrders, Ranked;
    var rest;
    before, rest := SplitAt(f, rank, kids, r, i);
    between, after := SplitAt(f, rank, kids[i + 1..], r, j - i - 1);
    assert kids[i + 1..][j - i - 1] == kids[j];
    assert rest == between + PostOrder(f, rank, kids[j]) + after;
  }

  lemma {:induction false} SplitAt(f: Forest, rank: Ranks, kids: seq<JsonNode>, r: nat, i: nat)
      returns (before: seq<JsonNode>, after: seq<JsonNode>)
    requires Ranked(f, rank) && RankedKids(f, rank, kids, r) && i < |kids|
    ensures RankedKids(f, rank, kids[i + 1..], r)
    ensures PostOrders(f, rank, kids, r) == before + PostOrder(f, rank, kids[i]) + after
    ensures after == PostOrders(f, rank, kids[i + 1..], r)
    decreases i
  {
    if i == 0 {
      before, after := [], PostOrders(f, rank, kids[1..], r);
    } else {
      before, after := SplitAt(f, rank, kids[1..], r, i - 1);
      before := PostOrder(f, rank, kids[0]) + before;
      assert kids[1..][i..] == kids[i + 1..];
    }
  }
}
