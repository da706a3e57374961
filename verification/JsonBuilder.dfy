/**
 parse_value, parse_array and parse_object on the heap: in the building mode they make nodes and link
 them, and a failed parse deletes what it has made.
 */
module JsonBuilder {
  import opened Options
  import opened Chars
  import opened JsonGrammar
  import opened JsonNodes
  import opened JsonTree
  import opened JsonReader
  import P = JsonParser

  // ---------------------------------------------------------------------------------------------
  // The value of a node
  // ---------------------------------------------------------------------------------------------

  /** The subtree of `n` is the value `v`. */
  ghost predicate Denotes(f: Forest, n: JsonNode, v: Json)
    decreases v
  {
    && n in f
    && match v
       case Null => n.tag == NullTag
       case Bool(b) => n.tag == BoolTag && n.flag == b
       case Str(s) => n.tag == StringTag && n.str == s
       case Num(t) => n.tag == NumberTag && n.number == t
       case Arr(vs) =>
         && n.tag == ArrayTag && |f[n].kids| == |vs|
         && forall i | 0 <= i < |vs| :: Denotes(f, f[n].kids[i], vs[i])
       case Obj(ms) =>
         && n.tag == ObjectTag && |f[n].kids| == |ms|
         && forall i | 0 <= i < |ms| ::
              && f[n].kids[i] in f && f[f[n].kids[i]].key == Some(ms[i].key)
              && Denotes(f, f[n].kids[i], ms[i].value)
  }

  /** The forest of one freshly made tree: `n` is its only root. */
  ghost predicate Single(f: Forest, rank: Ranks, n: JsonNode) {
    && n in f && n in rank && f[n].parent == null && f[n].key == None && Ranked(f, rank)
    && forall x | x in f && x != n :: f[x].parent != null
  }

  /** `g` has everything that `f` says below the roots of `f`, except for `top`. */
  ghost predicate Extends(f: Forest, g: Forest, top: JsonNode) {
    forall x | x in f && x != top ::
      x in g && g[x].kids == f[x].kids && (f[x].parent != null ==> g[x].key == f[x].key)
  }

  lemma {:induction false} DenotesFrame(f: Forest, g: Forest, top: JsonNode, n: JsonNode, v: Json)
    requires WellFormedForest(f) && Extends(f, g, top) && n in f && n != top
    requires top in f ==> f[top].parent == null
    requires Denotes(f, n, v)
    ensures Denotes(g, n, v)
    decreases v
  {
    assert WellFormedNode(f, n);
    match v
    case Arr(vs) =>
      forall i | 0 <= i < |vs| ensures Denotes(g, f[n].kids[i], vs[i]) {
        assert KidOf(f, n, f[n].kids[i]);
        DenotesFrame(f, g, top, f[n].kids[i], vs[i]);
      }
    case Obj(ms) =>
      forall i | 0 <= i < |ms|
        ensures f[n].kids[i] in g && g[f[n].kids[i]].key == Some(ms[i].key) && Denotes(g, f[n].kids[i], ms[i].value)
      {
        assert KidOf(f, n, f[n].kids[i]);
        DenotesFrame(f, g, top, f[n].kids[i], ms[i].value);
      }
    case _ =>
  }

  // ---------------------------------------------------------------------------------------------
  // Putting forests together
  // ---------------------------------------------------------------------------------------------

  lemma UnionConsistent(f: Forest, g: Forest, h: Heap, h': Heap)
    requires Consistent(f, h) && Consistent(g, h') && f.Keys !! g.Keys
    ensures Consistent(f + g, h + h')
  {
    forall n | n in f + g ensures WellFormedNode(f + g, n) && Linked(f + g, h + h', n) {
      var a, k := if n in g then g else f, if n in g then h' else h;
      assert WellFormedNode(a, n) && Linked(a, k, n);
      forall i | 0 <= i < |a[n].kids| ensures KidOf(f + g, n, a[n].kids[i]) {
        assert KidOf(a, n, a[n].kids[i]);
      }
      forall i | 0 <= i < |a[n].kids| && Container(n.tag) ensures KidLinked(h + h', a[n].kids, i) {
        assert KidLinked(k, a[n].kids, i);
      }
    }
  }

  lemma UnionRep(f: Forest, g: Forest)
    requires Rep(f) && Rep(g) && f.Keys !! g.Keys
    ensures Rep(f + g)
  {
    UnionConsistent(f, g, Snapshot(f), Snapshot(g));
    assert Snapshot(f + g) == Snapshot(f) + Snapshot(g);
  }

  /** A new node is a forest by itself. */
  lemma NewRep(n: JsonNode) returns (f: Forest, rank: Ranks)
    requires n.parent == n.prev == n.next == n.head == n.tail == null && n.key == None
    ensures f == map[n := ROOT] && rank == map[n := 0] && Rep(f) && Single(f, rank, n)
  {
    f, rank := map[n := ROOT], map[n := 0];
    assert WellFormedNode(f, n) && Linked(f, Snapshot(f), n) && RankedNode(f, rank, n);
  }

  /** The rank after another tree has been put below `top`. */
  ghost function JoinedRank(rank: Ranks, rank': Ranks, top: JsonNode, c: JsonNode): Ranks
    requires top in rank && c in rank'
  {
    (rank + rank')[top := if rank[top] > rank'[c] then rank[top] else rank'[c] + 1]
  }

  /** What one round of the loop of parse_array or parse_object does to the forest. */
  lemma Joined(f: Forest, rank: Ranks, top: JsonNode, g: Forest, rank': Ranks, c: JsonNode, key: Option<Text>)
    requires WellFormedForest(f) && WellFormedForest(g) && f.Keys !! g.Keys && f.Keys == rank.Keys && g.Keys == rank'.Keys
    requires Single(f, rank, top) && Single(g, rank', c) && Container(top.tag) && (key.Some? <==> top.tag == ObjectTag)
    ensures var u := Keyed(f + g, c, key);
            && CanInsert(u, top, c) && u[top].kids == f[top].kids
            && var f' := Inserted(u, top, c, |u[top].kids|);
            && f'.Keys == f.Keys + g.Keys == JoinedRank(rank, rank', top, c).Keys
            && Single(f', JoinedRank(rank, rank', top, c), top)
            && f'[top].kids == f[top].kids + [c] && f'[c].key == key
            && Extends(f, f', top) && Extends(g, f', top)
  {
    var u := Keyed(f + g, c, key);
    var f' := Inserted(u, top, c, |u[top].kids|);
    assert f'[top].kids == f[top].kids + [c];
    JoinedRanked(f, rank, top, g, rank', c, f');
  }

  lemma JoinedRanked(f: Forest, rank: Ranks, top: JsonNode, g: Forest, rank': Ranks, c: JsonNode, f': Forest)
    requires WellFormedForest(f) && WellFormedForest(g) && f.Keys !! g.Keys && f.Keys == rank.Keys && g.Keys == rank'.Keys
    requires Single(f, rank, top) && Single(g, rank', c)
    requires f'.Keys == f.Keys + g.Keys && f'[top].kids == f[top].kids + [c]
    requires Extends(f, f', top) && Extends(g, f', top)
    ensures Ranked(f', JoinedRank(rank, rank', top, c))
  {
    var r := JoinedRank(rank, rank', top, c);
    forall n | n in f' ensures RankedNode(f', r, n) {
      if n in f {
        assert RankedNode(f, rank, n) && WellFormedNode(f, n);
        forall i | 0 <= i < |f[n].kids| ensures f[n].kids[i] in f && f[n].kids[i] != top {
          assert KidOf(f, n, f[n].kids[i]);
        }
      } else {
        assert RankedNode(g, rank', n) && WellFormedNode(g, n);
        forall i | 0 <= i < |g[n].kids| ensures g[n].kids[i] in g {
          assert KidOf(g, n, g[n].kids[i]);
        }
      }
    }
  }

  lemma JoinedElems(f: Forest, top: JsonNode, g: Forest, c: JsonNode, f': Forest, vs: seq<Json>, v: Json)
    requires WellFormedForest(f) && WellFormedForest(g) && top in f && f[top].parent == null && c in g && top !in g
    requires Extends(f, f', top) && Extends(g, f', top) && top in f' && f'[top].kids == f[top].kids + [c]
    requires Denotes(f, top, Arr(vs)) && Denotes(g, c, v)
    ensures Denotes(f', top, Arr(vs + [v]))
  {
    assert WellFormedNode(f, top);
    DenotesFrame(g, f', top, c, v);
    forall i | 0 <= i < |vs| ensures Denotes(f', f[top].kids[i], vs[i]) {
      assert KidOf(f, top, f[top].kids[i]) && WellFormedNode(f, f[top].kids[i]);
      DenotesFrame(f, f', top, f[top].kids[i], vs[i]);
    }
  }

  lemma JoinedMembers(f: Forest, top: JsonNode, g: Forest, c: JsonNode, f': Forest, ms: seq<Member>, m: Member)
    requires WellFormedForest(f) && WellFormedForest(g) && top in f && f[top].parent == null && c in g && top !in g
    requires Extends(f, f', top) && Extends(g, f', top) && top in f' && f'[top].kids == f[top].kids + [c]
    requires c in f' && f'[c].key == Some(m.key)
    requires Denotes(f, top, Obj(ms)) && Denotes(g, c, m.value)
    ensures Denotes(f', top, Obj(ms + [m]))
  {
    assert WellFormedNode(f, top);
    DenotesFrame(g, f', top, c, m.value);
    forall i | 0 <= i < |ms|
      ensures f[top].kids[i] in f' && f'[f[top].kids[i]].key == Some(ms[i].key) && Denotes(f', f[top].kids[i], ms[i].value)
    {
      assert KidOf(f, top, f[top].kids[i]) && WellFormedNode(f, f[top].kids[i]);
      DenotesFrame(f, f', top, f[top].kids[i], ms[i].value);
    }
  }

  /** A tree that was built, with its value. */
  ghost predicate Built(f: Forest, rank: Ranks, n: JsonNode, v: Json)
    reads f.Keys
  {
    Rep(f) && rank.Keys == f.Keys && Single(f, rank, n) && Denotes(f, n, v)
  }

  /** Putting a finished element behind those an array already has. */
  method AddElement(top: JsonNode, element: JsonNode, ghost f: Forest, ghost rank: Ranks, ghost vs: seq<Json>,
                    ghost g: Forest, ghost rank': Ranks, ghost v: Json)
      returns (ghost f': Forest, ghost r: Ranks)
    requires Built(f, rank, top, Arr(vs)) && Built(g, rank', element, v) && f.Keys !! g.Keys
    modifies f.Keys, g.Keys
    ensures Built(f', r, top, Arr(vs + [v])) && f'.Keys == f.Keys + g.Keys
  {
    ElementReady(f, rank, top, g, rank', element, vs, v);
    hide *;
    f' := AppendNode(top, element, f + g);
    r := JoinedRank(rank, rank', top, element);
    f' := ConsBuilt(f', r, top, Arr(vs + [v]));
  }

  ghost function ConsBuilt(f: Forest, rank: Ranks, n: JsonNode, v: Json): (f': Forest)
    requires Rep(f) && rank.Keys == f.Keys && Single(f, rank, n) && Denotes(f, n, v)
    reads f.Keys
    ensures f' == f && Built(f', rank, n, v)
  {
    f
  }

  lemma ElementReady(f: Forest, rank: Ranks, top: JsonNode, g: Forest, rank': Ranks, c: JsonNode, vs: seq<Json>, v: Json)
    requires Built(f, rank, top, Arr(vs)) && Built(g, rank', c, v) && f.Keys !! g.Keys
    ensures top in rank && c in rank' && top in f && top in f + g
    ensures Rep(f + g) && CanInsert(f + g, top, c)
    ensures var f' := Inserted(f + g, top, c, |(f + g)[top].kids|);
            var r := JoinedRank(rank, rank', top, c);
            f'.Keys == r.Keys == f.Keys + g.Keys && Single(f', r, top) && Denotes(f', top, Arr(vs + [v]))
  {
    RepWellFormed(f);
    RepWellFormed(g);
    UnionRep(f, g);
    Joined(f, rank, top, g, rank', c, None);
    assert Keyed(f + g, c, None) == f + g;
    var f' := Inserted(f + g, top, c, |(f + g)[top].kids|);
    hide Rep, WellFormedForest, Denotes, Extends, Inserted;
    JoinedElems(f, top, g, c, f', vs, v);
  }

  /** append_member with a finished value. */
  method AddMember(top: JsonNode, value: JsonNode, key: Text, ghost f: Forest, ghost rank: Ranks, ghost ms: seq<Member>,
                   ghost g: Forest, ghost rank': Ranks, ghost v: Json)
      returns (ghost f': Forest, ghost r: Ranks)
    requires Built(f, rank, top, Obj(ms)) && Built(g, rank', value, v) && f.Keys !! g.Keys
    modifies f.Keys, g.Keys
    ensures Built(f', r, top, Obj(ms + [Member(key, v)])) && f'.Keys == f.Keys + g.Keys
  {
    MemberReady(f, rank, top, g, rank', value, key, ms, v);
    hide *;
    f' := SetKey(value, key, f + g);
    f' := AppendNode(top, value, f');
    r := JoinedRank(rank, rank', top, value);
    f' := ConsBuilt(f', r, top, Obj(ms + [Member(key, v)]));
  }

  lemma MemberReady(f: Forest, rank: Ranks, top: JsonNode, g: Forest, rank': Ranks, c: JsonNode, key: Text,
                    ms: seq<Member>, v: Json)
    requires Built(f, rank, top, Obj(ms)) && Built(g, rank', c, v) && f.Keys !! g.Keys
    ensures top in rank && c in rank' && top in f && c in f + g && (f + g)[c].parent == null
    ensures Rep(f + g)
    ensures var u := Keyed(f + g, c, Some(key));
            && CanInsert(u, top, c) && u.Keys == f.Keys + g.Keys
            && var f' := Inserted(u, top, c, |u[top].kids|);
            var r := JoinedRank(rank, rank', top, c);
            f'.Keys == r.Keys == f.Keys + g.Keys && Single(f', r, top) && Denotes(f', top, Obj(ms + [Member(key, v)]))
  {
    RepWellFormed(f);
    RepWellFormed(g);
    UnionRep(f, g);
    Joined(f, rank, top, g, rank', c, Some(key));
    var u := Keyed(f + g, c, Some(key));
    var f' := Inserted(u, top, c, |u[top].kids|);
    hide Rep, WellFormedForest, Denotes, Extends, Inserted;
    JoinedMembers(f, top, g, c, f', ms, Member(key, v));
  }

  // ---------------------------------------------------------------------------------------------
  // Nothing is left behind
  // ---------------------------------------------------------------------------------------------

  /** The subtree of the only root is the whole forest. */
  lemma {:induction false} Spans(f: Forest, rank: Ranks, n: JsonNode, x: JsonNode)
    requires WellFormedForest(f) && Single(f, rank, n) && rank.Keys == f.Keys && x in f
    ensures x in PostOrder(f, rank, n)
    decreases set y | y in f && rank[y] > rank[x]
  {
    if x != n {
      var p := f[x].parent;
      assert WellFormedNode(f, x);
      ParentRank(f, rank, x);
      var above, above' := set y | y in f && rank[y] > rank[x], set y | y in f && rank[y] > rank[p];
      assert p in above && p !in above' && above' <= above;
      Spans(f, rank, n, p);
      assert WellFormedNode(f, x);
      var i :| 0 <= i < |f[p].kids| && f[p].kids[i] == x;
      Closed(f, rank, n, p, i);
    }
  }

  lemma DeletedIsEmpty(f: Forest, rank: Ranks, n: JsonNode)
    requires WellFormedForest(f) && Single(f, rank, n) && rank.Keys == f.Keys
    ensures Deleted(f, n) == map[] && Elements(Subtree(f, n)) == f.Keys
  {
    assert Detached(f, n) == f;
    SubtreeOfRoot(f, rank, n);
    forall x | x in f ensures x in PostOrder(f, rank, n) {
      Spans(f, rank, n, x);
    }
    forall x | x in PostOrder(f, rank, n) ensures x in f {
      JsonTree.Member(f, rank, n, x);
    }
  }

  /** json_delete of a whole tree, as on the failure exits of parse_array, parse_object and json_decode.
      What is left alive is what was alive beside the tree. */
  method DeleteTree(ret: JsonNode?, store: Allocator, ghost others: set<JsonNode>, ghost f: Forest,
                    ghost rank: Ranks, ghost build: bool, ghost v: Json)
      returns (ghost f': Forest)
    requires if build then ret != null && Built(f, rank, ret, v) else ret == null && f == map[]
    requires store.live == others + f.Keys && others !! f.Keys
    modifies f.Keys, store
    ensures f' == map[] && store.live == others
    ensures !build ==> store.freed == old(store.freed)
  {
    f' := map[];
    if ret != null {
      RepWellFormed(f);
      DeletedIsEmpty(f, rank, ret);
      f' := JsonDelete(ret, store, f);
    }
  }

  // ---------------------------------------------------------------------------------------------
  // The recursive descent
  // ---------------------------------------------------------------------------------------------

  /** What a parsing method hands back: in the building mode a success is a tree of new nodes for the
      parsed value; otherwise no node is left alive. */
  ghost predicate Outcome(r: Parsed<Json>, build: bool, ok: bool, k: nat, node: JsonNode?, f: Forest, rank: Ranks)
    reads f.Keys
  {
    && (ok <==> r.Ok?)
    && (ok ==> k == r.next)
    && (if ok && build then node != null && Built(f, rank, node, r.value) else f == map[])
  }

  method MakeScalar(store: Allocator, build: bool, tag: Tag, flag: bool, str: Text, number: Text, ghost v: Json)
      returns (node: JsonNode?, ghost f: Forest, ghost rank: Ranks)
    requires match v
             case Null => tag == NullTag
             case Bool(b) => tag == BoolTag && flag == b
             case Str(s) => tag == StringTag && (build ==> str == s)
             case Num(t) => tag == NumberTag && number == t
             case Arr(vs) => tag == ArrayTag && vs == []
             case Obj(ms) => tag == ObjectTag && ms == []
    modifies store
    ensures fresh(f.Keys) && store.live == old(store.live) + f.Keys && store.freed == old(store.freed)
    ensures if build then node != null && Built(f, rank, node, v) else node == null && f == map[]
  {
    node, f, rank := null, map[], map[];
    if build {
      node := store.Alloc(tag, flag, str, number);
      f, rank := NewRep(node);
    }
  }

  /** parse_value */
  method ParseValue(t: Text, i: nat, store: Allocator, build: bool)
      returns (ok: bool, k: nat, node: JsonNode?, ghost f: Forest, ghost rank: Ranks)
    requires i <= |t|
    modifies store
    ensures Outcome(P.ParseValue(t, i), build, ok, k, node, f, rank) && fresh(f.Keys)
    ensures store.live == old(store.live) + f.Keys && (ok || !build ==> store.freed == old(store.freed))
    decreases |t| - i, 1
  {
    ok, k, node, f, rank := false, i, null, map[], map[];
    var c := At(t, i);
    if c == 0x6E {
      var end := ExpectLiteral(t, i, NULL);
      if end.Some? {
        node, f, rank := MakeScalar(store, build, NullTag, false, [], [], Null);
        ok, k := true, end.value;
      }
    } else if c == 0x66 {
      var end := ExpectLiteral(t, i, FALSE);
      if end.Some? {
        node, f, rank := MakeScalar(store, build, BoolTag, false, [], [], Bool(false));
        ok, k := true, end.value;
      }
    } else if c == 0x74 {
      var end := ExpectLiteral(t, i, TRUE);
      if end.Some? {
        node, f, rank := MakeScalar(store, build, BoolTag, true, [], [], Bool(true));
        ok, k := true, end.value;
      }
    } else if c == QUOTE {
      var s;
      ok, k, s := ParseString(t, i, build);
      if ok {
        node, f, rank := MakeScalar(store, build, StringTag, false, s, [], Str(P.ParseString(t, i).value));
      }
    } else if c == OPEN_ARRAY {
      ok, k, node, f, rank := ParseArray(t, i, store, build);
    } else if c == OPEN_OBJECT {
      ok, k, node, f, rank := ParseObject(t, i, store, build);
    } else {
      var r := ParseNumber(t, i);
      if r.Ok? {
        node, f, rank := MakeScalar(store, build, NumberTag, false, [], r.value, Num(r.value));
        ok, k := true, r.next;
      }
    }
  }

  lemma ElemsStep(t: Text, i: nat, acc: seq<Json>)
    requires i <= |t|
    ensures After(acc, P.ParseElems(t, i))
         == match P.ParseValue(t, i)
            case Fail => P.Fail
            case Ok(v, k) =>
              var k1 := P.Skip(t, k);
              if At(t, k1) == CLOSE_ARRAY then P.Ok(acc + [v], k1 + 1)
              else if At(t, k1) != COMMA then P.Fail
              else After(acc + [v], P.ParseElems(t, P.Skip(t, k1 + 1)))
  {
    hide P.ParseValue, P.Skip;
    var r := P.ParseValue(t, i);
    if r.Ok? && At(t, P.Skip(t, r.next)) == COMMA {
      AfterAfter(acc, [r.value], P.ParseElems(t, P.Skip(t, P.Skip(t, r.next) + 1)));
    }
  }

  /** parse_array */
  method ParseArray(t: Text, i: nat, store: Allocator, build: bool)
      returns (ok: bool, k: nat, node: JsonNode?, ghost f: Forest, ghost rank: Ranks)
    requires i <= |t|
    modifies store
    ensures Outcome(P.ParseArray(t, i), build, ok, k, node, f, rank) && fresh(f.Keys)
    ensures store.live == old(store.live) + f.Keys && (ok || !build ==> store.freed == old(store.freed))
    decreases |t| - i, 0
  {
    hide P.ParseElems, P.ParseValue, P.Skip, Built, IsSpace;
    ghost var others := store.live;
    node, f, rank := MakeScalar(store, build, ArrayTag, false, [], [], Arr([]));
    ok, k := false, i;
    if At(t, i) != OPEN_ARRAY {
      f := DeleteTree(node, store, others, f, rank, build, Arr([]));
      return;
    }
    var s := SkipSpace(t, i + 1);
    if At(t, s) == CLOSE_ARRAY {
      ok, k := true, s + 1;
      return;
    }
    ok, k, f, rank := ElementLoop(t, s, store, build, node, f, rank);
  }

  /** The loop of parse_array. */
  method ElementLoop(t: Text, start: nat, store: Allocator, build: bool, node: JsonNode?, ghost f0: Forest, ghost rank0: Ranks)
      returns (ok: bool, k: nat, ghost f: Forest, ghost rank: Ranks)
    requires start <= |t|
    requires if build then node != null && Built(f0, rank0, node, Arr([])) else node == null && f0 == map[]
    requires f0.Keys <= store.live
    modifies f0.Keys, store
    ensures fresh(f.Keys - f0.Keys)
    ensures store.live == old(store.live) - f0.Keys + f.Keys && (ok || !build ==> store.freed == old(store.freed))
    ensures var r := P.ParseElems(t, start);
            && (ok <==> r.Ok?) && (ok ==> k == r.next)
            && if ok && build then node != null && Built(f, rank, node, Arr(r.value)) else f == map[]
    decreases |t| - start, 2
  {
    hide P.ParseElems, P.ParseValue, P.Skip, Built, After, IsSpace;
    ok, k, f, rank := false, start, f0, rank0;
    ghost var acc: seq<Json> := [];
    ghost var others := store.live - f0.Keys;
    AfterNothing(P.ParseElems(t, start));
    while true
      invariant start <= k <= |t| && After(acc, P.ParseElems(t, k)) == P.ParseElems(t, start)
      invariant fresh(f.Keys - f0.Keys)
      invariant store.live == others + f.Keys && others !! f.Keys && store.freed == old(store.freed)
      invariant if build then node != null && Built(f, rank, node, Arr(acc)) else node == null && f == map[]
      decreases |t| - k
    {
      ElemsStep(t, k, acc);
      ghost var r := P.ParseValue(t, k);
      var good, next, element;
      ghost var g, rank';
      good, next, element, g, rank' := ParseValue(t, k, store, build);
      if !good {
        break;
      }
      k := SkipSpace(t, next);
      if build {
        f, rank := AddElement(node, element, f, rank, acc, g, rank', r.value);
      }
      acc := acc + [r.value];
      if At(t, k) == CLOSE_ARRAY {
        ok, k := true, k + 1;
        return;
      }
      if At(t, k) != COMMA {
        break;
      }
      k := SkipSpace(t, k + 1);
    }
    f := DeleteTree(node, store, others, f, rank, build, Arr(acc));
  }

  lemma MembersStep(t: Text, i: nat, acc: seq<Member>)
    requires i <= |t|
    ensures After(acc, P.ParseMembers(t, i))
         == match P.ParseMember(t, i)
            case Fail => P.Fail
            case Ok(m, k) =>
              var k1 := P.Skip(t, k);
              if At(t, k1) == CLOSE_OBJECT then P.Ok(acc + [m], k1 + 1)
              else if At(t, k1) != COMMA then P.Fail
              else After(acc + [m], P.ParseMembers(t, P.Skip(t, k1 + 1)))
  {
    hide P.ParseMember, P.Skip;
    var r := P.ParseMember(t, i);
    if r.Ok? && At(t, P.Skip(t, r.next)) == COMMA {
      AfterAfter(acc, [r.value], P.ParseMembers(t, P.Skip(t, P.Skip(t, r.next) + 1)));
    }
  }

  /** parse_object */
  method ParseObject(t: Text, i: nat, store: Allocator, build: bool)
      returns (ok: bool, k: nat, node: JsonNode?, ghost f: Forest, ghost rank: Ranks)
    requires i <= |t|
    modifies store
    ensures Outcome(P.ParseObject(t, i), build, ok, k, node, f, rank) && fresh(f.Keys)
    ensures store.live == old(store.live) + f.Keys && (ok || !build ==> store.freed == old(store.freed))
    decreases |t| - i, 0
  {
    hide P.ParseMembers, P.ParseValue, P.Skip, Built, IsSpace;
    ghost var others := store.live;
    node, f, rank := MakeScalar(store, build, ObjectTag, false, [], [], Obj([]));
    ok, k := false, i;
    if At(t, i) != OPEN_OBJECT {
      f := DeleteTree(node, store, others, f, rank, build, Obj([]));
      return;
    }
    var s := SkipSpace(t, i + 1);
    if At(t, s) == CLOSE_OBJECT {
      ok, k := true, s + 1;
      return;
    }
    ok, k, f, rank := MemberLoop(t, s, store, build, node, f, rank);
  }

  /** The part of the loop of parse_object that reads a key and a value. */
  method ParseMember(t: Text, i: nat, store: Allocator, build: bool)
      returns (ok: bool, k: nat, key: Text, value: JsonNode?, ghost f: Forest, ghost rank: Ranks)
    requires i <= |t|
    modifies store
    ensures fresh(f.Keys)
    ensures store.live == old(store.live) + f.Keys && (ok || !build ==> store.freed == old(store.freed))
    ensures var r := P.ParseMember(t, i);
            && (ok <==> r.Ok?) && (ok ==> k == r.next)
            && if ok && build then key == r.value.key && value != null && Built(f, rank, value, r.value.value) else f == map[]
    decreases |t| - i, 2
  {
    hide P.ParseValue, P.ParseString, P.Skip, Built, IsSpace;
    value, f, rank := null, map[], map[];
    ok, k, key := ParseString(t, i, build);
    if !ok {
      return;
    }
    k := SkipSpace(t, k);
    if At(t, k) != COLON {
      ok := false;
      return;
    }
    k := SkipSpace(t, k + 1);
    ok, k, value, f, rank := ParseValue(t, k, store, build);
  }

  /** The loop of parse_object. */
  method MemberLoop(t: Text, start: nat, store: Allocator, build: bool, node: JsonNode?, ghost f0: Forest, ghost rank0: Ranks)
      returns (ok: bool, k: nat, ghost f: Forest, ghost rank: Ranks)
    requires start <= |t|
    requires if build then node != null && Built(f0, rank0, node, Obj([])) else node == null && f0 == map[]
    requires f0.Keys <= store.live
    modifies f0.Keys, store
    ensures fresh(f.Keys - f0.Keys)
    ensures store.live == old(store.live) - f0.Keys + f.Keys && (ok || !build ==> store.freed == old(store.freed))
    ensures var r := P.ParseMembers(t, start);
            && (ok <==> r.Ok?) && (ok ==> k == r.next)
            && if ok && build then node != null && Built(f, rank, node, Obj(r.value)) else f == map[]
    decreases |t| - start, 3
  {
    hide P.ParseMembers, P.ParseMember, P.Skip, Built, After, IsSpace;
    ok, k, f, rank := false, start, f0, rank0;
    ghost var acc: seq<Member> := [];
    ghost var others := store.live - f0.Keys;
    AfterNothing(P.ParseMembers(t, start));
    while true
      invariant start <= k <= |t| && After(acc, P.ParseMembers(t, k)) == P.ParseMembers(t, start)
      invariant fresh(f.Keys - f0.Keys)
      invariant store.live == others + f.Keys && others !! f.Keys && store.freed == old(store.freed)
      invariant if build then node != null && Built(f, rank, node, Obj(acc)) else node == null && f == map[]
      decreases |t| - k
    {
      MembersStep(t, k, acc);
      ghost var m := P.ParseMember(t, k);
      var good, next, key, value;
      ghost var g, rank';
      good, next, key, value, g, rank' := ParseMember(t, k, store, build);
      if !good {
        break;
      }
      k := SkipSpace(t, next);
      if build {
        f, rank := AddMember(node, value, key, f, rank, acc, g, rank', m.value.value);
      }
      acc := acc + [m.value];
      if At(t, k) == CLOSE_OBJECT {
        ok, k := true, k + 1;
        return;
      }
      if At(t, k) != COMMA {
        break;
      }
      k := SkipSpace(t, k + 1);
    }
    f := DeleteTree(node, store, others, f, rank, build, Obj(acc));
  }

  /** json_decode: the tree of the value of a JSON text, or null for any other text.  The nodes of the
      tree are all that is alive afterwards besides what was alive before. */
  method JsonDecode(t: Text, store: Allocator) returns (node: JsonNode?, ghost f: Forest, ghost rank: Ranks)
    modifies store
    ensures fresh(f.Keys) && store.live == old(store.live) + f.Keys
    ensures match P.Decode(t)
            case Some(v) => node != null && Built(f, rank, node, v)
            case None => node == null && f == map[]
  {
    hide P.ParseValue, P.Skip, Built, IsSpace;
    ghost var others := store.live;
    var s := SkipSpace(t, 0);
    var ok, k;
    ok, k, node, f, rank := ParseValue(t, s, store, true);
    if !ok {
      node := null;
      return;
    }
    var end := SkipSpace(t, k);
    if At(t, end) != 0 {
      f := DeleteTree(node, store, others, f, rank, true, P.ParseValue(t, s).value);
      node := null;
    }
  }

  /** json_validate accepts exactly what json_decode accepts, and makes no node. */
  method JsonValidate(t: Text, store: Allocator) returns (ok: bool)
    modifies store
    ensures store.live == old(store.live) && store.freed == old(store.freed)
    ensures ok <==> P.Decode(t).Some?
  {
    var s := SkipSpace(t, 0);
    var k, node;
    ghost var f, rank;
    ok, k, node, f, rank := ParseValue(t, s, store, false);
    if ok {
      s := SkipSpace(t, k);
      ok := At(t, s) == 0;
    }
  }
}
