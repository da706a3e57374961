/**
 The node tree of json.c: nodes on the heap, their doubly linked lists of children, and the
 operations that link, unlink, check and free them.

 The state of a set of nodes is abstracted by a forest, a map from each node to its parent, its key
 and the sequence of its children.  `Rep` says that the heap agrees with the forest: every pointer
 that json_check looks at is what the sequences demand.  Each operation is proved to carry out the
 corresponding change of the forest.
 */
module JsonNodes {
  import opened Options
  import opened Chars

  datatype Tag = NullTag | BoolTag | StringTag | NumberTag | ArrayTag | ObjectTag

  predicate Container(tag: Tag) {
    tag == ArrayTag || tag == ObjectTag
  }

  /** A node.  The tag and the scalar members of the union are set once, when a node is made. */
  class JsonNode {
    const tag: Tag
    const flag: bool
    const str: Text
    const number: Text
    var parent: JsonNode?
    var prev: JsonNode?
    var next: JsonNode?
    var key: Option<Text>
    var head: JsonNode?
    var tail: JsonNode?

    constructor (tag: Tag, flag: bool, str: Text, number: Text)
      ensures this.tag == tag && this.flag == flag && this.str == str && this.number == number
      ensures parent == prev == next == head == tail == null && key == None
    {
      this.tag, this.flag, this.str, this.number := tag, flag, str, number;
      parent, prev, next, head, tail := null, null, null, null, null;
      key := None;
    }
  }

  /** The allocator, as far as nodes go: the nodes that are alive, and those that have been freed, in
      the order of the calls. */
  class Allocator {
    var live: set<JsonNode>
    var freed: seq<JsonNode>

    constructor ()
      ensures live == {} && freed == []
    {
      live, freed := {}, [];
    }

    /** mknode, with the members that its callers set */
    method Alloc(tag: Tag, flag: bool, str: Text, number: Text) returns (n: JsonNode)
      modifies this
      ensures fresh(n) && live == old(live) + {n} && n !in old(live) && freed == old(freed)
      ensures n.tag == tag && n.flag == flag && n.str == str && n.number == number
      ensures n.parent == n.prev == n.next == n.head == n.tail == null && n.key == None
    {
      n := new JsonNode(tag, flag, str, number);
      live := live + {n};
    }

    /** free, which must not see a node twice */
    method Free(n: JsonNode)
      requires n in live
      modifies this
      ensures live == old(live) - {n} && freed == old(freed) + [n]
    {
      live := live - {n};
      freed := freed + [n];
    }
  }

  // ---------------------------------------------------------------------------------------------
  // Forests
  // ---------------------------------------------------------------------------------------------

  datatype Info = Info(parent: JsonNode?, key: Option<Text>, kids: seq<JsonNode>)

  type Forest = map<JsonNode, Info>

  const ROOT: Info := Info(null, None, [])

  /** Children point back to their parent, occur once, and carry a key exactly in objects. */
  ghost predicate WellFormedNode(f: Forest, n: JsonNode)
    requires n in f
  {
    && (forall i {:trigger KidOf(f, n, f[n].kids[i])} | 0 <= i < |f[n].kids| :: KidOf(f, n, f[n].kids[i]))
    && (forall i, j | 0 <= i < j < |f[n].kids| :: f[n].kids[i] != f[n].kids[j])
    && (f[n].kids != [] ==> Container(n.tag))
    && (f[n].parent != null ==> f[n].parent in f && n in f[f[n].parent].kids)
  }

  ghost predicate KidOf(f: Forest, n: JsonNode, k: JsonNode)
  {
    k in f && f[k].parent == n && (f[k].key.Some? <==> n.tag == ObjectTag)
  }

  ghost predicate WellFormedForest(f: Forest) {
    forall n {:trigger WellFormedNode(f, n)} | n in f :: WellFormedNode(f, n)
  }

  function Nth(kids: seq<JsonNode>, i: int): JsonNode? {
    if 0 <= i < |kids| then kids[i] else null
  }

  /** The pointers stored in a node. */
  datatype Links = Links(parent: JsonNode?, prev: JsonNode?, next: JsonNode?, key: Option<Text>,
                         head: JsonNode?, tail: JsonNode?)

  /** The part of the heap that the nodes of a forest occupy. */
  type Heap = map<JsonNode, Links>

  ghost function LinksOf(n: JsonNode): Links
    reads n
  {
    Links(n.parent, n.prev, n.next, n.key, n.head, n.tail)
  }

  ghost function Snapshot(f: Forest): (h: Heap)
    reads f.Keys
    ensures h.Keys == f.Keys
  {
    map n | n in f :: LinksOf(n)
  }

  /** The pointers of `n` and of its children are those of the forest. */
  ghost predicate Linked(f: Forest, h: Heap, n: JsonNode)
    requires n in f && n in h
  {
    && h[n].parent == f[n].parent && h[n].key == f[n].key
    && (f[n].parent == null ==> h[n].prev == null && h[n].next == null)
    && (Container(n.tag) ==>
          && h[n].head == Nth(f[n].kids, 0)
          && h[n].tail == Nth(f[n].kids, |f[n].kids| - 1)
          && KidsLinked(h, f[n].kids))
  }

  ghost predicate KidsLinked(h: Heap, kids: seq<JsonNode>) {
    forall i {:trigger KidLinked(h, kids, i)} | 0 <= i < |kids| :: KidLinked(h, kids, i)
  }

  ghost predicate KidLinked(h: Heap, kids: seq<JsonNode>, i: nat)
    requires i < |kids|
  {
    kids[i] in h && h[kids[i]].prev == Nth(kids, i - 1) && h[kids[i]].next == Nth(kids, i + 1)
  }

  ghost predicate Consistent(f: Forest, h: Heap) {
    && h.Keys == f.Keys && WellFormedForest(f)
    && forall n {:trigger Linked(f, h, n)} | n in f :: Linked(f, h, n)
  }

  /** The heap agrees with the forest. */
  ghost predicate Rep(f: Forest)
    reads f.Keys
  {
    Consistent(f, Snapshot(f))
  }

  // ---------------------------------------------------------------------------------------------
  // The changes that the operations make
  // ---------------------------------------------------------------------------------------------

  /** A root becomes the child of `p` at position `at`. */
  ghost function Inserted(f: Forest, p: JsonNode, c: JsonNode, at: nat): Forest
    requires p in f && c in f && at <= |f[p].kids|
  {
    var g := f[p := f[p].(kids := f[p].kids[..at] + [c] + f[p].kids[at..])];
    g[c := g[c].(parent := p)]
  }

  /** What the linking functions assert of their arguments.  The two may be the same node. */
  ghost predicate CanInsert(f: Forest, p: JsonNode, c: JsonNode) {
    p in f && c in f && Container(p.tag) && f[c].parent == null && (f[c].key.Some? <==> p.tag == ObjectTag)
  }

  lemma InsertedWellFormed(f: Forest, p: JsonNode, c: JsonNode, at: nat)
    requires WellFormedForest(f) && CanInsert(f, p, c) && at <= |f[p].kids|
    ensures WellFormedForest(Inserted(f, p, c, at))
  {
    var f' := Inserted(f, p, c, at);
    assert WellFormedNode(f, p) && WellFormedNode(f, c);
    hide WellFormedNode, WellFormedForest;
    InsertedParent(f, p, c, at);
    forall n | n in f' ensures WellFormedNode(f', n) {
      if n != p {
        assert WellFormedNode(f, n) by { AllWellFormed(f, n); }
        InsertedOther(f, p, c, at, n);
      }
    }
    assert WellFormedForest(f') by { IsWellFormed(f'); }
  }

  lemma AllWellFormed(f: Forest, n: JsonNode)
    requires WellFormedForest(f) && n in f
    ensures WellFormedNode(f, n)
  {
  }

  lemma IsWellFormed(f: Forest)
    requires forall n | n in f :: WellFormedNode(f, n)
    ensures WellFormedForest(f)
  {
  }

  lemma InsertedParent(f: Forest, p: JsonNode, c: JsonNode, at: nat)
    requires CanInsert(f, p, c) && at <= |f[p].kids| && WellFormedNode(f, p)
    ensures WellFormedNode(Inserted(f, p, c, at), p)
  {
    var f' := Inserted(f, p, c, at);
    var kids, kids' := f[p].kids, f'[p].kids;
    forall i | 0 <= i < |kids'| ensures KidOf(f', p, kids'[i]) {
      if i != at {
        assert KidOf(f, p, kids[if i < at then i else i - 1]);
      }
    }
    forall i, j | 0 <= i < j < |kids'| ensures kids'[i] != kids'[j] {
      var k := if i == at then j - 1 else if i < at then i else i - 1;
      assert KidOf(f, p, kids[k]);
    }
    if p == c {
      assert kids'[at] == p;
    } else if f[p].parent == p {
      var i :| 0 <= i < |kids| && kids[i] == p;
      assert kids'[if i < at then i else i + 1] == p;
    }
  }

  lemma InsertedOther(f: Forest, p: JsonNode, c: JsonNode, at: nat, n: JsonNode)
    requires CanInsert(f, p, c) && at <= |f[p].kids|
    requires n in f && n != p && WellFormedNode(f, n)
    ensures WellFormedNode(Inserted(f, p, c, at), n)
  {
    var f' := Inserted(f, p, c, at);
    var kids, kids' := f[p].kids, f'[p].kids;
    forall i | 0 <= i < |f[n].kids| ensures KidOf(f', n, f[n].kids[i]) {
      assert KidOf(f, n, f[n].kids[i]);
    }
    if n == c {
      assert kids'[at] == c;
    } else if f[n].parent == p {
      var i :| 0 <= i < |kids| && kids[i] == n;
      assert kids'[if i < at then i else i + 1] == n;
    }
  }

  /** The child of `p` at position `at` becomes a root without a key. */
  ghost function Removed(f: Forest, p: JsonNode, at: nat): Forest
    requires p in f && at < |f[p].kids| && f[p].kids[at] in f
  {
    var c := f[p].kids[at];
    var g := f[p := f[p].(kids := f[p].kids[..at] + f[p].kids[at + 1..])];
    g[c := g[c].(parent := null, key := None)]
  }

  lemma RemovedWellFormed(f: Forest, p: JsonNode, at: nat)
    requires WellFormedForest(f) && p in f && at < |f[p].kids|
    ensures f[p].kids[at] in f && WellFormedForest(Removed(f, p, at))
  {
    assert WellFormedNode(f, p) && KidOf(f, p, f[p].kids[at]) && WellFormedNode(f, f[p].kids[at]);
    var f' := Removed(f, p, at);
    RemovedParent(f, p, at);
    hide WellFormedNode, WellFormedForest;
    forall n | n in f' ensures WellFormedNode(f', n) {
      if n != p {
        AllWellFormed(f, n);
        RemovedOther(f, p, at, n);
      }
    }
    IsWellFormed(f');
  }

  lemma RemovedParent(f: Forest, p: JsonNode, at: nat)
    requires p in f && at < |f[p].kids| && f[p].kids[at] in f && WellFormedNode(f, p)
    ensures WellFormedNode(Removed(f, p, at), p)
  {
    var f' := Removed(f, p, at);
    var kids, kids' := f[p].kids, f'[p].kids;
    forall i | 0 <= i < |kids'| ensures KidOf(f', p, kids'[i]) {
      assert KidOf(f, p, kids[if i < at then i else i + 1]);
    }
    if p != kids[at] && f[p].parent == p {
      var i :| 0 <= i < |kids| && kids[i] == p;
      assert kids'[if i < at then i else i - 1] == p;
    }
  }

  lemma RemovedOther(f: Forest, p: JsonNode, at: nat, n: JsonNode)
    requires p in f && at < |f[p].kids| && KidOf(f, p, f[p].kids[at])
    requires n in f && n != p && WellFormedNode(f, n)
    ensures WellFormedNode(Removed(f, p, at), n)
  {
    var f' := Removed(f, p, at);
    var kids, kids' := f[p].kids, f'[p].kids;
    forall i | 0 <= i < |f[n].kids| ensures KidOf(f', n, f[n].kids[i]) {
      assert KidOf(f, n, f[n].kids[i]);
    }
    if n != kids[at] && f[n].parent == p {
      var i :| 0 <= i < |kids| && kids[i] == n;
      assert kids'[if i < at then i else i - 1] == n;
    }
  }

  // ---------------------------------------------------------------------------------------------
  // Linking and unlinking
  // ---------------------------------------------------------------------------------------------

  /** What linking or unlinking `c` under `p` may write: the fields of `c`, the list ends of `p`, and
      the sibling pointers of the children of `p`. */
  ghost predicate Touched(f: Forest, h: Heap, h': Heap, p: JsonNode, c: JsonNode, n: JsonNode)
    requires n in f && n in h && n in h'
  {
    && (n != c ==> h'[n].parent == h[n].parent && h'[n].key == h[n].key)
    && (n != p ==> h'[n].head == h[n].head && h'[n].tail == h[n].tail)
    && (n == c || f[n].parent == p || (h'[n].prev == h[n].prev && h'[n].next == h[n].next))
  }

  ghost predicate OnlyTouched(f: Forest, h: Heap, h': Heap, p: JsonNode, c: JsonNode) {
    && h.Keys == h'.Keys == f.Keys
    && forall m {:trigger Touched(f, h, h', p, c, m)} | m in f :: Touched(f, h, h', p, c, m)
  }

  /** The lists of all nodes but `p` are not affected. */
  lemma OtherKidsLinked(f: Forest, h: Heap, h': Heap, p: JsonNode, c: JsonNode, n: JsonNode)
    requires n in f && n != p && c in f && (f[c].parent == null || f[c].parent == p)
    requires WellFormedNode(f, n) && OnlyTouched(f, h, h', p, c) && KidsLinked(h, f[n].kids)
    ensures KidsLinked(h', f[n].kids)
  {
    forall i | 0 <= i < |f[n].kids| ensures KidLinked(h', f[n].kids, i) {
      assert KidLinked(h, f[n].kids, i) && KidOf(f, n, f[n].kids[i]);
      assert Touched(f, h, h', p, c, f[n].kids[i]);
    }
  }

  /** The forest changes only in `p` and in the parent and key of `c`. */
  ghost predicate SameElsewhere(f: Forest, f': Forest, p: JsonNode, c: JsonNode) {
    && f'.Keys == f.Keys && p in f && c in f
    && (c != p ==> f'[c].kids == f[c].kids)
    && forall m | m in f && m != p && m != c :: f'[m] == f[m]
  }

  lemma Relinked(f: Forest, h: Heap, f': Forest, h': Heap, p: JsonNode, c: JsonNode)
    requires Consistent(f, h) && WellFormedForest(f') && SameElsewhere(f, f', p, c)
    requires (f[c].parent == null || f[c].parent == p) && OnlyTouched(f, h, h', p, c)
    requires h'[c].parent == f'[c].parent && h'[c].key == f'[c].key
    requires f'[c].parent == null ==> h'[c].prev == null && h'[c].next == null
    requires Linked(f', h', p)
    ensures Consistent(f', h')
  {
    forall n | n in f' ensures Linked(f', h', n) {
      assert WellFormedNode(f, n) && Linked(f, h, n);
      if n != p {
        hide Consistent, WellFormedForest, WellFormedNode, KidsLinked;
        assert Touched(f, h, h', p, c, n);
        if Container(n.tag) {
          OtherKidsLinked(f, h, h', p, c, n);
        }
      }
    }
  }

  // The writes of append_node, prepend_node and json_remove_from_parent, in order.

  ghost function AppendedHeap(h: Heap, p: JsonNode, c: JsonNode): Heap
    requires p in h && c in h && (h[p].tail != null ==> h[p].tail in h)
  {
    var h1 := h[c := h[c].(parent := p, prev := h[p].tail, next := null)];
    var h2 := if h1[p].tail != null then h1[h1[p].tail := h1[h1[p].tail].(next := c)]
              else h1[p := h1[p].(head := c)];
    h2[p := h2[p].(tail := c)]
  }

  /** What the list of `p` says about the nodes that linking reads and writes. */
  ghost predicate Ready(f: Forest, h: Heap, p: JsonNode, c: JsonNode) {
    && CanInsert(f, p, c) && h.Keys == f.Keys
    && WellFormedNode(f, p) && Linked(f, h, p) && Linked(f, h, c)
  }

  lemma Endpoints(f: Forest, h: Heap, p: JsonNode, c: JsonNode)
    requires Ready(f, h, p, c)
    ensures h[p].tail != null ==> h[p].tail in f && h[p].tail != c && f[h[p].tail].parent == p
    ensures h[p].head != null ==> h[p].head in f && h[p].head != c && f[h[p].head].parent == p
    ensures h[p].head == null <==> h[p].tail == null
  {
    var kids := f[p].kids;
    if kids != [] {
      assert KidOf(f, p, kids[|kids| - 1]) && KidOf(f, p, kids[0]);
    }
  }

  lemma AppendTouched(f: Forest, h: Heap, p: JsonNode, c: JsonNode)
    requires Ready(f, h, p, c)
    ensures h[p].tail != null ==> h[p].tail in h
    ensures OnlyTouched(f, h, AppendedHeap(h, p, c), p, c)
  {
    Endpoints(f, h, p, c);
  }

  lemma AppendLinked(f: Forest, h: Heap, p: JsonNode, c: JsonNode)
    requires Ready(f, h, p, c)
    ensures h[p].tail != null ==> h[p].tail in h
    ensures Linked(Inserted(f, p, c, |f[p].kids|), AppendedHeap(h, p, c), p)
  {
    Endpoints(f, h, p, c);
    var kids := f[p].kids;
    var kids' := kids + [c];
    var h' := AppendedHeap(h, p, c);
    assert Inserted(f, p, c, |kids|)[p].kids == kids';
    forall i | 0 <= i < |kids'| ensures KidLinked(h', kids', i) {
      if i < |kids| {
        assert KidLinked(h, kids, i) && KidOf(f, p, kids[i]);
        if i + 1 < |kids| {
          assert KidOf(f, p, kids[i + 1]);
        }
      }
    }
  }

  lemma AppendConsistent(f: Forest, h: Heap, p: JsonNode, c: JsonNode)
    requires Consistent(f, h) && CanInsert(f, p, c)
    ensures h[p].tail != null ==> h[p].tail in f && h[p].tail != c
    ensures Inserted(f, p, c, |f[p].kids|).Keys == f.Keys
    ensures Inserted(f, p, c, |f[p].kids|)[p].kids == f[p].kids + [c]
    ensures Consistent(Inserted(f, p, c, |f[p].kids|), AppendedHeap(h, p, c))
  {
    assert WellFormedNode(f, p) && Linked(f, h, p) && Linked(f, h, c);
    Endpoints(f, h, p, c);
    AppendTouched(f, h, p, c);
    AppendLinked(f, h, p, c);
    InsertedWellFormed(f, p, c, |f[p].kids|);
    hide Consistent, WellFormedForest, WellFormedNode, Linked, OnlyTouched;
    Relinked(f, h, Inserted(f, p, c, |f[p].kids|), AppendedHeap(h, p, c), p, c);
  }

  /** `h` holds the pointers stored in all nodes but `n`. */
  ghost predicate StoredBut(f: Forest, h: Heap, n: JsonNode?)
    reads f.Keys
  {
    h.Keys == f.Keys && forall m {:trigger LinksOf(m)} | m in f && m != n :: LinksOf(m) == h[m]
  }

  ghost predicate Stored(f: Forest, h: Heap)
    reads f.Keys
  {
    StoredBut(f, h, null)
  }

  lemma SnapshotStored(f: Forest)
    requires Rep(f)
    ensures Consistent(f, Snapshot(f)) && Stored(f, Snapshot(f))
  {
  }

  lemma Store(f: Forest, h: Heap, n: JsonNode, links: Links) returns (h': Heap)
    requires n in f && StoredBut(f, h, n) && links == Links(n.parent, n.prev, n.next, n.key, n.head, n.tail)
    ensures h' == h[n := links] && Stored(f, h')
  {
    h' := h[n := links];
  }

  lemma Load(f: Forest, h: Heap, n: JsonNode)
    requires n in f && Stored(f, h)
    ensures h[n] == Links(n.parent, n.prev, n.next, n.key, n.head, n.tail)
  {
    assert LinksOf(n) == h[n];
  }

  lemma StoredRep(f: Forest, f': Forest, h: Heap)
    requires Stored(f, h) && f'.Keys == f.Keys && Consistent(f', h)
    ensures Rep(f')
  {
    assert Snapshot(f') == h;
  }

  lemma Endings(f: Forest, p: JsonNode, c: JsonNode)
    requires CanInsert(f, p, c)
    ensures p in f && c in f
  {
  }

  /** append_node */
  method AppendNode(parent: JsonNode, child: JsonNode, ghost f: Forest) returns (ghost f': Forest)
    requires Rep(f) && CanInsert(f, parent, child)
    modifies f.Keys
    ensures f' == Inserted(f, parent, child, |f[parent].kids|) && Rep(f')
    ensures parent in f' && f'[parent].kids == f[parent].kids + [child]
  {
    hide Rep, Consistent, Inserted, CanInsert, Snapshot, LinksOf;
    ghost var h0 := Snapshot(f);
    SnapshotStored(f);
    Endings(f, parent, child);
    f' := Inserted(f, parent, child, |f[parent].kids|);
    AppendConsistent(f, h0, parent, child);
    Load(f, h0, child);
    Load(f, h0, parent);
    child.parent := parent;
    child.prev := parent.tail;
    child.next := null;
    ghost var h1 := Store(f, h0, child, h0[child].(parent := parent, prev := h0[parent].tail, next := null));
    ghost var h2 := h1;
    Load(f, h1, parent);
    if parent.tail != null {
      Load(f, h1, parent.tail);
      parent.tail.next := child;
      h2 := Store(f, h1, parent.tail, h1[parent.tail].(next := child));
    } else {
      parent.head := child;
      h2 := Store(f, h1, parent, h1[parent].(head := child));
    }
    Load(f, h2, parent);
    parent.tail := child;
    ghost var h3 := Store(f, h2, parent, h2[parent].(tail := child));
    StoredRep(f, f', h3);
  }

  ghost function PrependedHeap(h: Heap, p: JsonNode, c: JsonNode): Heap
    requires p in h && c in h && (h[p].head != null ==> h[p].head in h)
  {
    var h1 := h[c := h[c].(parent := p, prev := null, next := h[p].head)];
    var h2 := if h1[p].head != null then h1[h1[p].head := h1[h1[p].head].(prev := c)]
              else h1[p := h1[p].(tail := c)];
    h2[p := h2[p].(head := c)]
  }

  lemma PrependTouched(f: Forest, h: Heap, p: JsonNode, c: JsonNode)
    requires Ready(f, h, p, c)
    ensures h[p].head != null ==> h[p].head in h
    ensures OnlyTouched(f, h, PrependedHeap(h, p, c), p, c)
  {
    Endpoints(f, h, p, c);
  }

  lemma PrependLinked(f: Forest, h: Heap, p: JsonNode, c: JsonNode)
    requires Ready(f, h, p, c)
    ensures h[p].head != null ==> h[p].head in h
    ensures Linked(Inserted(f, p, c, 0), PrependedHeap(h, p, c), p)
  {
    Endpoints(f, h, p, c);
    var kids := f[p].kids;
    var kids' := [c] + kids;
    var h' := PrependedHeap(h, p, c);
    assert Inserted(f, p, c, 0)[p].kids == kids';
    forall i | 0 <= i < |kids'| ensures KidLinked(h', kids', i) {
      if i > 0 {
        assert KidLinked(h, kids, i - 1) && KidOf(f, p, kids[i - 1]);
        if i > 1 {
          assert KidOf(f, p, kids[i - 2]);
        }
      }
    }
  }

  lemma PrependConsistent(f: Forest, h: Heap, p: JsonNode, c: JsonNode)
    requires Consistent(f, h) && CanInsert(f, p, c)
    ensures h[p].head != null ==> h[p].head in f && h[p].head != c
    ensures Inserted(f, p, c, 0).Keys == f.Keys
    ensures Inserted(f, p, c, 0)[p].kids == [c] + f[p].kids
    ensures Consistent(Inserted(f, p, c, 0), PrependedHeap(h, p, c))
  {
    assert WellFormedNode(f, p) && Linked(f, h, p) && Linked(f, h, c);
    Endpoints(f, h, p, c);
    PrependTouched(f, h, p, c);
    PrependLinked(f, h, p, c);
    InsertedWellFormed(f, p, c, 0);
    hide Consistent, WellFormedForest, WellFormedNode, Linked, OnlyTouched;
    Relinked(f, h, Inserted(f, p, c, 0), PrependedHeap(h, p, c), p, c);
  }

  /** prepend_node */
  method PrependNode(parent: JsonNode, child: JsonNode, ghost f: Forest) returns (ghost f': Forest)
    requires Rep(f) && CanInsert(f, parent, child)
    modifies f.Keys
    ensures f' == Inserted(f, parent, child, 0) && Rep(f')
    ensures parent in f' && f'[parent].kids == [child] + f[parent].kids
  {
    hide Rep, Consistent, Inserted, CanInsert, Snapshot, LinksOf;
    ghost var h0 := Snapshot(f);
    SnapshotStored(f);
    Endings(f, parent, child);
    f' := Inserted(f, parent, child, 0);
    PrependConsistent(f, h0, parent, child);
    Load(f, h0, child);
    Load(f, h0, parent);
    child.parent := parent;
    child.prev := null;
    child.next := parent.head;
    ghost var h1 := Store(f, h0, child, h0[child].(parent := parent, prev := null, next := h0[parent].head));
    ghost var h2 := h1;
    Load(f, h1, parent);
    if parent.head != null {
      Load(f, h1, parent.head);
      parent.head.prev := child;
      h2 := Store(f, h1, parent.head, h1[parent.head].(prev := child));
    } else {
      parent.tail := child;
      h2 := Store(f, h1, parent, h1[parent].(tail := child));
    }
    Load(f, h2, parent);
    parent.head := child;
    ghost var h3 := Store(f, h2, parent, h2[parent].(head := child));
    StoredRep(f, f', h3);
  }

  /** The position of a node in the list of its parent. */
  ghost function Position(f: Forest, n: JsonNode): (i: nat)
    requires WellFormedForest(f) && n in f && f[n].parent != null
    ensures f[n].parent in f && i < |f[f[n].parent].kids| && f[f[n].parent].kids[i] == n
  {
    assert WellFormedNode(f, n);
    var i :| 0 <= i < |f[f[n].parent].kids| && f[f[n].parent].kids[i] == n;
    i
  }

  ghost function Detached(f: Forest, n: JsonNode): Forest
    requires WellFormedForest(f) && n in f
  {
    if f[n].parent == null then f else Removed(f, f[n].parent, Position(f, n))
  }

  /** The pointers around `c` after bypassing it in the list of `p`. */
  ghost function BypassedHeap(h: Heap, p: JsonNode, c: JsonNode): Heap
    requires p in h && c in h
    requires (h[c].prev != null ==> h[c].prev in h) && (h[c].next != null ==> h[c].next in h)
  {
    var h1 := if h[c].prev != null then h[h[c].prev := h[h[c].prev].(next := h[c].next)]
              else h[p := h[p].(head := h[c].next)];
    if h[c].next != null then h1[h[c].next := h1[h[c].next].(prev := h[c].prev)]
    else h1[p := h1[p].(tail := h[c].prev)]
  }

  ghost function UnlinkedHeap(h: Heap, p: JsonNode, c: JsonNode): Heap
    requires p in h && c in h
    requires (h[c].prev != null ==> h[c].prev in h) && (h[c].next != null ==> h[c].next in h)
  {
    var h2 := BypassedHeap(h, p, c);
    h2[c := Links(null, null, null, None, h2[c].head, h2[c].tail)]
  }

  /** What the list of `p` says about the neighbours of its child at position `at`. */
  lemma Neighbours(f: Forest, h: Heap, p: JsonNode, at: nat)
    requires p in f && at < |f[p].kids| && WellFormedNode(f, p) && h.Keys == f.Keys && Linked(f, h, p)
    ensures var c := f[p].kids[at];
            && c in f && f[c].parent == p
            && h[c].prev == Nth(f[p].kids, at - 1) && h[c].next == Nth(f[p].kids, at + 1)
            && (h[c].prev != null ==> h[c].prev in f && h[c].prev != c && f[h[c].prev].parent == p)
            && (h[c].next != null ==> h[c].next in f && h[c].next != c && f[h[c].next].parent == p)
            && (h[c].prev != null && h[c].next != null ==> h[c].prev != h[c].next)
  {
    var kids := f[p].kids;
    assert KidOf(f, p, kids[at]) && KidLinked(h, kids, at);
    assert at > 0 ==> KidOf(f, p, kids[at - 1]);
    assert at + 1 < |kids| ==> KidOf(f, p, kids[at + 1]);
  }

  lemma RemoveTouched(f: Forest, h: Heap, p: JsonNode, at: nat)
    requires p in f && at < |f[p].kids| && WellFormedNode(f, p) && h.Keys == f.Keys && Linked(f, h, p)
    ensures var c := f[p].kids[at];
            && c in f && (h[c].prev != null ==> h[c].prev in h) && (h[c].next != null ==> h[c].next in h)
            && OnlyTouched(f, h, UnlinkedHeap(h, p, c), p, c)
  {
    Neighbours(f, h, p, at);
  }

  /** Unlinking passes the pointers of `c` on to its neighbours. */
  lemma UnlinkedSiblings(h: Heap, p: JsonNode, c: JsonNode, x: JsonNode)
    requires p in h && c in h && x in h && x != c
    requires (h[c].prev != null ==> h[c].prev in h) && (h[c].next != null ==> h[c].next in h)
    ensures var h' := UnlinkedHeap(h, p, c);
            && x in h' && h'[x].prev == (if h[c].next == x then h[c].prev else h[x].prev)
            && h'[x].next == if h[c].prev == x then h[c].next else h[x].next
  {
  }

  lemma KidLinks(f: Forest, h: Heap, p: JsonNode, i: nat)
    requires p in f && i < |f[p].kids| && WellFormedNode(f, p) && h.Keys == f.Keys && Linked(f, h, p)
    ensures f[p].kids[i] in h
    ensures h[f[p].kids[i]].prev == Nth(f[p].kids, i - 1) && h[f[p].kids[i]].next == Nth(f[p].kids, i + 1)
    ensures forall k: int :: Nth(f[p].kids, k) == f[p].kids[i] <==> k == i
    ensures forall k | 0 <= k < |f[p].kids| && k != i :: f[p].kids[k] != f[p].kids[i]
  {
    assert KidLinked(h, f[p].kids, i) && KidOf(f, p, f[p].kids[i]);
  }

  lemma NthWithout(kids: seq<JsonNode>, at: nat, i: nat)
    requires at < |kids| && i < |kids| - 1
    ensures var kids', j := kids[..at] + kids[at + 1..], if i < at then i else i + 1;
            && kids'[i] == kids[j]
            && Nth(kids', i - 1) == Nth(kids, if i - 1 < at then i - 1 else i)
            && Nth(kids', i + 1) == Nth(kids, if i + 1 < at then i + 1 else i + 2)
  {
  }

  lemma IsKidLinked(h: Heap, kids: seq<JsonNode>, i: nat)
    requires i < |kids| && kids[i] in h && h[kids[i]].prev == Nth(kids, i - 1) && h[kids[i]].next == Nth(kids, i + 1)
    ensures KidLinked(h, kids, i)
  {
  }

  /** The siblings that remain, one by one. */
  lemma RemoveLinkedAt(f: Forest, h: Heap, p: JsonNode, at: nat, i: nat)
    requires p in f && at < |f[p].kids| && WellFormedNode(f, p) && h.Keys == f.Keys && Linked(f, h, p)
    requires i < |f[p].kids| - 1
    ensures var c, kids := f[p].kids[at], f[p].kids;
            && c in f && (h[c].prev != null ==> h[c].prev in h) && (h[c].next != null ==> h[c].next in h)
            && KidLinked(UnlinkedHeap(h, p, c), kids[..at] + kids[at + 1..], i)
  {
    hide *;
    var kids, j := f[p].kids, if i < at then i else i + 1;
    Neighbours(f, h, p, at);
    KidLinks(f, h, p, at);
    KidLinks(f, h, p, j);
    UnlinkedSiblings(h, p, kids[at], kids[j]);
    NthWithout(kids, at, i);
    IsKidLinked(UnlinkedHeap(h, p, kids[at]), kids[..at] + kids[at + 1..], i);
  }

  lemma RemoveLinked(f: Forest, h: Heap, p: JsonNode, at: nat)
    requires p in f && at < |f[p].kids| && WellFormedNode(f, p) && h.Keys == f.Keys && Linked(f, h, p)
    ensures var c := f[p].kids[at];
            && c in f && (h[c].prev != null ==> h[c].prev in h) && (h[c].next != null ==> h[c].next in h)
            && Linked(Removed(f, p, at), UnlinkedHeap(h, p, c), p)
  {
    hide *;
    Neighbours(f, h, p, at);
    var kids := f[p].kids;
    var kids', h' := kids[..at] + kids[at + 1..], UnlinkedHeap(h, p, kids[at]);
    forall i | 0 <= i < |kids'| ensures KidLinked(h', kids', i) {
      RemoveLinkedAt(f, h, p, at, i);
    }
    AreKidsLinked(h', kids');
    RemoveEnds(f, h, p, at);
  }

  lemma RemoveEnds(f: Forest, h: Heap, p: JsonNode, at: nat)
    requires p in f && at < |f[p].kids| && f[p].kids[at] in f && p in h && f[p].kids[at] in h && Linked(f, h, p)
    requires var c := f[p].kids[at];
             && (h[c].prev != null ==> h[c].prev in h) && (h[c].next != null ==> h[c].next in h)
             && h[c].prev == Nth(f[p].kids, at - 1) && h[c].next == Nth(f[p].kids, at + 1) && f[c].parent == p
             && (h[c].prev != null ==> h[c].prev in f && f[h[c].prev].parent == p)
             && (h[c].next != null ==> h[c].next in f && f[h[c].next].parent == p)
    requires KidsLinked(UnlinkedHeap(h, p, f[p].kids[at]), f[p].kids[..at] + f[p].kids[at + 1..])
    ensures Linked(Removed(f, p, at), UnlinkedHeap(h, p, f[p].kids[at]), p)
  {
    hide KidsLinked;
  }

  lemma AreKidsLinked(h: Heap, kids: seq<JsonNode>)
    requires forall i | 0 <= i < |kids| :: KidLinked(h, kids, i)
    ensures KidsLinked(h, kids)
  {
  }

  lemma RemoveConsistent(f: Forest, h: Heap, c: JsonNode)
    requires Consistent(f, h) && c in f && f[c].parent != null
    ensures var p := f[c].parent;
            && p in f && h[c].parent == p
            && (h[c].prev != null ==> h[c].prev in f && h[c].prev != c)
            && (h[c].next != null ==> h[c].next in f && h[c].next != c)
            && Detached(f, c).Keys == f.Keys
            && Consistent(Detached(f, c), UnlinkedHeap(h, p, c))
  {
    var p, at := f[c].parent, Position(f, c);
    assert WellFormedNode(f, c) && WellFormedNode(f, p) && Linked(f, h, p) && Linked(f, h, c);
    Neighbours(f, h, p, at);
    RemoveTouched(f, h, p, at);
    RemoveLinked(f, h, p, at);
    RemovedWellFormed(f, p, at);
    hide Consistent, WellFormedForest, WellFormedNode, Linked, OnlyTouched;
    Relinked(f, h, Removed(f, p, at), UnlinkedHeap(h, p, c), p, c);
  }

  /** The first half of json_remove_from_parent: the neighbours of `node` are linked to each other. */
  method Bypass(node: JsonNode, parent: JsonNode, ghost f: Forest, ghost h0: Heap)
    requires Stored(f, h0) && node in f && parent in f
    requires node.prev != null ==> node.prev in f && node.prev != node
    requires node.next != null ==> node.next in f && node.next != node
    requires h0[node] == Links(node.parent, node.prev, node.next, node.key, node.head, node.tail)
    modifies f.Keys
    ensures Stored(f, BypassedHeap(h0, parent, node))
  {
    hide LinksOf;
    Load(f, h0, parent);
    ghost var h1 := h0;
    if node.prev != null {
      Load(f, h0, node.prev);
      node.prev.next := node.next;
      h1 := Store(f, h0, node.prev, h0[node.prev].(next := h0[node].next));
    } else {
      parent.head := node.next;
      h1 := Store(f, h0, parent, h0[parent].(head := h0[node].next));
    }
    Load(f, h1, node);
    Load(f, h1, parent);
    if node.next != null {
      Load(f, h1, node.next);
      node.next.prev := node.prev;
      h1 := Store(f, h1, node.next, h1[node.next].(prev := h0[node].prev));
    } else {
      parent.tail := node.prev;
      h1 := Store(f, h1, parent, h1[parent].(tail := h0[node].prev));
    }
  }

  /** The second half: `node` becomes a root without a key. */
  method Clear(node: JsonNode, ghost f: Forest, ghost h: Heap)
    requires Stored(f, h) && node in f
    modifies f.Keys
    ensures Stored(f, h[node := Links(null, null, null, None, h[node].head, h[node].tail)])
  {
    hide LinksOf;
    Load(f, h, node);
    node.parent := null;
    node.prev, node.next := null, null;
    node.key := None;
    ghost var h' := Store(f, h, node, Links(null, null, null, None, h[node].head, h[node].tail));
  }

  /** json_remove_from_parent */
  method RemoveFromParent(node: JsonNode, ghost f: Forest) returns (ghost f': Forest)
    requires Rep(f) && node in f
    modifies f.Keys
    ensures f' == Detached(f, node) && Rep(f') && node in f' && f'[node].parent == null
  {
    hide *;
    ghost var h0 := Snapshot(f);
    SnapshotStored(f);
    RemoveReady(f, h0, node);
    Load(f, h0, node);
    f' := Detached(f, node);
    var parent := node.parent;
    if parent != null {
      Bypass(node, parent, f, h0);
      ghost var h2 := BypassedHeap(h0, parent, node);
      Clear(node, f, h2);
      StoredRep(f, f', h2[node := Links(null, null, null, None, h2[node].head, h2[node].tail)]);
    }
  }

  lemma RemoveReady(f: Forest, h: Heap, c: JsonNode)
    requires Consistent(f, h) && c in f
    ensures h[c].parent == f[c].parent && (f[c].parent == null ==> Detached(f, c) == f)
    ensures c in Detached(f, c) && Detached(f, c)[c].parent == null
    ensures f[c].parent != null ==>
              var p := f[c].parent;
              && p in f
              && (h[c].prev != null ==> h[c].prev in f && h[c].prev != c)
              && (h[c].next != null ==> h[c].next in f && h[c].next != c)
              && Detached(f, c).Keys == f.Keys
              && var h2 := BypassedHeap(h, p, c);
              && h2.Keys == f.Keys
              && Consistent(Detached(f, c), h2[c := Links(null, null, null, None, h2[c].head, h2[c].tail)])
  {
    assert Linked(f, h, c);
    if f[c].parent != null {
      RemoveConsistent(f, h, c);
    }
  }
}
