/**
 What a client sees of a uthash table: an insertion-ordered map from keys to elements.  The client looks
 a key up before it adds an element for it, as revgeod.c does with the names of applications, and goes on
 to use the element that the search returned.
 */
module UthashMap {
  import opened Options
  import opened UthashLists
  import opened UthashBuckets
  import opened UthashTable

  /** One call of the client, with the element that it may add. */
  datatype Op = FindOrAdd(elem: Elem) | FindAndDelete(key: Key) | Replace(elem: Elem)

  /** The key that the operation searches for. */
  function KeyOf(op: Op): Key {
    if op.FindAndDelete? then op.key else op.elem.key
  }

  /** The elements that the operation may add. */
  function ElemsOf(op: Op): set<Elem> {
    if op.FindAndDelete? then {} else {op.elem}
  }

  // ---------------------------------------------------------------------------------------------
  // The reference: the elements of the map, oldest first
  // ---------------------------------------------------------------------------------------------

  /** The position of the first element with the key. */
  function Position(s: seq<Elem>, k: Key): (i: nat)
    ensures i <= |s| && (i < |s| ==> s[i].key == k) && forall j | 0 <= j < i :: s[j].key != k
  {
    if s == [] || s[0].key == k then 0 else 1 + Position(s[1..], k)
  }

  function Lookup(s: seq<Elem>, k: Key): Elem? {
    Nth(s, Position(s, k))
  }

  function Minus(s: seq<Elem>, k: Key): seq<Elem> {
    if Position(s, k) < |s| then Without(s, Position(s, k)) else s
  }

  function Step(s: seq<Elem>, op: Op): seq<Elem> {
    match op
    case FindOrAdd(e) => if Lookup(s, e.key) != null then s else s + [e]
    case FindAndDelete(k) => Minus(s, k)
    case Replace(e) => Minus(s, e.key) + [e]
  }

  function StepAll(ops: seq<Op>): seq<Elem> {
    if ops == [] then [] else Step(StepAll(ops[..|ops| - 1]), ops[|ops| - 1])
  }

  /** The reference in terms of sequences: each operation searches for the oldest element with its key, keeps
      it, takes it out or lets another one follow, and adds only at the end. */
  lemma StepLaw(s: seq<Elem>, e: Elem, k: Key, i: nat)
    requires i <= |s| && forall j | 0 <= j < i :: s[j].key != k
    requires i < |s| ==> s[i].key == k
    ensures e.key == k ==> Step(s, FindOrAdd(e)) == if i < |s| then s else s + [e]
    ensures Step(s, FindAndDelete(k)) == if i < |s| then s[..i] + s[i + 1..] else s
    ensures e.key == k ==> Step(s, Replace(e)) == if i < |s| then s[..i] + s[i + 1..] + [e] else s + [e]
    ensures Lookup(s, k) == if i < |s| then s[i] else null
  {
    assert Position(s, k) == i;
  }

  /** A run is its operations one after the other, from the empty map on. */
  lemma RunLaw(ops: seq<Op>, op: Op)
    ensures StepAll([]) == [] && StepAll(ops + [op]) == Step(StepAll(ops), op)
  {
    assert (ops + [op])[..|ops|] == ops;
  }

  // ---------------------------------------------------------------------------------------------
  // Properties of the reference
  // ---------------------------------------------------------------------------------------------

  predicate UniqueKeys(s: seq<Elem>) {
    forall i, j | 0 <= i < j < |s| :: s[i].key != s[j].key
  }

  /** What the key stands for after the operations, read off the operations on this key alone. */
  function Latest(ops: seq<Op>, k: Key): (e: Elem?)
    ensures e != null ==> e.key == k
  {
    if ops == [] then null
    else
      var before, op := Latest(ops[..|ops| - 1], k), ops[|ops| - 1];
      if KeyOf(op) != k then before
      else match op
        case FindOrAdd(e) => if before != null then before else e
        case FindAndDelete(_) => null
        case Replace(e) => e
  }

  /** The number of operations after which the element for the key was added. */
  function Since(ops: seq<Op>, k: Key): (n: nat)
    ensures ops != [] ==> n < |ops|
  {
    if ops == [] then 0
    else
      var init, op := ops[..|ops| - 1], ops[|ops| - 1];
      if KeyOf(op) == k && (op.Replace? || Latest(init, k) == null) then |init| else Since(init, k)
  }

  /** The elements are ordered by the time at which they were added. */
  ghost predicate OldestFirst(ops: seq<Op>, s: seq<Elem>) {
    forall i, j | 0 <= i < j < |s| :: Since(ops, s[i].key) < Since(ops, s[j].key)
  }

  lemma LookupUnique(s: seq<Elem>, i: nat)
    requires UniqueKeys(s) && i < |s|
    ensures Lookup(s, s[i].key) == s[i]
  {
  }

  lemma MinusExact(s: seq<Elem>, k: Key, x: Key)
    requires UniqueKeys(s)
    ensures UniqueKeys(Minus(s, k)) && Lookup(Minus(s, k), x) == if x == k then null else Lookup(s, x)
    ensures forall i | 0 <= i < |Minus(s, k)| :: Minus(s, k)[i].key != k
  {
    var p, t := Position(s, k), Minus(s, k);
    if p < |s| {
      assert forall i | 0 <= i < |t| :: t[i] == if i < p then s[i] else s[i + 1];
      var q := Position(s, x);
      if x != k && q < |s| {
        LookupUnique(t, if q < p then q else q - 1);
      }
    }
  }

  lemma SnocExact(s: seq<Elem>, e: Elem, x: Key)
    requires UniqueKeys(s) && forall i | 0 <= i < |s| :: s[i].key != e.key
    ensures UniqueKeys(s + [e]) && Lookup(s + [e], x) == if x == e.key then e else Lookup(s, x)
  {
    var q := Position(s, x);
    LookupUnique(s + [e], q);
  }

  lemma StepExact(s: seq<Elem>, op: Op, x: Key)
    requires UniqueKeys(s)
    ensures UniqueKeys(Step(s, op))
    ensures Lookup(Step(s, op), x)
         == if x != KeyOf(op) then Lookup(s, x)
            else match op
              case FindOrAdd(e) => if Lookup(s, x) != null then Lookup(s, x) else e
              case FindAndDelete(_) => null
              case Replace(e) => e
  {
    MinusExact(s, KeyOf(op), x);
    match op
    case FindOrAdd(e) =>
      if Lookup(s, e.key) == null {
        SnocExact(s, e, x);
      }
    case FindAndDelete(_) =>
    case Replace(e) =>
      SnocExact(Minus(s, e.key), e, x);
  }

  /** No key occurs twice, and a key stands for the element that the operations on this key give it. */
  lemma {:induction false} StepAllExact(ops: seq<Op>, k: Key)
    ensures UniqueKeys(StepAll(ops)) && Lookup(StepAll(ops), k) == Latest(ops, k)
  {
    if ops != [] {
      StepAllExact(ops[..|ops| - 1], k);
      hide UniqueKeys, Lookup, Step;
      StepExact(StepAll(ops[..|ops| - 1]), ops[|ops| - 1], k);
    }
  }

  /** What is in the map before an operation, and stays, keeps its time. */
  lemma SinceKept(ops: seq<Op>, s: seq<Elem>, i: nat)
    requires ops != [] && s == StepAll(ops[..|ops| - 1]) && i < |s|
    requires ops[|ops| - 1].FindOrAdd? || s[i].key != KeyOf(ops[|ops| - 1])
    ensures Since(ops, s[i].key) == Since(ops[..|ops| - 1], s[i].key) < |ops| - 1
  {
    StepAllExact(ops[..|ops| - 1], s[i].key);
    LookupUnique(s, i);
  }

  lemma WithoutOldestFirst(ops: seq<Op>, s: seq<Elem>, p: nat)
    requires OldestFirst(ops, s) && p < |s|
    ensures OldestFirst(ops, Without(s, p))
  {
    hide Since;
    var t := Without(s, p);
    assert forall i | 0 <= i < |t| :: t[i] == if i < p then s[i] else s[i + 1];
  }

  lemma OldestFirstLater(ops: seq<Op>, s: seq<Elem>)
    requires ops != [] && OldestFirst(ops[..|ops| - 1], s)
    requires forall i | 0 <= i < |s| :: Since(ops, s[i].key) == Since(ops[..|ops| - 1], s[i].key)
    ensures OldestFirst(ops, s)
  {
  }

  /** What an operation leaves in the map. */
  function Kept(s: seq<Elem>, op: Op): seq<Elem> {
    if op.FindOrAdd? then s else Minus(s, KeyOf(op))
  }

  lemma KeptOldestFirst(ops: seq<Op>, s: seq<Elem>)
    requires ops != [] && s == StepAll(ops[..|ops| - 1]) && OldestFirst(ops[..|ops| - 1], s)
    ensures var kept := Kept(s, ops[|ops| - 1]);
            OldestFirst(ops, kept) && forall i | 0 <= i < |kept| :: Since(ops, kept[i].key) < |ops| - 1
  {
    hide *;
    var init, op := ops[..|ops| - 1], ops[|ops| - 1];
    StepAllExact(init, []);
    KeptOrdered(init, s, op);
    forall i | 0 <= i < |Kept(s, op)|
      ensures Since(ops, Kept(s, op)[i].key) == Since(init, Kept(s, op)[i].key) < |init|
    {
      var j := KeptFrom(s, op, i);
      SinceKept(ops, s, j);
    }
    OldestFirstLater(ops, Kept(s, op));
  }

  lemma KeptOrdered(ops: seq<Op>, s: seq<Elem>, op: Op)
    requires OldestFirst(ops, s)
    ensures OldestFirst(ops, Kept(s, op))
  {
    hide OldestFirst;
    if Kept(s, op) != s {
      WithoutOldestFirst(ops, s, Position(s, KeyOf(op)));
    }
  }

  lemma KeptFrom(s: seq<Elem>, op: Op, i: nat) returns (j: nat)
    requires UniqueKeys(s) && i < |Kept(s, op)|
    ensures j < |s| && s[j] == Kept(s, op)[i] && (op.FindOrAdd? || s[j].key != KeyOf(op))
  {
    hide Position;
    var p := Position(s, KeyOf(op));
    j := if op.FindOrAdd? || i < p then i else i + 1;
    if !op.FindOrAdd? && p < |s| {
      assert Kept(s, op) == s[..p] + s[p + 1..];
    }
  }

  /** The elements are in the order in which they were added: a search or a deletion changes nothing in
      the order of the others. */
  lemma {:induction false} StepAllOldestFirst(ops: seq<Op>)
    ensures OldestFirst(ops, StepAll(ops))
  {
    if ops != [] {
      var init, op := ops[..|ops| - 1], ops[|ops| - 1];
      var s, k := StepAll(init), KeyOf(op);
      StepAllOldestFirst(init);
      KeptOldestFirst(ops, s);
      StepAllExact(init, k);
      hide Minus, Lookup, Position, UniqueKeys;
      assert StepAll(ops) == Kept(s, op) || (StepAll(ops) == Kept(s, op) + [op.elem] && Since(ops, k) == |init|) by {
        LookupKept(s, op);
      }
    }
  }

  lemma LookupKept(s: seq<Elem>, op: Op)
    ensures Step(s, op) == Kept(s, op) || Step(s, op) == Kept(s, op) + [op.elem]
    ensures op.FindOrAdd? && Step(s, op) != s ==> Lookup(s, KeyOf(op)) == null
  {
  }

  /** The elements of the map are those that their own key stands for. */
  lemma StepAllElements(ops: seq<Op>, e: Elem)
    ensures e in StepAll(ops) <==> Latest(ops, e.key) == e
  {
    var s := StepAll(ops);
    StepAllExact(ops, e.key);
    if e in s {
      var i :| 0 <= i < |s| && s[i] == e;
      LookupUnique(s, i);
    }
  }

  // ---------------------------------------------------------------------------------------------
  // The operations of a client
  // ---------------------------------------------------------------------------------------------

  /** Look a key up, and add an element for it when there is none. */
  method DoFindOrAdd(t: Table, e: Elem) returns (out: Elem?)
    requires t.Valid()
    modifies t, t.buckets, t.bloomBv, t.Members(), e
    ensures t.Valid() && (out == null <==> forall x | x in old(t.order) :: x.key != e.key)
    ensures out != null ==> out in old(t.order) && out.key == e.key && t.order == old(t.order)
    ensures out == null ==> t.order == old(t.order) + [e]
    ensures (t.buckets == old(t.buckets) || fresh(t.buckets)) && (t.bloomBv == old(t.bloomBv) || fresh(t.bloomBv))
  {
    hide t.Valid;
    out := t.Find(e.key);
    if out == null {
      t.AddKeyptr(e);
    }
  }

  /** Look a key up, and delete its element when there is one. */
  method DoFindAndDelete(t: Table, key: Key) returns (out: Elem?)
    requires t.Valid()
    modifies t, t.buckets, t.Members()
    ensures t.Valid() && (out == null <==> forall x | x in old(t.order) :: x.key != key)
    ensures out == null ==> t.order == old(t.order)
    ensures out != null ==>
      && out in old(t.order) && out.key == key
      && var i := IndexOf(old(t.order), out); t.order == old(t.order)[..i] + old(t.order)[i + 1..]
    ensures t.buckets == old(t.buckets) && t.bloomBv == old(t.bloomBv)
  {
    hide t.Valid;
    out := t.Find(key);
    if out != null {
      t.Delete(out);
    }
  }

  lemma ValidDistinct(t: Table)
    requires t.Valid()
    ensures forall i, j | 0 <= i < j < |t.order| :: t.order[i] != t.order[j]
  {
  }

  /** HASH_REPLACE: an element with the same key gives way to `add`.  If `add` is in the table itself, it
      must be the one that the search finds. */
  method DoReplace(t: Table, add: Elem) returns (out: Elem?)
    requires t.Valid() && (add in t.order ==> forall x | x in t.order && x.key == add.key :: x == add)
    modifies t, t.buckets, t.bloomBv, t.Members(), add
    ensures t.Valid() && (out == null <==> forall x | x in old(t.order) :: x.key != add.key)
    ensures out == null ==> t.order == old(t.order) + [add]
    ensures out != null ==>
      && out in old(t.order) && out.key == add.key
      && var i := IndexOf(old(t.order), out); t.order == old(t.order)[..i] + old(t.order)[i + 1..] + [add]
    ensures (t.buckets == old(t.buckets) || fresh(t.buckets)) && (t.bloomBv == old(t.bloomBv) || fresh(t.bloomBv))
  {
    hide t.Valid, IndexOf;
    ValidDistinct(t);
    ghost var before := t.order;
    out := DoFindAndDelete(t, add.key);
    if out != null {
      TakenOut(before, IndexOf(before, out));
    }
    t.AddKeyptr(add);
  }

  lemma TakenOut(s: seq<Elem>, i: nat)
    requires i < |s| && forall j, k | 0 <= j < k < |s| :: s[j] != s[k]
    ensures s[i] !in s[..i] + s[i + 1..] && forall x | x in s[..i] + s[i + 1..] :: x in s
  {
  }

  /** One operation of a run, on a map without repeated keys. */
  method Do(t: Table, op: Op) returns (out: Elem?)
    requires t.Valid() && UniqueKeys(t.order)
    modifies t, t.buckets, t.bloomBv, t.Members(), ElemsOf(op)
    ensures t.Valid() && t.order == Step(old(t.order), op) && out == Lookup(old(t.order), KeyOf(op))
    ensures (t.buckets == old(t.buckets) || fresh(t.buckets)) && (t.bloomBv == old(t.bloomBv) || fresh(t.bloomBv))
  {
    hide t.Valid;
    Searched(t.order, KeyOf(op));
    match op
    case FindOrAdd(e) => out := DoFindOrAdd(t, e);
    case FindAndDelete(key) => out := DoFindAndDelete(t, key);
    case Replace(e) => out := DoReplace(t, e);
  }

  /** Without repeated keys, a search can only return one element. */
  lemma Searched(s: seq<Elem>, k: Key)
    requires UniqueKeys(s)
    ensures Lookup(s, k) == null <==> forall x | x in s :: x.key != k
    ensures forall x | x in s && x.key == k :: x == Lookup(s, k) && IndexOf(s, x) == Position(s, k) < |s|
  {
  }

  ghost function AllElems(ops: seq<Op>): set<Elem> {
    set op, e | op in ops && e in ElemsOf(op) :: e
  }

  lemma StepIn(s: seq<Elem>, op: Op, e: Elem)
    requires e in Step(s, op)
    ensures e in s || e in ElemsOf(op)
  {
  }

  lemma {:induction false} StepAllIn(ops: seq<Op>)
    ensures forall e | e in StepAll(ops) :: e in AllElems(ops)
  {
    if ops != [] {
      var init, op := ops[..|ops| - 1], ops[|ops| - 1];
      StepAllIn(init);
      assert AllElems(init) <= AllElems(ops) && ElemsOf(op) <= AllElems(ops);
      forall e | e in StepAll(ops) ensures e in AllElems(ops) {
        StepIn(StepAll(init), op, e);
      }
    }
  }

  lemma Unfold(ops: seq<Op>, i: nat)
    requires i <= |ops|
    ensures i == 0 ==> StepAll(ops[..i]) == []
    ensures i < |ops| ==> StepAll(ops[..i + 1]) == Step(StepAll(ops[..i]), ops[i]) && ElemsOf(ops[i]) <= AllElems(ops)
    ensures Elements(StepAll(ops[..i])) <= AllElems(ops)
  {
    StepAllIn(ops[..i]);
    if i < |ops| {
      assert ops[..i + 1][..i] == ops[..i];
    }
  }

  /** Every run refines the reference, whatever the hash function is and with or without a Bloom filter:
      the table has the elements of the reference in its order, and each search returns the element that
      the earlier operations on its key give. */
  method Run(hash: Key -> Word, bloomBits: Option<nat>, ops: seq<Op>) returns (t: Table, found: seq<Elem?>)
    modifies AllElems(ops)
    ensures fresh(t) && t.Valid() && t.order == StepAll(ops)
    ensures |found| == |ops| && forall i | 0 <= i < |ops| :: found[i] == Latest(ops[..i], KeyOf(ops[i]))
  {
    t := new Table(hash, bloomBits);
    found := [];
    hide t.Valid, StepAll, Step, UniqueKeys, Lookup, Latest, AllElems;
    Unfold(ops, 0);
    for i := 0 to |ops|
      invariant fresh(t) && fresh(t.buckets) && fresh(t.bloomBv)
      invariant t.Valid() && t.order == StepAll(ops[..i])
      invariant |found| == i && forall j | 0 <= j < i :: found[j] == Latest(ops[..j], KeyOf(ops[j]))
    {
      Unfold(ops, i);
      StepAllExact(ops[..i], KeyOf(ops[i]));
      var out := Do(t, ops[i]);
      found := found + [out];
    }
    assert ops[..|ops|] == ops;
  }
}
