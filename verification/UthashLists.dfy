/**
 The two doubly linked lists that run through the elements of a uthash table: the list in insertion
 order (`prev`, `next`) and the list of the elements of one bucket (`hh_prev`, `hh_next`).

 Both are lists of the same kind, so their theory is stated once, on the map from each element to the
 two pointers that it stores for one of the lists.
 */
module UthashLists {
  import opened Chars

  type Key = seq<Byte>

  /** A hash handle, together with the element that contains it. */
  class Elem {
    const key: Key
    var hashv: nat
    var prev: Elem?
    var next: Elem?
    var hhPrev: Elem?
    var hhNext: Elem?

    constructor (key: Key)
      ensures this.key == key
    {
      this.key, hashv := key, 0;
      prev, next, hhPrev, hhNext := null, null, null, null;
    }
  }

  datatype Links = Links(prev: Elem?, next: Elem?)

  type Heap = map<Elem, Links>

  /** The pointers of the list in insertion order. */
  ghost function AppHeap(es: set<Elem>): (h: Heap)
    reads es`prev, es`next
    ensures h.Keys == es
  {
    map e | e in es :: Links(e.prev, e.next)
  }

  /** The pointers of the lists of the buckets. */
  ghost function BktHeap(es: set<Elem>): (h: Heap)
    reads es`hhPrev, es`hhNext
    ensures h.Keys == es
  {
    map e | e in es :: Links(e.hhPrev, e.hhNext)
  }

  function Nth(s: seq<Elem>, i: int): Elem? {
    if 0 <= i < |s| then s[i] else null
  }

  function Elements(s: seq<Elem>): set<Elem> {
    set e | e in s
  }

  ghost predicate Distinct(s: seq<Elem>) {
    forall i, j | 0 <= i < j < |s| :: s[i] != s[j]
  }

  /** The elements of `s`, in this order, form a list. */
  ghost predicate Linked(h: Heap, s: seq<Elem>) {
    forall i {:trigger LinkedAt(h, s, i)} | 0 <= i < |s| :: LinkedAt(h, s, i)
  }

  ghost predicate LinkedAt(h: Heap, s: seq<Elem>, i: nat)
    requires i < |s|
  {
    s[i] in h && h[s[i]] == Links(Nth(s, i - 1), Nth(s, i + 1))
  }

  /** The pointers of the elements of `s` are the same in both heaps. */
  ghost predicate Same(h: Heap, h': Heap, s: seq<Elem>) {
    forall e | e in s :: e in h && e in h' && h'[e] == h[e]
  }

  lemma SameLinked(h: Heap, h': Heap, s: seq<Elem>)
    requires Linked(h, s) && Same(h, h', s)
    ensures Linked(h', s)
  {
    forall i | 0 <= i < |s| ensures LinkedAt(h', s, i) {
      assert LinkedAt(h, s, i);
    }
  }

  // ---------------------------------------------------------------------------------------------
  // The changes to a list
  // ---------------------------------------------------------------------------------------------

  /** A new element behind the last one. */
  ghost function Appended(h: Heap, last: Elem?, e: Elem): Heap
    requires last != null ==> last in h
  {
    (if last != null then h[last := h[last].(next := e)] else h)[e := Links(last, null)]
  }

  /** A new element in front of the first one. */
  ghost function Pushed(h: Heap, first: Elem?, e: Elem): Heap
    requires first != null ==> first in h
  {
    h[e := Links(null, first)] + if first != null then map[first := h[first].(prev := e)] else map[]
  }

  /** The neighbours of an element are linked to each other. */
  ghost function Unlinked(h: Heap, e: Elem): Heap
    requires e in h && (h[e].prev != null ==> h[e].prev in h) && (h[e].next != null ==> h[e].next in h)
  {
    var h1 := if h[e].prev != null then h[h[e].prev := h[h[e].prev].(next := h[e].next)] else h;
    if h[e].next != null then h1[h[e].next := h1[h[e].next].(prev := h[e].prev)] else h1
  }

  lemma AppendedLinked(h: Heap, s: seq<Elem>, e: Elem)
    requires Linked(h, s) && Distinct(s) && e !in s
    ensures s != [] ==> s[|s| - 1] in h
    ensures Distinct(s + [e])
    ensures var h' := Appended(h, Nth(s, |s| - 1), e);
            Linked(h', s + [e]) && h'.Keys == h.Keys + {e} && forall x | x in h && x !in s && x != e :: h'[x] == h[x]
  {
    if s != [] {
      assert LinkedAt(h, s, |s| - 1);
    }
    var h' := Appended(h, Nth(s, |s| - 1), e);
    forall i | 0 <= i < |s + [e]| ensures LinkedAt(h', s + [e], i) {
      if i < |s| {
        assert LinkedAt(h, s, i);
      }
    }
  }

  lemma PushedLinked(h: Heap, s: seq<Elem>, e: Elem)
    requires Linked(h, s) && Distinct(s) && e !in s
    ensures s != [] ==> s[0] in h
    ensures Distinct([e] + s)
    ensures var h' := Pushed(h, Nth(s, 0), e);
            Linked(h', [e] + s) && h'.Keys == h.Keys + {e} && forall x | x in h && x !in s && x != e :: h'[x] == h[x]
  {
    if s != [] {
      assert LinkedAt(h, s, 0);
    }
    var h' := Pushed(h, Nth(s, 0), e);
    forall i | 0 <= i < |[e] + s| ensures LinkedAt(h', [e] + s, i) {
      if i > 0 {
        assert LinkedAt(h, s, i - 1);
      }
    }
  }

  function Without(s: seq<Elem>, i: nat): seq<Elem>
    requires i < |s|
  {
    s[..i] + s[i + 1..]
  }

  lemma UnlinkedLinked(h: Heap, s: seq<Elem>, i: nat)
    requires Linked(h, s) && Distinct(s) && i < |s|
    ensures s[i] in h && h[s[i]] == Links(Nth(s, i - 1), Nth(s, i + 1))
    ensures h[s[i]].prev != null ==> h[s[i]].prev in h
    ensures h[s[i]].next != null ==> h[s[i]].next in h
    ensures Distinct(Without(s, i)) && Elements(Without(s, i)) == Elements(s) - {s[i]}
    ensures var h' := Unlinked(h, s[i]);
            Linked(h', Without(s, i)) && h'.Keys == h.Keys && forall x | x in h && x !in s :: h'[x] == h[x]
  {
    Neighbours(h, s, i);
    var h', s' := Unlinked(h, s[i]), Without(s, i);
    forall j | 0 <= j < |s'| ensures LinkedAt(h', s', j) {
      var k := if j < i then j else j + 1;
      assert LinkedAt(h, s, k);
    }
    forall x | x in s && x != s[i] ensures x in s' {
      var k :| 0 <= k < |s| && s[k] == x;
      assert s'[if k < i then k else k - 1] == x;
    }
  }

  lemma Neighbours(h: Heap, s: seq<Elem>, i: nat)
    requires Linked(h, s) && i < |s|
    ensures s[i] in h && h[s[i]] == Links(Nth(s, i - 1), Nth(s, i + 1))
    ensures i > 0 ==> s[i - 1] in h
    ensures i + 1 < |s| ==> s[i + 1] in h
  {
    assert LinkedAt(h, s, i);
    if i > 0 {
      assert LinkedAt(h, s, i - 1);
    }
    if i + 1 < |s| {
      assert LinkedAt(h, s, i + 1);
    }
  }

  // ---------------------------------------------------------------------------------------------
  // The writes that make these changes
  // ---------------------------------------------------------------------------------------------

  /** The list in insertion order gets a new last element. */
  method AppendApp(last: Elem?, add: Elem, ghost es: set<Elem>)
    requires add in es && (last != null ==> last in es && last != add)
    modifies es`prev, es`next
    ensures AppHeap(es) == Appended(old(AppHeap(es)), last, add)
  {
    add.next := null;
    if last == null {
      add.prev := null;
    } else {
      last.next := add;
      add.prev := last;
    }
  }

  /** The list of a bucket gets a new first element. */
  method PushBkt(first: Elem?, add: Elem, ghost es: set<Elem>)
    requires add in es && (first != null ==> first in es && first != add)
    modifies es`hhPrev, es`hhNext
    ensures BktHeap(es) == Pushed(old(BktHeap(es)), first, add)
  {
    add.hhNext := first;
    add.hhPrev := null;
    if first != null {
      first.hhPrev := add;
    }
  }

  /** An element leaves the list in insertion order. */
  method UnlinkApp(del: Elem, ghost es: set<Elem>)
    requires del in es && (del.prev != null ==> del.prev in es && del.prev != del)
    requires del.next != null ==> del.next in es && del.next != del
    modifies es`prev, es`next
    ensures AppHeap(es) == Unlinked(old(AppHeap(es)), del)
  {
    if del.prev != null {
      del.prev.next := del.next;
    }
    if del.next != null {
      del.next.prev := del.prev;
    }
  }

  /** An element leaves the list of its bucket. */
  method UnlinkBkt(del: Elem, ghost es: set<Elem>)
    requires del in es && (del.hhPrev != null ==> del.hhPrev in es && del.hhPrev != del)
    requires del.hhNext != null ==> del.hhNext in es && del.hhNext != del
    modifies es`hhPrev, es`hhNext
    ensures BktHeap(es) == Unlinked(old(BktHeap(es)), del)
  {
    if del.hhPrev != null {
      del.hhPrev.hhNext := del.hhNext;
    }
    if del.hhNext != null {
      del.hhNext.hhPrev := del.hhPrev;
    }
  }
}
