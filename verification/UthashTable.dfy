/**
 The hash table of uthash.h.  `Table` is the variable `head` of a client together with the
 UT_hash_table that all elements share; the macros that take `head` are its methods.

 A table is abstracted by `order`, its elements in insertion order, and by `chains`, the elements of
 each bucket.  `Valid` is what HASH_FSCK checks, and that every element is in the bucket of its hash
 value and is not rejected by the Bloom filter.  Keys may repeat: that they do not is up to the client.
 */
module UthashTable {
  import opened Options
  import opened Bits
  import opened Chars
  import opened UthashLists
  import opened UthashBloom
  import opened UthashBuckets

  const INITIAL_NUM_BUCKETS := 32
  const INITIAL_NUM_BUCKETS_LOG2 := 5
  const BKT_CAPACITY_THRESH := 10

  /** The list in insertion order, with its two ends and its length. */
  ghost predicate ListOk(h: Heap, order: seq<Elem>, head: Elem?, tail: Elem?, count: nat) {
    && Distinct(order) && Linked(h, order)
    && head == Nth(order, 0) && tail == Nth(order, |order| - 1) && count == |order|
  }

  /** The hash values stored in the elements are those of their keys. */
  ghost predicate Hashed(hash: Key -> Word, es: set<Elem>)
    reads es`hashv
  {
    forall e | e in es :: e.hashv == hash(e.key)
  }

  /** The Bloom filter, when there is one, accepts all elements. */
  ghost predicate Accepts(bv: seq<Byte>, bloomBits: Option<nat>, hash: Key -> Word, es: set<Elem>) {
    bloomBits.Some? ==>
      && |bv| == ByteLen(bloomBits.value)
      && forall e | e in es :: BitTest(bv, BitOf(hash(e.key), bloomBits.value))
  }

  /** `q` is `a / b`, rounded up. */
  predicate IsCeil(q: nat, a: nat, b: nat) {
    a <= q * b < a + b
  }

  class Table {
    const hash: Key -> Word
    const bloomBits: Option<nat>
    var head: Elem?
    var tail: Elem?
    var numItems: nat
    var buckets: array<Bucket>
    var numBuckets: nat
    var log2NumBuckets: nat
    var idealChainMaxlen: nat
    var nonidealItems: nat
    var ineffExpands: nat
    var noexpand: nat
    var bloomBv: array<Byte>
    ghost var order: seq<Elem>
    ghost var chains: seq<seq<Elem>>

    ghost function Members(): set<Elem>
      reads this`order
    {
      Elements(order)
    }

    /** The buckets hold the elements `es`. */
    ghost predicate Bucketed(es: set<Elem>)
      reads this`buckets, this`numBuckets, this`log2NumBuckets, this`chains, buckets, es`hhPrev, es`hhNext, es`hashv
    {
      && buckets.Length == numBuckets == Pow2(log2NumBuckets)
      && Chained(hash, BktHeap(es), chains, numBuckets, es)
      && BucketsOk(buckets[..], chains) && Hashed(hash, es)
    }

    /** The elements `es` form the list in insertion order. */
    ghost predicate Listed(es: set<Elem>)
      reads this`order, this`head, this`tail, this`numItems, es`prev, es`next
    {
      es == Elements(order) && ListOk(AppHeap(es), order, head, tail, numItems)
    }

    /** The state of the table.  Without elements there is no UT_hash_table. */
    ghost predicate Valid()
      reads this, buckets, bloomBv, Members()
    {
      if head == null then order == []
      else
        && Listed(Members()) && Bucketed(Members())
        && Accepts(bloomBv[..], bloomBits, hash, Members())
    }

    /** What HASH_ITER and the sort see: the list in insertion order, in both directions. */
    lemma OrderPointers(i: nat)
      requires Valid() && i < |order|
      ensures head == order[0] && tail == order[|order| - 1] && numItems == |order|
      ensures order[i].prev == (if i == 0 then null else order[i - 1])
      ensures order[i].next == (if i == |order| - 1 then null else order[i + 1])
      ensures forall j | 0 <= j < |order| && j != i :: order[j] != order[i]
    {
      assert LinkedAt(AppHeap(Members()), order, i);
      assert AppHeap(Members())[order[i]] == Links(order[i].prev, order[i].next);
    }

    /** What HASH_FIND sees: the count and the list of a bucket, whose elements have the right hash value. */
    lemma BucketPointers(b: nat, i: nat)
      requires Valid() && head != null && b < numBuckets
      ensures |chains| == buckets.Length == numBuckets == Pow2(log2NumBuckets)
      ensures var chain := chains[b];
        && buckets[b].count == |chain| && buckets[b].head == (if chain == [] then null else chain[0])
        && (i < |chain| ==>
              && chain[i] in order && chain[i].hashv == hash(chain[i].key) && hash(chain[i].key) % numBuckets == b
              && chain[i].hhPrev == (if i == 0 then null else chain[i - 1])
              && chain[i].hhNext == (if i == |chain| - 1 then null else chain[i + 1]))
    {
      var h, chain := BktHeap(Members()), chains[b];
      assert ChainOk(hash, h, chain, b, numBuckets, Members());
      if i < |chain| {
        assert LinkedAt(h, chain, i) && chain[i] in Members();
        assert h[chain[i]] == Links(chain[i].hhPrev, chain[i].hhNext);
      }
    }

    /** The variable `head`, initialised to NULL. */
    constructor (hash: Key -> Word, bloomBits: Option<nat>)
      ensures Valid() && order == [] && this.hash == hash && this.bloomBits == bloomBits
      ensures fresh(buckets) && fresh(bloomBv)
    {
      this.hash, this.bloomBits := hash, bloomBits;
      head, tail, numItems := null, null, 0;
      buckets := new Bucket[0];
      bloomBv := new Byte[0];
      numBuckets, log2NumBuckets, idealChainMaxlen, nonidealItems, ineffExpands, noexpand := 0, 0, 0, 0, 0, 0;
      order, chains := [], [];
    }

    // -------------------------------------------------------------------------------------------
    // Finding
    // -------------------------------------------------------------------------------------------

    /** HASH_FIND_IN_BKT */
    method FindInBkt(b: nat, key: Key) returns (out: Elem?)
      requires Bucketed(Members()) && b < numBuckets
      ensures out != null ==> out in chains[b] && out.key == key
      ensures out == null ==> forall e | e in chains[b] :: e.key != key
    {
      ghost var h := BktHeap(Members());
      ghost var chain := chains[b];
      assert ChainOk(hash, h, chain, b, numBuckets, Members());
      hide Chained, Hashed, Distinct, Pow2, Members;
      out := buckets[b].head;
      ghost var i := 0;
      while out != null
        invariant i <= |chain| && out == Nth(chain, i)
        invariant forall j | 0 <= j < i :: chain[j].key != key
        decreases |chain| - i
      {
        if |out.key| == |key| && out.key == key {
          return;
        }
        assert LinkedAt(h, chain, i);
        out := out.hhNext;
        i := i + 1;
      }
    }

    /** HASH_FIND */
    method Find(key: Key) returns (out: Elem?)
      requires Valid()
      ensures out != null ==> out in order && out.key == key
      ensures out == null ==> forall e | e in order :: e.key != key
    {
      out := null;
      if head != null {
        InBucket(Members(), key);
        hide *;
        var hashv := hash(key);
        var bkt := ToBkt(hashv, numBuckets, log2NumBuckets);
        if BloomTest(hashv) {
          out := FindInBkt(bkt, key);
        }
      }
    }

    /** HASH_BLOOM_TEST, which is 1 without a filter */
    predicate BloomTest(hashv: nat)
      requires bloomBits.Some? ==> bloomBv.Length == ByteLen(bloomBits.value)
      reads this`bloomBv, bloomBv
    {
      bloomBits.Some? ==> BitTest(bloomBv[..], BitOf(hashv, bloomBits.value))
    }

    /** All elements with a given key are in the bucket of its hash value, and the filter lets it pass. */
    lemma InBucket(es: set<Elem>, key: Key)
      requires Bucketed(es) && Accepts(bloomBv[..], bloomBits, hash, es)
      ensures numBuckets == Pow2(log2NumBuckets) && |chains| == numBuckets > 0
      ensures bloomBits.Some? ==> bloomBv.Length == ByteLen(bloomBits.value)
      ensures forall e | e in chains[hash(key) % numBuckets] :: e in es
      ensures forall e | e in es && e.key == key :: BloomTest(hash(key)) && e in chains[hash(key) % numBuckets]
    {
      var b := hash(key) % numBuckets;
      assert ChainOk(hash, BktHeap(es), chains[b], b, numBuckets, es);
      forall e | e in es && e.key == key ensures e in chains[b] {
        assert BucketOf(hash, e, numBuckets) == b;
      }
    }

    // -------------------------------------------------------------------------------------------
    // Expanding
    // -------------------------------------------------------------------------------------------

    /** The body of the loops of HASH_EXPAND_BUCKETS: one item moves to the front of its new bucket. */
    method MoveItem(thh: Elem, newBuckets: array<Bucket>, n: nat, lb: nat, ideal: nat, nonideal: nat,
                    ghost h0: Heap, ghost newChains: seq<seq<Elem>>, ghost moved: set<Elem>, ghost es: set<Elem>)
        returns (nonideal': nat, ghost newChains': seq<seq<Elem>>)
      requires n == Pow2(lb) && newBuckets.Length == n && Hashed(hash, es)
      requires Progress(hash, BktHeap(es), newBuckets[..], newChains, n, ideal, nonideal, moved)
      requires Waiting(h0, BktHeap(es), moved) && thh in es && thh !in moved
      modifies newBuckets, es`hhPrev, es`hhNext
      ensures Progress(hash, BktHeap(es), newBuckets[..], newChains', n, ideal, nonideal', moved + {thh})
      ensures Waiting(h0, BktHeap(es), moved + {thh})
    {
      hide *;
      ghost var h, bs := BktHeap(es), newBuckets[..];
      InProgress(h0, h, bs, newChains, n, ideal, nonideal, moved);
      MoveStep(hash, h0, h, bs, newChains, n, ideal, nonideal, moved, thh);
      InBucketOf(thh, es, n);
      var bkt := ToBkt(thh.hashv, n, lb);
      var bucket := newBuckets[bkt];
      nonideal' := if bucket.count + 1 > ideal then nonideal + 1 else nonideal;
      PushBkt(bucket.head, thh, es);
      newBuckets[bkt] := Grown(bucket, thh, ideal);
      assert newBuckets[..] == bs[bkt := Grown(bucket, thh, ideal)];
      newChains' := newChains[bkt := [thh] + newChains[bkt]];
    }

    lemma InProgress(h0: Heap, h: Heap, bs: seq<Bucket>, chains: seq<seq<Elem>>, n: nat, ideal: nat, nonideal: nat,
                     moved: set<Elem>)
      requires Waiting(h0, h, moved) && Progress(hash, h, bs, chains, n, ideal, nonideal, moved)
      ensures h.Keys == h0.Keys && ideal > 0 && |chains| == |bs| == n > 0
    {
    }

    /** The nested loops of HASH_EXPAND_BUCKETS: every item moves into one of twice as many buckets. */
    method MoveItems(ideal: nat, ghost es: set<Elem>)
        returns (newBuckets: array<Bucket>, nonideal: nat, ghost newChains: seq<seq<Elem>>)
      requires Bucketed(es) && ideal > 0
      modifies es`hhPrev, es`hhNext
      ensures fresh(newBuckets) && newBuckets.Length == 2 * numBuckets
      ensures Progress(hash, BktHeap(es), newBuckets[..], newChains, 2 * numBuckets, ideal, nonideal, es)
    {
      hide Progress, Moved, Waiting, Chained, BucketOf, Hashed;
      ghost var h0 := BktHeap(es);
      var n := 2 * numBuckets;
      assert n == Pow2(log2NumBuckets + 1);
      newBuckets := new Bucket[n](_ => EMPTY);
      newChains := NothingMoved(hash, h0, chains, numBuckets, es, newBuckets[..], n, ideal);
      nonideal := 0;
      ghost var moved: set<Elem> := {};
      ChainCount(hash, h0, chains, numBuckets, es);
      var i := 0;
      while i < numBuckets
        invariant i <= numBuckets && Moved(hash, chains, numBuckets, es, i, 0, moved)
        invariant Progress(hash, BktHeap(es), newBuckets[..], newChains, n, ideal, nonideal, moved)
        invariant Waiting(h0, BktHeap(es), moved)
      {
        var thh := buckets[i].head;
        ghost var j := 0;
        while thh != null
          invariant j <= |chains[i]| && thh == Nth(chains[i], j)
          invariant Moved(hash, chains, numBuckets, es, i, j, moved)
          invariant Progress(hash, BktHeap(es), newBuckets[..], newChains, n, ideal, nonideal, moved)
          invariant Waiting(h0, BktHeap(es), moved)
          decreases |chains[i]| - j
        {
          NextToMove(hash, h0, BktHeap(es), chains, numBuckets, es, i, j, moved);
          assert BktHeap(es)[thh] == Links(thh.hhPrev, thh.hhNext);
          var nxt := thh.hhNext;
          nonideal, newChains :=
            MoveItem(thh, newBuckets, n, log2NumBuckets + 1, ideal, nonideal, h0, newChains, moved, es);
          moved := moved + {thh};
          thh := nxt;
          j := j + 1;
        }
        BucketMoved(hash, h0, chains, numBuckets, es, i, moved);
        i := i + 1;
      }
      AllMoved(hash, chains, numBuckets, es, moved);
    }

    lemma ChainCount(hash: Key -> Word, h: Heap, chains: seq<seq<Elem>>, n: nat, es: set<Elem>)
      requires Chained(hash, h, chains, n, es)
      ensures |chains| == n > 0
    {
    }

    lemma InBucketOf(e: Elem, es: set<Elem>, n: nat)
      requires Hashed(hash, es) && e in es && n > 0
      ensures BucketOf(hash, e, n) == e.hashv % n
    {
    }

    /** `(num_items >> lb) + ((num_items & (b - 1)) ? 1 : 0)`, for a number of buckets `b` that is 2^lb */
    function Ideal(items: nat, lb: nat, b: nat): (ideal: nat)
      requires b == Pow2(lb)
      ensures IsCeil(ideal, items, b) && (items > 0 ==> ideal > 0)
    {
      hide Pow2;
      CeilOf(items, b);
      ShiftDown(items, lb, b) + if Mask(items, lb, b) != 0 then 1 else 0
    }

    lemma CeilOf(a: nat, b: nat)
      requires b > 0
      ensures a == a / b * b + a % b && (a / b + 1) * b == a / b * b + b
    {
    }

    lemma BucketedAgain(es: set<Elem>)
      requires buckets.Length == numBuckets == Pow2(log2NumBuckets) && Hashed(hash, es)
      requires Progress(hash, BktHeap(es), buckets[..], chains, numBuckets, idealChainMaxlen, nonidealItems, es)
      ensures Bucketed(es) && idealChainMaxlen > 0
      ensures nonidealItems == Excess(chains, idealChainMaxlen) && Multiplied(buckets[..], idealChainMaxlen)
    {
    }

    lemma Doubled(es: set<Elem>)
      requires Bucketed(es)
      ensures 2 * numBuckets == Pow2(log2NumBuckets + 1) && Hashed(hash, es)
    {
    }

    lemma MoreThanHalf(a: nat, n: nat)
      ensures a > n / 2 <==> 2 * a > n
    {
    }

    /** HASH_EXPAND_BUCKETS */
    method ExpandBuckets(ghost es: set<Elem>)
      requires Bucketed(es) && numItems > 0
      modifies this`buckets, this`numBuckets, this`log2NumBuckets, this`idealChainMaxlen, this`nonidealItems
      modifies this`ineffExpands, this`noexpand, this`chains, es`hhPrev, es`hhNext
      ensures Bucketed(es) && fresh(buckets)
      ensures numBuckets == 2 * old(numBuckets) && log2NumBuckets == old(log2NumBuckets) + 1
      ensures Expanded(old(ineffExpands), old(noexpand))
    {
      hide Bucketed, Progress, Hashed, Chained, IsCeil, Pow2, Excess, Multiplied;
      Doubled(es);
      var ideal := Ideal(numItems, log2NumBuckets + 1, 2 * numBuckets);
      idealChainMaxlen := ideal;
      var newBuckets, nonideal;
      ghost var newChains;
      newBuckets, nonideal, newChains := MoveItems(ideal, es);
      nonidealItems := nonideal;
      numBuckets := numBuckets * 2;
      log2NumBuckets := log2NumBuckets + 1;
      buckets := newBuckets;
      chains := newChains;
      BucketedAgain(es);
      Powers();
      MoreThanHalf(nonidealItems, numItems);
      ineffExpands := if nonidealItems > ShiftDown(numItems, 1, 2) then ineffExpands + 1 else 0;
      if ineffExpands > 1 {
        noexpand := 1;
      }
    }

    /** The bookkeeping of an expansion: what the multipliers and the counters are afterwards. */
    ghost predicate Expanded(ineffBefore: nat, noexpandBefore: nat)
      reads this`buckets, this`numBuckets, this`idealChainMaxlen, this`nonidealItems, this`ineffExpands, this`noexpand
      reads this`numItems, this`chains, buckets
    {
      && idealChainMaxlen > 0 && IsCeil(idealChainMaxlen, numItems, numBuckets)
      && nonidealItems == Excess(chains, idealChainMaxlen) && Multiplied(buckets[..], idealChainMaxlen)
      && ineffExpands == (if 2 * nonidealItems > numItems then ineffBefore + 1 else 0)
      && noexpand == if ineffExpands > 1 then 1 else noexpandBefore
    }

    lemma ExpandedLaw(ineffBefore: nat, noexpandBefore: nat)
      requires Expanded(ineffBefore, noexpandBefore)
      ensures numItems <= idealChainMaxlen * numBuckets < numItems + numBuckets
      ensures nonidealItems == Excess(chains, idealChainMaxlen)
      ensures forall b | 0 <= b < buckets.Length ::
        && idealChainMaxlen > 0
        && buckets[b].expandMult == if buckets[b].count > idealChainMaxlen then buckets[b].count / idealChainMaxlen else 0
      ensures ineffExpands == if nonidealItems > numItems / 2 then ineffBefore + 1 else 0
      ensures noexpand == if ineffExpands >= 2 then 1 else noexpandBefore
    {
      hide Excess;
      MoreThanHalf(nonidealItems, numItems);
      assert forall b | 0 <= b < buckets.Length :: buckets[b] == buckets[..][b];
    }

    // -------------------------------------------------------------------------------------------
    // Adding
    // -------------------------------------------------------------------------------------------

    /** The buckets before and after an element has been added: the bucket is expanded exactly when its
        chain has reached the threshold and expansion is not inhibited. */
    twostate predicate BucketAdded(b: nat, add: Elem)
      requires old(b < |chains| && b < buckets.Length)
      reads this, buckets
    {
      if old(|chains[b]|) + 1 >= (old(buckets[b].expandMult) + 1) * 10 && old(noexpand) != 1 then
        && numBuckets == 2 * old(numBuckets) && log2NumBuckets == old(log2NumBuckets) + 1
        && Expanded(old(ineffExpands), old(noexpand))
      else
        && numBuckets == old(numBuckets) && log2NumBuckets == old(log2NumBuckets)
        && chains == old(chains[b := [add] + chains[b]])
        && ineffExpands == old(ineffExpands) && noexpand == old(noexpand)
        && idealChainMaxlen == old(idealChainMaxlen) && nonidealItems == old(nonidealItems)
    }

    /** The first part of HASH_ADD_TO_BKT: the element becomes the first one of its bucket. */
    method PushToBucket(b: nat, add: Elem, ghost es: set<Elem>)
      requires Bucketed(es) && add !in es && add.hashv == hash(add.key)
      requires b == BucketOf(hash, add, numBuckets)
      modifies this`chains, buckets, (es + {add})`hhPrev, (es + {add})`hhNext
      ensures Bucketed(es + {add}) && old(b < |chains| && b < buckets.Length) && b < buckets.Length
      ensures chains == old(chains[b := [add] + chains[b]]) && buckets[b].count == old(|chains[b]|) + 1
      ensures buckets[b].expandMult == old(buckets[b].expandMult)
    {
      hide *;
      PushReady(es, b, add);
      ghost var es' := es + {add};
      ghost var bs, cs := buckets[..], chains;
      var bucket := buckets[b];
      PushBkt(bucket.head, add, es');
      buckets[b] := Bucket(add, bucket.count + 1, bucket.expandMult);
      chains := cs[b := [add] + cs[b]];
      assert buckets[..] == bs[b := Bucket(add, bucket.count + 1, bucket.expandMult)];
      FrontOk(bs, cs, b, add, bucket.expandMult);
      HashedMore(es, add);
      BucketedIf(es');
    }

    lemma FrontOk(bs: seq<Bucket>, cs: seq<seq<Elem>>, b: nat, add: Elem, mult: nat)
      requires BucketsOk(bs, cs) && b < |bs|
      ensures |cs| == |bs| && BucketsOk(bs[b := Bucket(add, bs[b].count + 1, mult)], cs[b := [add] + cs[b]])
    {
    }

    lemma HashedMore(es: set<Elem>, add: Elem)
      requires Hashed(hash, es) && add.hashv == hash(add.key)
      ensures Hashed(hash, es + {add})
    {
    }

    /** HASH_ADD_TO_BKT */
    method AddToBkt(b: nat, add: Elem, ghost es: set<Elem>)
      requires Bucketed(es) && add !in es && add.hashv == hash(add.key)
      requires b == BucketOf(hash, add, numBuckets) && numItems > 0
      modifies this`buckets, this`numBuckets, this`log2NumBuckets, this`idealChainMaxlen, this`nonidealItems
      modifies this`ineffExpands, this`noexpand, this`chains, buckets, (es + {add})`hhPrev, (es + {add})`hhNext
      ensures Bucketed(es + {add}) && (buckets == old(buckets) || fresh(buckets))
      ensures old(b < |chains| && b < buckets.Length) && BucketAdded(b, add)
    {
      hide Bucketed, BucketOf, Expanded;
      PushToBucket(b, add, es);
      var bucket := buckets[b];
      if bucket.count >= (bucket.expandMult + 1) * BKT_CAPACITY_THRESH && noexpand != 1 {
        ExpandBuckets(es + {add});
      }
    }

    lemma PushReady(es: set<Elem>, b: nat, add: Elem)
      requires Bucketed(es) && add !in es && b == BucketOf(hash, add, numBuckets)
      ensures b < buckets.Length == |chains| == numBuckets == Pow2(log2NumBuckets)
      ensures buckets[b].count == |chains[b]| && Hashed(hash, es) && BucketsOk(buckets[..], chains)
      ensures var first := buckets[b].head;
              && (first != null ==> first in es)
              && Chained(hash, Pushed(BktHeap(es + {add}), first, add), chains[b := [add] + chains[b]], numBuckets, es + {add})
    {
      var h := BktHeap(es + {add});
      ChainedSame(hash, BktHeap(es), h, chains, numBuckets, es);
      ChainPushed(hash, h, chains, numBuckets, es, add);
    }

    lemma BucketedIf(es: set<Elem>)
      requires buckets.Length == numBuckets == Pow2(log2NumBuckets) && Chained(hash, BktHeap(es), chains, numBuckets, es)
      requires BucketsOk(buckets[..], chains) && Hashed(hash, es)
      ensures Bucketed(es)
    {
    }

    /** HASH_MAKE_TABLE */
    method MakeTable()
      requires head != null
      modifies this
      ensures head == tail == old(head) && order == old(order) && numItems == 0
      ensures numBuckets == 32 && log2NumBuckets == 5 && idealChainMaxlen == nonidealItems == ineffExpands == noexpand == 0
      ensures Bucketed({}) && Accepts(bloomBv[..], bloomBits, hash, {})
      ensures fresh(buckets) && fresh(bloomBv)
    {
      hide *;
      Clear();
      tail := head;
      bloomBv := MakeBloom();
      InitBuckets();
    }

    /** memset of the new table */
    method Clear()
      modifies this`numItems, this`idealChainMaxlen, this`nonidealItems, this`ineffExpands, this`noexpand
      ensures numItems == idealChainMaxlen == nonidealItems == ineffExpands == noexpand == 0
    {
      numItems, idealChainMaxlen, nonidealItems, ineffExpands, noexpand := 0, 0, 0, 0, 0;
    }

    method InitBuckets()
      modifies this`buckets, this`chains, this`numBuckets, this`log2NumBuckets
      ensures fresh(buckets) && numBuckets == 32 && log2NumBuckets == 5 && Bucketed({})
    {
      hide Chained, BucketsOk, Pow2, BktHeap;
      numBuckets, log2NumBuckets := INITIAL_NUM_BUCKETS, INITIAL_NUM_BUCKETS_LOG2;
      buckets, chains := MakeBuckets();
      Powers();
    }

    method MakeBuckets() returns (bs: array<Bucket>, ghost empty: seq<seq<Elem>>)
      ensures fresh(bs) && bs.Length == INITIAL_NUM_BUCKETS && BucketsOk(bs[..], empty)
      ensures Chained(hash, BktHeap({}), empty, INITIAL_NUM_BUCKETS, {})
    {
      bs := new Bucket[INITIAL_NUM_BUCKETS](_ => EMPTY);
      empty := NoChains(BktHeap({}), bs[..]);
    }

    /** HASH_BLOOM_MAKE */
    method MakeBloom() returns (bv: array<Byte>)
      ensures fresh(bv) && Accepts(bv[..], bloomBits, hash, {})
    {
      bv := new Byte[if bloomBits.Some? then ByteLen(bloomBits.value) else 0](_ => 0);
    }

    lemma NoChains(h: Heap, bs: seq<Bucket>) returns (empty: seq<seq<Elem>>)
      requires |bs| == INITIAL_NUM_BUCKETS && forall b | 0 <= b < |bs| :: bs[b] == EMPTY
      ensures Chained(hash, h, empty, INITIAL_NUM_BUCKETS, {}) && BucketsOk(bs, empty)
    {
      empty := seq(INITIAL_NUM_BUCKETS, _ => []);
      ExcessNothing(empty, 1);
      hide Total;
      forall b | 0 <= b < INITIAL_NUM_BUCKETS ensures ChainOk(hash, h, empty[b], b, INITIAL_NUM_BUCKETS, {}) {
        assert empty[b] == [];
      }
    }

    /** HASH_BLOOM_ADD */
    method BloomAdd(add: Elem, ghost es: set<Elem>)
      requires Accepts(bloomBv[..], bloomBits, hash, es) && add.hashv == hash(add.key)
      modifies bloomBv
      ensures Accepts(bloomBv[..], bloomBits, hash, es + {add})
    {
      if bloomBits.Some? {
        hide BitTest, WithBit;
        var bits := bloomBits.value;
        var idx := BitOf(add.hashv, bits);
        ghost var bv := bloomBv[..];
        bloomBv[idx / 8] := WithBit(bloomBv[idx / 8], idx % 8);
        assert bloomBv[..] == BitSet(bv, idx);
        forall e | e in es + {add} ensures BitTest(bloomBv[..], BitOf(hash(e.key), bits)) {
          BitSetExact(bv, idx, BitOf(hash(e.key), bits));
        }
      }
    }

    /** HASH_ADD_KEYPTR on an empty table, before the element gets into a bucket. */
    method EnlistFirst(add: Elem)
      requires Valid() && head == null
      modifies this, add`prev, add`next
      ensures Listed({add}) && order == [add] && numItems > 0 && head != null
      ensures Bucketed({}) && Accepts(bloomBv[..], bloomBits, hash, {})
      ensures fresh(buckets) && fresh(bloomBv)
    {
      hide *;
      ghost var h := AppHeap({add});
      head := add;
      AppendApp(null, add, {add});
      MakeTable();
      numItems := numItems + 1;
      order := [add];
      EnlistedFirst(h, add);
    }

    lemma EnlistedFirst(h: Heap, add: Elem)
      requires AppHeap({add}) == Appended(h, null, add) && h.Keys == {add}
      requires order == [add] && head == tail == add && numItems == 1
      ensures Listed({add})
    {
      assert Elements([]) + {add} == {add};
      EnlistedOk(h, [], add);
    }

    /** HASH_ADD_KEYPTR on a table with elements, before the element gets into a bucket. */
    method EnlistLast(add: Elem)
      requires Valid() && head != null && add !in order
      modifies this`tail, this`numItems, this`order, (Members() + {add})`prev, (Members() + {add})`next
      ensures Listed(old(Members()) + {add}) && order == old(order) + [add] && numItems > 0
      ensures Bucketed(old(Members())) && Accepts(bloomBv[..], bloomBits, hash, old(Members()))
    {
      hide *;
      EnlistReady(add);
      ghost var before, all, h := order, Members() + {add}, AppHeap(Members() + {add});
      AppendApp(tail, add, all);
      tail := add;
      numItems := numItems + 1;
      order := before + [add];
      EnlistedOk(h, before, add);
    }

    lemma EnlistReady(add: Elem)
      requires Valid() && add !in order
      ensures head == null <==> order == []
      ensures order != [] ==>
        && tail == Nth(order, |order| - 1) == order[|order| - 1] && tail in Elements(order) && tail != add
        && head == order[0] && numItems == |order|
        && Bucketed(Members()) && Accepts(bloomBv[..], bloomBits, hash, Members())
      ensures Members() == Elements(order)
      ensures Linked(AppHeap(Elements(order) + {add}), order) && Distinct(order)
      ensures AppHeap(Elements(order) + {add}).Keys == Elements(order) + {add}
    {
      if order != [] {
        LinkedIn(AppHeap(Members()), order);
        SameLinked(AppHeap(Members()), AppHeap(Members() + {add}), order);
      }
    }

    /** After the writes, the list is well formed again. */
    lemma EnlistedOk(h: Heap, before: seq<Elem>, add: Elem)
      requires Linked(h, before) && Distinct(before) && add !in before && order == before + [add]
      requires before != [] ==> before[|before| - 1] in h
      requires h.Keys == Elements(before) + {add}
      requires AppHeap(Elements(before) + {add}) == Appended(h, Nth(before, |before| - 1), add)
      requires before != [] ==> head == before[0]
      requires before == [] ==> head == add
      requires tail == add && numItems == |before| + 1
      ensures Listed(Elements(before) + {add})
    {
      AppendedLinked(h, before, add);
    }

    /** The part of HASH_ADD_KEYPTR that concerns the buckets and the filter. */
    method Place(add: Elem, ghost es: set<Elem>)
      requires Bucketed(es) && Accepts(bloomBv[..], bloomBits, hash, es) && add !in es && numItems > 0
      modifies this`buckets, this`numBuckets, this`log2NumBuckets, this`idealChainMaxlen, this`nonidealItems
      modifies this`ineffExpands, this`noexpand, this`chains, buckets, bloomBv
      modifies (es + {add})`hhPrev, (es + {add})`hhNext, add`hashv
      ensures Bucketed(es + {add}) && Accepts(bloomBv[..], bloomBits, hash, es + {add})
      ensures buckets == old(buckets) || fresh(buckets)
    {
      hide *;
      BucketCount(es, add);
      add.hashv := hash(add.key);
      var bkt := ToBkt(add.hashv, numBuckets, log2NumBuckets);
      AddToBkt(bkt, add, es);
      BloomAdd(add, es);
    }

    /** HASH_ADD_KEYPTR, of an element that is not in the table */
    method AddKeyptr(add: Elem)
      requires Valid() && add !in order
      modifies this, buckets, bloomBv, Members(), add
      ensures Valid() && order == old(order) + [add]
      ensures (buckets == old(buckets) || fresh(buckets)) && (bloomBv == old(bloomBv) || fresh(bloomBv))
    {
      hide *;
      ghost var es, all := Members(), Members() + {add};
      BeforeAdd(add);
      if head == null {
        EnlistFirst(add);
      } else {
        EnlistLast(add);
      }
      assert Listed(all);
      Place(add, es);
      assert Listed(all);
      AfterAdd(es, add);
    }

    lemma BeforeAdd(add: Elem)
      requires Valid() && add !in order
      ensures add !in Members() && forall e | e in Members() :: e in order
      ensures head == null ==> Members() == {} && Members() + {add} == {add} && order == [] && order + [add] == [add]
    {
    }

    lemma BucketCount(es: set<Elem>, add: Elem)
      requires Bucketed(es)
      ensures numBuckets == Pow2(log2NumBuckets) > 0 && BucketOf(hash, add, numBuckets) == hash(add.key) % numBuckets
    {
    }

    lemma AfterAdd(es: set<Elem>, add: Elem)
      requires Listed(es + {add}) && head != null
      requires Bucketed(es + {add}) && Accepts(bloomBv[..], bloomBits, hash, es + {add})
      ensures Valid()
    {
    }

    // -------------------------------------------------------------------------------------------
    // Deleting
    // -------------------------------------------------------------------------------------------

    /** The part of HASH_DELETE that concerns the list in insertion order. */
    method Delist(del: Elem, ghost es: set<Elem>, ghost i: nat)
      requires Listed(es) && i < |order| && order[i] == del && |order| > 1
      modifies this`head, this`tail, this`numItems, this`order, es`prev, es`next
      ensures Listed(es - {del}) && order == Without(old(order), i) && head != null
    {
      hide *;
      DelistReady(es, i);
      ghost var h, before := AppHeap(es), order;
      if del == tail {
        tail := del.prev;
      }
      if del.prev == null {
        head := del.next;
      }
      UnlinkApp(del, es);
      numItems := numItems - 1;
      order := Without(before, i);
      DelistedOk(h, before, es, i);
    }

    lemma DelistReady(es: set<Elem>, i: nat)
      requires Listed(es) && i < |order| && |order| > 1
      ensures var del := order[i];
              && del in es && numItems == |order| && head == order[0] && tail == order[|order| - 1]
              && AppHeap(es)[del] == Links(del.prev, del.next) && (del == tail <==> i == |order| - 1)
              && (if i == 0 then del.prev == null else del.prev == order[i - 1] && del.prev in es && del.prev != del)
              && (if i == |order| - 1 then del.next == null else del.next == order[i + 1] && del.next in es && del.next != del)
      ensures es == Elements(order) && Linked(AppHeap(es), order) && Distinct(order)
    {
      assert LinkedAt(AppHeap(es), order, i);
      assert AppHeap(es)[order[i]] == Links(order[i].prev, order[i].next);
      Neighbours(AppHeap(es), order, i);
    }

    lemma DelistedOk(h: Heap, before: seq<Elem>, es: set<Elem>, i: nat)
      requires Linked(h, before) && Distinct(before) && i < |before| && es == Elements(before) && h.Keys == es
      requires before[i] in h && (h[before[i]].prev != null ==> h[before[i]].prev in h)
      requires h[before[i]].next != null ==> h[before[i]].next in h
      requires AppHeap(es) == Unlinked(h, before[i]) && order == Without(before, i)
      requires |before| > 1 && numItems == |before| - 1
      requires head == if i == 0 then before[1] else before[0]
      requires tail == if i == |before| - 1 then before[i - 1] else before[|before| - 1]
      ensures Listed(es - {before[i]}) && head != null
    {
      UnlinkedLinked(h, before, i);
      var es' := es - {before[i]};
      assert |order| == |before| - 1 && order[0] == before[if i == 0 then 1 else 0];
      assert order[|order| - 1] == before[if i == |before| - 1 then i - 1 else |before| - 1];
      hide Unlinked, Without, Linked, Distinct;
      RestrictLinked(es, es', order);
    }

    lemma RestrictLinked(es: set<Elem>, es': set<Elem>, s: seq<Elem>)
      requires Linked(AppHeap(es), s) && Elements(s) == es' <= es
      ensures Linked(AppHeap(es'), s)
    {
      assert forall x | x in s :: x in Elements(s);
      SameLinked(AppHeap(es), AppHeap(es'), s);
    }

    /** HASH_DEL_IN_BKT */
    method DelInBkt(b: nat, del: Elem, ghost es: set<Elem>)
      requires Bucketed(es) && del in es && numBuckets > 0 && b == BucketOf(hash, del, numBuckets)
      modifies buckets, this`chains, es`hhPrev, es`hhNext
      ensures Bucketed(es - {del})
    {
      hide *;
      ghost var i := UnlinkReady(es, b, del);
      ghost var h, bs, cs := BktHeap(es), buckets[..], chains;
      var bucket := buckets[b];
      var first := if bucket.head == del then del.hhNext else bucket.head;
      buckets[b] := Bucket(first, bucket.count - 1, bucket.expandMult);
      UnlinkBkt(del, es);
      chains := cs[b := Without(cs[b], i)];
      assert buckets[..] == bs[b := Bucket(first, bucket.count - 1, bucket.expandMult)];
      ShorterOk(h, bs, cs, b, i, del, first);
      ghost var es' := es - {del};
      RestrictBucketed(es, es');
    }

    lemma RestrictBucketed(es: set<Elem>, es': set<Elem>)
      requires buckets.Length == numBuckets == Pow2(log2NumBuckets) && BucketsOk(buckets[..], chains)
      requires es' <= es && Chained(hash, BktHeap(es), chains, numBuckets, es') && Hashed(hash, es)
      ensures Bucketed(es')
    {
      ChainedSame(hash, BktHeap(es), BktHeap(es'), chains, numBuckets, es');
    }

    lemma UnlinkReady(es: set<Elem>, b: nat, del: Elem) returns (i: nat)
      requires Bucketed(es) && del in es && numBuckets > 0 && b == BucketOf(hash, del, numBuckets)
      ensures b < buckets.Length == |chains| == numBuckets == Pow2(log2NumBuckets)
      ensures BucketsOk(buckets[..], chains) && Hashed(hash, es)
      ensures i < |chains[b]| && chains[b][i] == del && buckets[b].count == |chains[b]| && buckets[b].head == Nth(chains[b], 0)
      ensures Distinct(chains[b])
      ensures var h := BktHeap(es);
              && del in h && h[del] == Links(del.hhPrev, del.hhNext) && del.hhNext == Nth(chains[b], i + 1)
              && (del.hhPrev != null ==> del.hhPrev in h && del.hhPrev in es && del.hhPrev != del)
              && (del.hhNext != null ==> del.hhNext in h && del.hhNext in es && del.hhNext != del)
              && Chained(hash, Unlinked(h, del), chains[b := Without(chains[b], i)], numBuckets, es - {del})
    {
      i := ChainUnlinked(hash, BktHeap(es), chains, numBuckets, es, del);
      assert ChainOk(hash, BktHeap(es), chains[b], b, numBuckets, es);
    }

    lemma ShorterOk(h: Heap, bs: seq<Bucket>, cs: seq<seq<Elem>>, b: nat, i: nat, del: Elem, first: Elem?)
      requires BucketsOk(bs, cs) && b < |bs| == |cs| && i < |cs[b]| && cs[b][i] == del && Distinct(cs[b])
      requires first == if bs[b].head == del then Nth(cs[b], i + 1) else bs[b].head
      ensures bs[b].count > 0
      ensures BucketsOk(bs[b := Bucket(first, bs[b].count - 1, bs[b].expandMult)], cs[b := Without(cs[b], i)])
    {
    }

    /** HASH_DELETE, of an element of the table */
    method Delete(del: Elem)
      requires Valid() && del in order
      modifies this, buckets, Members()`prev, Members()`next, Members()`hhPrev, Members()`hhNext
      ensures Valid() && del in old(order)
      ensures var i := IndexOf(old(order), del); order == old(order)[..i] + old(order)[i + 1..]
      ensures buckets == old(buckets) && bloomBv == old(bloomBv)
      ensures order != [] ==>
        && numBuckets == old(numBuckets) && idealChainMaxlen == old(idealChainMaxlen)
        && nonidealItems == old(nonidealItems) && ineffExpands == old(ineffExpands) && noexpand == old(noexpand)
    {
      hide *;
      BeforeDelete(del);
      WithoutIs(order, IndexOf(order, del));
      ghost var es, i := Members(), IndexOf(order, del);
      if del.prev == null && del.next == null {
        head := null;
        order := [];
        EmptyValid();
      } else {
        BucketCount(es, del);
        Delist(del, es, i);
        assert Bucketed(es);
        var bkt := ToBkt(del.hashv, numBuckets, log2NumBuckets);
        DelInBkt(bkt, del, es);
        assert Listed(es - {del});
        AfterDelete(es, del);
      }
    }

    lemma WithoutIs(s: seq<Elem>, i: nat)
      ensures i < |s| ==> Without(s, i) == s[..i] + s[i + 1..]
    {
    }

    lemma BeforeDelete(del: Elem)
      requires Valid() && del in order
      ensures Listed(Members()) && Bucketed(Members())
      ensures forall e | e in Members() :: e in order
      ensures Accepts(bloomBv[..], bloomBits, hash, Members()) && del in Members() && del.hashv == hash(del.key)
      ensures IndexOf(order, del) < |order| && order[IndexOf(order, del)] == del
      ensures if del.prev == null && del.next == null then Without(order, IndexOf(order, del)) == [] else |order| > 1
    {
      var i := IndexOf(order, del);
      assert LinkedAt(AppHeap(Members()), order, i);
      assert AppHeap(Members())[del] == Links(del.prev, del.next);
    }

    lemma EmptyValid()
      requires head == null && order == []
      ensures Valid()
    {
    }

    lemma AfterDelete(es: set<Elem>, del: Elem)
      requires Listed(es - {del}) && head != null && Bucketed(es - {del})
      requires Accepts(bloomBv[..], bloomBits, hash, es)
      ensures Valid()
    {
    }
  }

  /** The position of an element in a list. */
  function IndexOf(s: seq<Elem>, e: Elem): (i: nat)
    requires e in s
    ensures i < |s| && s[i] == e
  {
    if s[0] == e then 0 else 1 + IndexOf(s[1..], e)
  }

  // ---------------------------------------------------------------------------------------------
  // HASH_FSCK
  // ---------------------------------------------------------------------------------------------

  /** The traversal of one bucket in HASH_FSCK, with the number of elements seen. */
  method FsckBucket(t: Table, b: nat) returns (ok: bool, count: nat)
    requires t.Bucketed(t.Members()) && b < t.numBuckets
    ensures ok && count == |t.chains[b]|
  {
    ghost var h, chain := BktHeap(t.Members()), t.chains[b];
    assert ChainOk(t.hash, h, chain, b, t.numBuckets, t.Members());
    hide Chained, Hashed, Distinct, Pow2;
    var thh, prev := t.buckets[b].head, null;
    count := 0;
    while thh != null
      invariant count <= |chain| && thh == Nth(chain, count) && prev == Nth(chain, count - 1)
      decreases |chain| - count
    {
      assert LinkedAt(h, chain, count) && h[thh] == Links(thh.hhPrev, thh.hhNext);
      if prev != thh.hhPrev {
        return false, count;
      }
      count := count + 1;
      prev := thh;
      thh := thh.hhNext;
    }
    ok := t.buckets[b].count == count;
  }

  lemma {:induction false} TotalSplit(chains: seq<seq<Elem>>, b: nat)
    requires b < |chains|
    ensures Total(chains[..b + 1]) == Total(chains[..b]) + |chains[b]|
  {
    if b > 0 {
      TotalSplit(chains[1..], b - 1);
      assert chains[..b + 1][1..] == chains[1..][..b] && chains[..b][1..] == chains[1..][..b - 1];
    } else {
      assert chains[..1][1..] == [];
    }
  }

  lemma {:induction false} ElementsCount(s: seq<Elem>)
    requires Distinct(s)
    ensures |Elements(s)| == |s|
  {
    if s != [] {
      var t := s[..|s| - 1];
      ElementsCount(t);
      assert Elements(s) == Elements(t) + {s[|s| - 1]};
    }
  }

  /** HASH_FSCK: none of its checks ever fails on a table that the operations have made. */
  method Fsck(t: Table) returns (ok: bool)
    requires t.Valid()
    ensures ok
  {
    if t.head != null {
      ElementsCount(t.order);
      hide *;
      FsckReady(t);
      var count := 0;
      for b := 0 to t.numBuckets
        invariant count == Total(t.chains[..b])
      {
        TotalSplit(t.chains, b);
        var good, bktCount := FsckBucket(t, b);
        if !good {
          return false;
        }
        count := count + bktCount;
      }
      if count != t.numItems {
        return false;
      }
      ok := FsckOrder(t);
    } else {
      ok := true;
    }
  }

  lemma FsckReady(t: Table)
    requires t.Valid() && t.head != null && |Elements(t.order)| == |t.order|
    ensures t.Bucketed(t.Members()) && |t.chains| == t.numBuckets && t.numItems == Total(t.chains)
    ensures Total(t.chains[..0]) == 0 && t.chains[..|t.chains|] == t.chains
  {
  }

  /** The second half of HASH_FSCK, along the list in insertion order. */
  method FsckOrder(t: Table) returns (ok: bool)
    requires t.Valid() && t.head != null
    ensures ok
  {
    ghost var h, order := AppHeap(t.Members()), t.order;
    hide t.Bucketed, Accepts, Distinct;
    var count, thh, prev := 0, t.head, null;
    while thh != null
      invariant count <= |order| && thh == Nth(order, count) && prev == Nth(order, count - 1)
      decreases |order| - count
    {
      assert LinkedAt(h, order, count) && h[thh] == Links(thh.prev, thh.next);
      count := count + 1;
      if prev != thh.prev {
        return false;
      }
      prev := thh;
      thh := thh.next;
    }
    ok := count == t.numItems;
  }
}
