/**
 The bucket chains of a uthash table, and their redistribution over twice as many buckets.
 */
module UthashBuckets {
  import opened Bits
  import opened UthashLists

  /** An unsigned 32-bit hash value. */
  type Word = x: nat | x < 0x1_0000_0000

  /** UT_hash_bucket */
  datatype Bucket = Bucket(head: Elem?, count: nat, expandMult: nat)

  const EMPTY: Bucket := Bucket(null, 0, 0)

  /** The bucket of an element among `n` of them: the hash value modulo `n`. */
  function BucketOf(hash: Key -> Word, e: Elem, n: nat): (b: nat)
    requires n > 0
    ensures b < n
  {
    hash(e.key) % n
  }

  /** HASH_TO_BKT, for a number of buckets that is a power of two */
  function ToBkt(hashv: nat, numBuckets: nat, log2: nat): (b: nat)
    requires numBuckets == Pow2(log2)
    ensures b == hashv % numBuckets < numBuckets
  {
    hide *;
    Mask(hashv, log2, numBuckets)
  }

  // ---------------------------------------------------------------------------------------------
  // Chains
  // ---------------------------------------------------------------------------------------------

  /** `chain` is a well-formed list of elements of `es` that belong into bucket `b`. */
  ghost predicate ChainOk(hash: Key -> Word, h: Heap, chain: seq<Elem>, b: nat, n: nat, es: set<Elem>)
    requires n > 0
  {
    Distinct(chain) && Linked(h, chain) && forall e | e in chain :: e in es && BucketOf(hash, e, n) == b
  }

  /** Each element of `es` is in the chain of its bucket, and the chains hold nothing else. */
  ghost predicate Chained(hash: Key -> Word, h: Heap, chains: seq<seq<Elem>>, n: nat, es: set<Elem>) {
    && |chains| == n > 0
    && (forall b {:trigger ChainOk(hash, h, chains[b], b, n, es)} | 0 <= b < n :: ChainOk(hash, h, chains[b], b, n, es))
    && (forall e {:trigger BucketOf(hash, e, n)} | e in es :: e in chains[BucketOf(hash, e, n)])
    && Total(chains) == |es|
  }

  /** Chains depend only on the pointers of the elements in them. */
  lemma ChainedSame(hash: Key -> Word, h: Heap, h': Heap, chains: seq<seq<Elem>>, n: nat, es: set<Elem>)
    requires Chained(hash, h, chains, n, es) && forall e | e in es && e in h :: e in h' && h'[e] == h[e]
    ensures Chained(hash, h', chains, n, es)
  {
    forall b | 0 <= b < n ensures ChainOk(hash, h', chains[b], b, n, es) {
      assert ChainOk(hash, h, chains[b], b, n, es);
      LinkedIn(h, chains[b]);
      SameLinked(h, h', chains[b]);
    }
  }

  /** One chain is replaced by another one; the pointers of the elements in the others stay. */
  lemma ChainReplaced(hash: Key -> Word, h: Heap, h': Heap, chains: seq<seq<Elem>>, n: nat, es: set<Elem>, es': set<Elem>,
                      b: nat, chain: seq<Elem>)
    requires Chained(hash, h, chains, n, es) && b < n && ChainOk(hash, h', chain, b, n, es')
    requires forall x | x in es && BucketOf(hash, x, n) != b :: x in es' && (x in h ==> x in h' && h'[x] == h[x])
    requires forall x | x in es' :: if BucketOf(hash, x, n) == b then x in chain else x in es
    requires |es'| - |es| == |chain| - |chains[b]|
    ensures Chained(hash, h', chains[b := chain], n, es')
  {
    hide BucketOf, Linked, Distinct, Total;
    TotalUpdate(chains, b, chain);
    var chains' := chains[b := chain];
    forall c | 0 <= c < n ensures ChainOk(hash, h', chains'[c], c, n, es') {
      assert ChainOk(hash, h, chains[c], c, n, es);
      if c != b {
        LinkedIn(h, chains[c]);
        SameLinked(h, h', chains[c]);
      }
    }
  }

  lemma PushedChain(hash: Key -> Word, h: Heap, chain: seq<Elem>, b: nat, n: nat, es: set<Elem>, e: Elem)
    requires b < n && ChainOk(hash, h, chain, b, n, es) && e !in es && BucketOf(hash, e, n) == b
    ensures chain != [] ==> chain[0] in h && chain[0] in es
    ensures var h' := Pushed(h, Nth(chain, 0), e);
            ChainOk(hash, h', [e] + chain, b, n, es + {e})
            && forall x | x in h && x !in chain && x != e :: x in h' && h'[x] == h[x]
  {
    PushedLinked(h, chain, e);
  }

  lemma ChainPushed(hash: Key -> Word, h: Heap, chains: seq<seq<Elem>>, n: nat, es: set<Elem>, e: Elem)
    requires Chained(hash, h, chains, n, es) && e !in es
    ensures var b := BucketOf(hash, e, n);
            && (chains[b] != [] ==> chains[b][0] in h && chains[b][0] in es)
            && var h' := Pushed(h, Nth(chains[b], 0), e);
               && Chained(hash, h', chains[b := [e] + chains[b]], n, es + {e})
               && forall x | x in h && x !in es && x != e :: x in h' && h'[x] == h[x]
  {
    var b := BucketOf(hash, e, n);
    assert ChainOk(hash, h, chains[b], b, n, es);
    hide Total, BucketOf, Pushed, Linked, Distinct;
    PushedChain(hash, h, chains[b], b, n, es, e);
    ChainReplaced(hash, h, Pushed(h, Nth(chains[b], 0), e), chains, n, es, es + {e}, b, [e] + chains[b]);
  }

  lemma LinkedIn(h: Heap, s: seq<Elem>)
    requires Linked(h, s)
    ensures forall x | x in s :: x in h
  {
    forall x | x in s ensures x in h {
      var i :| 0 <= i < |s| && s[i] == x;
      assert LinkedAt(h, s, i);
    }
  }

  lemma ChainUnlinked(hash: Key -> Word, h: Heap, chains: seq<seq<Elem>>, n: nat, es: set<Elem>, e: Elem) returns (i: nat)
    requires Chained(hash, h, chains, n, es) && e in es
    ensures var chain := chains[BucketOf(hash, e, n)];
            && i < |chain| && chain[i] == e && e in h && h[e] == Links(Nth(chain, i - 1), Nth(chain, i + 1))
            && (h[e].prev != null ==> h[e].prev in h && h[e].prev in es && h[e].prev != e)
            && (h[e].next != null ==> h[e].next in h && h[e].next in es && h[e].next != e)
            && Chained(hash, Unlinked(h, e), chains[BucketOf(hash, e, n) := Without(chain, i)], n, es - {e})
  {
    var b := BucketOf(hash, e, n);
    var chain := chains[b];
    i :| 0 <= i < |chain| && chain[i] == e;
    assert ChainOk(hash, h, chain, b, n, es);
    UnlinkedLinked(h, chain, i);
    assert |Without(chain, i)| == |chain| - 1;
    var h', chain', es' := Unlinked(h, e), Without(chain, i), es - {e};
    assert forall x | x in chain' :: x in Elements(chain');
    assert forall x | x in Elements(chain) - {e} :: x in Elements(chain') && x in chain';
    hide Unlinked, Linked, Distinct, Without, Total;
    ChainReplaced(hash, h, h', chains, n, es, es', b, chain');
  }

  // ---------------------------------------------------------------------------------------------
  // Buckets
  // ---------------------------------------------------------------------------------------------

  /** The head and the count of a bucket are those of its chain. */
  ghost predicate BucketsOk(buckets: seq<Bucket>, chains: seq<seq<Elem>>) {
    && |buckets| == |chains|
    && forall b | 0 <= b < |buckets| :: buckets[b].head == Nth(chains[b], 0) && buckets[b].count == |chains[b]|
  }

  /** The multipliers that an expansion sets. */
  ghost predicate Multiplied(buckets: seq<Bucket>, ideal: nat)
    requires ideal > 0
  {
    forall b | 0 <= b < |buckets| ::
      buckets[b].expandMult == if buckets[b].count > ideal then buckets[b].count / ideal else 0
  }

  function Over(count: nat, ideal: nat): nat {
    if count > ideal then count - ideal else 0
  }

  /** The number of elements behind the ideal chain length, over all buckets. */
  function Excess(chains: seq<seq<Elem>>, ideal: nat): nat {
    if chains == [] then 0 else Over(|chains[0]|, ideal) + Excess(chains[1..], ideal)
  }

  lemma ExcessLaw(chain: seq<Elem>, rest: seq<seq<Elem>>, ideal: nat)
    ensures Excess([], ideal) == 0
    ensures Excess([chain] + rest, ideal) == (if |chain| <= ideal then 0 else |chain| - ideal) + Excess(rest, ideal)
  {
    assert ([chain] + rest)[1..] == rest;
  }

  lemma {:induction false} ExcessUpdate(chains: seq<seq<Elem>>, ideal: nat, b: nat, chain: seq<Elem>)
    requires b < |chains|
    ensures Excess(chains[b := chain], ideal) == Excess(chains, ideal) - Over(|chains[b]|, ideal) + Over(|chain|, ideal)
  {
    if b == 0 {
      assert chains[0 := chain][1..] == chains[1..];
    } else {
      ExcessUpdate(chains[1..], ideal, b - 1, chain);
      assert chains[b := chain][1..] == chains[1..][b - 1 := chain];
    }
  }

  lemma {:induction false} ExcessNothing(chains: seq<seq<Elem>>, ideal: nat)
    requires forall b | 0 <= b < |chains| :: chains[b] == []
    ensures Excess(chains, ideal) == 0 && Total(chains) == 0
  {
    if chains != [] {
      ExcessNothing(chains[1..], ideal);
    }
  }

  /** The number of elements in all chains, which HASH_FSCK compares with `num_items`. */
  function Total(chains: seq<seq<Elem>>): nat {
    if chains == [] then 0 else |chains[0]| + Total(chains[1..])
  }

  lemma {:induction false} TotalUpdate(chains: seq<seq<Elem>>, b: nat, chain: seq<Elem>)
    requires b < |chains|
    ensures Total(chains[b := chain]) == Total(chains) - |chains[b]| + |chain|
  {
    if b == 0 {
      assert chains[0 := chain][1..] == chains[1..];
    } else {
      TotalUpdate(chains[1..], b - 1, chain);
      assert chains[b := chain][1..] == chains[1..][b - 1 := chain];
    }
  }

  // ---------------------------------------------------------------------------------------------
  // Redistribution
  // ---------------------------------------------------------------------------------------------

  /** The elements of the first `i` old buckets and the first `j` ones of bucket `i` have been moved. */
  ghost predicate Moved(hash: Key -> Word, chains: seq<seq<Elem>>, n: nat, es: set<Elem>, i: nat, j: nat, moved: set<Elem>)
    requires n > 0
  {
    && i <= n == |chains| && (if i < n then j <= |chains[i]| else j == 0) && moved <= es
    && forall e {:trigger BucketOf(hash, e, n)} | e in es ::
         e in moved <==> BucketOf(hash, e, n) < i || (BucketOf(hash, e, n) == i && e in chains[i][..j])
  }

  /** What has been built up so far. */
  ghost predicate Progress(hash: Key -> Word, h: Heap, bs: seq<Bucket>, chains: seq<seq<Elem>>, n: nat, ideal: nat,
                           nonideal: nat, moved: set<Elem>)
  {
    && ideal > 0 && Chained(hash, h, chains, n, moved) && BucketsOk(bs, chains) && Multiplied(bs, ideal)
    && nonideal == Excess(chains, ideal)
  }

  /** The unmoved elements still have their old successors. */
  ghost predicate Waiting(h0: Heap, h: Heap, moved: set<Elem>) {
    h.Keys == h0.Keys && forall e | e in h0 && e !in moved :: h[e].next == h0[e].next
  }

  /** A bucket with one more element. */
  function Grown(bucket: Bucket, e: Elem, ideal: nat): Bucket
    requires ideal > 0
  {
    var count := bucket.count + 1;
    Bucket(e, count, if count > ideal then count / ideal else bucket.expandMult)
  }

  lemma MoveStep(hash: Key -> Word, h0: Heap, h: Heap, bs: seq<Bucket>, chains: seq<seq<Elem>>, n: nat, ideal: nat,
                 nonideal: nat, moved: set<Elem>, e: Elem)
    requires Progress(hash, h, bs, chains, n, ideal, nonideal, moved) && Waiting(h0, h, moved) && e in h0 && e !in moved
    ensures n > 0 && |bs| == n
    ensures var b := BucketOf(hash, e, n);
            && (bs[b].head != null ==> bs[b].head in h && bs[b].head != e)
            && var h' := Pushed(h, bs[b].head, e);
               && Progress(hash, h', bs[b := Grown(bs[b], e, ideal)], chains[b := [e] + chains[b]], n, ideal,
                           if bs[b].count + 1 > ideal then nonideal + 1 else nonideal, moved + {e})
               && Waiting(h0, h', moved + {e})
  {
    var b := BucketOf(hash, e, n);
    ChainPushed(hash, h, chains, n, moved, e);
    ExcessUpdate(chains, ideal, b, [e] + chains[b]);
    hide Chained, Excess, Pushed, BucketOf;
    var h', bs', chains' := Pushed(h, bs[b].head, e), bs[b := Grown(bs[b], e, ideal)], chains[b := [e] + chains[b]];
    assert BucketsOk(bs', chains');
    assert Multiplied(bs', ideal);
    PushedKeepsNext(h, bs[b].head, e);
  }

  lemma PushedKeepsNext(h: Heap, first: Elem?, e: Elem)
    requires (first != null ==> first in h && first != e) && e in h
    ensures Pushed(h, first, e).Keys == h.Keys
    ensures forall x | x in h && x != e :: Pushed(h, first, e)[x].next == h[x].next
  {
  }

  /** The element at position `j` of bucket `i` is the next one to move. */
  lemma NextToMove(hash: Key -> Word, h0: Heap, h: Heap, chains: seq<seq<Elem>>, n: nat, es: set<Elem>, i: nat, j: nat,
                   moved: set<Elem>)
    requires Chained(hash, h0, chains, n, es) && i < n && j < |chains[i]|
    requires Moved(hash, chains, n, es, i, j, moved) && Waiting(h0, h, moved)
    ensures var e := chains[i][j];
            && e in es && e in h0 && e in h && e !in moved && h[e].next == Nth(chains[i], j + 1)
            && Moved(hash, chains, n, es, i, j + 1, moved + {e})
  {
    assert ChainOk(hash, h0, chains[i], i, n, es) && LinkedAt(h0, chains[i], j);
    assert chains[i][..j + 1] == chains[i][..j] + [chains[i][j]];
  }

  lemma BucketMoved(hash: Key -> Word, h0: Heap, chains: seq<seq<Elem>>, n: nat, es: set<Elem>, i: nat, moved: set<Elem>)
    requires Chained(hash, h0, chains, n, es) && i < n && Moved(hash, chains, n, es, i, |chains[i]|, moved)
    ensures Moved(hash, chains, n, es, i + 1, 0, moved)
  {
    assert chains[i][..|chains[i]|] == chains[i];
    hide BucketOf;
    forall e | e in es
      ensures e in moved <==> BucketOf(hash, e, n) < i + 1 || (BucketOf(hash, e, n) == i + 1 && e in chains[i + 1][..0])
    {
      assert e in chains[BucketOf(hash, e, n)];
    }
  }

  lemma NothingMoved(hash: Key -> Word, h: Heap, chains: seq<seq<Elem>>, n: nat, es: set<Elem>, bs: seq<Bucket>, m: nat,
                     ideal: nat) returns (empty: seq<seq<Elem>>)
    requires Chained(hash, h, chains, n, es) && ideal > 0 && m > 0
    requires |bs| == m && forall b | 0 <= b < m :: bs[b] == EMPTY
    ensures Progress(hash, h, bs, empty, m, ideal, 0, {}) && Waiting(h, h, {}) && Moved(hash, chains, n, es, 0, 0, {})
  {
    empty := seq(m, _ => []);
    ExcessNothing(empty, ideal);
    hide Excess, Total;
    forall b | 0 <= b < m ensures ChainOk(hash, h, empty[b], b, m, {}) {
      assert empty[b] == [];
    }
  }

  lemma AllMoved(hash: Key -> Word, chains: seq<seq<Elem>>, n: nat, es: set<Elem>, moved: set<Elem>)
    requires n > 0 && Moved(hash, chains, n, es, n, 0, moved)
    ensures moved == es
  {
    assert forall e | e in es :: BucketOf(hash, e, n) < n;
  }
}
