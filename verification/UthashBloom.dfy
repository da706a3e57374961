/** The optional Bloom filter of uthash: a vector of bits, indexed by the low bits of a hash value. */
module UthashBloom {
  import opened Bits
  import opened Chars

  // ---------------------------------------------------------------------------------------------
  // Single bits of a word
  // ---------------------------------------------------------------------------------------------

  lemma OrZero(x: nat, y: nat)
    ensures Or(x, y) == 0 <==> x == 0 && y == 0
  {
  }

  lemma {:induction false} AndDistributes(x: nat, y: nat, m: nat)
    ensures And(Or(x, y), m) == Or(And(x, m), And(y, m))
  {
    if x != 0 && y != 0 && m != 0 {
      AndDistributes(x / 2, y / 2, m / 2);
      OrZero(And(x, m), And(y, m));
      Halves(x, m);
      Halves(y, m);
      Halves(Or(x, y), m);
      OrHalves(x, y);
      OrHalves(And(x, m), And(y, m));
    }
  }

  lemma Halves(x: nat, y: nat)
    ensures And(x, y) / 2 == And(x / 2, y / 2)
    ensures And(x, y) % 2 == 1 <==> x % 2 == 1 && y % 2 == 1
  {
  }

  lemma OrHalves(x: nat, y: nat)
    ensures Or(x, y) / 2 == Or(x / 2, y / 2)
    ensures Or(x, y) % 2 == 1 <==> x % 2 == 1 || y % 2 == 1
  {
    assert Or(x / 2, 0) == x / 2;
  }

  lemma {:induction false} OrBound(x: nat, y: nat, k: nat)
    requires x < Pow2(k) && y < Pow2(k)
    ensures Or(x, y) < Pow2(k)
    decreases k
  {
    if k > 0 {
      OrBound(x / 2, y / 2, k - 1);
      OrHalves(x, y);
    }
  }

  /** The word with the single bit `k`. */
  function Bit(k: nat): (m: nat)
    ensures m == Pow2(k)
  {
    ShlIsMultiple(1, k);
    Shl(1, k)
  }

  lemma {:induction false} BitsMeet(j: nat, k: nat)
    ensures And(Pow2(j), Pow2(k)) != 0 <==> j == k
    decreases j
  {
    if j > 0 && k > 0 {
      BitsMeet(j - 1, k - 1);
      Halves(Pow2(j), Pow2(k));
    }
  }

  // ---------------------------------------------------------------------------------------------
  // The filter
  // ---------------------------------------------------------------------------------------------

  /** HASH_BLOOM_BYTELEN */
  function ByteLen(nbits: nat): (n: nat)
    ensures Pow2(nbits) <= 8 * n < Pow2(nbits) + 8
  {
    Pow2(nbits) / 8 + if Pow2(nbits) % 8 != 0 then 1 else 0
  }

  /** The index of the bit for a hash value. */
  function BitOf(hashv: nat, nbits: nat): (idx: nat)
    ensures idx == hashv % Pow2(nbits) && idx / 8 < ByteLen(nbits)
  {
    Mask(hashv, nbits, Pow2(nbits))
  }

  /** HASH_BLOOM_BITTEST */
  predicate BitTest(bv: seq<Byte>, idx: nat)
    requires idx / 8 < |bv|
  {
    And(bv[idx / 8], Bit(idx % 8)) != 0
  }

  /** The bits of the filter are those of its bytes, lowest first. */
  lemma BitTestLaw(bv: seq<Byte>, idx: nat)
    requires idx / 8 < |bv|
    ensures BitTest(bv, idx) <==> bv[idx / 8] / Pow2(idx % 8) % 2 == 1
  {
    hide And, Pow2;
    BitOfWord(bv[idx / 8], idx % 8);
    ShiftIsDivision(bv[idx / 8], idx % 8);
  }

  lemma {:induction false} BitOfWord(x: nat, k: nat)
    ensures And(x, Pow2(k)) != 0 <==> Shr(x, k) % 2 == 1
    decreases k
  {
    Halves(x, Pow2(k));
    if k == 0 {
      assert And(x / 2, 0) == 0;
    } else {
      BitOfWord(x / 2, k - 1);
      assert Pow2(k) / 2 == Pow2(k - 1) && Pow2(k) % 2 == 0;
    }
  }

  /** `byte |= (1U << k)` */
  function WithBit(byte: Byte, k: nat): Byte
    requires k < 8
  {
    Powers();
    SmallBit(k);
    OrBound(byte, Bit(k), 8);
    Or(byte, Bit(k))
  }

  /** HASH_BLOOM_BITSET */
  function BitSet(bv: seq<Byte>, idx: nat): (bv': seq<Byte>)
    requires idx / 8 < |bv|
    ensures |bv'| == |bv|
  {
    bv[idx / 8 := WithBit(bv[idx / 8], idx % 8)]
  }

  lemma SmallBit(k: nat)
    requires k < 8
    ensures Pow2(k) < Pow2(8)
  {
    assert Pow2(7) == 128;
  }

  /** Setting a bit sets this bit and no other. */
  lemma BitSetExact(bv: seq<Byte>, idx: nat, j: nat)
    requires idx / 8 < |bv| && j / 8 < |bv|
    ensures BitTest(BitSet(bv, idx), j) <==> BitTest(bv, j) || j == idx
  {
    hide And, Or, Pow2;
    if j / 8 == idx / 8 {
      AndDistributes(bv[j / 8], Bit(idx % 8), Bit(j % 8));
      OrZero(And(bv[j / 8], Bit(j % 8)), And(Bit(idx % 8), Bit(j % 8)));
      BitsMeet(idx % 8, j % 8);
    }
  }

  /** HASH_BLOOM_ADD, HASH_BLOOM_TEST: once a hash value has been added, its test succeeds, and adding
      others does not change that.  A test fails only for values that share no low bits with one added. */
  lemma BloomExact(bv: seq<Byte>, nbits: nat, added: nat, hashv: nat)
    requires |bv| == ByteLen(nbits)
    ensures BitTest(BitSet(bv, BitOf(added, nbits)), BitOf(hashv, nbits))
       <==> BitTest(bv, BitOf(hashv, nbits)) || hashv % Pow2(nbits) == added % Pow2(nbits)
  {
    hide BitTest, BitSet, ByteLen, Pow2;
    BitSetExact(bv, BitOf(added, nbits), BitOf(hashv, nbits));
  }
}
