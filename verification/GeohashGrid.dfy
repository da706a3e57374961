/**
 The grid behind geohash.c.  A hash is a sequence of bits that alternately halve the longitude and the
 latitude; after any number of bits the point lies in one cell of a grid, which is described by its
 column and row.
 */
module GeohashGrid {
  import opened Bits

  const CHAR_MAP: string := "0123456789bcdefghjkmnpqrstuvwxyz"

  // ---------------------------------------------------------------------------------------------
  // Characters, digits and bits
  // ---------------------------------------------------------------------------------------------

  /** The first position of a character, or -1. */
  function IndexIn(c: char, s: string): (r: int)
    ensures if c in s then 0 <= r < |s| && s[r] == c && (forall j | 0 <= j < r :: s[j] != c) else r == -1
  {
    if s == [] then -1
    else if s[0] == c then 0
    else
      var r := IndexIn(c, s[1..]);
      if r == -1 then -1 else r + 1
  }

  /** The five bits that a character stands for; an invalid one stands for the same bits as 'z'. */
  function DigitOf(c: char): (d: nat)
    ensures d < 32 && (c in CHAR_MAP ==> CHAR_MAP[d] == c)
  {
    if c in CHAR_MAP then IndexIn(c, CHAR_MAP) else 31
  }

  /** The characters of the map are in ascending order. */
  lemma Ascending(i: nat)
    requires i < 31
    ensures CHAR_MAP[i] < CHAR_MAP[i + 1]
  {
  }

  lemma {:induction false} Ascends(i: nat, j: nat)
    requires i < j < 32
    ensures CHAR_MAP[i] < CHAR_MAP[j]
  {
    Ascending(j - 1);
    if i < j - 1 {
      Ascends(i, j - 1);
    }
  }

  /** The 32 characters are distinct. */
  lemma CharMapInjective(d: nat)
    requires d < 32
    ensures |CHAR_MAP| == 32 && CHAR_MAP[d] in CHAR_MAP && DigitOf(CHAR_MAP[d]) == d
  {
    var e := DigitOf(CHAR_MAP[d]);
    if e < d {
      Ascends(e, d);
    } else if d < e {
      Ascends(d, e);
    }
  }

  predicate ValidHash(h: string) {
    forall i | 0 <= i < |h| :: h[i] in CHAR_MAP
  }

  type BitString = seq<bool>

  function DigitBits(d: nat): (b: BitString)
    ensures |b| == 5
  {
    [d / 16 % 2 == 1, d / 8 % 2 == 1, d / 4 % 2 == 1, d / 2 % 2 == 1, d % 2 == 1]
  }

  function HashBits(h: string): (b: BitString)
    ensures |b| == 5 * |h|
  {
    if h == [] then [] else HashBits(h[..|h| - 1]) + DigitBits(DigitOf(h[|h| - 1]))
  }

  function ToInt(bit: bool): nat {
    if bit then 1 else 0
  }

  /** The number with the given bits, highest first. */
  function Number(b: BitString): (v: nat)
    ensures v < Pow2(|b|)
  {
    if b == [] then 0 else 2 * Number(b[..|b| - 1]) + ToInt(b[|b| - 1])
  }

  /** A number below 32 is the sum of its five bits, and the bits of such a sum are its terms. */
  lemma FromBits(d: nat)
    requires d < 32
    ensures d == 16 * (d / 16 % 2) + 8 * (d / 8 % 2) + 4 * (d / 4 % 2) + 2 * (d / 2 % 2) + d % 2
  {
    assert d / 16 == d / 8 / 2 && d / 8 == d / 4 / 2 && d / 4 == d / 2 / 2;
  }

  lemma ToBits(a: nat, b: nat, c: nat, d: nat, e: nat)
    requires a < 2 && b < 2 && c < 2 && d < 2 && e < 2
    ensures var v := 16 * a + 8 * b + 4 * c + 2 * d + e;
            v < 32 && v / 16 % 2 == a && v / 8 % 2 == b && v / 4 % 2 == c && v / 2 % 2 == d && v % 2 == e
  {
    var v := 16 * a + 8 * b + 4 * c + 2 * d + e;
    assert v / 16 == a && v / 8 == 2 * a + b && v / 4 == 4 * a + 2 * b + c && v / 2 == 8 * a + 4 * b + 2 * c + d;
  }

  lemma NumberOfFive(b: BitString)
    requires |b| == 5
    ensures Number(b) < 32 && DigitBits(Number(b)) == b
  {
    NumberSteps(b);
    hide Number;
    ToBits(ToInt(b[0]), ToInt(b[1]), ToInt(b[2]), ToInt(b[3]), ToInt(b[4]));
  }

  lemma NumberSteps(b: BitString)
    requires |b| == 5
    ensures Number(b) == 16 * ToInt(b[0]) + 8 * ToInt(b[1]) + 4 * ToInt(b[2]) + 2 * ToInt(b[3]) + ToInt(b[4])
  {
    assert b[..4][..3] == b[..3] && b[..3][..2] == b[..2] && b[..2][..1] == b[..1] && b[..1][..0] == [];
    assert Number(b[..1]) == ToInt(b[0]);
    assert Number(b[..2]) == 2 * Number(b[..1]) + ToInt(b[1]);
    assert Number(b[..3]) == 2 * Number(b[..2]) + ToInt(b[2]);
    assert Number(b[..4]) == 2 * Number(b[..3]) + ToInt(b[3]);
  }

  lemma DigitBitsInjective(d: nat, e: nat)
    requires d < 32 && e < 32 && DigitBits(d) == DigitBits(e)
    ensures d == e
  {
    FromBits(d);
    FromBits(e);
    var b, c := DigitBits(d), DigitBits(e);
    assert b[0] == c[0] && b[1] == c[1] && b[2] == c[2] && b[3] == c[3] && b[4] == c[4];
  }

  lemma TailsEqual(a: BitString, b: BitString, c: BitString, d: BitString)
    requires a + b == c + d && |b| == |d|
    ensures a == c && b == d
  {
    assert (a + b)[..|a|] == a && (c + d)[..|a|] == c && (a + b)[|a|..] == b && (c + d)[|a|..] == d;
  }

  lemma LastDigit(h: string)
    requires h != [] && ValidHash(h)
    ensures var m := |h| - 1;
            && HashBits(h) == HashBits(h[..m]) + DigitBits(DigitOf(h[m])) && ValidHash(h[..m])
            && h[m] in CHAR_MAP && |CHAR_MAP| == 32 && CHAR_MAP[DigitOf(h[m])] == h[m]
  {
    hide *;
    LastBits(h);
    InitValid(h);
    KnownChar(h[|h| - 1]);
  }

  lemma LastBits(h: string)
    requires h != []
    ensures HashBits(h) == HashBits(h[..|h| - 1]) + DigitBits(DigitOf(h[|h| - 1]))
  {
    hide DigitBits, DigitOf;
  }

  lemma InitValid(h: string)
    requires h != [] && ValidHash(h)
    ensures ValidHash(h[..|h| - 1]) && h[|h| - 1] in CHAR_MAP
  {
  }

  lemma KnownChar(c: char)
    requires c in CHAR_MAP
    ensures |CHAR_MAP| == 32 && CHAR_MAP[DigitOf(c)] == c
  {
  }

  lemma {:induction false} HashBitsInjective(g: string, h: string)
    requires ValidHash(g) && ValidHash(h) && HashBits(g) == HashBits(h)
    ensures g == h
  {
    hide *;
    assert |g| == |h|;
    if g != [] {
      var m := |g| - 1;
      LastDigit(g);
      LastDigit(h);
      TailsEqual(HashBits(g[..m]), DigitBits(DigitOf(g[m])), HashBits(h[..m]), DigitBits(DigitOf(h[m])));
      HashBitsInjective(g[..m], h[..m]);
      DigitBitsInjective(DigitOf(g[m]), DigitOf(h[m]));
      assert g == g[..m] + [g[m]] && h == h[..m] + [h[m]];
    }
  }

  // ---------------------------------------------------------------------------------------------
  // Cells
  // ---------------------------------------------------------------------------------------------

  /** Column `x` of `w` and row `y` of `h`, counted from the west and from the south. */
  datatype Cell = Cell(x: nat, w: nat, y: nat, h: nat)

  function Halved(c: Cell, east: bool, bit: bool): Cell {
    if east then Cell(2 * c.x + ToInt(bit), 2 * c.w, c.y, c.h) else Cell(c.x, c.w, 2 * c.y + ToInt(bit), 2 * c.h)
  }

  /** The cell after the given bits; the first bit is about the longitude. */
  function CellOf(b: BitString): (c: Cell)
    ensures c.x < c.w && c.y < c.h
  {
    if b == [] then Cell(0, 1, 0, 1)
    else Halved(CellOf(b[..|b| - 1]), (|b| - 1) % 2 == 0, b[|b| - 1])
  }

  /** The size of the grid depends on the number of bits only. */
  lemma {:induction false} GridSize(b: BitString)
    ensures CellOf(b).w == Pow2((|b| + 1) / 2) && CellOf(b).h == Pow2(|b| / 2)
  {
    if b != [] {
      GridSize(b[..|b| - 1]);
    }
  }

  /** Different bits, different cells. */
  lemma {:induction false} CellOfInjective(a: BitString, b: BitString)
    requires |a| == |b| && CellOf(a).x == CellOf(b).x && CellOf(a).y == CellOf(b).y
    ensures a == b
  {
    if a != [] {
      var n := |a| - 1;
      CellOfInjective(a[..n], b[..n]);
      assert a == a[..n] + [a[n]] && b == b[..n] + [b[n]];
    }
  }

  function HashCell(h: string): (c: Cell)
    ensures c.x < c.w && c.y < c.h
  {
    CellOf(HashBits(h))
  }

  lemma HashCellInjective(g: string, h: string)
    requires ValidHash(g) && ValidHash(h) && |g| == |h|
    requires HashCell(g).x == HashCell(h).x && HashCell(g).y == HashCell(h).y
    ensures g == h
  {
    CellOfInjective(HashBits(g), HashBits(h));
    HashBitsInjective(g, h);
  }

  // ---------------------------------------------------------------------------------------------
  // Edges
  // ---------------------------------------------------------------------------------------------

  /** The `x`-th of the lines that divide a span into `w` equal parts. */
  function Edge(min: real, span: real, x: int, w: nat): real
    requires w > 0
  {
    min + span * x as real / w as real
  }

  /** Halving the parts: the old lines stay, the new one is in the middle. */
  lemma EdgeHalves(min: real, span: real, x: int, w: nat)
    requires w > 0
    ensures Edge(min, span, 2 * x, 2 * w) == Edge(min, span, x, w)
    ensures Edge(min, span, 2 * x + 2, 2 * w) == Edge(min, span, x + 1, w)
    ensures Edge(min, span, 2 * x + 1, 2 * w) == (Edge(min, span, x, w) + Edge(min, span, x + 1, w)) / 2.0
  {
    var a, b := x as real, w as real;
    assert (2 * x) as real == 2.0 * a && (2 * w) as real == 2.0 * b && (2 * x + 1) as real == 2.0 * a + 1.0;
    assert (x + 1) as real == a + 1.0 && (2 * x + 2) as real == 2.0 * (a + 1.0);
    Cancel(span, a, b);
    Cancel(span, a + 1.0, b);
    Middle(span, a, b);
  }

  lemma Cancel(s: real, a: real, b: real)
    requires b > 0.0
    ensures s * (2.0 * a) / (2.0 * b) == s * a / b
  {
    var q := s * a / b;
    assert q * b == s * a;
    assert q * (2.0 * b) == s * (2.0 * a);
    Quotient(s * (2.0 * a), 2.0 * b, q);
  }

  lemma Middle(s: real, a: real, b: real)
    requires b > 0.0
    ensures s * (2.0 * a + 1.0) / (2.0 * b) == (s * a / b + s * (a + 1.0) / b) / 2.0
  {
    var p, q := s * a / b, s * (a + 1.0) / b;
    assert p * b == s * a && q * b == s * (a + 1.0);
    var m := (p + q) / 2.0;
    assert m * (2.0 * b) == p * b + q * b;
    assert s * (2.0 * a + 1.0) == s * a + s * (a + 1.0);
    Quotient(s * (2.0 * a + 1.0), 2.0 * b, m);
  }

  lemma Quotient(a: real, b: real, q: real)
    requires b != 0.0 && q * b == a
    ensures a / b == q
  {
  }

  lemma EdgeMonotone(min: real, span: real, x: int, y: int, w: nat)
    requires w > 0 && span > 0.0 && x <= y
    ensures Edge(min, span, x, w) <= Edge(min, span, y, w)
    ensures x < y ==> Edge(min, span, x, w) < Edge(min, span, y, w)
  {
    var d, b := (y - x) as real, w as real;
    assert y as real == x as real + d;
    assert span * (y as real) == span * (x as real) + span * d;
    Distribute(span * (x as real), span * d, b);
    assert d > 0.0 ==> span * d > 0.0;
    Positive(span * d, b);
  }

  lemma Distribute(a: real, c: real, b: real)
    requires b > 0.0
    ensures (a + c) / b == a / b + c / b
  {
  }

  lemma Positive(c: real, b: real)
    requires b > 0.0
    ensures c > 0.0 ==> c / b > 0.0
    ensures c == 0.0 ==> c / b == 0.0
  {
  }
}
