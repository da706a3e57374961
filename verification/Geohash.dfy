/**
 geohash_encode, geohash_decode and geohash_dimensions_for_precision.  Every arithmetic operation on
 coordinates is followed by a rounding `fl`; the box of a cell is defined with real arithmetic.
 */
module Geohash {
  import opened Options
  import opened Bits
  import opened Rounding
  import opened GeohashGrid

  const MIN_LAT := -90.0
  const MAX_LAT := 90.0
  const MIN_LONG := -180.0
  const MAX_LONG := 180.0

  datatype GeoBoxDimension = GeoBoxDimension(height: real, width: real)

  datatype GeoCoord = GeoCoord(latitude: real, longitude: real, north: real, east: real, south: real, west: real,
                               dimension: GeoBoxDimension)

  class Interval {
    var high: real
    var low: real

    constructor (high: real, low: real)
      ensures this.high == high && this.low == low
    {
      this.high, this.low := high, low;
    }
  }

  // ---------------------------------------------------------------------------------------------
  // The box of a cell
  // ---------------------------------------------------------------------------------------------

  ghost function West(c: Cell): real
    requires c.x < c.w
  {
    Edge(MIN_LONG, 360.0, c.x, c.w)
  }

  ghost function East(c: Cell): real
    requires c.x < c.w
  {
    Edge(MIN_LONG, 360.0, c.x + 1, c.w)
  }

  ghost function South(c: Cell): real
    requires c.y < c.h
  {
    Edge(MIN_LAT, 180.0, c.y, c.h)
  }

  ghost function North(c: Cell): real
    requires c.y < c.h
  {
    Edge(MIN_LAT, 180.0, c.y + 1, c.h)
  }

  /** `v` lies in a half-open interval, which is closed where the map begins. */
  predicate Between(v: real, low: real, high: real, first: bool) {
    (low < v || (first && v == low)) && v <= high
  }

  /** The point lies in the cell: strictly beyond its south and west edges, except on the edge of the map. */
  ghost predicate Contains(c: Cell, lat: real, lng: real)
    requires c.x < c.w && c.y < c.h
  {
    Between(lng, West(c), East(c), c.x == 0) && Between(lat, South(c), North(c), c.y == 0)
  }

  lemma WholeMap(lat: real, lng: real)
    ensures West(CellOf([])) == MIN_LONG == -180.0 && East(CellOf([])) == MAX_LONG == 180.0
    ensures South(CellOf([])) == MIN_LAT == -90.0 && North(CellOf([])) == MAX_LAT == 90.0
    ensures Contains(CellOf([]), lat, lng) <==> -90.0 <= lat <= 90.0 && -180.0 <= lng <= 180.0
  {
  }

  lemma HalvedLongitude(c: Cell, bit: bool)
    requires c.x < c.w && c.y < c.h
    ensures var d := Halved(c, true, bit);
            && South(d) == South(c) && North(d) == North(c)
            && West(d) == (if bit then (West(c) + East(c)) / 2.0 else West(c))
            && East(d) == (if bit then East(c) else (West(c) + East(c)) / 2.0)
  {
    hide Edge;
    HalvedEdges(MIN_LONG, 360.0, c.x, c.w, bit);
  }

  lemma HalvedLatitude(c: Cell, bit: bool)
    requires c.x < c.w && c.y < c.h
    ensures var d := Halved(c, false, bit);
            && West(d) == West(c) && East(d) == East(c)
            && South(d) == (if bit then (South(c) + North(c)) / 2.0 else South(c))
            && North(d) == (if bit then North(c) else (South(c) + North(c)) / 2.0)
  {
    hide Edge;
    HalvedEdges(MIN_LAT, 180.0, c.y, c.h, bit);
  }

  /** `fl` makes no error when a box that `bits` bits describe is halved: the arithmetic is exact anyway,
      or it is that of doubles and the box is not too small. */
  ghost predicate Reliable(fl: real -> real, bits: nat) {
    Exact(fl) || (Rounds(fl) && bits <= 94)
  }

  lemma EdgeTimes(min: int, span: int, x: int, w: nat)
    requires w > 0
    ensures Edge(min as real, span as real, x, w) * (w as real) == (min * w + span * x) as real
  {
    var q := span as real * x as real / w as real;
    assert q * (w as real) == span as real * x as real;
    assert (min as real + q) * (w as real) == min as real * w as real + q * (w as real);
    assert min as real * w as real == (min * w) as real && span as real * x as real == (span * x) as real;
  }

  /** The limits of the two coordinates are 45 degrees times `h`, which is 2^(s - 1). */
  predicate Limit(h: int, s: nat) {
    (h == 2 && s == 2) || (h == 4 && s == 3)
  }

  lemma PowersOfLimits()
    ensures Pow2(0) == 1 && Pow2(1) == 2 && Pow2(2) == 4 && Pow2(3) == 8
    ensures Pow2(44) == 0x1000_0000_0000 && Pow2(45) == 0x2000_0000_0000
  {
    Powers();
    hide Pow2;
    BigPowers();
    PowEven(48);
    PowEven(47);
    PowEven(46);
    PowEven(45);
    PowEven(1);
  }

  // The lines that cut a coordinate into 2^m parts are multiples of 45 over 2^(m - 2) or 2^(m - 3), or integers
  // over 2^m while there are only a few.

  lemma LatitudeLines(m: nat, x: nat) returns (n: int, span: nat, k: nat)
    requires x < Pow2(m) && m <= 47
    ensures Edge(-90 as real, 180 as real, x, Pow2(m)) * (Pow2(k) as real) == n as real
    ensures Edge(-90 as real, 180 as real, x + 1, Pow2(m)) * (Pow2(k) as real) == (n + span) as real
    ensures k <= 47 && span <= 360 && -0x20_0000_0000_0000 < 2 * n + span < 0x20_0000_0000_0000
  {
    hide *;
    if m < 2 {
      n, span, k := FewLatitudes(m, x);
    } else {
      n, span, k := ManyLatitudes(m, x);
    }
  }

  lemma FewLatitudes(m: nat, x: nat) returns (n: int, span: nat, k: nat)
    requires x < Pow2(m) && m < 2
    ensures Edge(-90 as real, 180 as real, x, Pow2(m)) * (Pow2(k) as real) == n as real
    ensures Edge(-90 as real, 180 as real, x + 1, Pow2(m)) * (Pow2(k) as real) == (n + span) as real
    ensures k <= 47 && span <= 360 && -0x20_0000_0000_0000 < 2 * n + span < 0x20_0000_0000_0000
  {
    hide *;
    EdgeTimes(-90, 180, x, Pow2(m));
    EdgeTimes(-90, 180, x + 1, Pow2(m));
    LimitPowers(m);
    n, span, k := -90 * Pow2(m) + 180 * x, 180, m;
  }

  lemma ManyLatitudes(m: nat, x: nat) returns (n: int, span: nat, k: nat)
    requires x < Pow2(m) && 2 <= m <= 47
    ensures Edge(-90 as real, 180 as real, x, Pow2(m)) * (Pow2(k) as real) == n as real
    ensures Edge(-90 as real, 180 as real, x + 1, Pow2(m)) * (Pow2(k) as real) == (n + span) as real
    ensures k <= 47 && span <= 360 && -0x20_0000_0000_0000 < 2 * n + span < 0x20_0000_0000_0000
  {
    hide *;
    LimitPowers(m);
    n, span, k := 45 * x - 90 * Pow2(m - 2), 45, m - 2;
    LatitudeAt(Pow2(m - 2), Pow2(m), x);
    LatitudeAt(Pow2(m - 2), Pow2(m), x + 1);
    FarLatitudes(Pow2(m - 2), Pow2(m), x);
  }

  /** A line in degrees, times a part of the number of lines */
  lemma LatitudeAt(v: nat, w: nat, x: nat)
    requires w == 4 * v && v > 0
    ensures Edge(-90 as real, 180 as real, x, w) * (v as real) == (45 * x - 90 * v) as real
  {
    EdgeTimes(-90, 180, x, w);
    hide *;
    Divided(Edge(-90 as real, 180 as real, x, w), v as real, 4.0, (45 * x - 90 * v) as real, w as real);
  }

  lemma LimitPowers(m: nat)
    requires m <= 47
    ensures m < 3 ==> Pow2(m) <= 8
    ensures m >= 2 ==> Pow2(m) == 4 * Pow2(m - 2) && Pow2(m - 2) <= 0x2000_0000_0000
    ensures m >= 3 ==> Pow2(m) == 8 * Pow2(m - 3) && Pow2(m - 3) <= 0x1000_0000_0000
  {
    hide *;
    PowersOfLimits();
    if m < 3 {
      PowMonotone(m, 3);
    }
    if m >= 2 {
      PowAdd(m - 2, 2);
      PowMonotone(m - 2, 45);
    }
    if m >= 3 {
      PowAdd(m - 3, 3);
      PowMonotone(m - 3, 44);
    }
  }

  lemma LongitudeLines(m: nat, x: nat) returns (n: int, span: nat, k: nat)
    requires x < Pow2(m) && m <= 47
    ensures Edge(-180 as real, 360 as real, x, Pow2(m)) * (Pow2(k) as real) == n as real
    ensures Edge(-180 as real, 360 as real, x + 1, Pow2(m)) * (Pow2(k) as real) == (n + span) as real
    ensures k <= 47 && span <= 360 && -0x20_0000_0000_0000 < 2 * n + span < 0x20_0000_0000_0000
  {
    hide *;
    if m < 3 {
      n, span, k := FewLongitudes(m, x);
    } else {
      n, span, k := ManyLongitudes(m, x);
    }
  }

  lemma FewLongitudes(m: nat, x: nat) returns (n: int, span: nat, k: nat)
    requires x < Pow2(m) && m < 3
    ensures Edge(-180 as real, 360 as real, x, Pow2(m)) * (Pow2(k) as real) == n as real
    ensures Edge(-180 as real, 360 as real, x + 1, Pow2(m)) * (Pow2(k) as real) == (n + span) as real
    ensures k <= 47 && span <= 360 && -0x20_0000_0000_0000 < 2 * n + span < 0x20_0000_0000_0000
  {
    hide *;
    EdgeTimes(-180, 360, x, Pow2(m));
    EdgeTimes(-180, 360, x + 1, Pow2(m));
    LimitPowers(m);
    n, span, k := -180 * Pow2(m) + 360 * x, 360, m;
  }

  lemma ManyLongitudes(m: nat, x: nat) returns (n: int, span: nat, k: nat)
    requires x < Pow2(m) && 3 <= m <= 47
    ensures Edge(-180 as real, 360 as real, x, Pow2(m)) * (Pow2(k) as real) == n as real
    ensures Edge(-180 as real, 360 as real, x + 1, Pow2(m)) * (Pow2(k) as real) == (n + span) as real
    ensures k <= 47 && span <= 360 && -0x20_0000_0000_0000 < 2 * n + span < 0x20_0000_0000_0000
  {
    hide *;
    LimitPowers(m);
    n, span, k := 45 * x - 180 * Pow2(m - 3), 45, m - 3;
    LongitudeAt(Pow2(m - 3), Pow2(m), x);
    LongitudeAt(Pow2(m - 3), Pow2(m), x + 1);
    FarLongitudes(Pow2(m - 3), Pow2(m), x);
  }

  /** A line in degrees, times a part of the number of lines */
  lemma LongitudeAt(v: nat, w: nat, x: nat)
    requires w == 8 * v && v > 0
    ensures Edge(-180 as real, 360 as real, x, w) * (v as real) == (45 * x - 180 * v) as real
  {
    EdgeTimes(-180, 360, x, w);
    hide *;
    Divided(Edge(-180 as real, 360 as real, x, w), v as real, 8.0, (45 * x - 180 * v) as real, w as real);
  }

  lemma FarLatitudes(v: nat, w: nat, x: nat)
    requires w == 4 * v && x < w && v <= 0x2000_0000_0000
    ensures -0x20_0000_0000_0000 < 2 * (45 * x - 90 * v) + 45 < 0x20_0000_0000_0000
  {
  }

  lemma FarLongitudes(v: nat, w: nat, x: nat)
    requires w == 8 * v && x < w && v <= 0x1000_0000_0000
    ensures -0x20_0000_0000_0000 < 2 * (45 * x - 180 * v) + 45 < 0x20_0000_0000_0000
  {
  }

  lemma Divided(line: real, v: real, h: real, n: real, w: real)
    requires w == v * h && h > 0.0 && line * w == h * n
    ensures line * v == n
  {
    assert (line * v) * h == n * h;
  }

  /** Intervals of the latitude and of the longitude can be halved without error. */
  lemma LatitudesHalve(fl: real -> real, m: nat, x: nat)
    requires Rounds(fl) && m <= 47 && x < Pow2(m)
    ensures HalvesExactly(fl, Edge(-90 as real, 180 as real, x, Pow2(m)), Edge(-90 as real, 180 as real, x + 1, Pow2(m)))
  {
    hide *;
    var n, span, k := LatitudeLines(m, x);
    HalvesOfInterval(fl, Edge(-90 as real, 180 as real, x, Pow2(m)), Edge(-90 as real, 180 as real, x + 1, Pow2(m)), n, span, k);
  }

  lemma LongitudesHalve(fl: real -> real, m: nat, x: nat)
    requires Rounds(fl) && m <= 47 && x < Pow2(m)
    ensures HalvesExactly(fl, Edge(-180 as real, 360 as real, x, Pow2(m)), Edge(-180 as real, 360 as real, x + 1, Pow2(m)))
  {
    hide *;
    var n, span, k := LongitudeLines(m, x);
    HalvesOfInterval(fl, Edge(-180 as real, 360 as real, x, Pow2(m)), Edge(-180 as real, 360 as real, x + 1, Pow2(m)), n, span, k);
  }

  /** The box of a hash can be halved without error, in both directions. */
  lemma BoxHalves(fl: real -> real, b: BitString)
    requires Reliable(fl, |b|)
    ensures HalvesExactly(fl, West(CellOf(b)), East(CellOf(b))) && HalvesExactly(fl, South(CellOf(b)), North(CellOf(b)))
  {
    hide CellOf, Edge, Pow2, Exact, Rounds, HalvesExactly;
    GridSize(b);
    if Exact(fl) {
      ExactHalves(fl, West(CellOf(b)), East(CellOf(b)));
      ExactHalves(fl, South(CellOf(b)), North(CellOf(b)));
    } else {
      LongitudesHalve(fl, (|b| + 1) / 2, CellOf(b).x);
      LatitudesHalve(fl, |b| / 2, CellOf(b).y);
    }
  }

  lemma ExactHalves(fl: real -> real, low: real, high: real)
    requires Exact(fl)
    ensures HalvesExactly(fl, low, high)
  {
  }

  /** One more bit halves the box in one direction. */
  lemma HalvedBox(b: BitString, bit: bool)
    ensures CellOf(b + [bit]) == Halved(CellOf(b), |b| % 2 == 0, bit)
    ensures var c, d := CellOf(b), CellOf(b + [bit]);
            if |b| % 2 == 0 then
              && South(d) == South(c) && North(d) == North(c)
              && West(d) == (if bit then (West(c) + East(c)) / 2.0 else West(c))
              && East(d) == (if bit then East(c) else (West(c) + East(c)) / 2.0)
            else
              && West(d) == West(c) && East(d) == East(c)
              && South(d) == (if bit then (South(c) + North(c)) / 2.0 else South(c))
              && North(d) == (if bit then North(c) else (South(c) + North(c)) / 2.0)
  {
    assert (b + [bit])[..|b|] == b;
    assert CellOf(b + [bit]) == Halved(CellOf(b), |b| % 2 == 0, bit);
    hide *;
    if |b| % 2 == 0 {
      HalvedLongitude(CellOf(b), bit);
    } else {
      HalvedLatitude(CellOf(b), bit);
    }
  }

  lemma HalvedEdges(min: real, span: real, x: nat, w: nat, bit: bool)
    requires w > 0
    ensures var x', mid := 2 * x + ToInt(bit), (Edge(min, span, x, w) + Edge(min, span, x + 1, w)) / 2.0;
            && Edge(min, span, x', 2 * w) == (if bit then mid else Edge(min, span, x, w))
            && Edge(min, span, x' + 1, 2 * w) == (if bit then Edge(min, span, x + 1, w) else mid)
  {
    hide Edge;
    EdgeHalves(min, span, x, w);
  }

  lemma BoxIsProper(c: Cell)
    requires c.x < c.w && c.y < c.h
    ensures West(c) < East(c) && South(c) < North(c)
  {
    hide Edge;
    EdgeMonotone(MIN_LONG, 360.0, c.x, c.x + 1, c.w);
    EdgeMonotone(MIN_LAT, 180.0, c.y, c.y + 1, c.h);
  }

  /** Choosing the half by a comparison with the middle keeps the point in the cell. */
  lemma StillContains(b: BitString, lat: real, lng: real, bit: bool)
    requires Contains(CellOf(b), lat, lng)
    requires bit == if |b| % 2 == 0 then lng > (West(CellOf(b)) + East(CellOf(b))) / 2.0
                    else lat > (South(CellOf(b)) + North(CellOf(b))) / 2.0
    ensures Contains(CellOf(b + [bit]), lat, lng)
  {
    HalvedBox(b, bit);
    BoxIsProper(CellOf(b));
    hide West, East, South, North;
  }

  /** A cell inside another one: the point is in all the coarser cells. */
  lemma {:induction false} CoarserContains(b: BitString, n: nat, lat: real, lng: real)
    requires n <= |b| && Contains(CellOf(b), lat, lng)
    ensures Contains(CellOf(b[..n]), lat, lng)
    decreases |b|
  {
    if n == |b| {
      assert b[..n] == b;
    } else {
      var m := |b| - 1;
      assert b == b[..m] + [b[m]];
      HalvedBox(b[..m], b[m]);
      BoxIsProper(CellOf(b[..m]));
      assert Contains(CellOf(b[..m]), lat, lng) by {
        hide West, East, South, North, CellOf;
      }
      CoarserContains(b[..m], n, lat, lng);
      assert b[..m][..n] == b[..n];
    }
  }

  lemma SameColumn(min: real, span: real, x: nat, y: nat, w: nat, v: real)
    requires w > 0 && span > 0.0
    requires Between(v, Edge(min, span, x, w), Edge(min, span, x + 1, w), x == 0)
    requires Between(v, Edge(min, span, y, w), Edge(min, span, y + 1, w), y == 0)
    ensures x == y
  {
    hide Edge;
    if x < y {
      EdgeMonotone(min, span, x + 1, y, w);
    } else if y < x {
      EdgeMonotone(min, span, y + 1, x, w);
    }
  }

  /** Cells of the same size do not overlap, so a point has one hash of each length. */
  lemma UniqueHash(g: string, h: string, lat: real, lng: real)
    requires ValidHash(g) && ValidHash(h) && |g| == |h|
    requires Contains(HashCell(g), lat, lng) && Contains(HashCell(h), lat, lng)
    ensures g == h
  {
    GridSize(HashBits(g));
    GridSize(HashBits(h));
    var c, d := HashCell(g), HashCell(h);
    hide Edge, CellOf, HashBits;
    SameColumn(MIN_LONG, 360.0, c.x, d.x, c.w, lng);
    SameColumn(MIN_LAT, 180.0, c.y, d.y, c.h, lat);
    HashCellInjective(g, h);
  }

  // ---------------------------------------------------------------------------------------------
  // Encoding
  // ---------------------------------------------------------------------------------------------

  /** The intervals are the box of the cell of the bits so far. */
  ghost predicate Boxed(lat: Interval, lng: Interval, c: Cell)
    requires c.x < c.w && c.y < c.h
    reads lat, lng
  {
    lng.low == West(c) && lng.high == East(c) && lat.low == South(c) && lat.high == North(c)
  }

  /** The characters written so far, and the bits that wait for the next one. */
  ghost predicate Written(hash: seq<char>, hashChar: nat, b: BitString) {
    && 5 * |hash| <= |b| < 5 * |hash| + 5 && ValidHash(hash) && HashBits(hash) == b[..5 * |hash|]
    && hashChar == Number(b[5 * |hash|..])
  }

  lemma NextBit(hash: seq<char>, hashChar: nat, b: BitString, bit: bool)
    requires Written(hash, hashChar, b)
    ensures |b| != 5 * |hash| + 4 ==> Written(hash, 2 * hashChar + ToInt(bit), b + [bit])
    ensures |b| == 5 * |hash| + 4 ==>
      && 2 * hashChar + ToInt(bit) < 32 == |CHAR_MAP|
      && Written(hash + [CHAR_MAP[2 * hashChar + ToInt(bit)]], 0, b + [bit])
  {
    hide Number, HashBits, DigitOf;
    var n := 5 * |hash|;
    var rest, value := b[n..], 2 * hashChar + ToInt(bit);
    assert (b + [bit])[..n] == b[..n] && (b + [bit])[n..] == rest + [bit];
    NumberSnoc(rest, bit);
    if |b| == n + 4 {
      NumberOfFive(rest + [bit]);
      HashSnoc(hash, value);
      assert (b + [bit])[..n + 5] == b + [bit] && b + [bit] == b[..n] + (rest + [bit]);
      assert (b + [bit])[n + 5..] == [];
      NumberOfNone();
    }
  }

  lemma NumberSnoc(b: BitString, bit: bool)
    ensures Number(b + [bit]) == 2 * Number(b) + ToInt(bit)
  {
    assert (b + [bit])[..|b|] == b;
  }

  lemma NumberOfNone()
    ensures Number([]) == 0
  {
  }

  lemma HashSnoc(hash: seq<char>, d: nat)
    requires d < 32 && ValidHash(hash)
    ensures ValidHash(hash + [CHAR_MAP[d]]) && HashBits(hash + [CHAR_MAP[d]]) == HashBits(hash) + DigitBits(d)
  {
    assert (hash + [CHAR_MAP[d]])[..|hash|] == hash;
    CharMapInjective(d);
  }

  /** The comparison with the middle, and the half that it selects. */
  method Narrow(fl: real -> real, interval: Interval, coord: real) returns (bit: bool)
    requires HalvesExactly(fl, interval.low, interval.high)
    modifies interval
    ensures var mid := (old(interval.low) + old(interval.high)) / 2.0;
            && bit == (coord > mid)
            && interval.low == (if bit then mid else old(interval.low))
            && interval.high == (if bit then old(interval.high) else mid)
  {
    var mid := fl(fl(interval.low + interval.high) / 2.0);
    if coord > mid {
      interval.low := mid;
      bit := true;
    } else {
      interval.high := mid;
      bit := false;
    }
  }

  /** One round of the loop of geohash_encode, up to the interval and the bit. */
  method EncodeBit(fl: real -> real, latInterval: Interval, lngInterval: Interval, lat: real, lng: real, isEven: bool,
                   ghost b: BitString)
      returns (bit: bool)
    requires Reliable(fl, |b|) && latInterval != lngInterval && isEven == AtLongitude(b)
    requires Boxed(latInterval, lngInterval, CellOf(b)) && Contains(CellOf(b), lat, lng)
    modifies latInterval, lngInterval
    ensures Boxed(latInterval, lngInterval, CellOf(b + [bit])) && Contains(CellOf(b + [bit]), lat, lng)
  {
    hide Contains, West, East, South, North, CellOf, HalvesExactly, Reliable;
    BoxHalves(fl, b);
    HalvedBox(b, true);
    HalvedBox(b, false);
    var interval, coord := latInterval, lat;
    if isEven {
      interval, coord := lngInterval, lng;
    }
    bit := Narrow(fl, interval, coord);
    StillContains(b, lat, lng, bit);
  }

  /** geohash_encode: every point on the map gets the one hash of its length whose cell contains it. */
  method Encode(fl: real -> real, lat: real, lng: real, precision: int) returns (hash: Option<string>)
    requires Rounds(fl)
    ensures hash.Some? <==> -90.0 <= lat <= 90.0 && -180.0 <= lng <= 180.0
    ensures hash.Some? ==>
      && |hash.value| == (if 1 <= precision <= 12 then precision else 6) && ValidHash(hash.value)
      && forall h | ValidHash(h) && |h| == |hash.value| :: Contains(HashCell(h), lat, lng) <==> h == hash.value
  {
    hide *;
    var p := if precision < 1 || precision > 12 then 6 else precision;
    EncodeReady(lat, lng);
    if !(lat <= 90.0 && lat >= -90.0 && lng <= 180.0 && lng >= -180.0) {
      return None;
    }
    var buffer := new char[p + 1];
    buffer[p] := '\0';
    var latInterval := new Interval(MAX_LAT, MIN_LAT);
    var lngInterval := new Interval(MAX_LONG, MIN_LONG);
    var isEven, hashChar: nat := true, 0;
    ghost var b: BitString, n := [], 0;
    StartBoxed(latInterval, lngInterval);
    for i := 1 to p * 5 + 1
      invariant fresh(buffer) && fresh(latInterval) && fresh(lngInterval) && latInterval != lngInterval
      invariant |b| == i - 1 && 5 * n <= |b| < 5 * n + 5 && isEven == AtLongitude(b)
      invariant Boxed(latInterval, lngInterval, CellOf(b)) && Contains(CellOf(b), lat, lng)
      invariant n <= p && Written(buffer[..n], hashChar, b)
    {
      Alternates(b);
      ShortReliable(fl, |b|);
      var bit := EncodeBit(fl, latInterval, lngInterval, lat, lng, isEven, b);
      hashChar, n := PutBit(buffer, i, hashChar, bit, n, b);
      b := b + [bit];
      isEven := !isEven;
    }
    hash := Some(buffer[..p]);
    EncodeEnd(buffer[..p], hashChar, b);
    forall h | ValidHash(h) && |h| == p && Contains(HashCell(h), lat, lng) ensures h == hash.value {
      UniqueHash(h, hash.value, lat, lng);
    }
  }

  /** The next bit is about the longitude. */
  predicate AtLongitude(b: BitString) {
    |b| % 2 == 0
  }

  lemma ShortReliable(fl: real -> real, bits: nat)
    requires Rounds(fl) && bits <= 94
    ensures Reliable(fl, bits)
  {
  }

  lemma Alternates(b: BitString)
    ensures forall bit :: AtLongitude(b + [bit]) == !AtLongitude(b)
  {
  }

  /** The second half of the loop of geohash_encode: the bit goes into `hashChar`, and every fifth time
      the character is written. */
  method PutBit(buffer: array<char>, i: nat, hashChar: nat, bit: bool, ghost n: nat, ghost b: BitString)
      returns (hashChar': nat, ghost n': nat)
    requires |b| == i - 1 && 5 * n <= |b| < 5 * n + 5 && i <= 5 * (buffer.Length - 1)
    requires Written(buffer[..n], hashChar, b)
    modifies buffer
    ensures 5 * n' <= i < 5 * n' + 5 && n' < buffer.Length && Written(buffer[..n'], hashChar', b + [bit])
  {
    hide *;
    NextBit(buffer[..n], hashChar, b, bit);
    FifthBit(i, n);
    n' := n;
    hashChar' := Shifted(hashChar, bit);
    if i % 5 == 0 {
      ghost var hash0 := buffer[..n];
      buffer[(i - 1) / 5] := CHAR_MAP[hashChar'];
      hashChar' := 0;
      n' := n + 1;
      assert buffer[..n'] == hash0 + [buffer[n]];
    }
  }

  lemma FifthBit(i: nat, n: nat)
    requires 5 * n <= i - 1 < 5 * n + 5
    ensures (i - 1) / 5 == n && (i % 5 == 0 <==> i - 1 == 5 * n + 4)
  {
  }

  /** `hashChar << 1`, and `hashChar |= 0x01` where the point is in the upper half */
  function Shifted(hashChar: nat, bit: bool): (r: nat)
    ensures r == 2 * hashChar + ToInt(bit)
  {
    Powers();
    var r := ShiftUp(hashChar, 1, 2);
    if bit then Join(r, 1, 1, 2, hashChar) else r
  }

  lemma EncodeReady(lat: real, lng: real)
    ensures -90.0 <= lat <= 90.0 && -180.0 <= lng <= 180.0 ==> Contains(CellOf([]), lat, lng)
    ensures Written([], 0, []) && AtLongitude([])
  {
    WholeMap(lat, lng);
  }

  lemma StartBoxed(latInterval: Interval, lngInterval: Interval)
    requires latInterval.low == MIN_LAT && latInterval.high == MAX_LAT
    requires lngInterval.low == MIN_LONG && lngInterval.high == MAX_LONG
    ensures Boxed(latInterval, lngInterval, CellOf([]))
  {
    WholeMap(0.0, 0.0);
  }

  lemma EncodeEnd(hash: string, hashChar: nat, b: BitString)
    requires Written(hash, hashChar, b) && |b| == 5 * |hash|
    ensures ValidHash(hash) && HashBits(hash) == b && HashCell(hash) == CellOf(b)
  {
    assert b[..5 * |hash|] == b;
  }

  /** The bits of a shorter hash are the first bits of a longer one. */
  lemma {:induction false} HashBitsPrefix(h: string, n: nat)
    requires n <= |h|
    ensures HashBits(h[..n]) == HashBits(h)[..5 * n]
    decreases |h|
  {
    hide DigitBits, DigitOf;
    if n < |h| {
      var m := |h| - 1;
      HashBitsPrefix(h[..m], n);
      assert h[..m][..n] == h[..n];
    } else {
      assert h[..n] == h && HashBits(h)[..5 * n] == HashBits(h);
    }
  }

  /** A coarser hash of a point is a prefix of a finer one. */
  lemma CoarserIsPrefix(g: string, h: string, lat: real, lng: real)
    requires ValidHash(g) && ValidHash(h) && |g| <= |h|
    requires Contains(HashCell(g), lat, lng) && Contains(HashCell(h), lat, lng)
    ensures g == h[..|g|]
  {
    HashBitsPrefix(h, |g|);
    CoarserContains(HashBits(h), 5 * |g|, lat, lng);
    UniqueHash(g, h[..|g|], lat, lng);
  }

  // ---------------------------------------------------------------------------------------------
  // Decoding
  // ---------------------------------------------------------------------------------------------

  /** An int as an unsigned int */
  function Unsigned(i: int): (u: nat)
    requires -0x8000_0000 <= i < 0x8000_0000
    ensures u < 0x1_0000_0000
  {
    if i < 0 then i + 0x1_0000_0000 else i
  }

  /** index_for_char */
  method IndexForChar(c: char, s: string) returns (index: nat)
    requires |s| < 0x8000_0000
    ensures index == Unsigned(IndexIn(c, s))
  {
    var r, i := -1, 0;
    while i < |s|
      invariant i <= |s| && r == -1 && forall j | 0 <= j < i :: s[j] != c
    {
      if c == s[i] {
        r := i;
        break;
      }
      i := i + 1;
    }
    index := Unsigned(r);
  }

  /** `(index << j) & 0x0010`, in 32 bits */
  predicate BitAt(index: nat, j: nat) {
    And(ShiftUp(index, j, Pow2(j)) % 0x1_0000_0000, 0x10) != 0
  }

  lemma BitSixteen(y: nat)
    ensures And(y, 0x10) != 0 <==> y / 16 % 2 == 1
  {
    Powers();
    ShlIsMultiple(1, 4);
    AndShifted(y, 1, 4);
    ShiftIsDivision(y, 4);
    AndMask(y / 16, 1);
    ShiftIsDivision(y / 16, 1);
    ShlIsMultiple(y / 16 % 2, 4);
  }

  /** The bit that the inner loop of geohash_decode tests, for a digit and for the index -1. */
  lemma BitAtExact(d: nat, j: nat)
    requires (d < 32 || d == 0xFFFF_FFFF) && j < 5
    ensures BitAt(d, j) == if d < 32 then DigitBits(d)[j] else true
  {
    Powers();
    assert Pow2(0) == 1;
    BitSixteen(d * Pow2(j) % 0x1_0000_0000);
    hide And, Pow2, ShiftUp;
    BitOfShifted(d, j, Pow2(j));
  }

  lemma BitOfShifted(d: nat, j: nat, p: nat)
    requires (d < 32 || d == 0xFFFF_FFFF) && j < 5
    requires p == [1, 2, 4, 8, 16][j]
    ensures (d * p % 0x1_0000_0000 / 16 % 2 == 1) == if d < 32 then DigitBits(d)[j] else true
  {
    if d < 32 {
      assert d * p % 0x1_0000_0000 == d * p;
      ShiftedDigit(d, j, p);
    }
  }

  lemma ShiftedDigit(d: nat, j: nat, p: nat)
    requires d < 32 && j < 5 && p == [1, 2, 4, 8, 16][j]
    ensures (d * p / 16 % 2 == 1) == DigitBits(d)[j]
  {
    assert d * 16 / 16 == d && d * 8 / 16 == d / 2 && d * 4 / 16 == d / 4 && d * 2 / 16 == d / 8;
  }

  // ---------------------------------------------------------------------------------------------

  /** One bit of geohash_decode halves one of the intervals. */
  method Halve(fl: real -> real, interval: Interval, bit: bool)
    modifies interval
    ensures HalvesExactly(fl, old(interval.low), old(interval.high)) ==>
      var mid := (old(interval.low) + old(interval.high)) / 2.0;
      && interval.low == (if bit then mid else old(interval.low))
      && interval.high == (if bit then old(interval.high) else mid)
  {
    var delta := fl(fl(interval.high - interval.low) / 2.0);
    MiddleFromEnds(interval.low, interval.high);
    if bit {
      interval.low := fl(interval.low + delta);
    } else {
      interval.high := fl(interval.high - delta);
    }
  }

  lemma MiddleFromEnds(low: real, high: real)
    ensures low + (high - low) / 2.0 == (low + high) / 2.0 == high - (high - low) / 2.0
  {
  }

  /** `exact` says that no rounding error has occurred and none can in what follows. */
  method DecodeBit(fl: real -> real, latInterval: Interval, lngInterval: Interval, isEven: bool, bit: bool,
                   ghost b: BitString, ghost exact: bool)
    requires latInterval != lngInterval && isEven == AtLongitude(b)
    requires exact ==> Reliable(fl, |b|) && Boxed(latInterval, lngInterval, CellOf(b))
    modifies latInterval, lngInterval
    ensures exact ==> Boxed(latInterval, lngInterval, CellOf(b + [bit]))
  {
    hide West, East, South, North, CellOf, HalvesExactly, Reliable;
    HalvedBox(b, bit);
    if exact {
      BoxHalves(fl, b);
    }
    Halve(fl, if isEven then lngInterval else latInterval, bit);
  }

  /** The inner loop of geohash_decode: the five bits of one character. */
  method DecodeChar(fl: real -> real, latInterval: Interval, lngInterval: Interval, c: char, even: bool,
                    ghost b: BitString, ghost exact: bool)
      returns (isEven: bool)
    requires latInterval != lngInterval && even == AtLongitude(b)
    requires exact ==> Reliable(fl, |b| + 5) && Boxed(latInterval, lngInterval, CellOf(b))
    modifies latInterval, lngInterval
    ensures exact ==> Boxed(latInterval, lngInterval, CellOf(b + DigitBits(DigitOf(c))))
    ensures isEven == AtLongitude(b + DigitBits(DigitOf(c)))
  {
    hide *;
    IndexOrAllOnes(c);
    var index := IndexForChar(c, CHAR_MAP);
    ghost var bits, cur := DigitBits(DigitOf(c)), b;
    isEven := even;
    assert bits[..0] == [] && b + [] == b;
    for j := 0 to 5
      invariant cur == b + bits[..j] && isEven == AtLongitude(cur)
      invariant exact ==> Boxed(latInterval, lngInterval, CellOf(cur))
    {
      BitAtExact(index, j);
      Alternates(cur);
      Coarser(fl, |cur|, |b| + 5);
      DecodeBit(fl, latInterval, lngInterval, isEven, BitAt(index, j), cur, exact);
      assert b + bits[..j] + [bits[j]] == b + bits[..j + 1];
      cur := cur + [bits[j]];
      isEven := !isEven;
    }
    assert bits[..5] == bits;
  }

  lemma Coarser(fl: real -> real, m: nat, n: nat)
    ensures m <= n && Reliable(fl, n) ==> Reliable(fl, m)
  {
  }

  /** An invalid character has the index -1, all bits of which are set, like those of 31. */
  lemma IndexOrAllOnes(c: char)
    ensures |CHAR_MAP| == 32
    ensures var index := Unsigned(IndexIn(c, CHAR_MAP));
            if c in CHAR_MAP then index == DigitOf(c) else index == 0xFFFF_FFFF && DigitBits(DigitOf(c)) == [true, true, true, true, true]
  {
    assert |CHAR_MAP| == 32;
  }

  lemma UpTo18(fl: real -> real, length: nat)
    ensures Exact(fl) || (Rounds(fl) && length <= 18) <==> Reliable(fl, 5 * length)
  {
  }

  /** geohash_decode: the box of the cell, and its middle.  A missing or empty hash gives zeros.  With
      doubles the box is exact for hashes of up to 18 characters. */
  method Decode(fl: real -> real, hash: Option<string>) returns (coordinate: GeoCoord)
    ensures hash == None || hash == Some("") ==>
      coordinate == GeoCoord(0.0, 0.0, 0.0, 0.0, 0.0, 0.0, GeoBoxDimension(0.0, 0.0))
    ensures coordinate.dimension == GeoBoxDimension(0.0, 0.0)
    ensures hash.Some? && hash.value != "" && (Exact(fl) || (Rounds(fl) && |hash.value| <= 18)) ==>
      var c := HashCell(hash.value);
      && coordinate.west == West(c) && coordinate.east == East(c)
      && coordinate.south == South(c) && coordinate.north == North(c)
      && coordinate.longitude == (West(c) + East(c)) / 2.0 && coordinate.latitude == (South(c) + North(c)) / 2.0
  {
    hide *;
    NothingDecoded();
    coordinate := GeoCoord(0.0, 0.0, 0.0, 0.0, 0.0, 0.0, GeoBoxDimension(0.0, 0.0));
    if hash.Some? && |hash.value| > 0 {
      var h := hash.value;
      ghost var exact := Exact(fl) || (Rounds(fl) && |h| <= 18);
      UpTo18(fl, |h|);
      var lat := new Interval(MAX_LAT, MIN_LAT);
      var lng := new Interval(MAX_LONG, MIN_LONG);
      var isEven := true;
      StartBoxed(lat, lng);
      assert h[..0] == [];
      for i := 0 to |h|
        invariant fresh(lat) && fresh(lng) && lat != lng && isEven == AtLongitude(HashBits(h[..i]))
        invariant exact ==> Boxed(lat, lng, CellOf(HashBits(h[..i])))
      {
        HashBitsNext(h, i);
        Coarser(fl, |HashBits(h[..i])| + 5, 5 * |h|);
        isEven := DecodeChar(fl, lat, lng, h[i], isEven, HashBits(h[..i]), exact);
      }
      assert h[..|h|] == h;
      if exact {
        DecodeEnd(fl, lat, lng, h);
      }
      coordinate := coordinate.(
        latitude := Middle(fl, lat), longitude := Middle(fl, lng),
        north := lat.high, east := lng.high, south := lat.low, west := lng.low);
    }
  }

  /** The middle of an interval, as geohash_decode computes it. */
  function Middle(fl: real -> real, interval: Interval): real
    reads interval
  {
    fl(interval.high - fl(fl(interval.high - interval.low) / 2.0))
  }

  /** The ends of the box, and its middle, which comes out without error. */
  lemma DecodeEnd(fl: real -> real, lat: Interval, lng: Interval, h: string)
    requires Reliable(fl, 5 * |h|) && Boxed(lat, lng, CellOf(HashBits(h)))
    ensures var c := HashCell(h);
            && lng.low == West(c) && lng.high == East(c) && lat.low == South(c) && lat.high == North(c)
            && Middle(fl, lng) == (West(c) + East(c)) / 2.0 && Middle(fl, lat) == (South(c) + North(c)) / 2.0
  {
    hide Reliable, HalvesExactly, HashBits, CellOf, West, East, South, North;
    BoxHalves(fl, HashBits(h));
    MiddleKept(fl, lng.low, lng.high);
    MiddleKept(fl, lat.low, lat.high);
  }

  lemma MiddleKept(fl: real -> real, low: real, high: real)
    requires HalvesExactly(fl, low, high)
    ensures fl(high - fl(fl(high - low) / 2.0)) == (low + high) / 2.0
  {
    MiddleFromEnds(low, high);
  }

  // A hash of 19 characters is the first whose middle can be rounded.

  const LONG_HASH: string := "zzzzzzzzzzzzzzzzzzz"

  ghost predicate AllOnes(b: BitString) {
    forall i | 0 <= i < |b| :: b[i]
  }

  lemma {:induction false} LastCell(b: BitString)
    requires AllOnes(b)
    ensures CellOf(b).x == CellOf(b).w - 1 && CellOf(b).y == CellOf(b).h - 1
    decreases |b|
  {
    if b != [] {
      LastCell(b[..|b| - 1]);
    }
  }

  lemma {:induction false} LastHash(h: string)
    requires forall i | 0 <= i < |h| :: h[i] == 'z'
    ensures AllOnes(HashBits(h))
    decreases |h|
  {
    hide DigitOf, DigitBits, IndexIn;
    if h != "" {
      LastHash(h[..|h| - 1]);
      LastDigit31();
      assert HashBits(h) == HashBits(h[..|h| - 1]) + DigitBits(DigitOf('z'));
    }
  }

  lemma LastDigit31()
    ensures DigitBits(DigitOf('z')) == [true, true, true, true, true]
  {
    hide *;
    LastCharacter();
    BitsOf31();
  }

  lemma LastCharacter()
    ensures DigitOf('z') == 31
  {
    hide DigitOf, IndexIn;
    CharMapInjective(31);
    assert CHAR_MAP[31] == 'z';
  }

  lemma BitsOf31()
    ensures DigitBits(31) == [true, true, true, true, true]
  {
  }

  lemma LongHash()
    ensures |LONG_HASH| == 19 && forall i | 0 <= i < 19 :: LONG_HASH[i] == 'z'
  {
  }

  /** No double is the middle of its box. */
  lemma CentreOfLongHash()
    ensures |LONG_HASH| == 19
    ensures var c := HashCell(LONG_HASH); !IsDouble((West(c) + East(c)) / 2.0)
  {
    hide LONG_HASH, HashBits, CellOf, Pow2, West, East, IsDouble, AllOnes;
    LongHash();
    LastHash(LONG_HASH);
    LastCell(HashBits(LONG_HASH));
    GridSize(HashBits(LONG_HASH));
    LastMiddle(HashCell(LONG_HASH));
  }

  lemma LastMiddle(c: Cell)
    requires c.x < c.w && c.w == Pow2(48) && c.x == c.w - 1
    ensures !IsDouble((West(c) + East(c)) / 2.0)
  {
    var w, v := c.w, (West(c) + East(c)) / 2.0;
    EdgeTimes(-180, 360, c.x, w);
    EdgeTimes(-180, 360, c.x + 1, w);
    hide Edge, Pow2, IsDouble;
    BigPowers();
    PowersOfLimits();
    PowAdd(46, 3);
    PowEven(49);
    SumTimes(West(c), East(c), w as real, (-180 * w + 360 * c.x) as real, 360.0);
    HalfTimes(West(c) + East(c), w as real, Pow2(49) as real);
    Divided(v, Pow2(46) as real, 8.0, (45 * (w - 1)) as real, Pow2(49) as real);
    NotDouble(v, 45 * (w - 1), 46);
  }

  lemma NothingDecoded()
    ensures HashBits([]) == [] && AtLongitude([])
  {
  }

  lemma HashBitsNext(h: string, i: nat)
    requires i < |h|
    ensures HashBits(h[..i + 1]) == HashBits(h[..i]) + DigitBits(DigitOf(h[i]))
  {
    assert h[..i + 1][..i] == h[..i];
  }

  // ---------------------------------------------------------------------------------------------
  // Encoding and decoding
  // ---------------------------------------------------------------------------------------------

  /** The middle of a box lies in it, and on the map. */
  lemma CentreInside(b: BitString)
    ensures var c := CellOf(b);
            var lat, lng := (South(c) + North(c)) / 2.0, (West(c) + East(c)) / 2.0;
            Contains(c, lat, lng) && -90.0 <= lat <= 90.0 && -180.0 <= lng <= 180.0
  {
    var c := CellOf(b);
    BoxIsProper(c);
    var lat, lng := (South(c) + North(c)) / 2.0, (West(c) + East(c)) / 2.0;
    assert Contains(c, lat, lng) by {
      hide West, East, South, North;
    }
    CoarserContains(b, 0, lat, lng);
    assert b[..0] == [];
    WholeMap(lat, lng);
  }

  lemma CentreOf(h: string)
    requires 1 <= |h| <= 12
    ensures h != ""
    ensures var c := HashCell(h);
            var lat, lng := (South(c) + North(c)) / 2.0, (West(c) + East(c)) / 2.0;
            Contains(c, lat, lng) && -90.0 <= lat <= 90.0 && -180.0 <= lng <= 180.0
  {
    hide West, East, South, North, Contains, CellOf, HashBits;
    CentreInside(HashBits(h));
  }

  /** The middle of the box of a hash has this hash. */
  method Reencode(fl: real -> real, h: string) returns (g: Option<string>)
    requires Rounds(fl) && ValidHash(h) && 1 <= |h| <= 12
    ensures g == Some(h)
  {
    hide *;
    CentreOf(h);
    var c := Decode(fl, Some(h));
    g := Encode(fl, c.latitude, c.longitude, |h|);
  }

  // ---------------------------------------------------------------------------------------------
  // Dimensions
  // ---------------------------------------------------------------------------------------------

  /** `a` cut in half `n` times */
  lemma CutInHalf(a: real, n: nat)
    ensures a / (Pow2(n + 1) as real) == a / (Pow2(n) as real) / 2.0
  {
    var p := Pow2(n) as real;
    assert Pow2(n + 1) as real == 2.0 * p;
    Cancel(1.0, a / 2.0, p);
  }

  /** The repeated halving is exact until the exponent of a double is exhausted. */
  ghost predicate CutsExactly(fl: real -> real, cuts: nat) {
    Exact(fl) || (Rounds(fl) && cuts <= 1076)
  }

  /** 180 and 360 degrees, cut in half `n` times */
  lemma CutKept(fl: real -> real, h: int, s: nat, n: nat)
    requires CutsExactly(fl, n) && Limit(h, s)
    ensures fl((90 * h) as real / (Pow2(n) as real)) == (90 * h) as real / (Pow2(n) as real)
  {
    hide Rounds, Exact, Pow2;
    PowersOfLimits();
    var a := (90 * h) as real / (Pow2(n) as real);
    Quotients((90 * h) as real, Pow2(n) as real);
    if Exact(fl) {
      ExactKept(fl, a);
    } else if n < s {
      ScaledKept(fl, a, 90 * h, n);
    } else {
      PowAdd(n - s, s);
      Divided(a, Pow2(n - s) as real, Pow2(s) as real, 45.0, Pow2(n) as real);
      ScaledKept(fl, a, 45, n - s);
    }
  }

  lemma Quotients(a: real, p: real)
    requires p > 0.0
    ensures a / p * p == a
  {
  }

  lemma ExactKept(fl: real -> real, v: real)
    requires Exact(fl)
    ensures fl(v) == v
  {
  }

  /** The loops of geohash_dimensions_for_precision, on 180 or 360 degrees */
  method Cut(fl: real -> real, a: nat, times: nat) returns (v: real)
    requires a == 180 || a == 360
    ensures CutsExactly(fl, times) ==> v == a as real / (Pow2(times) as real)
  {
    v := a as real;
    for i := 0 to times
      invariant CutsExactly(fl, times) ==> v == a as real / (Pow2(i) as real)
    {
      if CutsExactly(fl, times) {
        CutInHalf(a as real, i);
        CutKept(fl, if a == 180 then 2 else 4, if a == 180 then 2 else 3, i + 1);
      }
      v := fl(v / 2.0);
    }
  }

  lemma UpTo430(fl: real -> real, precision: nat, cuts: nat)
    requires cuts == (5 * precision + 1) / 2
    ensures Exact(fl) || (Rounds(fl) && precision <= 430) <==> CutsExactly(fl, cuts)
  {
  }

  /** geohash_dimensions_for_precision.  With doubles the sizes are exact for precisions of up to 430. */
  method DimensionsForPrecision(fl: real -> real, precision: int) returns (d: GeoBoxDimension)
    ensures precision <= 0 ==> d == GeoBoxDimension(0.0, 0.0)
    ensures precision > 0 && (Exact(fl) || (Rounds(fl) && precision <= 430)) ==> forall h: string | |h| == precision ::
              d.height == North(HashCell(h)) - South(HashCell(h)) && d.width == East(HashCell(h)) - West(HashCell(h))
  {
    hide *;
    d := GeoBoxDimension(0.0, 0.0);
    if precision > 0 {
      var latTimesToCut := precision * 5 / 2;
      var lngTimesToCut := precision * 5 / 2 + if precision % 2 != 0 then 1 else 0;
      CutCounts(precision, latTimesToCut, lngTimesToCut);
      UpTo430(fl, precision, lngTimesToCut);
      FewerCuts(fl, latTimesToCut, lngTimesToCut);
      var width := Cut(fl, 360, lngTimesToCut);
      var height := Cut(fl, 180, latTimesToCut);
      d := GeoBoxDimension(height, width);
      forall h: string | |h| == precision
        ensures North(HashCell(h)) - South(HashCell(h)) == 180.0 / (Pow2(latTimesToCut) as real)
        ensures East(HashCell(h)) - West(HashCell(h)) == 360.0 / (Pow2(lngTimesToCut) as real)
      {
        BoxSize(h, latTimesToCut, lngTimesToCut);
      }
    }
  }

  /** The next precision is the first for which no double is the width. */
  lemma WidthOf431(h: string)
    requires |h| == 431
    ensures !IsDouble(East(HashCell(h)) - West(HashCell(h)))
  {
    hide *;
    BoxSize(h, 1077, 1078);
    var v := East(HashCell(h)) - West(HashCell(h));
    PowAdd(1075, 3);
    PowersOfLimits();
    Quotients(360.0, Pow2(1078) as real);
    Divided(v, Pow2(1075) as real, Pow2(3) as real, 45.0, Pow2(1078) as real);
    NotDouble(v, 45, 1075);
  }

  lemma FewerCuts(fl: real -> real, m: nat, n: nat)
    requires m <= n
    ensures CutsExactly(fl, n) ==> CutsExactly(fl, m)
  {
  }

  lemma BoxSize(h: string, m: nat, n: nat)
    requires m == |h| * 5 / 2 && n == |h| * 5 / 2 + if |h| % 2 != 0 then 1 else 0
    ensures North(HashCell(h)) - South(HashCell(h)) == 180.0 / (Pow2(m) as real)
    ensures East(HashCell(h)) - West(HashCell(h)) == 360.0 / (Pow2(n) as real)
  {
    hide *;
    CellSize(h, m, n);
    CellExtent(HashCell(h));
  }

  lemma CellSize(h: string, m: nat, n: nat)
    requires m == |h| * 5 / 2 && n == |h| * 5 / 2 + if |h| % 2 != 0 then 1 else 0
    ensures HashCell(h).h == Pow2(m) && HashCell(h).w == Pow2(n)
  {
    GridSize(HashBits(h));
    CutCounts(|h|, m, n);
  }

  lemma CellExtent(c: Cell)
    requires c.x < c.w && c.y < c.h
    ensures North(c) - South(c) == 180.0 / (c.h as real) && East(c) - West(c) == 360.0 / (c.w as real)
  {
    hide Edge;
    EdgeDistance(MIN_LAT, 180.0, c.y, c.h);
    EdgeDistance(MIN_LONG, 360.0, c.x, c.w);
  }

  lemma CutCounts(k: nat, m: nat, n: nat)
    requires m == k * 5 / 2 && n == k * 5 / 2 + if k % 2 != 0 then 1 else 0
    ensures m == 5 * k / 2 && n == (5 * k + 1) / 2
  {
    var t := k / 2;
    if k % 2 == 0 {
      assert k * 5 == 10 * t && 10 * t / 2 == 5 * t && (10 * t + 1) / 2 == 5 * t;
    } else {
      assert k * 5 == 10 * t + 5 && (10 * t + 5) / 2 == 5 * t + 2 && (10 * t + 6) / 2 == 5 * t + 3;
    }
  }

  lemma EdgeDistance(min: real, span: real, x: nat, w: nat)
    requires w > 0
    ensures Edge(min, span, x + 1, w) - Edge(min, span, x, w) == span / w as real
  {
    assert span * (x + 1) as real == span * x as real + span;
    Distribute(span * x as real, span, w as real);
  }
}
