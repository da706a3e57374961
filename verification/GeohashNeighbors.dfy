/**
 get_neighbor and geohash_neighbors: adjacent cells by table lookup on the last character, with a carry
 into the characters before it.
 */
module GeohashNeighbors {
  import opened Options
  import opened GeohashGrid
  import Geohash

  datatype Direction = North | East | South | West

  const EVEN_NORTH: string := "p0r21436x8zb9dcf5h7kjnmqesgutwvy"
  const EVEN_EAST: string := "bc01fg45238967deuvhjyznpkmstqrwx"
  const EVEN_SOUTH: string := "14365h7k9dcfesgujnmqp0r2twvyx8zb"
  const EVEN_WEST: string := "238967debc01fg45kmstqrwxuvhjyznp"

  /** even_neighbors and odd_neighbors */
  function Neighbors(odd: bool, d: Direction): string {
    match d
    case North => if odd then EVEN_EAST else EVEN_NORTH
    case East => if odd then EVEN_NORTH else EVEN_EAST
    case South => if odd then EVEN_WEST else EVEN_SOUTH
    case West => if odd then EVEN_SOUTH else EVEN_WEST
  }

  /** even_borders and odd_borders */
  function Borders(odd: bool, d: Direction): string {
    match d
    case North => if odd then "bcfguvyz" else "prxz"
    case East => if odd then "prxz" else "bcfguvyz"
    case South => if odd then "0145hjnp" else "028b"
    case West => if odd then "028b" else "0145hjnp"
  }

  /** get_neighbor.  None stands for the recursion that reaches the empty hash, and reads in front of it. */
  function GetNeighbor(hash: string, d: Direction): (r: Option<string>)
    requires ValidHash(hash)
    ensures r.Some? ==> |r.value| == |hash| && ValidHash(r.value)
    decreases |hash|
  {
    if hash == "" then None
    else
      hide Neighbors, Borders;
      var last, base, odd := hash[|hash| - 1], hash[..|hash| - 1], |hash| % 2 == 1;
      var prefix := if IndexIn(last, Borders(odd, d)) != -1 then GetNeighbor(base, d) else Some(base);
      assert last in CHAR_MAP;
      var i := NeighborIndex(last, odd, d);
      if prefix == None then None else Some(prefix.value + [CHAR_MAP[i]])
  }

  /** The index of the last character in the table. */
  function NeighborIndex(last: char, odd: bool, d: Direction): (i: nat)
    requires last in CHAR_MAP
    ensures i < 32 == |CHAR_MAP|
  {
    hide *;
    KnownIndex(last, odd, d);
    IndexIn(last, Neighbors(odd, d))
  }

  // ---------------------------------------------------------------------------------------------
  // Digits
  // ---------------------------------------------------------------------------------------------

  // The bits of a digit alternate: three of them, the first one included, are about one direction, and
  // two about the other.  `m` and `n` are the numbers that they form.

  function Spread3(m: nat): nat {
    if m == 0 then 0
    else if m == 1 then 1
    else if m == 2 then 4
    else if m == 3 then 5
    else if m == 4 then 16
    else if m == 5 then 17
    else if m == 6 then 20
    else 21
  }

  function Spread2(n: nat): nat {
    if n == 0 then 0 else if n == 1 then 2 else if n == 2 then 8 else 10
  }

  function Digit(m: nat, n: nat): (d: nat)
    ensures d < 32
  {
    Spread3(m) + Spread2(n)
  }

  lemma BitsOfDigit(a: nat, b: nat, c: nat, d: nat, e: nat)
    requires a < 2 && b < 2 && c < 2 && d < 2 && e < 2
    ensures var v := Digit(4 * a + 2 * c + e, 2 * b + d);
            v == 16 * a + 8 * b + 4 * c + 2 * d + e && DigitBits(v) == [a == 1, b == 1, c == 1, d == 1, e == 1]
  {
    hide DigitBits;
    assert Spread3(4 * a + 2 * c + e) == 16 * a + 4 * c + e && Spread2(2 * b + d) == 8 * b + 2 * d;
    hide *;
    SumBits(a, b, c, d, e);
  }

  lemma SumBits(a: nat, b: nat, c: nat, d: nat, e: nat)
    requires a < 2 && b < 2 && c < 2 && d < 2 && e < 2
    ensures DigitBits(16 * a + 8 * b + 4 * c + 2 * d + e) == [a == 1, b == 1, c == 1, d == 1, e == 1]
  {
    ToBits(a, b, c, d, e);
  }

  /** The two numbers of a digit. */
  lemma Parts(d: nat) returns (m: nat, n: nat)
    requires d < 32
    ensures m < 8 && n < 4 && Digit(m, n) == d
  {
    hide *;
    var a, b, c, e, f := d / 16 % 2, d / 8 % 2, d / 4 % 2, d / 2 % 2, d % 2;
    m, n := 4 * a + 2 * c + f, 2 * b + e;
    FromBits(d);
    BitsOfDigit(a, b, c, e, f);
  }

  lemma DigitInjective(m: nat, n: nat, m': nat, n': nat)
    requires m < 8 && n < 4 && m' < 8 && n' < 4 && Digit(m, n) == Digit(m', n')
    ensures m == m' && n == n'
  {
  }

  // ---------------------------------------------------------------------------------------------
  // Tables
  // ---------------------------------------------------------------------------------------------

  /** `m` moved by one, modulo `size` */
  function Turn(m: nat, up: bool, size: nat): nat
    requires m < size
  {
    if up then (if m == size - 1 then 0 else m + 1) else (if m == 0 then size - 1 else m - 1)
  }

  // Each table lists, for every digit, the character whose neighbour it is; here are their digits.

  const NORTH_DIGITS: seq<nat> := [
    21, 0, 23, 2, 1, 4, 3, 6, 29, 8, 31, 10, 9, 12, 11, 14,
    5, 16, 7, 18, 17, 20, 19, 22, 13, 24, 15, 26, 25, 28, 27, 30]

  const EAST_DIGITS: seq<nat> := [
    10, 11, 0, 1, 14, 15, 4, 5, 2, 3, 8, 9, 6, 7, 12, 13,
    26, 27, 16, 17, 30, 31, 20, 21, 18, 19, 24, 25, 22, 23, 28, 29]

  const SOUTH_DIGITS: seq<nat> := [
    1, 4, 3, 6, 5, 16, 7, 18, 9, 12, 11, 14, 13, 24, 15, 26,
    17, 20, 19, 22, 21, 0, 23, 2, 25, 28, 27, 30, 29, 8, 31, 10]

  const WEST_DIGITS: seq<nat> := [
    2, 3, 8, 9, 6, 7, 12, 13, 10, 11, 0, 1, 14, 15, 4, 5,
    18, 19, 24, 25, 22, 23, 28, 29, 26, 27, 16, 17, 30, 31, 20, 21]

  /** The four tables, told apart by the number of a digit that changes and by the way it changes. */
  function Table(major: bool, up: bool): string {
    if major then (if up then EVEN_SOUTH else EVEN_NORTH) else if up then EVEN_WEST else EVEN_EAST
  }

  function TableDigits(major: bool, up: bool): seq<nat> {
    if major then (if up then SOUTH_DIGITS else NORTH_DIGITS) else if up then WEST_DIGITS else EAST_DIGITS
  }

  /** One of the two numbers of a digit moved by one. */
  function Moved(major: bool, up: bool, m: nat, n: nat): (r: (nat, nat))
    requires m < 8 && n < 4
    ensures r.0 < 8 && r.1 < 4
  {
    if major then (Turn(m, up, 8), n) else (m, Turn(n, up, 4))
  }

  lemma MajorCharacters(k: nat)
    requires k < 32
    ensures |EVEN_NORTH| == |EVEN_SOUTH| == |CHAR_MAP| == |NORTH_DIGITS| == |SOUTH_DIGITS| == 32
    ensures NORTH_DIGITS[k] < 32 && EVEN_NORTH[k] == CHAR_MAP[NORTH_DIGITS[k]]
    ensures SOUTH_DIGITS[k] < 32 && EVEN_SOUTH[k] == CHAR_MAP[SOUTH_DIGITS[k]]
  {
  }

  lemma MinorCharacters(k: nat)
    requires k < 32
    ensures |EVEN_EAST| == |EVEN_WEST| == |CHAR_MAP| == |EAST_DIGITS| == |WEST_DIGITS| == 32
    ensures EAST_DIGITS[k] < 32 && EVEN_EAST[k] == CHAR_MAP[EAST_DIGITS[k]]
    ensures WEST_DIGITS[k] < 32 && EVEN_WEST[k] == CHAR_MAP[WEST_DIGITS[k]]
  {
  }

  lemma TableCharacters(major: bool, up: bool, k: nat)
    requires k < 32
    ensures |Table(major, up)| == |CHAR_MAP| == |TableDigits(major, up)| == 32 && TableDigits(major, up)[k] < 32
    ensures Table(major, up)[k] == CHAR_MAP[TableDigits(major, up)[k]]
  {
    hide CHAR_MAP, EVEN_NORTH, EVEN_EAST, EVEN_SOUTH, EVEN_WEST, NORTH_DIGITS, EAST_DIGITS, SOUTH_DIGITS, WEST_DIGITS;
    if major {
      MajorCharacters(k);
    } else {
      MinorCharacters(k);
    }
  }

  lemma TableMoves(major: bool, up: bool, m: nat, n: nat)
    requires m < 8 && n < 4
    ensures |TableDigits(major, up)| == 32
    ensures var (m', n') := Moved(major, up, m, n); TableDigits(major, up)[Digit(m, n)] == Digit(m', n')
  {
  }

  lemma TableEntry(major: bool, up: bool, m: nat, n: nat)
    requires m < 8 && n < 4
    ensures var (m', n') := Moved(major, up, m, n);
            |Table(major, up)| == |CHAR_MAP| == 32 && Table(major, up)[Digit(m, n)] == CHAR_MAP[Digit(m', n')]
  {
    hide *;
    TableMoves(major, up, m, n);
    TableCharacters(major, up, Digit(m, n));
  }

  predicate Eastward(d: Direction) {
    d == East || d == West
  }

  predicate Upward(d: Direction) {
    d == North || d == East
  }

  /** The direction is the one that the first bit of the last character is about. */
  predicate IsMajor(odd: bool, d: Direction) {
    odd == Eastward(d)
  }

  lemma TableAt(odd: bool, d: Direction, m: nat, n: nat)
    requires m < 8 && n < 4
    ensures var (m', n') := Moved(IsMajor(odd, d), !Upward(d), m, n);
            |Neighbors(odd, d)| == |CHAR_MAP| == 32 && Neighbors(odd, d)[Digit(m, n)] == CHAR_MAP[Digit(m', n')]
  {
    hide *;
    TableEntry(IsMajor(odd, d), !Upward(d), m, n);
    TableUsed(odd, d);
  }

  /** The table of a direction holds the characters one step behind. */
  lemma TableUsed(odd: bool, d: Direction)
    ensures Neighbors(odd, d) == Table(IsMajor(odd, d), !Upward(d))
  {
    hide EVEN_NORTH, EVEN_EAST, EVEN_SOUTH, EVEN_WEST;
  }

  lemma Turns(m: nat, n: nat)
    requires m < 8 && n < 4
    ensures forall up :: Turn(m, up, 8) < 8 && Turn(Turn(m, up, 8), !up, 8) == m
    ensures forall up :: Turn(n, up, 4) < 4 && Turn(Turn(n, up, 4), !up, 4) == n
  {
  }

  /** The lookup moves the numbers of the last character in the direction. */
  lemma TableIndex(odd: bool, d: Direction, m: nat, n: nat)
    requires m < 8 && n < 4
    ensures |CHAR_MAP| == 32
    ensures var (m', n') := Moved(IsMajor(odd, d), Upward(d), m, n);
            m' < 8 && n' < 4 && IndexIn(CHAR_MAP[Digit(m, n)], Neighbors(odd, d)) == Digit(m', n')
  {
    hide *;
    TableAt(odd, d, m, n);
    MovedBack(IsMajor(odd, d), m, n);
    var (m1, n1) := Moved(IsMajor(odd, d), Upward(d), m, n);
    TableAt(odd, d, m1, n1);
    var last, table := CHAR_MAP[Digit(m, n)], Neighbors(odd, d);
    assert table[Digit(m1, n1)] == last;
    var r := IndexIn(last, table);
    var mr, nr := Parts(r);
    TableAt(odd, d, mr, nr);
    MovedBack(IsMajor(odd, d), mr, nr);
    var (m', n') := Moved(IsMajor(odd, d), !Upward(d), mr, nr);
    CharMapInjective(Digit(m', n'));
    CharMapInjective(Digit(m, n));
    DigitInjective(m, n, m', n');
  }

  lemma MovedBack(major: bool, m: nat, n: nat)
    requires m < 8 && n < 4
    ensures forall up :: var (m', n') := Moved(major, up, m, n); Moved(major, !up, m', n') == (m, n)
  {
    hide Turn;
    Turns(m, n);
  }

  lemma KnownIndex(last: char, odd: bool, d: Direction)
    requires last in CHAR_MAP
    ensures 0 <= IndexIn(last, Neighbors(odd, d)) < 32 == |CHAR_MAP|
  {
    hide *;
    KnownChar(last);
    var m, n := Parts(DigitOf(last));
    TableIndex(odd, d, m, n);
  }

  // ---------------------------------------------------------------------------------------------
  // Borders
  // ---------------------------------------------------------------------------------------------

  lemma MajorBorders(n: nat)
    requires n < 4
    ensures |"prxz"| == |"028b"| == 4 && |CHAR_MAP| == 32
    ensures "prxz"[n] == CHAR_MAP[Digit(7, n)] && "028b"[n] == CHAR_MAP[Digit(0, n)]
  {
  }

  lemma UpMinorBorders(m: nat)
    requires m < 8
    ensures |"bcfguvyz"| == 8 && |CHAR_MAP| == 32 && "bcfguvyz"[m] == CHAR_MAP[Digit(m, 3)]
  {
  }

  lemma DownMinorBorders(m: nat)
    requires m < 8
    ensures |"0145hjnp"| == 8 && |CHAR_MAP| == 32 && "0145hjnp"[m] == CHAR_MAP[Digit(m, 0)]
  {
  }

  /** The numbers from which the next step leaves the cells below the same prefix. */
  predicate AtBorder(odd: bool, d: Direction, m: nat, n: nat) {
    if IsMajor(odd, d) then m == (if Upward(d) then 7 else 0) else n == (if Upward(d) then 3 else 0)
  }

  lemma BorderAt(odd: bool, d: Direction, i: nat)
    requires i < if IsMajor(odd, d) then 4 else 8
    ensures |CHAR_MAP| == 32 && |Borders(odd, d)| == if IsMajor(odd, d) then 4 else 8
    ensures Borders(odd, d)[i]
         == CHAR_MAP[if IsMajor(odd, d) then Digit(if Upward(d) then 7 else 0, i) else Digit(i, if Upward(d) then 3 else 0)]
  {
    if IsMajor(odd, d) {
      MajorBorders(i);
    } else {
      UpMinorBorders(i);
      DownMinorBorders(i);
    }
    hide Digit, CHAR_MAP;
  }

  /** The numbers of the `i`-th character of a border. */
  function BorderParts(odd: bool, d: Direction, i: nat): (nat, nat) {
    if IsMajor(odd, d) then (if Upward(d) then 7 else 0, i) else (i, if Upward(d) then 3 else 0)
  }

  lemma BorderDigit(odd: bool, d: Direction, i: nat)
    requires i < if IsMajor(odd, d) then 4 else 8
    ensures |CHAR_MAP| == 32 && |Borders(odd, d)| == if IsMajor(odd, d) then 4 else 8
    ensures var (m, n) := BorderParts(odd, d, i);
            m < 8 && n < 4 && AtBorder(odd, d, m, n) && Borders(odd, d)[i] == CHAR_MAP[Digit(m, n)]
  {
    hide Borders, Digit, CHAR_MAP;
    BorderAt(odd, d, i);
  }

  lemma BorderPosition(odd: bool, d: Direction, m: nat, n: nat) returns (i: nat)
    requires m < 8 && n < 4
    ensures i < if IsMajor(odd, d) then 4 else 8
    ensures AtBorder(odd, d, m, n) <==> BorderParts(odd, d, i) == (m, n)
  {
    i := if IsMajor(odd, d) then n else m;
  }

  /** The border tables list exactly the characters with a carry. */
  lemma BorderExact(odd: bool, d: Direction, m: nat, n: nat)
    requires m < 8 && n < 4
    ensures |CHAR_MAP| == 32 && (CHAR_MAP[Digit(m, n)] in Borders(odd, d) <==> AtBorder(odd, d, m, n))
  {
    hide *;
    var i := BorderPosition(odd, d, m, n);
    BorderDigit(odd, d, i);
    if CHAR_MAP[Digit(m, n)] in Borders(odd, d) {
      BorderMember(odd, d, m, n);
    }
  }

  lemma BorderMember(odd: bool, d: Direction, m: nat, n: nat)
    requires m < 8 && n < 4 && |CHAR_MAP| == 32 && CHAR_MAP[Digit(m, n)] in Borders(odd, d)
    ensures AtBorder(odd, d, m, n)
  {
    hide *;
    BorderSize(odd, d);
    var j :| 0 <= j < |Borders(odd, d)| && Borders(odd, d)[j] == CHAR_MAP[Digit(m, n)];
    BorderDigit(odd, d, j);
    var (m', n') := BorderParts(odd, d, j);
    CharMapInjective(Digit(m, n));
    CharMapInjective(Digit(m', n'));
    DigitInjective(m, n, m', n');
  }

  lemma BorderSize(odd: bool, d: Direction)
    ensures |Borders(odd, d)| == if IsMajor(odd, d) then 4 else 8
  {
    BorderAt(odd, d, 0);
  }

  // ---------------------------------------------------------------------------------------------
  // Cells
  // ---------------------------------------------------------------------------------------------

  /** The next cell in a direction; beyond the edge of the map there is none. */
  function Next(c: Cell, d: Direction): (r: Option<Cell>)
    requires c.x < c.w && c.y < c.h
  {
    match d
    case North => if c.y == c.h - 1 then None else Some(c.(y := c.y + 1))
    case East => if c.x == c.w - 1 then None else Some(c.(x := c.x + 1))
    case South => if c.y == 0 then None else Some(c.(y := c.y - 1))
    case West => if c.x == 0 then None else Some(c.(x := c.x - 1))
  }

  /** The cell after one more character, with the numbers `m` and `n`. */
  function Refined(c: Cell, odd: bool, m: nat, n: nat): Cell {
    if odd then Cell(8 * c.x + m, 8 * c.w, 4 * c.y + n, 4 * c.h) else Cell(4 * c.x + n, 4 * c.w, 8 * c.y + m, 8 * c.h)
  }

  lemma FiveBits(b: BitString, a: nat, i: nat, c: nat, j: nat, e: nat)
    requires a < 2 && i < 2 && c < 2 && j < 2 && e < 2
    ensures CellOf(b + [a == 1, i == 1, c == 1, j == 1, e == 1])
         == Refined(CellOf(b), |b| % 2 == 0, 4 * a + 2 * c + e, 2 * i + j)
  {
    hide *;
    var odd := |b| % 2 == 0;
    var b1 := OneBit(b, a, odd);
    var b2 := OneBit(b1, i, !odd);
    var b3 := OneBit(b2, c, odd);
    var b4 := OneBit(b3, j, !odd);
    var b5 := OneBit(b4, e, odd);
    FiveHalves(CellOf(b), odd, a, i, c, j, e);
    Concatenated(b, a == 1, i == 1, c == 1, j == 1, e == 1);
  }

  lemma Concatenated(b: BitString, p: bool, q: bool, r: bool, s: bool, t: bool)
    ensures b + [p] + [q] + [r] + [s] + [t] == b + [p, q, r, s, t]
  {
  }

  lemma OneBit(b: BitString, a: nat, odd: bool) returns (b': BitString)
    requires odd == (|b| % 2 == 0)
    ensures b' == b + [a == 1] && CellOf(b') == Halved(CellOf(b), odd, a == 1) && !odd == (|b'| % 2 == 0)
  {
    b' := b + [a == 1];
    assert b'[..|b|] == b;
  }

  lemma FiveHalves(q: Cell, odd: bool, a: nat, i: nat, c: nat, j: nat, e: nat)
    requires a < 2 && i < 2 && c < 2 && j < 2 && e < 2
    ensures Halved(Halved(Halved(Halved(Halved(q, odd, a == 1), !odd, i == 1), odd, c == 1), !odd, j == 1), odd, e == 1)
         == Refined(q, odd, 4 * a + 2 * c + e, 2 * i + j)
  {
  }

  /** The cell of a hash, from the cell of the hash without the last character. */
  lemma LastCharCell(hash: string) returns (m: nat, n: nat)
    requires hash != "" && ValidHash(hash)
    ensures |CHAR_MAP| == 32 && m < 8 && n < 4 && hash[|hash| - 1] == CHAR_MAP[Digit(m, n)]
    ensures HashCell(hash) == Refined(HashCell(hash[..|hash| - 1]), |hash| % 2 == 1, m, n)
  {
    hide *;
    LastDigit(hash);
    m, n := Parts(DigitOf(hash[|hash| - 1]));
    DigitCell(hash[..|hash| - 1], m, n);
    CellOfHash(hash);
    OddLength(|hash[..|hash| - 1]|);
  }

  lemma OddLength(n: nat)
    ensures 5 * n % 2 == 0 <==> (n + 1) % 2 == 1
  {
    FiveTimes(n);
  }

  lemma CellOfHash(hash: string)
    ensures HashCell(hash) == CellOf(HashBits(hash))
  {
  }

  lemma DigitCell(prefix: string, m: nat, n: nat)
    requires m < 8 && n < 4
    ensures CellOf(HashBits(prefix) + DigitBits(Digit(m, n))) == Refined(HashCell(prefix), 5 * |prefix| % 2 == 0, m, n)
  {
    hide *;
    var a, i := m / 4, n / 2;
    var c, j := (m - 4 * a) / 2, n - 2 * i;
    var e := m - 4 * a - 2 * c;
    BitsOfDigit(a, i, c, j, e);
    FiveBits(HashBits(prefix), a, i, c, j, e);
    CellOfHash(prefix);
  }

  lemma RefinedNext(c: Cell, odd: bool, m: nat, n: nat, d: Direction)
    requires c.x < c.w && c.y < c.h && m < 8 && n < 4
    ensures var r := Refined(c, odd, m, n);
            var (m', n') := Moved(IsMajor(odd, d), Upward(d), m, n);
            && r.x < r.w && r.y < r.h
            && Next(r, d) == if !AtBorder(odd, d, m, n) then Some(Refined(c, odd, m', n'))
                             else if Next(c, d) == None then None
                             else Some(Refined(Next(c, d).value, odd, m', n'))
  {
  }

  lemma AppendedCell(prefix: string, m: nat, n: nat)
    requires ValidHash(prefix) && m < 8 && n < 4
    ensures |CHAR_MAP| == 32 && ValidHash(prefix + [CHAR_MAP[Digit(m, n)]])
    ensures HashCell(prefix + [CHAR_MAP[Digit(m, n)]]) == Refined(HashCell(prefix), |prefix| % 2 == 0, m, n)
  {
    hide *;
    CharMapInjective(Digit(m, n));
    var h := prefix + [CHAR_MAP[Digit(m, n)]];
    AppendValid(prefix, Digit(m, n));
    assert h[..|h| - 1] == prefix;
    LastDigit(h);
    DigitCell(prefix, m, n);
    CellOfHash(h);
    OddLength(|prefix|);
    FiveTimes(|prefix|);
  }

  lemma FiveTimes(n: nat)
    ensures 5 * n % 2 == 0 <==> n % 2 == 0
  {
    var t := n / 2;
    if n % 2 == 0 {
      assert 5 * n == 2 * (5 * t);
    } else {
      assert 5 * n == 2 * (5 * t + 2) + 1;
    }
  }

  lemma AppendValid(prefix: string, i: nat)
    requires ValidHash(prefix) && i < 32
    ensures |CHAR_MAP| == 32 && ValidHash(prefix + [CHAR_MAP[i]]) && prefix + [CHAR_MAP[i]] != ""
  {
  }

  /** get_neighbor returns the hash of the next cell, and runs out of characters exactly when there is
      none on the map. */
  lemma {:induction false} NeighborExact(hash: string, d: Direction)
    requires ValidHash(hash)
    ensures var r := GetNeighbor(hash, d);
            if r == None then Next(HashCell(hash), d) == None
            else Next(HashCell(hash), d) == Some(HashCell(r.value))
    decreases |hash|
  {
    hide *;
    Unfolded(hash, d);
    if hash != "" {
      var base, odd := hash[..|hash| - 1], |hash| % 2 == 1;
      var m, n := LastCharCell(hash);
      TableIndex(odd, d, m, n);
      BorderExact(odd, d, m, n);
      RefinedNext(HashCell(base), odd, m, n, d);
      InitValid(hash);
      NeighborExact(base, d);
      Odd(|hash|);
      var (m', n') := Moved(IsMajor(odd, d), Upward(d), m, n);
      AppendedCell(base, m', n');
      var r := GetNeighbor(base, d);
      if r != None {
        AppendedCell(r.value, m', n');
      }
    }
  }

  lemma Odd(n: nat)
    requires n > 0
    ensures (n - 1) % 2 == 0 <==> n % 2 == 1
  {
  }

  lemma Unfolded(hash: string, d: Direction)
    requires ValidHash(hash)
    ensures hash == "" ==> GetNeighbor(hash, d) == None && Next(HashCell(hash), d) == None
    ensures hash != "" ==>
      var last, base, odd := hash[|hash| - 1], hash[..|hash| - 1], |hash| % 2 == 1;
      && ValidHash(base) && |CHAR_MAP| == 32 && 0 <= IndexIn(last, Neighbors(odd, d)) < 32
      && var prefix := if last in Borders(odd, d) then GetNeighbor(base, d) else Some(base);
         GetNeighbor(hash, d)
         == if prefix == None then None else Some(prefix.value + [CHAR_MAP[IndexIn(last, Neighbors(odd, d))]])
  {
    hide Neighbors, Borders, IndexIn;
    if hash != "" {
      KnownIndex(hash[|hash| - 1], |hash| % 2 == 1, d);
    }
  }

  // ---------------------------------------------------------------------------------------------
  // Walking over the map
  // ---------------------------------------------------------------------------------------------

  function Opposite(d: Direction): Direction {
    match d
    case North => South
    case East => West
    case South => North
    case West => East
  }

  /** A step and the opposite step cancel. */
  lemma OppositeCancels(hash: string, d: Direction)
    requires ValidHash(hash) && GetNeighbor(hash, d) != None
    ensures GetNeighbor(GetNeighbor(hash, d).value, Opposite(d)) == Some(hash)
  {
    hide *;
    var g := Found(hash, d);
    NeighborExact(hash, d);
    NeighborExact(g, Opposite(d));
    NextBack(HashCell(hash), d);
    var back := Found(g, Opposite(d));
    HashCellInjective(back, hash);
  }

  lemma Found(hash: string, d: Direction) returns (g: string)
    requires ValidHash(hash)
    ensures GetNeighbor(hash, d) != None ==> GetNeighbor(hash, d) == Some(g) && |g| == |hash| && ValidHash(g)
  {
    g := "";
    if GetNeighbor(hash, d) != None {
      g := GetNeighbor(hash, d).value;
    }
  }

  lemma NextBack(c: Cell, d: Direction)
    requires c.x < c.w && c.y < c.h && Next(c, d) != None
    ensures Next(Next(c, d).value, Opposite(d)) == Some(c)
  {
  }

  /** A second step, when the first one has succeeded. */
  function Then(r: Option<string>, d: Direction): (r': Option<string>)
    requires r.Some? ==> ValidHash(r.value)
    ensures r'.Some? ==> r.Some? && |r'.value| == |r.value| && ValidHash(r'.value)
  {
    if r == None then None else GetNeighbor(r.value, d)
  }

  /** The cell `dx` columns to the east and `dy` rows to the north. */
  function Off(c: Cell, dx: int, dy: int): Option<Cell> {
    if 0 <= c.x + dx < c.w && 0 <= c.y + dy < c.h then Some(Cell(c.x + dx, c.w, c.y + dy, c.h)) else None
  }

  function Dx(d: Direction): int {
    match d
    case North => 0
    case East => 1
    case South => 0
    case West => -1
  }

  function Dy(d: Direction): int {
    match d
    case North => 1
    case East => 0
    case South => -1
    case West => 0
  }

  /** `r` is the hash of the cell at the given distance, and there is none when this cell is off the map. */
  predicate HashAt(r: Option<string>, hash: string, dx: int, dy: int) {
    match r
    case None => Off(HashCell(hash), dx, dy) == None
    case Some(g) => ValidHash(g) && |g| == |hash| && Off(HashCell(hash), dx, dy) == Some(HashCell(g))
  }

  lemma OneStep(hash: string, d: Direction)
    requires ValidHash(hash)
    ensures HashAt(GetNeighbor(hash, d), hash, Dx(d), Dy(d))
  {
    hide GetNeighbor, HashCell;
    NeighborExact(hash, d);
  }

  lemma TwoSteps(hash: string, d: Direction, e: Direction)
    requires ValidHash(hash) && Eastward(d) != Eastward(e)
    ensures HashAt(Then(GetNeighbor(hash, d), e), hash, Dx(d) + Dx(e), Dy(d) + Dy(e))
  {
    hide GetNeighbor, HashCell;
    NeighborExact(hash, d);
    var r := GetNeighbor(hash, d);
    if r.Some? {
      NeighborExact(r.value, e);
    }
  }

  /** There is only one such hash. */
  lemma HashAtUnique(r: Option<string>, r': Option<string>, hash: string, dx: int, dy: int)
    requires HashAt(r, hash, dx, dy) && HashAt(r', hash, dx, dy)
    ensures r == r'
  {
    hide HashCell;
    if r.Some? && r'.Some? {
      HashCellInjective(r.value, r'.value);
    }
  }

  /** Perpendicular steps commute. */
  lemma PerpendicularCommute(hash: string, d: Direction, e: Direction)
    requires ValidHash(hash) && Eastward(d) != Eastward(e)
    ensures Then(GetNeighbor(hash, d), e) == Then(GetNeighbor(hash, e), d)
  {
    hide GetNeighbor, HashAt, Then;
    TwoSteps(hash, d, e);
    TwoSteps(hash, e, d);
    HashAtUnique(Then(GetNeighbor(hash, d), e), Then(GetNeighbor(hash, e), d), hash, Dx(d) + Dx(e), Dy(d) + Dy(e));
  }

  /** The box of the neighbour borders on the box of the hash, and has its size. */
  lemma NeighborBox(hash: string, d: Direction)
    requires ValidHash(hash) && GetNeighbor(hash, d) != None
    ensures var b, c := HashCell(hash), HashCell(GetNeighbor(hash, d).value);
            match d
            case North => Geohash.South(c) == Geohash.North(b) && Geohash.West(c) == Geohash.West(b) && Geohash.East(c) == Geohash.East(b)
            case East => Geohash.West(c) == Geohash.East(b) && Geohash.South(c) == Geohash.South(b) && Geohash.North(c) == Geohash.North(b)
            case South => Geohash.North(c) == Geohash.South(b) && Geohash.West(c) == Geohash.West(b) && Geohash.East(c) == Geohash.East(b)
            case West => Geohash.East(c) == Geohash.West(b) && Geohash.South(c) == Geohash.South(b) && Geohash.North(c) == Geohash.North(b)
    ensures HashCell(GetNeighbor(hash, d).value).w == HashCell(hash).w && HashCell(GetNeighbor(hash, d).value).h == HashCell(hash).h
  {
    hide GetNeighbor, HashCell, Edge;
    NeighborExact(hash, d);
  }

  // ---------------------------------------------------------------------------------------------
  // The eight neighbours
  // ---------------------------------------------------------------------------------------------

  /** The distances of N, NE, E, SE, S, SW, W and NW. */
  const COLUMNS: seq<int> := [0, 1, 1, 1, 0, -1, -1, -1]
  const ROWS: seq<int> := [1, 1, 0, -1, -1, -1, 0, 1]

  ghost function Around(h: string): seq<Option<string>>
    requires ValidHash(h)
  {
    [GetNeighbor(h, North), Then(GetNeighbor(h, North), East), GetNeighbor(h, East), Then(GetNeighbor(h, East), South),
     GetNeighbor(h, South), Then(GetNeighbor(h, South), West), GetNeighbor(h, West), Then(GetNeighbor(h, West), North)]
  }

  lemma AroundExact(h: string)
    requires ValidHash(h)
    ensures |Around(h)| == 8 && forall i | 0 <= i < 8 :: 
      HashAt(Around(h)[i], h, [0, 1, 1, 1, 0, -1, -1, -1][i], [1, 1, 0, -1, -1, -1, 0, 1][i])
  {
    hide GetNeighbor, HashAt, Then, ValidHash;
    OneStep(h, North);
    OneStep(h, East);
    OneStep(h, South);
    OneStep(h, West);
    TwoSteps(h, North, East);
    TwoSteps(h, East, South);
    TwoSteps(h, South, West);
    TwoSteps(h, West, North);
  }

  /** geohash_neighbors: the hashes of the surrounding cells, in the documented order. */
  method AllNeighbors(hash: Option<string>) returns (neighbors: array?<Option<string>>)
    requires hash.Some? ==> ValidHash(hash.value)
    ensures hash == None <==> neighbors == null
    ensures hash.Some? ==>
      && fresh(neighbors) && neighbors.Length == 8
      && forall i | 0 <= i < 8 ::
           HashAt(neighbors[i], hash.value, [0, 1, 1, 1, 0, -1, -1, -1][i], [1, 1, 0, -1, -1, -1, 0, 1][i])
  {
    hide GetNeighbor, HashAt, Then, ValidHash;
    neighbors := null;
    if hash.Some? {
      var h := hash.value;
      AroundExact(h);
      neighbors := new Option<string>[8](_ => None);
      neighbors[0] := GetNeighbor(h, North);
      neighbors[1] := Then(neighbors[0], East);
      neighbors[2] := GetNeighbor(h, East);
      neighbors[3] := Then(neighbors[2], South);
      neighbors[4] := GetNeighbor(h, South);
      neighbors[5] := Then(neighbors[4], West);
      neighbors[6] := GetNeighbor(h, West);
      neighbors[7] := Then(neighbors[6], North);
      assert neighbors[..] == Around(h);
      assert forall i | 0 <= i < 8 :: neighbors[i] == neighbors[..][i];
    }
  }

  /** Away from the edge of the map, the eight are distinct, and differ from the hash itself. */
  lemma EightDistinct(hash: string, rs: seq<Option<string>>, i: nat, j: nat)
    requires ValidHash(hash) && |rs| == 8 && i < j < 8
    requires forall k | 0 <= k < 8 :: HashAt(rs[k], hash, COLUMNS[k], ROWS[k])
    requires var c := HashCell(hash); 0 < c.x < c.w - 1 && 0 < c.y < c.h - 1
    ensures rs[i].Some? && rs[j].Some? && rs[i] != rs[j] && rs[i] != Some(hash) && rs[j] != Some(hash)
  {
    hide HashCell;
    Surrounding(i);
    Surrounding(j);
    assert HashAt(rs[i], hash, COLUMNS[i], ROWS[i]) && HashAt(rs[j], hash, COLUMNS[j], ROWS[j]);
    OffsetsDiffer(i, j);
  }

  lemma Surrounding(i: nat)
    requires i < 8
    ensures -1 <= COLUMNS[i] <= 1 && -1 <= ROWS[i] <= 1 && !(COLUMNS[i] == 0 && ROWS[i] == 0)
  {
  }

  lemma OffsetsDiffer(i: nat, j: nat)
    requires i < j < 8
    ensures COLUMNS[i] != COLUMNS[j] || ROWS[i] != ROWS[j]
  {
  }
}
