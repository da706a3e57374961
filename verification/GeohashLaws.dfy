/**
 The geohash system said once more with literals: the alphabet, the cell that a hash stands for, the box
 of a cell on the map, and the cells around it.  These laws determine the functions that the other theorems
 about geohashes are stated with.
 */
module GeohashLaws {
  import opened Options
  import opened GeohashGrid
  import opened GeohashNeighbors
  import Geohash

  // ---------------------------------------------------------------------------------------------
  // The alphabet
  // ---------------------------------------------------------------------------------------------

  /** The characters of a hash are the digits and the lower-case letters from 'b' on but 'i', 'l' and 'o', in
      ascending order, and each stands for its position; any other character acts as 31. */
  lemma AlphabetLaw(c: char)
    ensures c in CHAR_MAP <==> '0' <= c <= '9' || ('b' <= c <= 'z' && c != 'i' && c != 'l' && c != 'o')
    ensures |CHAR_MAP| == 32 && (forall i, j | 0 <= i < j < 32 :: CHAR_MAP[i] < CHAR_MAP[j])
    ensures forall d | 0 <= d < 32 :: DigitOf(CHAR_MAP[d]) == d
    ensures c !in CHAR_MAP ==> DigitOf(c) == 31
  {
    hide DigitOf;
    Letters(c);
    forall i, j | 0 <= i < j < 32 ensures CHAR_MAP[i] < CHAR_MAP[j] {
      Ascends(i, j);
    }
    forall d | 0 <= d < 32 ensures DigitOf(CHAR_MAP[d]) == d {
      CharMapInjective(d);
    }
    OtherDigit(c);
  }

  lemma Letters(c: char)
    ensures c in CHAR_MAP <==> '0' <= c <= '9' || ('b' <= c <= 'z' && c != 'i' && c != 'l' && c != 'o')
    ensures |CHAR_MAP| == 32
  {
    hide *;
    LetterAt(0);
    if c in CHAR_MAP {
      var i :| 0 <= i < |CHAR_MAP| && CHAR_MAP[i] == c;
      LetterAt(i);
    } else if '0' <= c <= '9' {
      LetterAt(c as int - '0' as int);
    } else if 'b' <= c <= 'h' {
      LetterAt(10 + c as int - 'b' as int);
    } else if 'j' <= c <= 'k' {
      LetterAt(17 + c as int - 'j' as int);
    } else if 'm' <= c <= 'n' {
      LetterAt(19 + c as int - 'm' as int);
    } else if 'p' <= c <= 'z' {
      LetterAt(21 + c as int - 'p' as int);
    }
  }

  lemma LetterAt(i: nat)
    requires i < 32
    ensures |CHAR_MAP| == 32
    ensures CHAR_MAP[i] as int
         == if i < 10 then '0' as int + i
            else if i < 17 then 'b' as int + (i - 10)
            else if i < 19 then 'j' as int + (i - 17)
            else if i < 21 then 'm' as int + (i - 19)
            else 'p' as int + (i - 21)
  {
  }

  lemma OtherDigit(c: char)
    ensures c !in CHAR_MAP ==> DigitOf(c) == 31
  {
  }

  // ---------------------------------------------------------------------------------------------
  // Cells
  // ---------------------------------------------------------------------------------------------

  /** One more character gives five bits, which alternate between the coordinates.  At even positions the
      first, third and fifth are about the longitude, at odd positions the second and fourth. */
  lemma CellLaw(h: string, c: char)
    ensures HashCell("") == Cell(0, 1, 0, 1)
    ensures var q, d := HashCell(h), DigitOf(c);
      HashCell(h + [c])
      == if |h| % 2 == 0 then
           Cell(8 * q.x + 4 * (d / 16 % 2) + 2 * (d / 4 % 2) + d % 2, 8 * q.w,
                4 * q.y + 2 * (d / 8 % 2) + d / 2 % 2, 4 * q.h)
         else
           Cell(4 * q.x + 2 * (d / 8 % 2) + d / 2 % 2, 4 * q.w,
                8 * q.y + 4 * (d / 16 % 2) + 2 * (d / 4 % 2) + d % 2, 8 * q.h)
  {
    hide DigitBits, DigitOf, CellOf, Refined;
    var d, g := DigitOf(c), h + [c];
    assert g[..|g| - 1] == h;
    FiveTimes(|h|);
    DigitBitsAre(d);
    FiveBits(HashBits(h), d / 16 % 2, d / 8 % 2, d / 4 % 2, d / 2 % 2, d % 2);
    NoBits();
    RefinedIs(HashCell(h), |h| % 2 == 0, 4 * (d / 16 % 2) + 2 * (d / 4 % 2) + d % 2, 2 * (d / 8 % 2) + d / 2 % 2);
  }

  lemma NoBits()
    ensures CellOf([]) == Cell(0, 1, 0, 1)
  {
  }

  lemma DigitBitsAre(d: nat)
    ensures DigitBits(d) == [d / 16 % 2 == 1, d / 8 % 2 == 1, d / 4 % 2 == 1, d / 2 % 2 == 1, d % 2 == 1]
  {
  }

  lemma RefinedIs(c: Cell, odd: bool, m: nat, n: nat)
    ensures Refined(c, odd, m, n)
         == if odd then Cell(8 * c.x + m, 8 * c.w, 4 * c.y + n, 4 * c.h) else Cell(4 * c.x + n, 4 * c.w, 8 * c.y + m, 8 * c.h)
  {
  }

  // ---------------------------------------------------------------------------------------------
  // The map
  // ---------------------------------------------------------------------------------------------

  /** The columns are counted from 180 degrees west, the rows from 90 degrees south. */
  lemma BoxLaw(c: Cell)
    requires c.x < c.w && c.y < c.h
    ensures Geohash.West(c) == -180.0 + 360.0 * c.x as real / c.w as real
    ensures Geohash.East(c) == -180.0 + 360.0 * (c.x + 1) as real / c.w as real
    ensures Geohash.South(c) == -90.0 + 180.0 * c.y as real / c.h as real
    ensures Geohash.North(c) == -90.0 + 180.0 * (c.y + 1) as real / c.h as real
  {
  }

  /** A point belongs to a cell when it is in its box, but not on the south or west edge, unless that is the
      edge of the map. */
  lemma ContainsLaw(c: Cell, lat: real, lng: real)
    requires c.x < c.w && c.y < c.h
    ensures Geohash.Contains(c, lat, lng) <==>
      && Geohash.West(c) <= lng <= Geohash.East(c) && Geohash.South(c) <= lat <= Geohash.North(c)
      && (lng == Geohash.West(c) ==> lng == -180.0) && (lat == Geohash.South(c) ==> lat == -90.0)
  {
    hide Edge;
    AtEdge(-180.0, 360.0, c.x, c.w);
    AtEdge(-90.0, 180.0, c.y, c.h);
  }

  lemma AtEdge(min: real, span: real, x: nat, w: nat)
    requires x < w && span > 0.0
    ensures Edge(min, span, x, w) == min <==> x == 0
    ensures Edge(min, span, x, w) < Edge(min, span, x + 1, w)
  {
    EdgeMonotone(min, span, 0, x, w);
    EdgeMonotone(min, span, x, x + 1, w);
  }

  // ---------------------------------------------------------------------------------------------
  // Neighbours
  // ---------------------------------------------------------------------------------------------

  /** The neighbour is one row or column away, and there is none exactly on the edge of the map. */
  lemma NeighborLaw(hash: string, d: Direction)
    requires ValidHash(hash)
    ensures var q, r := HashCell(hash), GetNeighbor(hash, d);
      && (r == None <==> match d
                         case North => q.y == q.h - 1
                         case East => q.x == q.w - 1
                         case South => q.y == 0
                         case West => q.x == 0)
      && (r != None ==> match d
                        case North => HashCell(r.value) == Cell(q.x, q.w, q.y + 1, q.h)
                        case East => HashCell(r.value) == Cell(q.x + 1, q.w, q.y, q.h)
                        case South => HashCell(r.value) == Cell(q.x, q.w, q.y - 1, q.h)
                        case West => HashCell(r.value) == Cell(q.x - 1, q.w, q.y, q.h))
  {
    hide GetNeighbor, HashCell;
    NeighborExact(hash, d);
  }

  /** The hash at a distance of some columns and rows */
  lemma DistanceLaw(r: Option<string>, hash: string, dx: int, dy: int)
    ensures var q := HashCell(hash);
      HashAt(r, hash, dx, dy) <==>
        if r == None then !(0 <= q.x + dx < q.w && 0 <= q.y + dy < q.h)
        else
          && |r.value| == |hash| && (forall i | 0 <= i < |r.value| :: r.value[i] in CHAR_MAP)
          && var c := HashCell(r.value);
             c.x == q.x + dx && c.y == q.y + dy && c.w == q.w && c.h == q.h
  {
    hide HashCell;
  }
}
