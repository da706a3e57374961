/**
 Knuth-Morris-Pratt search, as utstring.h implements it: the strong failure table, the forward and
 backward searches that use it, and the two wrappers over a growable string.

 The table is filled in place (`array<int>`); the needle and the haystack are only read, so they
 are sequences.  Everything backward is stated through `Reverse`, so that both directions share
 one set of border lemmas.
 */
module Utstring {

  // ---------------------------------------------------------------------------------------------
  // Specification: borders, the strong failure table, occurrences
  // ---------------------------------------------------------------------------------------------

  /** The prefix of length `k` of `p` is also a suffix of the prefix of length `len`. */
  ghost predicate Border<T>(p: seq<T>, len: nat, k: nat)
    requires k <= len <= |p|
  {
    p[..k] == p[len - k..len]
  }

  /** `k` is the length of the longest proper border of `p[..len]`, or -1 when `len` is 0. */
  ghost predicate LongestBorder<T>(p: seq<T>, len: nat, k: int)
    requires len <= |p|
  {
    && -1 <= k < len
    && (0 <= k ==> Border(p, len, k))
    && forall b | k < b < len :: !Border(p, len, b)
  }

  /** `k` is a border of `p[..i]` worth falling back to after a mismatch against `p[i]`; past the
      end of the needle there is no `p[i]` and every border will do. */
  ghost predicate Fallback<T>(p: seq<T>, i: nat, k: nat)
    requires k < i <= |p|
  {
    Border(p, i, k) && (i < |p| ==> p[k] != p[i])
  }

  /** `k` is the strong failure value of index `i`: the longest fallback, or -1 if there is none. */
  ghost predicate StrongFailure<T>(p: seq<T>, i: nat, k: int)
    requires i <= |p|
  {
    && -1 <= k < i
    && (0 <= k ==> Fallback(p, i, k))
    && forall b | k < b < i :: !Fallback(p, i, b)
  }

  /** The entries of a strong table, as far as it has been filled from the left. */
  ghost predicate Filled<T>(p: seq<T>, entries: seq<int>)
  {
    |entries| <= |p| + 1 && forall i | 0 <= i < |entries| :: StrongFailure(p, i, entries[i])
  }

  ghost predicate StrongTable<T>(p: seq<T>, table: seq<int>)
  {
    |table| == |p| + 1 && Filled(p, table)
  }

  /** The backward table, filled from the right, is the table of the reversed needle read backward
      with every value mirrored. */
  ghost function Mirror(n: nat, entries: seq<int>): (m: seq<int>)
    ensures |m| == |entries|
    ensures forall k | 0 <= k < |m| :: m[k] == n - 1 - entries[|m| - 1 - k]
  {
    seq(|entries|, k requires 0 <= k < |entries| => n - 1 - entries[|entries| - 1 - k])
  }

  ghost predicate FilledR<T>(p: seq<T>, entries: seq<int>)
  {
    Filled(Reverse(p), Mirror(|p|, entries))
  }

  ghost predicate StrongTableR<T>(p: seq<T>, table: seq<int>)
  {
    |table| == |p| + 1 && FilledR(p, table)
  }

  function Reverse<T>(s: seq<T>): (r: seq<T>)
    ensures |r| == |s|
    ensures forall k | 0 <= k < |s| :: r[k] == s[|s| - 1 - k]
  {
    seq(|s|, k requires 0 <= k < |s| => s[|s| - 1 - k])
  }

  ghost predicate OccursAt<T>(needle: seq<T>, haystack: seq<T>, pos: int)
  {
    0 <= pos <= |haystack| - |needle| && haystack[pos..pos + |needle|] == needle
  }

  /** The characters of the needle stand side by side. */
  lemma OccursAtLaw<T>(needle: seq<T>, haystack: seq<T>, pos: int)
    ensures OccursAt(needle, haystack, pos) <==>
      && 0 <= pos && pos + |needle| <= |haystack|
      && forall k | 0 <= k < |needle| :: haystack[pos + k] == needle[k]
  {
    if 0 <= pos && pos + |needle| <= |haystack| {
      var part := haystack[pos..pos + |needle|];
      assert forall k | 0 <= k < |needle| :: part[k] == haystack[pos + k];
    }
  }

  /** `pos` is the smallest occurrence, or -1 exactly when there is none. */
  ghost predicate FirstOccurrence<T>(needle: seq<T>, haystack: seq<T>, pos: int)
  {
    if pos == -1 then forall q :: !OccursAt(needle, haystack, q)
    else OccursAt(needle, haystack, pos) && forall q | q < pos :: !OccursAt(needle, haystack, q)
  }

  /** `pos` is the largest occurrence, or -1 exactly when there is none. */
  ghost predicate LastOccurrence<T>(needle: seq<T>, haystack: seq<T>, pos: int)
  {
    if pos == -1 then forall q :: !OccursAt(needle, haystack, q)
    else OccursAt(needle, haystack, pos) && forall q | q > pos :: !OccursAt(needle, haystack, q)
  }

  // ---------------------------------------------------------------------------------------------
  // Borders
  // ---------------------------------------------------------------------------------------------

  lemma BorderOfBorder<T>(p: seq<T>, i: nat, j: nat, k: nat)
    requires k <= j <= i <= |p| && Border(p, i, j)
    ensures Border(p, i, k) <==> Border(p, j, k)
  {
    calc {
      p[j - k..j];
      p[..j][j - k..];
      p[i - j..i][j - k..];
      p[i - k..i];
    }
  }

  lemma BorderExtends<T>(p: seq<T>, i: nat, j: nat)
    requires j <= i < |p|
    ensures Border(p, i + 1, j + 1) <==> Border(p, i, j) && p[j] == p[i]
  {
    assert p[..j + 1] == p[..j] + [p[j]];
    assert p[i - j..i + 1] == p[i - j..i] + [p[i]];
  }

  /** The strong failure value of an index is unique, so the table is a function of the needle. */
  lemma StrongFailureUnique<T>(p: seq<T>, i: nat, k: int, k': int)
    requires i <= |p| && StrongFailure(p, i, k) && StrongFailure(p, i, k')
    ensures k == k'
  {
  }

  /** What both inner loops keep: `j` is a border of `p[..i]` and every longer one mismatches `c`. */
  ghost predicate Candidate<T>(p: seq<T>, i: nat, j: int, c: T)
    requires i <= |p|
  {
    && -1 <= j < i
    && (0 <= j ==> Border(p, i, j))
    && forall b | j < b < i && Border(p, i, b) :: p[b] != c
  }

  /** Falling back along a strong entry skips only borders that are bound to mismatch again. */
  lemma FallbackStep<T>(p: seq<T>, i: nat, j: nat, k: int, c: T)
    requires i <= |p| && Candidate(p, i, j, c) && p[j] != c
    requires StrongFailure(p, j, k)
    ensures Candidate(p, i, k, c)
  {
    forall b | k < b < i && Border(p, i, b)
      ensures p[b] != c
    {
      if b < j {
        BorderOfBorder(p, i, j, b);
        assert !Fallback(p, j, b);
      }
    }
    if 0 <= k {
      assert Fallback(p, j, k);
      BorderOfBorder(p, i, j, k);
    }
  }

  /** The invariant of the inner loop: `j` has fallen to a border of `p[..i]`, or to -1. */
  ghost predicate Falling<T>(p: seq<T>, i: nat, j: int)
    requires i < |p|
  {
    if i == 0 then j == -1 else Candidate(p, i, j, p[i])
  }

  /** When falling back stops, the candidate extended by one character is the longest border of the
      extended prefix. */
  lemma AdvanceStep<T>(p: seq<T>, i: nat, j: int)
    requires i < |p| && Falling(p, i, j)
    requires 0 <= j ==> p[j] == p[i]
    ensures -1 <= j < i && LongestBorder(p, i + 1, j + 1)
  {
    if 0 <= j {
      BorderExtends(p, i, j);
    }
    var n := i + 1;
    forall b | j + 1 < b < n
      ensures !Border(p, n, b)
    {
      BorderExtends(p, i, b - 1);
    }
  }

  /** The entry chosen for `i` from its longest border `j`: `j` itself if it is a fallback, else the
      entry of `j`. */
  lemma EntryStep<T>(p: seq<T>, i: nat, j: nat, k: int)
    requires j < i <= |p| && LongestBorder(p, i, j)
    requires if i < |p| && p[i] == p[j] then StrongFailure(p, j, k) else k == j
    ensures StrongFailure(p, i, k)
  {
    if k != j {
      forall b | k < b < i
        ensures !Fallback(p, i, b)
      {
        if b < j {
          BorderOfBorder(p, i, j, b);
          assert !Fallback(p, j, b);
        }
      }
      if 0 <= k {
        assert Fallback(p, j, k);
        BorderOfBorder(p, i, j, k);
      }
    }
  }

  // ---------------------------------------------------------------------------------------------
  // Building the tables
  // ---------------------------------------------------------------------------------------------

  lemma Start<T>(p: seq<T>, i: nat, j: int)
    requires i < |p| && LongestBorder(p, i, j)
    ensures Falling(p, i, j)
  {
  }

  lemma FallbackStepL<T>(p: seq<T>, entries: seq<int>, i: nat, j: nat)
    requires j < i < |p| && Falling(p, i, j) && p[j] != p[i]
    requires |entries| == i + 1 && Filled(p, entries)
    ensures -1 <= entries[j] < j && Falling(p, i, entries[j])
  {
    FallbackStep(p, i, j, entries[j], p[i]);
  }

  lemma FillStep<T>(p: seq<T>, entries: seq<int>, j: nat, value: int)
    requires j < |entries| <= |p| && Filled(p, entries) && LongestBorder(p, |entries|, j)
    requires value == if |entries| < |p| && p[|entries|] == p[j] then entries[j] else j
    ensures Filled(p, entries + [value])
    ensures |entries| == |p| ==> LongestBorder(p, |p|, value)
  {
    EntryStep(p, |entries|, j, value);
  }

  lemma FirstEntry<T>(p: seq<T>)
    ensures Filled(p, [-1]) && LongestBorder(p, 0, -1)
  {
  }

  lemma StrongFromFilled<T>(p: seq<T>, table: seq<int>)
    requires |table| == |p| + 1 && Filled(p, table)
    ensures StrongTable(p, table)
  {
  }

  /** Builds the table from left to right. */
  method BuildTable<T(==)>(needle: seq<T>, table: array<int>)
    requires table.Length == |needle| + 1
    modifies table
    ensures StrongTable(needle, table[..])
    ensures LongestBorder(needle, |needle|, table[|needle|])
  {
    hide *;
    var i, j := 0, -1;
    table[i] := j;
    ghost var entries := [j];
    FirstEntry(needle);
    while i < |needle|
      invariant 0 <= i <= |needle| && -1 <= j && (j < i || j == -1) && LongestBorder(needle, i, j)
      invariant |entries| == i + 1 && Filled(needle, entries)
      invariant forall m | 0 <= m <= i :: table[m] == entries[m]
      invariant i == |needle| ==> LongestBorder(needle, i, table[i])
    {
      Start(needle, i, j);
      while j > -1 && needle[i] != needle[j]
        invariant -1 <= j && (j < i || j == -1) && Falling(needle, i, j)
        invariant forall m | 0 <= m <= i :: table[m] == entries[m]
      {
        FallbackStepL(needle, entries, i, j);
        j := table[j];
      }
      AdvanceStep(needle, i, j);
      i := i + 1;
      j := j + 1;
      if i < |needle| {
        if needle[i] == needle[j] {
          table[i] := table[j];
        } else {
          table[i] := j;
        }
      } else {
        table[i] := j;
      }
      FillStep(needle, entries, j, table[i]);
      entries := entries + [table[i]];
    }
    assert table[..] == entries;
    StrongFromFilled(needle, entries);
  }

  /** What an entry says about the needle: the longest border of the characters in front of index `i` behind
      which there is another character than at `i`, or -1. */
  lemma EntryLaw<T>(p: seq<T>, table: seq<int>, i: nat, b: int)
    requires StrongTable(p, table) && i <= |p|
    ensures -1 <= table[i] < i
    ensures 0 <= table[i] ==> p[..table[i]] == p[i - table[i]..i] && (i < |p| ==> p[table[i]] != p[i])
    ensures table[i] < b < i && p[..b] == p[i - b..i] ==> i < |p| && p[b] == p[i]
  {
    assert StrongFailure(p, i, table[i]);
    if table[i] < b < i {
      assert !Fallback(p, i, b);
    }
  }

  // The same steps in the coordinates of the backward table: index `i` of the needle is index
  // `|p| - 1 - i` of its reverse.

  ghost predicate LongestBorderR<T>(p: seq<T>, i: int, j: int)
    requires -1 <= i < |p|
  {
    LongestBorder(Reverse(p), |p| - 1 - i, |p| - 1 - j)
  }

  ghost predicate CandidateR<T>(p: seq<T>, i: nat, j: int)
    requires i < |p|
  {
    Falling(Reverse(p), |p| - 1 - i, |p| - 1 - j)
  }

  lemma StartR<T>(p: seq<T>, i: nat, j: int)
    requires i < |p| && LongestBorderR(p, i, j)
    ensures i < j <= |p| && CandidateR(p, i, j)
  {
  }

  lemma FallbackStepR<T>(p: seq<T>, entries: seq<int>, i: nat, j: nat)
    requires i < j < |p| && CandidateR(p, i, j) && p[j] != p[i]
    requires |entries| == |p| - i && FilledR(p, entries)
    ensures j < entries[j - i] <= |p| && CandidateR(p, i, entries[j - i])
  {
    hide Falling, Filled;
    FallbackStepL(Reverse(p), Mirror(|p|, entries), |p| - 1 - i, |p| - 1 - j);
  }

  lemma AdvanceStepR<T>(p: seq<T>, i: nat, j: nat)
    requires i < |p| && CandidateR(p, i, j)
    requires j < |p| ==> p[j] == p[i]
    ensures i < j && LongestBorderR(p, i - 1, j - 1)
  {
    hide LongestBorder, Falling;
    AdvanceStep(Reverse(p), |p| - 1 - i, |p| - 1 - j);
  }

  lemma FillStepR<T>(p: seq<T>, entries: seq<int>, i: int, j: nat, value: int)
    requires -1 <= i < j < |p| && LongestBorderR(p, i, j)
    requires |entries| == |p| - 1 - i && FilledR(p, entries)
    requires value == if 0 <= i && p[i] == p[j] then entries[j - i - 1] else j
    ensures FilledR(p, [value] + entries)
  {
    hide LongestBorder, Filled;
    FillStep(Reverse(p), Mirror(|p|, entries), |p| - 1 - j, |p| - 1 - value);
    assert Mirror(|p|, [value] + entries) == Mirror(|p|, entries) + [|p| - 1 - value];
  }

  lemma FirstEntryR<T>(p: seq<T>)
    ensures FilledR(p, [|p|]) && LongestBorderR(p, |p| - 1, |p|)
  {
    assert Mirror(|p|, [|p|]) == [-1];
  }

  lemma StrongFromFilledR<T>(p: seq<T>, table: seq<int>)
    requires |table| == |p| + 1 && FilledR(p, table)
    ensures StrongTableR(p, table)
  {
  }

  /** Builds the table from right to left. */
  method BuildTableR<T(==)>(needle: seq<T>, table: array<int>)
    requires table.Length == |needle| + 1
    modifies table
    ensures StrongTableR(needle, table[..])
  {
    hide *;
    var i := |needle| - 1;
    var j := i + 1;
    table[i + 1] := j;
    ghost var entries := [j];
    FirstEntryR(needle);
    while i >= 0
      invariant -1 <= i < j <= |needle| && LongestBorderR(needle, i, j)
      invariant |entries| == |needle| - i && FilledR(needle, entries)
      invariant forall m | i < m <= |needle| :: table[m] == entries[m - i - 1]
    {
      StartR(needle, i, j);
      while j < |needle| && needle[i] != needle[j]
        invariant i < j <= |needle| && CandidateR(needle, i, j)
        invariant forall m | i < m <= |needle| :: table[m] == entries[m - i - 1]
        decreases |needle| - j
      {
        FallbackStepR(needle, entries, i, j);
        j := table[j + 1];
      }
      AdvanceStepR(needle, i, j);
      i := i - 1;
      j := j - 1;
      if i >= 0 {
        if needle[i] == needle[j] {
          table[i + 1] := table[j + 1];
        } else {
          table[i + 1] := j;
        }
      } else {
        table[i + 1] := j;
      }
      FillStepR(needle, entries, i, j, table[i + 1]);
      entries := [table[i + 1]] + entries;
    }
    assert table[..] == entries;
    StrongFromFilledR(needle, entries);
  }

  lemma BorderReversed<T>(p: seq<T>, i: int, b: int)
    requires -1 <= i < b < |p|
    ensures Border(Reverse(p), |p| - 1 - i, |p| - 1 - b) <==> p[b + 1..] == p[i + 1..i + |p| - b]
  {
    var r, k := Reverse(p), |p| - 1 - b;
    var x, y := r[..k], r[b - i..b - i + k];
    var u, v := p[b + 1..], p[i + 1..i + |p| - b];
    assert forall m | 0 <= m < k :: x[m] == u[k - 1 - m] && y[m] == v[k - 1 - m];
    assert forall m | 0 <= m < k :: u[m] == x[k - 1 - m] && v[m] == y[k - 1 - m];
  }

  lemma FallbackReversed<T>(p: seq<T>, i: int, b: int)
    requires -1 <= i < b < |p|
    ensures Fallback(Reverse(p), |p| - 1 - i, |p| - 1 - b)
       <==> p[b + 1..] == p[i + 1..i + |p| - b] && (0 <= i ==> p[b] != p[i])
  {
    hide Border;
    BorderReversed(p, i, b);
  }

  /** The same from the right: the longest border of the characters behind index `i` in front of which there
      is another character than at `i`, or the length of the needle.  The entry is at `i + 1`. */
  lemma EntryLawR<T>(p: seq<T>, table: seq<int>, i: int, b: int)
    requires StrongTableR(p, table) && -1 <= i < |p|
    ensures i < table[i + 1] <= |p|
    ensures var k := table[i + 1];
            k < |p| ==> p[k + 1..] == p[i + 1..i + |p| - k] && (0 <= i ==> p[k] != p[i])
    ensures i < b < table[i + 1] && p[b + 1..] == p[i + 1..i + |p| - b] ==> 0 <= i && p[b] == p[i]
  {
    hide *;
    EntryReversed(p, table, i, b);
    if table[i + 1] < |p| {
      FallbackReversed(p, i, table[i + 1]);
    }
    if i < b < table[i + 1] {
      FallbackReversed(p, i, b);
    }
  }

  lemma EntryReversed<T>(p: seq<T>, table: seq<int>, i: int, b: int)
    requires StrongTableR(p, table) && -1 <= i < |p|
    ensures |table| == |p| + 1 && i < table[i + 1] <= |p|
    ensures table[i + 1] < |p| ==> Fallback(Reverse(p), |p| - 1 - i, |p| - 1 - table[i + 1])
    ensures i < b < table[i + 1] ==> !Fallback(Reverse(p), |p| - 1 - i, |p| - 1 - b)
  {
    hide Fallback;
    assert StrongFailure(Reverse(p), |p| - 1 - i, Mirror(|p|, table)[|p| - 1 - i]);
  }

  // ---------------------------------------------------------------------------------------------
  // Searching
  // ---------------------------------------------------------------------------------------------

  /** What both searches keep at the top of the outer loop: the `i` characters before `j` match the
      needle, and no occurrence starts before them. */
  ghost predicate Matching<T>(needle: seq<T>, haystack: seq<T>, i: int, j: int)
  {
    && 0 <= i <= j <= |haystack| && i <= |needle|
    && haystack[j - i..j] == needle[..i]
    && forall q | q < j - i :: !OccursAt(needle, haystack, q)
  }

  /** As `Matching`, inside the inner loop: the shifts already ruled out end at `j - i`, and `i` may
      have fallen to -1. */
  ghost predicate Shifting<T>(needle: seq<T>, haystack: seq<T>, i: int, j: int)
  {
    && -1 <= i <= j < |haystack| && i < |needle|
    && (0 <= i ==> haystack[j - i..j] == needle[..i])
    && forall q | q < j - i :: !OccursAt(needle, haystack, q)
  }

  /** An occurrence that starts inside the matched characters is a fallback of the mismatch. */
  lemma OccurrenceFallsBack<T>(needle: seq<T>, haystack: seq<T>, i: nat, j: nat, q: int)
    requires Shifting(needle, haystack, i, j) && needle[i] != haystack[j]
    requires j - i <= q <= j && OccursAt(needle, haystack, q)
    ensures j - i < q && Fallback(needle, i, j - q)
  {
    var b, w := j - q, haystack[q..q + |needle|];
    assert w[b] == haystack[j] && needle[b] == haystack[j];
    assert haystack[q..j] == w[..b];
    assert haystack[j - i..j][i - b..] == haystack[q..j];
    assert needle[..i][i - b..] == needle[i - b..i];
    assert Border(needle, i, b);
  }

  lemma ShiftStep<T>(needle: seq<T>, haystack: seq<T>, i: nat, j: nat, k: int)
    requires Shifting(needle, haystack, i, j) && needle[i] != haystack[j]
    requires StrongFailure(needle, i, k)
    ensures Shifting(needle, haystack, k, j)
  {
    forall q | j - i <= q < j - k
      ensures !OccursAt(needle, haystack, q)
    {
      if OccursAt(needle, haystack, q) {
        OccurrenceFallsBack(needle, haystack, i, j, q);
      }
    }
    if 0 <= k {
      assert Fallback(needle, i, k);
      assert haystack[j - i..j][i - k..] == haystack[j - k..j];
      assert needle[..i][i - k..] == needle[i - k..i];
    }
  }

  lemma MatchStep<T>(needle: seq<T>, haystack: seq<T>, i: int, j: nat)
    requires Shifting(needle, haystack, i, j)
    requires 0 <= i ==> needle[i] == haystack[j]
    ensures Matching(needle, haystack, i + 1, j + 1)
  {
    if 0 <= i {
      assert haystack[j - i..j + 1] == haystack[j - i..j] + [haystack[j]];
      assert needle[..i + 1] == needle[..i] + [needle[i]];
    }
  }

  // The number of comparisons of two characters that a search makes.

  /** The entry of the table that is used on a mismatch at `i`. */
  ghost function Entry<T>(needle: seq<T>, table: seq<int>, i: nat): (k: int)
    requires StrongTable(needle, table) && i < |needle|
    ensures k == table[i] && -1 <= k < i
  {
    assert StrongFailure(needle, i, table[i]);
    table[i]
  }

  /** The needle position at which the inner loop stops for the character `c`. */
  ghost function ShiftTo<T>(needle: seq<T>, table: seq<int>, c: T, i: int): (i': int)
    requires StrongTable(needle, table) && -1 <= i < |needle|
    ensures -1 <= i' <= i
    decreases i + 1
  {
    if i == -1 || needle[i] == c then i else ShiftTo(needle, table, c, Entry(needle, table, i))
  }

  /** The comparisons of the inner loop with the character `c`. */
  ghost function ShiftCount<T>(needle: seq<T>, table: seq<int>, c: T, i: int): (n: nat)
    requires StrongTable(needle, table) && -1 <= i < |needle|
    decreases i + 1
  {
    if i == -1 then 0
    else if needle[i] == c then 1
    else 1 + ShiftCount(needle, table, c, Entry(needle, table, i))
  }

  /** The comparisons of the search from its state at the top of the outer loop. */
  ghost function SearchCount<T>(needle: seq<T>, table: seq<int>, haystack: seq<T>, i: nat, j: nat): (n: nat)
    requires StrongTable(needle, table) && i < |needle| && j <= |haystack|
    decreases |haystack| - j, 0
  {
    if j == |haystack| || |haystack| - j + i < |needle| then 0 else InnerCount(needle, table, haystack, i, j)
  }

  /** The comparisons from the state inside the inner loop. */
  ghost function InnerCount<T>(needle: seq<T>, table: seq<int>, haystack: seq<T>, i: int, j: nat): (n: nat)
    requires StrongTable(needle, table) && -1 <= i < |needle| && j < |haystack|
    decreases |haystack| - j - 1, 1
  {
    var i' := ShiftTo(needle, table, haystack[j], i);
    ShiftCount(needle, table, haystack[j], i)
    + if i' + 1 == |needle| then 0 else SearchCount(needle, table, haystack, i' + 1, j + 1)
  }

  lemma ShiftUnfold<T>(needle: seq<T>, table: seq<int>, c: T, i: int)
    requires StrongTable(needle, table) && -1 <= i < |needle|
    ensures if i == -1 || needle[i] == c then
              ShiftTo(needle, table, c, i) == i && ShiftCount(needle, table, c, i) == if i == -1 then 0 else 1
            else
              && -1 <= table[i] < i && ShiftTo(needle, table, c, i) == ShiftTo(needle, table, c, table[i])
              && ShiftCount(needle, table, c, i) == 1 + ShiftCount(needle, table, c, table[i])
  {
    if 0 <= i {
      var k := Entry(needle, table, i);
    }
  }

  lemma InnerStep<T>(needle: seq<T>, table: seq<int>, haystack: seq<T>, i: int, j: nat)
    requires StrongTable(needle, table) && -1 <= i < |needle| && j < |haystack|
    ensures if i == -1 || needle[i] == haystack[j] then
              InnerCount(needle, table, haystack, i, j)
              == (if i == -1 then 0 else 1)
                 + if i + 1 == |needle| then 0 else SearchCount(needle, table, haystack, i + 1, j + 1)
            else
              -1 <= table[i] < i
              && InnerCount(needle, table, haystack, i, j) == 1 + InnerCount(needle, table, haystack, table[i], j)
  {
    hide StrongTable, SearchCount, ShiftTo, ShiftCount;
    ShiftUnfold(needle, table, haystack[j], i);
  }

  /** Each shift makes the match shorter by at least one character, and each round longer by one. */
  lemma {:induction false} ShiftBound<T>(needle: seq<T>, table: seq<int>, c: T, i: int)
    requires StrongTable(needle, table) && -1 <= i < |needle|
    ensures ShiftCount(needle, table, c, i) + ShiftTo(needle, table, c, i) <= i + 1
    decreases i + 1
  {
    if 0 <= i && needle[i] != c {
      ShiftBound(needle, table, c, Entry(needle, table, i));
    }
  }

  /** The search is linear: twice as many comparisons as characters to go, and as many as are matched. */
  lemma {:induction false} SearchBound<T>(needle: seq<T>, table: seq<int>, haystack: seq<T>, i: nat, j: nat)
    requires StrongTable(needle, table) && i < |needle| && j <= |haystack|
    ensures SearchCount(needle, table, haystack, i, j) <= 2 * (|haystack| - j) + i
    decreases |haystack| - j
  {
    if j < |haystack| {
      hide StrongTable;
      var i' := ShiftTo(needle, table, haystack[j], i);
      ShiftBound(needle, table, haystack[j], i);
      if i' + 1 < |needle| {
        SearchBound(needle, table, haystack, i' + 1, j + 1);
      }
    }
  }

  /** Forward search.  `comparisons` counts the comparisons of two characters. */
  method FindForward<T(==)>(haystack: seq<T>, needle: seq<T>, table: array<int>)
      returns (pos: int, ghost comparisons: nat)
    requires |needle| > 0 && StrongTable(needle, table[..])
    ensures FirstOccurrence(needle, haystack, pos)
    ensures comparisons == SearchCount(needle, table[..], haystack, 0, 0)
    ensures comparisons <= 2 * |haystack|
  {
    hide SearchCount, InnerCount;
    SearchBound(needle, table[..], haystack, 0, 0);
    ghost var total := SearchCount(needle, table[..], haystack, 0, 0);
    pos, comparisons := -1, 0;
    var i, j := 0, 0;
    while j < |haystack| && |haystack| - j + i >= |needle|
      invariant Matching(needle, haystack, i, j) && i < |needle| && pos == -1
      invariant comparisons + SearchCount(needle, table[..], haystack, i, j) == total
      decreases |haystack| - j
    {
      SearchGoesOn(needle, table[..], haystack, i, j);
      while i > -1 && needle[i] != haystack[j]
        invariant Shifting(needle, haystack, i, j)
        invariant comparisons + InnerCount(needle, table[..], haystack, i, j) == total
        decreases i
      {
        comparisons := comparisons + 1;
        InnerStep(needle, table[..], haystack, i, j);
        assert StrongFailure(needle, i, table[..][i]);
        ShiftStep(needle, haystack, i, j, table[i]);
        i := table[i];
      }
      InnerStep(needle, table[..], haystack, i, j);
      if i > -1 {
        comparisons := comparisons + 1;
      }
      MatchStep(needle, haystack, i, j);
      i := i + 1;
      j := j + 1;
      if i >= |needle| {
        pos := j - i;
        assert needle[..i] == needle;
        return;
      }
    }
    SearchGoesOn(needle, table[..], haystack, i, j);
  }

  /** The guard of the outer loop */
  lemma SearchGoesOn<T>(needle: seq<T>, table: seq<int>, haystack: seq<T>, i: nat, j: nat)
    requires StrongTable(needle, table) && i < |needle| && j <= |haystack|
    ensures SearchCount(needle, table, haystack, i, j)
         == if j < |haystack| && |haystack| - j + i >= |needle| then InnerCount(needle, table, haystack, i, j) else 0
  {
  }

  lemma OccursReversed<T>(needle: seq<T>, haystack: seq<T>, pos: int)
    ensures OccursAt(needle, haystack, pos)
       <==> OccursAt(Reverse(needle), Reverse(haystack), |haystack| - |needle| - pos)
  {
    var n, h := Reverse(needle), Reverse(haystack);
    var q := |haystack| - |needle| - pos;
    if 0 <= pos <= |haystack| - |needle| {
      if OccursAt(needle, haystack, pos) {
        forall k | 0 <= k < |n| ensures h[q..q + |n|][k] == n[k] {
          assert haystack[pos..pos + |needle|][|n| - 1 - k] == needle[|n| - 1 - k];
        }
        assert h[q..q + |n|] == n;
      }
      if OccursAt(n, h, q) {
        forall k | 0 <= k < |n| ensures haystack[pos..pos + |n|][k] == needle[k] {
          assert h[q..q + |n|][|n| - 1 - k] == n[|n| - 1 - k];
        }
        assert haystack[pos..pos + |n|] == needle;
      }
    }
  }

  /** Searching backward is searching forward in the reversed strings. */
  lemma LastIsFirstReversed<T>(needle: seq<T>, haystack: seq<T>, pos: int)
    requires pos == -1 || 0 <= pos <= |haystack| - |needle|
    ensures LastOccurrence(needle, haystack, pos)
       <==> FirstOccurrence(Reverse(needle), Reverse(haystack),
                            if pos == -1 then -1 else |haystack| - |needle| - pos)
  {
    var n, h := Reverse(needle), Reverse(haystack);
    var d := |haystack| - |needle|;
    forall q {
      OccursReversed(needle, haystack, q);
    }
    forall q
      ensures OccursAt(n, h, q) <==> OccursAt(needle, haystack, d - q)
    {
      OccursReversed(needle, haystack, d - q);
    }
    if pos != -1 && FirstOccurrence(n, h, d - pos) {
      forall q | q > pos ensures !OccursAt(needle, haystack, q) {
        assert !OccursAt(n, h, d - q);
      }
    }
    if pos == -1 && FirstOccurrence(n, h, -1) {
      forall q ensures !OccursAt(needle, haystack, q) {
        assert !OccursAt(n, h, d - q);
      }
    }
  }

  ghost predicate MatchingR<T>(needle: seq<T>, haystack: seq<T>, i: int, j: int)
  {
    Matching(Reverse(needle), Reverse(haystack), |needle| - 1 - i, |haystack| - 1 - j)
  }

  ghost predicate ShiftingR<T>(needle: seq<T>, haystack: seq<T>, i: int, j: int)
  {
    Shifting(Reverse(needle), Reverse(haystack), |needle| - 1 - i, |haystack| - 1 - j)
  }

  lemma ShiftStepR<T>(needle: seq<T>, haystack: seq<T>, table: seq<int>, i: nat, j: nat)
    requires i < |needle| && j < |haystack| && ShiftingR(needle, haystack, i, j)
    requires needle[i] != haystack[j] && StrongTableR(needle, table)
    ensures i < table[i + 1] <= |needle| && ShiftingR(needle, haystack, table[i + 1], j)
  {
    assert Mirror(|needle|, table)[|needle| - 1 - i] == |needle| - 1 - table[i + 1];
    ShiftStep(Reverse(needle), Reverse(haystack), |needle| - 1 - i, |haystack| - 1 - j,
              |needle| - 1 - table[i + 1]);
  }

  lemma MatchStepR<T>(needle: seq<T>, haystack: seq<T>, i: nat, j: nat)
    requires i <= |needle| && j < |haystack| && ShiftingR(needle, haystack, i, j)
    requires i < |needle| ==> needle[i] == haystack[j]
    ensures MatchingR(needle, haystack, i - 1, j - 1)
  {
    MatchStep(Reverse(needle), Reverse(haystack), |needle| - 1 - i, |haystack| - 1 - j);
  }

  /** The occurrence on which the backward search stops. */
  lemma FoundR<T>(needle: seq<T>, haystack: seq<T>, j: int)
    requires MatchingR(needle, haystack, -1, j)
    ensures LastOccurrence(needle, haystack, j + 1)
  {
    var r, t := Reverse(needle), Reverse(haystack);
    assert r[..|needle|] == r;
    LastIsFirstReversed(needle, haystack, j + 1);
  }

  /** When the text left of `j` is shorter than the needle still needs, nothing occurs. */
  lemma ExhaustedR<T>(needle: seq<T>, haystack: seq<T>, i: nat, j: int)
    requires i < |needle| && MatchingR(needle, haystack, i, j) && (j < 0 || j < i)
    ensures LastOccurrence(needle, haystack, -1)
  {
    LastIsFirstReversed(needle, haystack, -1);
  }

  /** The comparisons of the backward search are those of the forward search in the reversed strings. */
  ghost function SearchCountR<T>(needle: seq<T>, table: seq<int>, haystack: seq<T>, i: nat, j: int): nat
    requires StrongTableR(needle, table) && i < |needle| && -1 <= j < |haystack|
  {
    SearchCount(Reverse(needle), Mirror(|needle|, table), Reverse(haystack), |needle| - 1 - i, |haystack| - 1 - j)
  }

  ghost function InnerCountR<T>(needle: seq<T>, table: seq<int>, haystack: seq<T>, i: nat, j: nat): nat
    requires StrongTableR(needle, table) && i <= |needle| && j < |haystack|
  {
    InnerCount(Reverse(needle), Mirror(|needle|, table), Reverse(haystack), |needle| - 1 - i, |haystack| - 1 - j)
  }

  lemma InnerStepR<T>(needle: seq<T>, table: seq<int>, haystack: seq<T>, i: nat, j: nat)
    requires StrongTableR(needle, table) && i <= |needle| && j < |haystack|
    ensures if i == |needle| || needle[i] == haystack[j] then
              InnerCountR(needle, table, haystack, i, j)
              == (if i == |needle| then 0 else 1) + if i == 0 then 0 else SearchCountR(needle, table, haystack, i - 1, j - 1)
            else
              i < table[i + 1] <= |needle|
              && InnerCountR(needle, table, haystack, i, j) == 1 + InnerCountR(needle, table, haystack, table[i + 1], j)
  {
    var n := |needle|;
    assert i < n ==> Mirror(n, table)[n - 1 - i] == n - 1 - table[i + 1];
    InnerStep(Reverse(needle), Mirror(n, table), Reverse(haystack), n - 1 - i, |haystack| - 1 - j);
    hide SearchCount, InnerCount, StrongTable;
  }

  lemma SearchGoesOnR<T>(needle: seq<T>, table: seq<int>, haystack: seq<T>, i: nat, j: int)
    requires StrongTableR(needle, table) && i < |needle| && -1 <= j < |haystack|
    ensures SearchCountR(needle, table, haystack, i, j) == if j >= 0 && j >= i then InnerCountR(needle, table, haystack, i, j) else 0
  {
    SearchGoesOn(Reverse(needle), Mirror(|needle|, table), Reverse(haystack), |needle| - 1 - i, |haystack| - 1 - j);
  }

  lemma SearchStartsR<T>(needle: seq<T>, table: seq<int>, haystack: seq<T>)
    requires |needle| > 0 && StrongTableR(needle, table)
    ensures |table| == |needle| + 1 && MatchingR(needle, haystack, |needle| - 1, |haystack| - 1)
  {
  }

  lemma InsideR<T>(needle: seq<T>, haystack: seq<T>, i: nat, j: nat)
    requires i < |needle| && i <= j < |haystack| && MatchingR(needle, haystack, i, j)
    ensures ShiftingR(needle, haystack, i, j)
  {
  }

  lemma SearchBoundR<T>(needle: seq<T>, table: seq<int>, haystack: seq<T>)
    requires |needle| > 0 && StrongTableR(needle, table)
    ensures SearchCountR(needle, table, haystack, |needle| - 1, |haystack| - 1) <= 2 * |haystack|
  {
    SearchBound(Reverse(needle), Mirror(|needle|, table), Reverse(haystack), 0, 0);
  }

  /** Backward search */
  method FindBackward<T(==)>(haystack: seq<T>, needle: seq<T>, table: array<int>)
      returns (pos: int, ghost comparisons: nat)
    requires |needle| > 0 && StrongTableR(needle, table[..])
    ensures LastOccurrence(needle, haystack, pos)
    ensures comparisons == SearchCountR(needle, table[..], haystack, |needle| - 1, |haystack| - 1)
    ensures comparisons <= 2 * |haystack|
  {
    hide *;
    SearchStartsR(needle, table[..], haystack);
    SearchBoundR(needle, table[..], haystack);
    ghost var total := SearchCountR(needle, table[..], haystack, |needle| - 1, |haystack| - 1);
    pos, comparisons := -1, 0;
    var j := |haystack| - 1;
    var i := |needle| - 1;
    while j >= 0 && j >= i
      invariant 0 <= i < |needle| && -1 <= j < |haystack|
      invariant MatchingR(needle, haystack, i, j)
      invariant comparisons + SearchCountR(needle, table[..], haystack, i, j) == total
      decreases j
    {
      SearchGoesOnR(needle, table[..], haystack, i, j);
      InsideR(needle, haystack, i, j);
      while i < |needle| && needle[i] != haystack[j]
        invariant 0 <= i <= |needle| && ShiftingR(needle, haystack, i, j)
        invariant comparisons + InnerCountR(needle, table[..], haystack, i, j) == total
        decreases |needle| - i
      {
        comparisons := comparisons + 1;
        InnerStepR(needle, table[..], haystack, i, j);
        ShiftStepR(needle, haystack, table[..], i, j);
        i := table[i + 1];
      }
      InnerStepR(needle, table[..], haystack, i, j);
      if i < |needle| {
        comparisons := comparisons + 1;
      }
      MatchStepR(needle, haystack, i, j);
      i := i - 1;
      j := j - 1;
      if i < 0 {
        pos := j + 1;
        FoundR(needle, haystack, j);
        return;
      }
    }
    SearchGoesOnR(needle, table[..], haystack, i, j);
    ExhaustedR(needle, haystack, i, j);
  }

  // ---------------------------------------------------------------------------------------------
  // The string object and its one-time searches
  // ---------------------------------------------------------------------------------------------

  /** A string body `d` of which the first `i` characters are in use. */
  class UtString {
    var d: array<char>
    var i: nat

    ghost predicate Valid()
      reads this
    {
      i < d.Length
    }

    ghost function Contents(): (s: string)
      requires Valid()
      reads this, d
      ensures |s| == i
    {
      d[..i]
    }

    /** The first occurrence at or after the start, which counts from the end when it is negative.  A start
        in front of the string would read in front of the buffer, unless the needle is empty or too long to
        be searched for. */
    method Find(start: int, needle: string) returns (pos: int)
      requires Valid()
      requires var st := if start < 0 then |Contents()| + start else start;
               0 <= st || needle == [] || |Contents()| - st < |needle|
      ensures needle == [] ==> pos == -1
      ensures var st := if start < 0 then |Contents()| + start else start;
              needle != [] ==>
                if pos == -1 then forall q | st <= q :: !OccursAt(needle, Contents(), q)
                else st <= pos && OccursAt(needle, Contents(), pos) && forall q | st <= q < pos :: !OccursAt(needle, Contents(), q)
    {
      pos := -1;
      var st := if start < 0 then i + start else start;
      var haystackLen := i - st;
      if haystackLen >= |needle| && |needle| > 0 {
        var table := new int[|needle| + 1];
        BuildTable(needle, table);
        var body := d[st..i];
        ghost var comparisons;
        pos, comparisons := FindForward(body, needle, table);
        assert body == Contents()[st..];
        OccursInSuffix(needle, Contents(), st);
        if pos >= 0 {
          pos := pos + st;
        }
      }
    }

    /** The last occurrence that ends at or before the start, which counts from the end when it is negative:
        in the string, or in the whole body for a start behind the string.  A start behind the body would
        read beyond it, unless the needle is empty or too long to be searched for. */
    method FindR(start: int, needle: string) returns (pos: int)
      requires Valid()
      requires var st := if start < 0 then |Contents()| + start else start;
               st < d.Length || needle == [] || st + 1 < |needle|
      ensures needle == [] ==> pos == -1
      ensures var st := if start < 0 then |Contents()| + start else start;
              var body := if st < |Contents()| then Contents() else d[..];
              needle != [] ==>
                if pos == -1 then forall q | q + |needle| <= st + 1 :: !OccursAt(needle, body, q)
                else
                  && pos + |needle| <= st + 1 && OccursAt(needle, body, pos)
                  && forall q | pos < q && q + |needle| <= st + 1 :: !OccursAt(needle, body, q)
    {
      pos := -1;
      var st := if start < 0 then i + start else start;
      var haystackLen := st + 1;
      if haystackLen >= |needle| && |needle| > 0 {
        var table := new int[|needle| + 1];
        BuildTableR(needle, table);
        ghost var comparisons;
        pos, comparisons := FindBackward(d[..haystackLen], needle, table);
        ghost var body := if st < i then Contents() else d[..];
        assert d[..haystackLen] == body[..haystackLen];
        OccursInPrefix(needle, body, haystackLen);
      }
    }
  }

  lemma OccursInSuffix<T>(needle: seq<T>, haystack: seq<T>, from: nat)
    requires from <= |haystack|
    ensures forall q :: from <= q ==>
              (OccursAt(needle, haystack, q) <==> OccursAt(needle, haystack[from..], q - from))
  {
    forall q | from <= q
      ensures OccursAt(needle, haystack, q) <==> OccursAt(needle, haystack[from..], q - from)
    {
      if q <= |haystack| - |needle| {
        assert haystack[from..][q - from..q - from + |needle|] == haystack[q..q + |needle|];
      }
    }
  }

  lemma OccursInPrefix<T>(needle: seq<T>, haystack: seq<T>, to: nat)
    requires to <= |haystack|
    ensures forall q :: q + |needle| <= to ==>
              (OccursAt(needle, haystack, q) <==> OccursAt(needle, haystack[..to], q))
  {
    forall q | q + |needle| <= to
      ensures OccursAt(needle, haystack, q) <==> OccursAt(needle, haystack[..to], q)
    {
      if 0 <= q {
        assert haystack[..to][q..q + |needle|] == haystack[q..q + |needle|];
      }
    }
  }
}
