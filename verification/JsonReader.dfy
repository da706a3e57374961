/**
 The lexical methods of json.c, loops over a cursor: white space, literals, numbers and strings, the
 last both in the mode that returns the string and in the mode that only validates.  They are proved
 against the functions of `JsonParser`; the methods that make nodes are in `JsonBuilder`.
 */
module JsonReader {
  import opened Options
  import opened Chars
  import opened Utf8
  import opened JsonGrammar
  import opened JsonBuffer
  import P = JsonParser

  type Parsed<+T> = P.Parsed<T>

  // ---------------------------------------------------------------------------------------------
  // Lexical methods
  // ---------------------------------------------------------------------------------------------

  /** skip_space */
  method SkipSpace(t: Text, i: nat) returns (k: nat)
    requires i <= |t|
    ensures k == P.Skip(t, i)
  {
    k := i;
    while IsSpace(At(t, k))
      invariant k <= |t| && P.Skip(t, k) == P.Skip(t, i)
      decreases |t| - k
    {
      k := k + 1;
    }
  }

  /** expect_literal */
  method ExpectLiteral(t: Text, i: nat, literal: Text) returns (k: Option<nat>)
    requires i <= |t|
    ensures k == P.LiteralEnd(t, i, literal)
  {
    var j, n := i, 0;
    while n < |literal|
      invariant n <= |literal| && j == i + n <= |t| && literal[..n] == t[i..j]
    {
      if At(t, j) != literal[n] {
        assert j < |t| ==> t[i..][n] == t[j];
        return None;
      }
      j, n := j + 1, n + 1;
    }
    assert literal[..n] == literal && t[i..j] == t[i..][..|literal|];
    return Some(j);
  }

  /** The loops over digits in parse_number. */
  method SkipDigits(t: Text, i: nat) returns (k: nat)
    requires i <= |t|
    ensures k == P.DigitsEnd(t, i)
  {
    k := i;
    while IsDigit(At(t, k))
      invariant k <= |t| && P.DigitsEnd(t, k) == P.DigitsEnd(t, i)
      decreases |t| - k
    {
      k := k + 1;
    }
  }

  /** parse_number: (0 | [1-9][0-9]*) */
  method IntegerPart(t: Text, i: nat) returns (k: Option<nat>)
    requires i <= |t|
    ensures k == P.IntegerEnd(t, i)
  {
    hide P.DigitsEnd;
    if At(t, i) == ZERO {
      return Some(i + 1);
    }
    if !IsDigit(At(t, i)) {
      return None;
    }
    var s := SkipDigits(t, i);
    k := Some(s);
  }

  /** parse_number: ('.' [0-9]+)? */
  method FracPart(t: Text, i: nat) returns (k: Option<nat>)
    requires i <= |t|
    ensures k == P.FracEnd(t, i)
  {
    hide P.DigitsEnd;
    var s := i;
    if At(t, s) == POINT {
      s := s + 1;
      if !IsDigit(At(t, s)) {
        return None;
      }
      s := SkipDigits(t, s);
    }
    k := Some(s);
  }

  /** parse_number: ([Ee] [+-]? [0-9]+)? */
  method ExpPart(t: Text, i: nat) returns (k: Option<nat>)
    requires i <= |t|
    ensures k == P.ExpEnd(t, i)
  {
    hide P.DigitsEnd;
    var s := i;
    if At(t, s) == 0x45 || At(t, s) == 0x65 {
      s := s + 1;
      if At(t, s) == PLUS || At(t, s) == MINUS {
        s := s + 1;
      }
      if !IsDigit(At(t, s)) {
        return None;
      }
      s := SkipDigits(t, s);
    }
    k := Some(s);
  }

  /** parse_number */
  method ParseNumber(t: Text, i: nat) returns (r: Parsed<Text>)
    requires i <= |t|
    ensures r == P.ParseNumber(t, i)
  {
    hide P.IntegerEnd, P.FracEnd, P.ExpEnd;
    var s := i;
    if At(t, s) == MINUS {
      s := s + 1;
    }
    var end := IntegerPart(t, s);
    if end == None {
      return P.Fail;
    }
    end := FracPart(t, end.value);
    if end == None {
      return P.Fail;
    }
    end := ExpPart(t, end.value);
    if end == None {
      return P.Fail;
    }
    s := end.value;
    return P.Ok(t[i..s], s);
  }

  /** The value of the first `n` hexadecimal digits of `h`. */
  ghost function HexPrefix(h: Text, n: nat): nat
    requires n <= |h| && forall j | 0 <= j < n :: HexDigit(h[j]).Some?
  {
    if n == 0 then 0 else HexPrefix(h, n - 1) * 16 + HexDigit(h[n - 1]).value
  }

  lemma HexPrefixFour(h: Text)
    requires HexDigits(h)
    ensures HexPrefix(h, 4) == HexValue(h)
  {
    assert HexPrefix(h, 1) == HexDigit(h[0]).value;
    assert HexPrefix(h, 2) == HexPrefix(h, 1) * 16 + HexDigit(h[1]).value;
    assert HexPrefix(h, 3) == HexPrefix(h, 2) * 16 + HexDigit(h[2]).value;
  }

  /** parse_hex16 */
  method ParseHex16(t: Text, i: nat) returns (r: Parsed<nat>)
    requires i <= |t|
    ensures r == P.ParseHex16(t, i)
  {
    var s, ret, n := i, 0, 0;
    while n < 4
      invariant n <= 4 && s == i + n <= |t|
      invariant forall j | 0 <= j < n :: HexDigit(t[i..s][j]).Some?
      invariant ret == HexPrefix(t[i..s], n)
    {
      var digit := HexDigit(At(t, s));
      if digit == None {
        assert i + 4 <= |t| ==> t[i..i + 4][n] == At(t, s);
        return P.Fail;
      }
      HexPrefixGrows(t[i..s], t[s], n);
      assert t[i..s + 1] == t[i..s] + [t[s]];
      ret := ret * 16 + digit.value;
      s, n := s + 1, n + 1;
    }
    HexPrefixFour(t[i..s]);
    return P.Ok(ret, s);
  }

  lemma {:induction false} HexPrefixGrows(h: Text, c: Char, n: nat)
    requires n <= |h| && forall j | 0 <= j < n :: HexDigit(h[j]).Some?
    ensures HexPrefix(h + [c], n) == HexPrefix(h, n)
  {
    if n > 0 {
      HexPrefixGrows(h, c, n - 1);
    }
  }

  // ---------------------------------------------------------------------------------------------
  // Strings
  // ---------------------------------------------------------------------------------------------

  /** The body of the loop of parse_string: parse the next character and write it to `b`, in which
      there is room for four bytes. */
  method ParseChar(t: Text, i: nat, b: array<Byte>, at: nat) returns (ok: bool, k: nat, at': nat)
    requires i <= |t| && at + 4 <= b.Length
    modifies b
    ensures ok <==> P.ParseChar(t, i).Ok?
    ensures ok ==> k == P.ParseChar(t, i).next
    ensures ok ==> at' == at + |P.ParseChar(t, i).value| && b[..at'] == old(b[..at]) + P.ParseChar(t, i).value
  {
    hide P.ParseHex16, HexDigits, ValidateCz, Encoding, WriteChar, P.FromSurrogatePair;
    ok, k, at' := false, i, at;
    var c := At(t, i);
    if c == BACKSLASH {
      c := At(t, i + 1);
      if c == LETTER_U {
        var first := ParseHex16(t, i + 2);
        if first.Fail? {
          return;
        }
        var unicode: Rune;
        k := first.next;
        if Surrogate(first.value) {
          if At(t, k) != BACKSLASH || At(t, k + 1) != LETTER_U {
            return;
          }
          var second := ParseHex16(t, k + 2);
          if second.Fail? {
            return;
          }
          var pair := P.FromSurrogatePair(first.value, second.value);
          if pair == None {
            return;
          }
          k, unicode := second.next, pair.value;
        } else if first.value == 0 {
          return;
        } else {
          unicode := first.value;
        }
        at' := StoreAt(b, at, WriteChar(unicode));
      } else {
        var escape := EscapeValue(c);
        if escape == None {
          return;
        }
        at' := StoreAt(b, at, [escape.value]);
        k := i + 2;
      }
    } else if c <= 0x1F {
      return;
    } else {
      var len := ValidateCz(t[i..]);
      if len == 0 {
        return;
      }
      at' := StoreAt(b, at, t[i..i + len]);
      k := i + len;
    }
    ok := true;
  }

  /** Putting `done` in front of what is still to be parsed. */
  ghost function After<T>(done: seq<T>, r: Parsed<seq<T>>): Parsed<seq<T>> {
    match r
    case Fail => P.Fail
    case Ok(more, next) => P.Ok(done + more, next)
  }

  lemma AfterNothing<T>(r: Parsed<seq<T>>)
    ensures After([], r) == r
  {
    if r.Ok? {
      assert [] + r.value == r.value;
    }
  }

  lemma AfterAfter<T>(done: seq<T>, next: seq<T>, r: Parsed<seq<T>>)
    ensures After(done, After(next, r)) == After(done + next, r)
  {
    if r.Ok? {
      assert done + (next + r.value) == done + next + r.value;
    }
  }

  /** parse_string.  Without `build` every character is written to a throwaway buffer of four bytes. */
  method ParseString(t: Text, i: nat, build: bool) returns (ok: bool, k: nat, s: Text)
    requires i <= |t|
    ensures ok <==> P.ParseString(t, i).Ok?
    ensures ok ==> k == P.ParseString(t, i).next
    ensures ok && build ==> s == P.ParseString(t, i).value
  {
    ok, k, s := false, i, [];
    if At(t, i) != QUOTE {
      return;
    }
    k := i + 1;
    var sb := new SB();
    var b: array<Byte>, at := new Byte[4], 0;
    if build {
      sb.Need(4);
      b, at := sb.buf, sb.cur;
    }
    ghost var done: Text := [];
    AfterNothing(P.ParseChars(t, k));
    while At(t, k) != QUOTE
      invariant k <= |t| && After(done, P.ParseChars(t, k)) == P.ParseChars(t, i + 1)
      invariant fresh(sb) && fresh(b) && fresh(sb.buf) && at + 4 <= b.Length
      invariant if build then sb.Valid() && b == sb.buf && at == sb.cur && at + 4 <= sb.end && sb.Contents() == done
                else at == 0
      decreases |t| - k
    {
      ghost var r := P.ParseChar(t, k);
      ghost var was := b[..at];
      StringStep(t, k, done);
      var good, k', at' := ParseChar(t, k, b, at);
      if !good {
        return;
      }
      done := done + r.value;
      k := k';
      if build {
        assert b[..at'] == was + r.value && NoNul(b[..at']);
        sb.Advance(at');
        sb.Need(4);
        b, at := sb.buf, sb.cur;
      }
    }
    if build {
      s := sb.Finish();
    }
    ok, k := true, k + 1;
  }

  lemma StringStep(t: Text, k: nat, done: Text)
    requires k <= |t| && At(t, k) != QUOTE
    ensures After(done, P.ParseChars(t, k))
         == match P.ParseChar(t, k)
            case Fail => P.Fail
            case Ok(c, next) => After(done + c, P.ParseChars(t, next))
  {
    var r := P.ParseChar(t, k);
    if r.Ok? {
      AfterAfter(done, r.value, P.ParseChars(t, r.next));
    }
  }
}
