/** Bytes and NUL-terminated strings. */
module Chars {

  type Byte = b: int | 0 <= b < 256

  /** A byte of a C string in front of its terminator. */
  type Char = b: int | 1 <= b < 256 witness 1

  /** A C string: the characters in front of the terminating NUL. */
  type Text = seq<Char>

  /** Reading a C string at index `i`; the terminator reads as 0, and there is nothing behind it. */
  function At(s: Text, i: nat): Byte
    requires i <= |s|
  {
    if i < |s| then s[i] else 0
  }
}

/**
 The UTF-8 helpers of json.c, against the encoding table of section 3 and the byte grammar of
 section 4 of RFC 3629.
 */
module Utf8 {
  import opened Bits
  import opened Chars

  /** A Unicode scalar value: a code point that is not a surrogate. */
  type Scalar = u: int | 0 <= u <= 0x10FFFF && !(0xD800 <= u <= 0xDFFF)

  /** A scalar value that can occur in a C string. */
  type Rune = u: Scalar | u != 0 witness 1

  // ---------------------------------------------------------------------------------------------
  // The reference: RFC 3629
  // ---------------------------------------------------------------------------------------------

  /** Section 3: the octets of a scalar value. */
  function Encoding(u: Scalar): (c: seq<Byte>)
    ensures 1 <= |c| <= 4
  {
    if u <= 0x7F then [u]
    else if u <= 0x7FF then [0xC0 + u / 64, 0x80 + u % 64]
    else if u <= 0xFFFF then [0xE0 + u / 4096, 0x80 + u / 64 % 64, 0x80 + u % 64]
    else [0xF0 + u / 262144, 0x80 + u / 4096 % 64, 0x80 + u / 64 % 64, 0x80 + u % 64]
  }

  predicate Tail(b: Byte) {
    0x80 <= b <= 0xBF
  }

  /** Section 4: UTF8-char = UTF8-1 / UTF8-2 / UTF8-3 / UTF8-4. */
  predicate Utf8Char(c: seq<Byte>) {
    || (|c| == 1 && c[0] <= 0x7F)
    || (|c| == 2 && 0xC2 <= c[0] <= 0xDF && Tail(c[1]))
    || (|c| == 3
        && (|| (c[0] == 0xE0 && 0xA0 <= c[1] <= 0xBF)
            || (0xE1 <= c[0] <= 0xEC && Tail(c[1]))
            || (c[0] == 0xED && 0x80 <= c[1] <= 0x9F)
            || (0xEE <= c[0] <= 0xEF && Tail(c[1])))
        && Tail(c[2]))
    || (|c| == 4
        && (|| (c[0] == 0xF0 && 0x90 <= c[1] <= 0xBF)
            || (0xF1 <= c[0] <= 0xF3 && Tail(c[1]))
            || (c[0] == 0xF4 && 0x80 <= c[1] <= 0x8F))
        && Tail(c[2]) && Tail(c[3]))
  }

  /** The concatenation of the encodings of a sequence of scalar values. */
  function EncodeAll(us: seq<Rune>): Text {
    if us == [] then [] else Encoded(us[0]) + EncodeAll(us[1..])
  }

  function Encoded(u: Rune): (c: Text)
    ensures c == Encoding(u)
  {
    Encoding(u)
  }

  /** A C string that is valid UTF-8. */
  ghost predicate WellFormed(s: Text) {
    exists us: seq<Rune> :: s == EncodeAll(us)
  }

  // ---------------------------------------------------------------------------------------------
  // The helpers
  // ---------------------------------------------------------------------------------------------

  /** `(b & 0xC0) == 0x80` */
  predicate IsContinuation(b: Byte): (r: bool)
    ensures r <==> Tail(b)
  {
    hide And;
    TopTwoBits(b);
    And(b, 0xC0) == 0x80
  }

  lemma TopTwoBits(b: Byte)
    ensures And(b, 0xC0) == b / 64 * 64
  {
    hide *;
    Powers();
    AndShifted(b, 3, 6);
    ShiftIsDivision(b, 6);
    AndMask(b / 64, 2);
    ShiftIsDivision(b / 64, 2);
    ShlIsMultiple(b / 64, 6);
    ShlIsMultiple(3, 6);
  }

  /** utf8_validate_cz: the length of the valid character at the start of `s`, or 0.  The terminator
      itself is a valid character of length 1. */
  function ValidateCz(s: Text): (n: nat)
    ensures n <= 4 && (s != [] ==> n <= |s|)
  {
    var c := At(s, 0);
    if c <= 0x7F then 1
    else if c <= 0xC1 then 0
    else if c <= 0xDF then
      if !IsContinuation(At(s, 1)) then 0 else 2
    else if c <= 0xEF then
      if c == 0xE0 && At(s, 1) < 0xA0 then 0
      else if c == 0xED && At(s, 1) > 0x9F then 0
      else if !IsContinuation(At(s, 1)) then 0
      else if !IsContinuation(At(s, 2)) then 0
      else 3
    else if c <= 0xF4 then
      if c == 0xF0 && At(s, 1) < 0x90 then 0
      else if c == 0xF4 && At(s, 1) > 0x8F then 0
      else if !IsContinuation(At(s, 1)) then 0
      else if !IsContinuation(At(s, 2)) then 0
      else if !IsContinuation(At(s, 3)) then 0
      else 4
    else 0
  }

  /** The accepted length is the only one at which the grammar of RFC 3629 finds a character. */
  lemma ValidateCzExact(s: Text, k: nat)
    requires s != [] && k <= |s|
    ensures 0 < ValidateCz(s) && k == ValidateCz(s) <==> Utf8Char(s[..k])
  {
  }

  function Read2(b0: Byte, b1: Byte): (u: nat)
    ensures u == b0 % 32 * 64 + b1 % 64
  {
    hide *;
    Powers();
    var a, b := Mask(b0, 5, 32), Mask(b1, 6, 64);
    Join(ShiftUp(a, 6, 64), b, 6, 64, a)
  }

  function Read3(b0: Byte, b1: Byte, b2: Byte): (u: nat)
    ensures u == b0 % 16 * 4096 + b1 % 64 * 64 + b2 % 64
  {
    hide *;
    Powers();
    var a, b, c := Mask(b0, 4, 16), Mask(b1, 6, 64), Mask(b2, 6, 64);
    var high := Join(ShiftUp(a, 12, 4096), ShiftUp(b, 6, 64), 12, 4096, a);
    Join(high, c, 6, 64, a * 64 + b)
  }

  function Read4(b0: Byte, b1: Byte, b2: Byte, b3: Byte): (u: nat)
    ensures u == b0 % 8 * 262144 + b1 % 64 * 4096 + b2 % 64 * 64 + b3 % 64
  {
    hide *;
    Powers();
    var a, b, c, d := Mask(b0, 3, 8), Mask(b1, 6, 64), Mask(b2, 6, 64), Mask(b3, 6, 64);
    var high := Join(ShiftUp(a, 18, 262144), ShiftUp(b, 12, 4096), 18, 262144, a);
    var mid := Join(high, ShiftUp(c, 6, 64), 12, 4096, a * 64 + b);
    Join(mid, d, 6, 64, a * 4096 + b * 64 + c)
  }

  /** The shape of the character that utf8_validate_cz accepts. */
  lemma Shape(s: Text)
    requires s != [] && ValidateCz(s) > 0
    ensures var c, n := s[..ValidateCz(s)], ValidateCz(s);
            if s[0] <= 0x7F then n == 1 && c == [s[0]]
            else if s[0] <= 0xDF then n == 2 && c == [s[0], s[1]] && Utf8Char(c)
            else if s[0] <= 0xEF then n == 3 && c == [s[0], s[1], s[2]] && Utf8Char(c)
            else n == 4 && c == [s[0], s[1], s[2], s[3]] && Utf8Char(c)
  {
    ValidateCzExact(s, ValidateCz(s));
  }

  /** utf8_read_char: the scalar value of the character at the start of `s`. */
  function ReadChar(s: Text): (u: Rune)
    requires s != [] && ValidateCz(s) > 0
    ensures Encoded(u) == s[..ValidateCz(s)]
  {
    Shape(s);
    hide ValidateCz, Read2, Read3, Read4, Utf8Char;
    if s[0] <= 0x7F then s[0]
    else
      hide Encoding;
      if s[0] <= 0xDF then
        Reencode2(s[0], s[1]);
        Read2(s[0], s[1])
      else if s[0] <= 0xEF then
        Reencode3(s[0], s[1], s[2]);
        Read3(s[0], s[1], s[2])
      else
        Reencode4(s[0], s[1], s[2], s[3]);
        Read4(s[0], s[1], s[2], s[3])
  }

  // The base-64 digits of a sum of digits are those digits.

  lemma Digits2(a: nat, b: nat)
    requires b < 64
    ensures var u := a * 64 + b; u / 64 == a && u % 64 == b
  {
  }

  lemma Digits3(a: nat, b: nat, c: nat)
    requires b < 64 && c < 64
    ensures var u := a * 4096 + b * 64 + c; u / 4096 == a && u / 64 % 64 == b && u % 64 == c
  {
    Digits2(a * 64 + b, c);
  }

  lemma Digits4(a: nat, b: nat, c: nat, d: nat)
    requires b < 64 && c < 64 && d < 64
    ensures var u := a * 262144 + b * 4096 + c * 64 + d;
            u / 262144 == a && u / 4096 % 64 == b && u / 64 % 64 == c && u % 64 == d
  {
    Digits2(a * 4096 + b * 64 + c, d);
    Digits3(a, b, c);
  }

  // Encoding what was read from well-formed bytes gives these bytes.

  lemma Reencode2(b0: Byte, b1: Byte)
    requires Utf8Char([b0, b1])
    ensures 0x80 <= Read2(b0, b1) <= 0x7FF && Encoding(Read2(b0, b1)) == [b0, b1]
  {
    hide Read2;
    TailDigit(b1);
    assert b0 % 32 == b0 - 0xC0;
    Digits2(b0 - 0xC0, b1 - 0x80);
  }

  lemma TailDigit(b: Byte)
    requires Tail(b)
    ensures b % 64 == b - 0x80
  {
  }

  lemma Reencode3(b0: Byte, b1: Byte, b2: Byte)
    requires Utf8Char([b0, b1, b2])
    ensures 0x800 <= Read3(b0, b1, b2) <= 0xFFFF && !(0xD800 <= Read3(b0, b1, b2) <= 0xDFFF)
    ensures Encoding(Read3(b0, b1, b2)) == [b0, b1, b2]
  {
    hide Read3;
    TailDigit(b1);
    TailDigit(b2);
    assert b0 % 16 == b0 - 0xE0;
    Digits3(b0 - 0xE0, b1 - 0x80, b2 - 0x80);
  }

  lemma Lead4(b: Byte)
    requires 0xF0 <= b <= 0xF4
    ensures b % 8 == b - 0xF0
  {
  }

  lemma Reencode4(b0: Byte, b1: Byte, b2: Byte, b3: Byte)
    requires Utf8Char([b0, b1, b2, b3])
    ensures 0x10000 <= Read4(b0, b1, b2, b3) <= 0x10FFFF
    ensures Encoding(Read4(b0, b1, b2, b3)) == [b0, b1, b2, b3]
  {
    hide Read4;
    TailDigit(b1);
    TailDigit(b2);
    TailDigit(b3);
    Lead4(b0);
    Digits4(b0 - 0xF0, b1 - 0x80, b2 - 0x80, b3 - 0x80);
  }

  /** `tag | x >> k` */
  function LeadByte(tag: nat, x: nat, k: nat, p: nat, width: nat, room: nat): (r: nat)
    requires p == Pow2(k) && room == Pow2(width) && tag % room == 0 && x / p < room
    ensures r == tag + x / p
  {
    hide *;
    Join(tag, ShiftDown(x, k, p), width, room, tag / room)
  }

  /** `0x80 | (x & 0x3F)` */
  function TailByte(x: nat): (r: Byte)
    ensures r == 0x80 + x % 64
  {
    hide *;
    Powers();
    Join(0x80, Mask(x, 6, 64), 6, 64, 2)
  }

  /** utf8_write_char: the bytes written for a scalar value. */
  function WriteChar(u: Scalar): (c: seq<Byte>)
    ensures c == Encoding(u)
  {
    hide LeadByte, TailByte, ShiftDown, Pow2;
    Powers();
    if u <= 0x7F then [u]
    else if u <= 0x7FF then
      [LeadByte(0xC0, u, 6, 64, 5, 32), TailByte(u)]
    else if u <= 0xFFFF then
      [LeadByte(0xE0, u, 12, 4096, 4, 16), TailByte(ShiftDown(u, 6, 64)), TailByte(u)]
    else
      [LeadByte(0xF0, u, 18, 262144, 3, 8), TailByte(ShiftDown(u, 12, 4096)), TailByte(ShiftDown(u, 6, 64)), TailByte(u)]
  }

  lemma LeadRanges(u: Scalar)
    ensures 0x80 <= u <= 0x7FF ==> 2 <= u / 64 < 32
    ensures 0x800 <= u <= 0xFFFF ==>
              var a, b := u / 4096, u / 64 % 64; a < 16 && (a == 0 ==> 32 <= b) && (a == 13 ==> b < 32)
    ensures 0x10000 <= u ==>
              var a, b := u / 262144, u / 4096 % 64; a < 5 && (a == 0 ==> 16 <= b) && (a == 4 ==> b < 16)
  {
    FromDigits(u);
  }

  lemma EncodingIsChar(u: Scalar)
    ensures Utf8Char(Encoding(u))
  {
    LeadRanges(u);
  }

  /** What is written is a character of the grammar, and reading it back gives the scalar value. */
  lemma ReadWritten(u: Rune, rest: Text)
    ensures Utf8Char(Encoding(u))
    ensures ValidateCz(Encoded(u) + rest) == |Encoding(u)|
    ensures ReadChar(Encoded(u) + rest) == u
  {
    var s := Encoded(u) + rest;
    EncodingIsChar(u);
    hide Encoding, Utf8Char;
    assert s[..|Encoding(u)|] == Encoding(u);
    ValidateCzExact(s, |Encoding(u)|);
    EncodingInjective(u, ReadChar(s));
  }

  lemma FromDigits(u: nat)
    ensures u == u / 64 * 64 + u % 64
    ensures u == u / 4096 * 4096 + u / 64 % 64 * 64 + u % 64
    ensures u == u / 262144 * 262144 + u / 4096 % 64 * 4096 + u / 64 % 64 * 64 + u % 64
  {
    assert u / 64 / 64 == u / 4096 && u / 4096 / 64 == u / 262144;
  }

  lemma EncodingInjective(u: Scalar, v: Scalar)
    requires Encoding(u) == Encoding(v)
    ensures u == v
  {
    FromDigits(u);
    FromDigits(v);
    var c, d := Encoding(u), Encoding(v);
    assert |c| == 1 || c[1] == d[1];
  }

  /** The octets are the base-64 digits of the value, the first one marked by the length, and the shortest
      form is the one that is used. */
  lemma EncodingLaw(u: Scalar)
    ensures var c := Encoding(u);
      || (|c| == 1 && u <= 0x7F && c[0] == u)
      || (|c| == 2 && 0x80 <= u <= 0x7FF && 0x80 <= c[1] <= 0xBF && u == (c[0] as int - 0xC0) * 64 + (c[1] as int - 0x80))
      || (|c| == 3 && 0x800 <= u <= 0xFFFF && 0x80 <= c[1] <= 0xBF && 0x80 <= c[2] <= 0xBF
          && u == (c[0] as int - 0xE0) * 4096 + (c[1] as int - 0x80) * 64 + (c[2] as int - 0x80))
      || (|c| == 4 && 0x10000 <= u <= 0x10FFFF && 0x80 <= c[1] <= 0xBF && 0x80 <= c[2] <= 0xBF && 0x80 <= c[3] <= 0xBF
          && u == (c[0] as int - 0xF0) * 262144 + (c[1] as int - 0x80) * 4096 + (c[2] as int - 0x80) * 64 + (c[3] as int - 0x80))
  {
    FromDigits(u);
  }

  /** The byte grammar describes exactly the encodings of the scalar values. */
  lemma GrammarLaw(c: seq<Byte>)
    ensures Utf8Char(c) <==> exists u: Scalar :: c == Encoding(u)
  {
    if Utf8Char(c) {
      hide Read2, Read3, Read4, Encoding;
      if |c| == 1 {
        OneOctet(c[0]);
        assert c == [c[0]];
      } else if |c| == 2 {
        assert c == [c[0], c[1]];
        Reencode2(c[0], c[1]);
      } else if |c| == 3 {
        assert c == [c[0], c[1], c[2]];
        Reencode3(c[0], c[1], c[2]);
      } else {
        assert c == [c[0], c[1], c[2], c[3]];
        Reencode4(c[0], c[1], c[2], c[3]);
      }
    }
    if u: Scalar :| c == Encoding(u) {
      EncodingIsChar(u);
    }
  }

  lemma OneOctet(b: Byte)
    requires b <= 0x7F
    ensures Encoding(b) == [b]
  {
  }

  // ---------------------------------------------------------------------------------------------
  // Whole strings
  // ---------------------------------------------------------------------------------------------

  /** The scalar values of a valid string, character by character; the reference for the loop. */
  predicate ValidUtf8(s: Text)
    decreases |s|
  {
    s == [] || (ValidateCz(s) > 0 && ValidUtf8(s[ValidateCz(s)..]))
  }

  function Runes(s: Text): (us: seq<Rune>)
    requires ValidUtf8(s)
    ensures EncodeAll(us) == s
    decreases |s|
  {
    hide ValidateCz, ReadChar, Encoding, EncodeAll;
    EncodeNothing();
    if s == [] then [] else
      EncodeCons(ReadChar(s), Runes(s[ValidateCz(s)..]));
      assert s == s[..ValidateCz(s)] + s[ValidateCz(s)..];
      [ReadChar(s)] + Runes(s[ValidateCz(s)..])
  }

  lemma EncodeNothing()
    ensures EncodeAll([]) == []
  {
  }

  lemma EncodeCons(u: Rune, us: seq<Rune>)
    ensures EncodeAll([u] + us) == Encoded(u) + EncodeAll(us)
  {
    hide Encoding;
    assert ([u] + us)[1..] == us;
  }

  /** The split of a string into characters is unique. */
  lemma {:induction false} RunesOfEncoding(us: seq<Rune>)
    ensures ValidUtf8(EncodeAll(us)) && Runes(EncodeAll(us)) == us
  {
    if us != [] {
      var s, rest := EncodeAll(us), EncodeAll(us[1..]);
      ReadWritten(us[0], rest);
      assert s == Encoded(us[0]) + rest;
      assert s[|Encoding(us[0])|..] == rest;
      RunesOfEncoding(us[1..]);
      assert us == [us[0]] + us[1..];
    }
  }

  lemma ValidUtf8IsWellFormed(s: Text)
    ensures ValidUtf8(s) <==> WellFormed(s)
  {
    if ValidUtf8(s) {
      assert s == EncodeAll(Runes(s));
    }
    if us: seq<Rune> :| s == EncodeAll(us) {
      RunesOfEncoding(us);
    }
  }

  /** utf8_validate */
  method Validate(s: Text) returns (ok: bool)
    ensures ok <==> WellFormed(s)
  {
    ValidUtf8IsWellFormed(s);
    hide ValidateCz, WellFormed;
    var i := 0;
    while At(s, i) != 0
      invariant i <= |s| && ValidUtf8(s) == ValidUtf8(s[i..])
      decreases |s| - i
    {
      var len := ValidateCz(s[i..]);
      if len == 0 {
        return false;
      }
      assert s[i..][len..] == s[i + len..];
      i := i + len;
    }
    return true;
  }
}
