/**
 What JSON texts look like, said once more without the syntax trees: each kind of value in terms of
 literal characters and of the texts of its parts.  These laws determine json_decode completely, and
 together with those about the printed text they tie the functions of the grammar and of the layout to
 the characters that the C code compares and writes.
 */
module JsonLaws {
  import opened Options
  import opened Chars
  import opened Utf8
  import opened JsonGrammar
  import opened JsonParser
  import opened JsonExact

  /** The bytes of a literal */
  function Ascii(s: string): (t: Text)
    requires forall i | 0 <= i < |s| :: 0 < s[i] as int < 128
    ensures |t| == |s| && forall i | 0 <= i < |s| :: t[i] == s[i] as int
  {
    seq(|s|, i requires 0 <= i < |s| => s[i] as int)
  }

  /** `ts[0] sep ts[1] sep ... ts[n - 1]` */
  function Joined(ts: seq<Text>, sep: Text): Text {
    if ts == [] then [] else if |ts| == 1 then ts[0] else ts[0] + (sep + Joined(ts[1..], sep))
  }

  // ---------------------------------------------------------------------------------------------
  // Characters
  // ---------------------------------------------------------------------------------------------

  lemma SpaceLaw(b: Byte)
    ensures IsSpace(b) <==> b as char in " \t\n\r"
  {
    assert " \t\n\r" == [' ', '\t', '\n', '\r'];
  }

  lemma DigitLaw(b: Byte)
    ensures IsDigit(b) <==> '0' <= b as char <= '9'
  {
  }

  /** Each hexadecimal digit has its position in one of two literals, and there are no others. */
  lemma HexDigitLaw(b: Byte, d: nat)
    requires d < 16
    ensures HexDigit(b) == Some(d) <==> b as char == "0123456789abcdef"[d] || b as char == "0123456789ABCDEF"[d]
    ensures HexDigit(b).Some? ==> HexDigit(b).value < 16
  {
  }

  lemma FourDigits(a: nat, b: nat, c: nat, d: nat)
    requires a < 16 && b < 16 && c < 16 && d < 16
    ensures var v := ((a * 16 + b) * 16 + c) * 16 + d;
            v < 0x10000 && v / 4096 % 16 == a && v / 256 % 16 == b && v / 16 % 16 == c && v % 16 == d
  {
    var v := ((a * 16 + b) * 16 + c) * 16 + d;
    assert v / 4096 == a && v / 256 == a * 16 + b && v / 16 == (a * 16 + b) * 16 + c;
  }

  lemma FromFourDigits(v: nat)
    requires v < 0x10000
    ensures v == ((v / 4096 % 16 * 16 + v / 256 % 16) * 16 + v / 16 % 16) * 16 + v % 16
  {
    assert v / 16 / 16 == v / 256 && v / 256 / 16 == v / 4096 && v / 4096 < 16;
  }

  /** parse_hex16 reads four digits as the number with these digits in base 16, in any mix of cases. */
  lemma ParseHex16Law(t: Text, i: nat, v: nat)
    requires i <= |t|
    ensures ParseHex16(t, i).Ok? ==> ParseHex16(t, i).next == i + 4
    ensures ParseHex16(t, i) == Ok(v, i + 4) <==>
      && i + 4 <= |t| && v < 0x10000
      && (t[i] as char == "0123456789abcdef"[v / 4096 % 16] || t[i] as char == "0123456789ABCDEF"[v / 4096 % 16])
      && (t[i + 1] as char == "0123456789abcdef"[v / 256 % 16] || t[i + 1] as char == "0123456789ABCDEF"[v / 256 % 16])
      && (t[i + 2] as char == "0123456789abcdef"[v / 16 % 16] || t[i + 2] as char == "0123456789ABCDEF"[v / 16 % 16])
      && (t[i + 3] as char == "0123456789abcdef"[v % 16] || t[i + 3] as char == "0123456789ABCDEF"[v % 16])
  {
    hide HexDigit;
    if i + 4 <= |t| {
      var h := t[i..i + 4];
      HexDigitLaw(h[0], v / 4096 % 16);
      HexDigitLaw(h[1], v / 256 % 16);
      HexDigitLaw(h[2], v / 16 % 16);
      HexDigitLaw(h[3], v % 16);
      HexTextLaw(h, v);
    }
  }

  lemma HexTextLaw(h: Text, v: nat)
    requires |h| == 4
    ensures HexDigits(h) && HexValue(h) == v <==>
      && v < 0x10000 && HexDigit(h[0]) == Some(v / 4096 % 16) && HexDigit(h[1]) == Some(v / 256 % 16)
      && HexDigit(h[2]) == Some(v / 16 % 16) && HexDigit(h[3]) == Some(v % 16)
  {
    hide HexDigit;
    HexDigitLaw(h[0], 0);
    HexDigitLaw(h[1], 0);
    HexDigitLaw(h[2], 0);
    HexDigitLaw(h[3], 0);
    if HexDigits(h) {
      FourDigits(HexDigit(h[0]).value, HexDigit(h[1]).value, HexDigit(h[2]).value, HexDigit(h[3]).value);
    }
    if v < 0x10000 {
      FromFourDigits(v);
    }
  }

  /** The eight escapes of two characters */
  lemma EscapeLaw(c: Byte)
    ensures EscapeValue(c) == None <==> c as char !in "\"\\/bfnrt"
    ensures forall k | 0 <= k < 8 :: EscapeValue("\"\\/bfnrt"[k] as int) == Some([0x22, 0x5C, 0x2F, 0x08, 0x0C, 0x0A, 0x0D, 0x09][k])
  {
  }

  /** The twenty bits of a surrogate pair */
  lemma PairLaw(a: nat, b: nat)
    ensures a < 0x400 && b < 0x400 ==> FromSurrogatePair(0xD800 + a, 0xDC00 + b) == Some(0x10000 + 0x400 * a + b)
    ensures FromSurrogatePair(a, b).Some? <==> 0xD800 <= a <= 0xDBFF && 0xDC00 <= b <= 0xDFFF
  {
    hide FromSurrogatePair;
  }

  // ---------------------------------------------------------------------------------------------
  // Numbers
  // ---------------------------------------------------------------------------------------------

  // number = [ "-" ] int [ "." digits ] [ ( "e" / "E" ) [ "-" / "+" ] digits ], where int is "0" or does not
  // start with a zero

  lemma NumberParts(l: Text) returns (sign: Text, integer: Text, frac: Text, exp: Text)
    requires Lexeme(l)
    ensures l == sign + integer + frac + exp
    ensures sign == [] || sign == ['-' as int]
    ensures integer != [] && forall i | 0 <= i < |integer| :: '0' as int <= integer[i] <= '9' as int
    ensures |integer| > 1 ==> integer[0] != '0' as int
    ensures frac != [] ==> |frac| > 1 && frac[0] == '.' as int && forall i | 1 <= i < |frac| :: '0' as int <= frac[i] <= '9' as int
    ensures exp != [] ==>
      && |exp| > 1 && (exp[0] == 'e' as int || exp[0] == 'E' as int)
      && var k := if exp[1] == '+' as int || exp[1] == '-' as int then 2 else 1;
         |exp| > k && forall i | k <= i < |exp| :: '0' as int <= exp[i] <= '9' as int
  {
    hide RenderExp, ValidExponent;
    var n: Number :| ValidNumber(n) && l == RenderNumber(n);
    sign, integer, frac, exp := RenderSign(n.minus), n.integer, RenderFrac(n.frac), RenderExp(n.exp);
    ExponentText(n.exp);
    hide *;
    FourParts(sign, integer, frac, exp);
  }

  lemma FourParts(a: Text, b: Text, c: Text, d: Text)
    ensures a + b + c + d == a + (b + (c + d))
  {
  }

  lemma ExponentText(e: Option<Exponent>)
    requires ValidExponent(e)
    ensures var exp := RenderExp(e);
      exp != [] ==>
      && |exp| > 1 && (exp[0] == 'e' as int || exp[0] == 'E' as int)
      && var k := if exp[1] == '+' as int || exp[1] == '-' as int then 2 else 1;
         |exp| > k && forall i | k <= i < |exp| :: '0' as int <= exp[i] <= '9' as int
  {
    if e.Some? {
      var x := e.value;
      var exp := RenderExp(e);
      assert exp == [x.e] + x.sign + x.digits;
      if x.sign == [] {
        assert exp[1..] == x.digits;
      } else {
        assert exp[2..] == x.digits && exp[1] == x.sign[0];
      }
    }
  }

  lemma ExponentFrom(exp: Text) returns (e: Option<Exponent>)
    requires exp != [] ==>
      && |exp| > 1 && (exp[0] == 'e' as int || exp[0] == 'E' as int)
      && var k := if exp[1] == '+' as int || exp[1] == '-' as int then 2 else 1;
         |exp| > k && forall i | k <= i < |exp| :: '0' as int <= exp[i] <= '9' as int
    ensures ValidExponent(e) && RenderExp(e) == exp
  {
    e := None;
    if exp != [] {
      var k := if exp[1] == '+' as int || exp[1] == '-' as int then 2 else 1;
      e := Some(Exponent(exp[0], exp[1..k], exp[k..]));
      assert exp == [exp[0]] + exp[1..k] + exp[k..];
    }
  }

  lemma FracFrom(frac: Text) returns (f: Option<Text>)
    requires frac != [] ==> |frac| > 1 && frac[0] == '.' as int && forall i | 1 <= i < |frac| :: '0' as int <= frac[i] <= '9' as int
    ensures (f.Some? ==> Digits(f.value)) && RenderFrac(f) == frac
  {
    f := None;
    if frac != [] {
      f := Some(frac[1..]);
      assert frac == [frac[0]] + frac[1..];
    }
  }

  lemma NumberFromParts(sign: Text, integer: Text, frac: Text, exp: Text)
    requires sign == [] || sign == ['-' as int]
    requires integer != [] && forall i | 0 <= i < |integer| :: '0' as int <= integer[i] <= '9' as int
    requires |integer| > 1 ==> integer[0] != '0' as int
    requires frac != [] ==> |frac| > 1 && frac[0] == '.' as int && forall i | 1 <= i < |frac| :: '0' as int <= frac[i] <= '9' as int
    requires exp != [] ==>
      && |exp| > 1 && (exp[0] == 'e' as int || exp[0] == 'E' as int)
      && var k := if exp[1] == '+' as int || exp[1] == '-' as int then 2 else 1;
         |exp| > k && forall i | k <= i < |exp| :: '0' as int <= exp[i] <= '9' as int
    ensures Lexeme(sign + integer + frac + exp)
  {
    hide RenderExp, ValidExponent, RenderFrac;
    var e := ExponentFrom(exp);
    var f := FracFrom(frac);
    var n := Number(sign != [], integer, f, e);
    assert RenderSign(n.minus) == sign && ValidInteger(integer);
    FourParts(sign, integer, frac, exp);
    assert ValidNumber(n) && RenderNumber(n) == sign + integer + frac + exp;
  }

  // ---------------------------------------------------------------------------------------------
  // Whole texts
  // ---------------------------------------------------------------------------------------------

  /** Blanks, tabs and line ends */
  lemma BlankLaw(w: Text)
    ensures Blank(w) <==> forall i | 0 <= i < |w| :: w[i] as char in " \t\n\r"
  {
    if Blank(w) {
      forall i | 0 <= i < |w| ensures w[i] as char in " \t\n\r" {
        SpaceLaw(w[i]);
      }
    }
    if forall i | 0 <= i < |w| :: w[i] as char in " \t\n\r" {
      forall i | 0 <= i < |w| ensures IsSpace(w[i]) {
        SpaceLaw(w[i]);
      }
    }
  }

  lemma TreeOf(t: Text, v: Json) returns (before: Text, c: Cst, after: Text)
    requires Decode(t) == Some(v)
    ensures Blank(before) && Blank(after) && Valid(c) && Value(c) == v && t == before + (Render(c) + after)
  {
    DecodeExact(t, v);
    hide *;
    before, c, after := TreeOfText(t, v);
  }

  lemma TreeOfText(t: Text, v: Json) returns (before: Text, c: Cst, after: Text)
    requires JsonText(t, v)
    ensures Blank(before) && Blank(after) && Valid(c) && Value(c) == v && t == before + (Render(c) + after)
  {
    var b, d, a :| JsonTextWith(t, v, b, d, a);
    before, c, after := b, d, a;
  }

  /** White space around a text changes nothing. */
  lemma SpaceAround(before: Text, t: Text, after: Text, v: Json)
    requires Blank(before) && Blank(after) && Decode(t) == Some(v)
    ensures Decode(before + t + after) == Some(v)
  {
    var b, c, a := TreeOf(t, v);
    BlankConcat(before, b);
    BlankConcat(a, after);
    hide *;
    DecodeComplete(before + b, c, a + after);
    Regroup(before, b, Render(c), a, after);
  }

  lemma BlankConcat(a: Text, b: Text)
    requires Blank(a) && Blank(b)
    ensures Blank(a + b)
  {
  }

  lemma Regroup(a: Text, b: Text, c: Text, d: Text, e: Text)
    ensures a + (b + (c + d)) + e == (a + b) + (c + (d + e))
  {
  }

  /** null, true and false */
  lemma DecodeWord(t: Text, v: Json) returns (before: Text, after: Text)
    requires Decode(t) == Some(v) && (v.Null? || v.Bool?)
    ensures Blank(before) && Blank(after)
    ensures t == before + Ascii(if v == Null then "null" else if v.b then "true" else "false") + after
  {
    hide Decode;
    var b, c, a := TreeOf(t, v);
    before, after := b, a;
    assert Render(c) == Ascii(if v == Null then "null" else if v.b then "true" else "false");
    Assoc(before, Render(c), after);
  }

  lemma WordDecodes()
    ensures Decode(Ascii("null")) == Some(Null)
    ensures Decode(Ascii("true")) == Some(Bool(true)) && Decode(Ascii("false")) == Some(Bool(false))
  {
    hide Decode;
    Bare(CNull);
    Bare(CBool(true));
    Bare(CBool(false));
    assert Ascii("null") == NULL && Ascii("true") == TRUE && Ascii("false") == FALSE;
  }

  lemma Bare(c: Cst)
    requires Valid(c)
    ensures Decode(Render(c)) == Some(Value(c))
  {
    DecodeComplete([], c, []);
    assert [] + (Render(c) + []) == Render(c);
  }

  lemma DecodeNumber(t: Text, l: Text) returns (before: Text, after: Text)
    requires Decode(t) == Some(Num(l))
    ensures Blank(before) && Blank(after) && t == before + l + after && Lexeme(l)
  {
    var b, c, a := TreeOf(t, Num(l));
    before, after := b, a;
    assert c.CNum? && ValidNumber(c.n) && l == RenderNumber(c.n);
    Assoc(before, l, after);
  }

  lemma NumberDecodes(l: Text)
    requires Lexeme(l)
    ensures Decode(l) == Some(Num(l))
  {
    var n: Number :| ValidNumber(n) && l == RenderNumber(n);
    Bare(CNum(n));
  }

  // ---------------------------------------------------------------------------------------------
  // Strings
  // ---------------------------------------------------------------------------------------------

  /** The text between the quotation marks, and the string, are spelled piece by piece. */
  lemma DecodeString(t: Text, s: Text) returns (before: Text, sources: seq<Text>, values: seq<Text>, after: Text)
    requires Decode(t) == Some(Str(s))
    ensures Blank(before) && Blank(after) && |sources| == |values|
    ensures t == before + ['"' as int] + Joined(sources, []) + ['"' as int] + after && s == Joined(values, [])
    ensures forall k | 0 <= k < |sources| :: Piece(sources[k], values[k])
  {
    var b, c, a := TreeOf(t, Str(s));
    before, after := b, a;
    sources, values := Pieces(c.items);
    Quoted(before, Joined(sources, []), after);
  }

  lemma Quoted(before: Text, inner: Text, after: Text)
    ensures before + ([QUOTE] + (inner + [QUOTE]) + after) == before + ['"' as int] + inner + ['"' as int] + after
  {
  }

  lemma StringDecodes(sources: seq<Text>, values: seq<Text>)
    requires |sources| == |values| && forall k | 0 <= k < |sources| :: Piece(sources[k], values[k])
    ensures Decode(['"' as int] + Joined(sources, []) + ['"' as int]) == Some(Str(Joined(values, [])))
  {
    var items := FromPieces(sources, values);
    Bare(CStr(items));
    assert ['"' as int] + Joined(sources, []) + ['"' as int] == [QUOTE] + (Joined(sources, []) + [QUOTE]);
  }

  /** A piece of a string literal and what it stands for: a character that may stand for itself, an escape of
      two characters, or one or two escapes by number. */
  ghost predicate Piece(source: Text, value: Text) {
    || (exists u: Rune :: source == value == Encoded(u) && u >= 0x20 && u != '"' as int && u != '\\' as int)
    || (exists k :: 0 <= k < 8 && source == ['\\' as int, "\"\\/bfnrt"[k] as int]
                    && value == [[0x22, 0x5C, 0x2F, 0x08, 0x0C, 0x0A, 0x0D, 0x09][k]])
    || (exists v: Rune :: 0 < v < 0x10000 && Numbered(source, v) && value == Encoded(v))
    || (exists u: Rune :: u >= 0x10000 && |source| == 12 && value == Encoded(u)
                    && Numbered(source[..6], 0xD800 + (u - 0x10000) / 0x400) && Numbered(source[6..], 0xDC00 + (u - 0x10000) % 0x400))
  }

  /** `\u` and four hexadecimal digits in either case */
  predicate Numbered(source: Text, v: nat) {
    && |source| == 6 && source[0] == '\\' as int && source[1] == 'u' as int && v < 0x10000
    && (source[2] as char == "0123456789abcdef"[v / 4096 % 16] || source[2] as char == "0123456789ABCDEF"[v / 4096 % 16])
    && (source[3] as char == "0123456789abcdef"[v / 256 % 16] || source[3] as char == "0123456789ABCDEF"[v / 256 % 16])
    && (source[4] as char == "0123456789abcdef"[v / 16 % 16] || source[4] as char == "0123456789ABCDEF"[v / 16 % 16])
    && (source[5] as char == "0123456789abcdef"[v % 16] || source[5] as char == "0123456789ABCDEF"[v % 16])
  }

  lemma NumberedLaw(h: Text, v: nat)
    ensures Numbered([BACKSLASH, LETTER_U] + h, v) <==> HexDigits(h) && HexValue(h) == v
  {
    hide HexDigit, HexDigits, HexValue;
    var source := [BACKSLASH, LETTER_U] + h;
    if |h| == 4 {
      assert source[2] == h[0] && source[3] == h[1] && source[4] == h[2] && source[5] == h[3];
      HexDigitLaw(h[0], v / 4096 % 16);
      HexDigitLaw(h[1], v / 256 % 16);
      HexDigitLaw(h[2], v / 16 % 16);
      HexDigitLaw(h[3], v % 16);
      HexTextLaw(h, v);
    } else {
      HexFour(h);
    }
  }

  lemma HexFour(h: Text)
    ensures HexDigits(h) ==> |h| == 4
  {
  }

  lemma ItemPiece(it: Item)
    requires ValidItem(it)
    ensures Piece(RenderItem(it), ItemValue(it))
  {
    hide Encoding, HexDigits, HexValue, Numbered;
    match it
    case Raw(u) =>
    case Escape(c) =>
      var k := EscapeIndex(c);
    case Hex(h) =>
      NumberedLaw(h, HexValue(h));
    case Pair(high, low) =>
      NumberedLaw(high, HexValue(high));
      NumberedLaw(low, HexValue(low));
      HexFour(high);
      HexFour(low);
      PairDigits(HexValue(high), HexValue(low));
      var source := RenderItem(it);
      assert source[..6] == [BACKSLASH, LETTER_U] + high && source[6..] == [BACKSLASH, LETTER_U] + low;
  }

  lemma EscapeIndex(c: Char) returns (k: nat)
    requires EscapeValue(c).Some?
    ensures k < 8 && "\"\\/bfnrt"[k] as int == c
    ensures EscapeValue(c) == Some([0x22, 0x5C, 0x2F, 0x08, 0x0C, 0x0A, 0x0D, 0x09][k])
  {
    k := if c == 0x22 then 0 else if c == 0x5C then 1 else if c == 0x2F then 2 else if c == 0x62 then 3
         else if c == 0x66 then 4 else if c == 0x6E then 5 else if c == 0x72 then 6 else 7;
  }

  lemma PairDigits(high: nat, low: nat)
    requires HighSurrogate(high) && LowSurrogate(low)
    ensures var u := PairValue(high, low);
            u >= 0x10000 && high == 0xD800 + (u - 0x10000) / 0x400 && low == 0xDC00 + (u - 0x10000) % 0x400
  {
  }

  lemma PieceItem(source: Text, value: Text) returns (it: Item)
    requires Piece(source, value)
    ensures ValidItem(it) && RenderItem(it) == source && ItemValue(it) == value
  {
    hide Encoding, HexDigits, HexValue, Numbered;
    if u: Rune :| source == value == Encoded(u) && u >= 0x20 && u != '"' as int && u != '\\' as int {
      it := Raw(u);
    } else if k :| 0 <= k < 8 && source == ['\\' as int, "\"\\/bfnrt"[k] as int]
                   && value == [[0x22, 0x5C, 0x2F, 0x08, 0x0C, 0x0A, 0x0D, 0x09][k]] {
      it := Escape(source[1]);
      EscapeLaw(source[1]);
    } else if v: Rune :| 0 < v < 0x10000 && Numbered(source, v) && value == Encoded(v) {
      NumberedText(source, v);
      it := Hex(source[2..]);
    } else {
      var u: Rune :| u >= 0x10000 && |source| == 12 && value == Encoded(u)
                     && Numbered(source[..6], 0xD800 + (u - 0x10000) / 0x400) && Numbered(source[6..], 0xDC00 + (u - 0x10000) % 0x400);
      NumberedText(source[..6], 0xD800 + (u - 0x10000) / 0x400);
      NumberedText(source[6..], 0xDC00 + (u - 0x10000) % 0x400);
      var high, low := source[..6][2..], source[6..][2..];
      it := Pair(high, low);
      assert source == source[..6] + source[6..];
    }
  }

  lemma NumberedText(source: Text, v: nat)
    requires Numbered(source, v)
    ensures source == [BACKSLASH, LETTER_U] + source[2..] && HexDigits(source[2..]) && HexValue(source[2..]) == v
  {
    assert source == [BACKSLASH, LETTER_U] + source[2..];
    NumberedLaw(source[2..], v);
  }

  lemma {:induction false} Pieces(items: seq<Item>) returns (sources: seq<Text>, values: seq<Text>)
    requires ValidItems(items)
    ensures |sources| == |values| && forall k | 0 <= k < |sources| :: Piece(sources[k], values[k])
    ensures Joined(sources, []) == RenderItems(items) && Joined(values, []) == ItemsValue(items)
    decreases |items|
  {
    hide Piece, RenderItem, ItemValue, ValidItem;
    sources, values := [], [];
    if items != [] {
      ItemPiece(items[0]);
      var ss, vs := Pieces(items[1..]);
      sources, values := [RenderItem(items[0])] + ss, [ItemValue(items[0])] + vs;
      JoinedCons(RenderItem(items[0]), ss);
      JoinedCons(ItemValue(items[0]), vs);
    }
  }

  lemma {:induction false} FromPieces(sources: seq<Text>, values: seq<Text>) returns (items: seq<Item>)
    requires |sources| == |values| && forall k | 0 <= k < |sources| :: Piece(sources[k], values[k])
    ensures ValidItems(items) && RenderItems(items) == Joined(sources, []) && ItemsValue(items) == Joined(values, [])
    decreases |sources|
  {
    hide Piece, RenderItem, ItemValue, ValidItem;
    items := [];
    if sources != [] {
      var it := PieceItem(sources[0], values[0]);
      var rest := FromPieces(sources[1..], values[1..]);
      items := [it] + rest;
      assert items[1..] == rest;
      assert sources == [sources[0]] + sources[1..] && values == [values[0]] + values[1..];
      JoinedCons(sources[0], sources[1..]);
      JoinedCons(values[0], values[1..]);
    }
  }

  lemma JoinedCons(t: Text, ts: seq<Text>)
    ensures Joined([t] + ts, []) == t + Joined(ts, [])
  {
    assert ([t] + ts)[1..] == ts;
    assert ts != [] ==> [] + Joined(ts, []) == Joined(ts, []);
  }

  // ---------------------------------------------------------------------------------------------
  // Arrays
  // ---------------------------------------------------------------------------------------------

  /** An array is the texts of its elements, separated by commas. */
  lemma DecodeArray(t: Text, vs: seq<Json>) returns (before: Text, ts: seq<Text>, inner: Text, after: Text)
    requires Decode(t) == Some(Arr(vs))
    ensures Blank(before) && Blank(after) && t == before + ['[' as int] + inner + [']' as int] + after
    ensures if vs == [] then Blank(inner) else inner == Joined(ts, [',' as int])
    ensures |ts| == |vs| && forall i | 0 <= i < |vs| :: Decode(ts[i]) == Some(vs[i])
  {
    var b, c, a := TreeOf(t, Arr(vs));
    before, after := b, a;
    ts := ElemTexts(c.elems);
    inner := c.gap + RenderElems(c.elems);
    hide Blank, ValidElems, RenderElems, ElemValues;
    Bracketed(before, OPEN_ARRAY, c.gap, RenderElems(c.elems), CLOSE_ARRAY, after);
    NoElems(c.elems);
    if vs != [] {
      assert inner == Joined(ts, [',' as int]);
    } else {
      assert inner == c.gap;
    }
  }

  lemma NoBlank()
    ensures Blank([])
  {
  }

  lemma NoElems(es: seq<CElem>)
    ensures es == [] ==> RenderElems(es) == []
  {
  }

  lemma Bracketed(before: Text, open: Char, gap: Text, list: Text, close: Char, after: Text)
    ensures before + ([open] + (gap + (list + [close])) + after) == before + [open] + (gap + list) + [close] + after
  {
  }

  lemma ArrayDecodes(ts: seq<Text>, vs: seq<Json>, inner: Text)
    requires if vs == [] then Blank(inner) else inner == Joined(ts, [',' as int])
    requires |ts| == |vs| && forall i | 0 <= i < |vs| :: Decode(ts[i]) == Some(vs[i])
    ensures Decode(['[' as int] + inner + [']' as int]) == Some(Arr(vs))
  {
    hide Decode, Blank, ValidElems, RenderElems, ElemValues;
    var es := ElemsFrom(ts, vs);
    var gap := if vs == [] then inner else [];
    NoBlank();
    Bare(CArr(gap, es));
    NoElems(es);
    assert ['[' as int] + inner + [']' as int] == [OPEN_ARRAY] + (gap + (RenderElems(es) + [CLOSE_ARRAY]));
  }

  lemma {:induction false} ElemTexts(es: seq<CElem>) returns (ts: seq<Text>)
    requires ValidElems(es)
    ensures |ts| == |es| && forall i | 0 <= i < |es| :: Decode(ts[i]) == Some(ElemValues(es)[i])
    ensures Joined(ts, [',' as int]) == RenderElems(es)
    decreases |es|
  {
    hide Decode;
    ts := [];
    if es != [] {
      var rest := ElemTexts(es[1..]);
      DecodeComplete(es[0].pre, es[0].value, es[0].post);
      ts := [RenderElem(es[0])] + rest;
      assert ts[1..] == rest;
      assert ElemValues(es)[1..] == ElemValues(es[1..]);
    }
  }

  lemma ElemFrom(t: Text, v: Json) returns (e: CElem)
    requires Decode(t) == Some(v)
    ensures ValidElem(e) && RenderElem(e) == t && ElemValue(e) == v
  {
    var before, c, after := TreeOf(t, v);
    e := CElem(before, c, after);
  }

  lemma {:induction false} ElemsFrom(ts: seq<Text>, vs: seq<Json>) returns (es: seq<CElem>)
    requires |ts| == |vs| && forall i | 0 <= i < |vs| :: Decode(ts[i]) == Some(vs[i])
    ensures ValidElems(es) && |es| == |ts| && ElemValues(es) == vs && RenderElems(es) == Joined(ts, [',' as int])
    decreases |ts|
  {
    hide Decode, ValidElem, RenderElem, ElemValue;
    es := [];
    if ts != [] {
      var e := ElemFrom(ts[0], vs[0]);
      var rest := ElemsFrom(ts[1..], vs[1..]);
      es := [e] + rest;
      assert es[1..] == rest && vs == [vs[0]] + vs[1..];
    }
  }

  // ---------------------------------------------------------------------------------------------
  // Objects
  // ---------------------------------------------------------------------------------------------

  /** An object is the texts of its keys and values, with colons between and separated by commas. */
  lemma DecodeObject(t: Text, ms: seq<Member>)
      returns (before: Text, ks: seq<Text>, ts: seq<Text>, members: seq<Text>, inner: Text, after: Text)
    requires Decode(t) == Some(Obj(ms))
    ensures Blank(before) && Blank(after) && t == before + ['{' as int] + inner + ['}' as int] + after
    ensures if ms == [] then Blank(inner) else inner == Joined(members, [',' as int])
    ensures |ks| == |ts| == |members| == |ms|
    ensures forall i | 0 <= i < |ms| ::
      && members[i] == ks[i] + [':' as int] + ts[i]
      && Decode(ks[i]) == Some(Str(ms[i].key)) && Decode(ts[i]) == Some(ms[i].value)
  {
    var b, c, a := TreeOf(t, Obj(ms));
    before, after := b, a;
    ks, ts, members := MemberTexts(c.members);
    inner := c.gap + RenderMembers(c.members);
    hide Decode, Blank, ValidMembers, RenderMembers, MemberValues;
    Bracketed(before, OPEN_OBJECT, c.gap, RenderMembers(c.members), CLOSE_OBJECT, after);
    NoMembers(c.members);
    if ms != [] {
      assert inner == Joined(members, [',' as int]);
    } else {
      assert inner == c.gap;
    }
  }

  lemma NoMembers(ms: seq<CMember>)
    ensures ms == [] ==> RenderMembers(ms) == []
  {
  }

  lemma ObjectDecodes(ks: seq<Text>, ts: seq<Text>, ms: seq<Member>, members: seq<Text>, inner: Text)
    requires if ms == [] then Blank(inner) else inner == Joined(members, [',' as int])
    requires |ks| == |ts| == |members| == |ms|
    requires forall i | 0 <= i < |ms| ::
      && members[i] == ks[i] + [':' as int] + ts[i]
      && Decode(ks[i]) == Some(Str(ms[i].key)) && Decode(ts[i]) == Some(ms[i].value)
    ensures Decode(['{' as int] + inner + ['}' as int]) == Some(Obj(ms))
  {
    hide Decode, Blank, ValidMembers, RenderMembers, MemberValues;
    var cs := MembersFrom(ks, ts, ms, members);
    var gap := if ms == [] then inner else [];
    NoBlank();
    Bare(CObj(gap, cs));
    NoMembers(cs);
    assert ['{' as int] + inner + ['}' as int] == [OPEN_OBJECT] + (gap + (RenderMembers(cs) + [CLOSE_OBJECT]));
  }

  lemma MemberText(m: CMember) returns (k: Text, t: Text)
    requires ValidMember(m)
    ensures RenderMember(m) == k + [':' as int] + t
    ensures Decode(k) == Some(Str(MemberValue(m).key)) && Decode(t) == Some(MemberValue(m).value)
  {
    hide Decode;
    DecodeComplete(m.pre, CStr(m.key), m.mid);
    DecodeComplete(m.elem.pre, m.elem.value, m.elem.post);
    k, t := m.pre + (RenderString(m.key) + m.mid), RenderElem(m.elem);
    hide RenderString, RenderElem, Blank, ValidItems, ValidElem;
    assert m.pre + (RenderString(m.key) + (m.mid + ([COLON] + t))) == k + [':' as int] + t;
  }

  lemma {:induction false} MemberTexts(cs: seq<CMember>) returns (ks: seq<Text>, ts: seq<Text>, members: seq<Text>)
    requires ValidMembers(cs)
    ensures |ks| == |ts| == |members| == |cs| && Joined(members, [',' as int]) == RenderMembers(cs)
    ensures forall i | 0 <= i < |cs| ::
      && members[i] == ks[i] + [':' as int] + ts[i]
      && Decode(ks[i]) == Some(Str(MemberValues(cs)[i].key)) && Decode(ts[i]) == Some(MemberValues(cs)[i].value)
    decreases |cs|
  {
    hide Decode, ValidMember, RenderMember, MemberValue;
    ks, ts, members := [], [], [];
    if cs != [] {
      var k, t := MemberText(cs[0]);
      var ks', ts', members' := MemberTexts(cs[1..]);
      ks, ts, members := [k] + ks', [t] + ts', [RenderMember(cs[0])] + members';
      assert members[1..] == members';
      assert MemberValues(cs)[0] == MemberValue(cs[0]) && MemberValues(cs)[1..] == MemberValues(cs[1..]);
    }
  }

  lemma MemberFrom(k: Text, t: Text, m: Member) returns (c: CMember)
    requires Decode(k) == Some(Str(m.key)) && Decode(t) == Some(m.value)
    ensures ValidMember(c) && RenderMember(c) == k + [':' as int] + t && MemberValue(c) == m
  {
    hide Decode, RenderString, RenderElem, Blank, ValidItems, ItemsValue, ValidElem, ElemValue;
    var before, items, after := KeyFrom(k, m.key);
    var e := ElemFrom(t, m.value);
    c := CMember(before, items, after, e);
    assert before + (RenderString(items) + (after + ([COLON] + t))) == before + (RenderString(items) + after) + [':' as int] + t;
  }

  lemma KeyFrom(k: Text, key: Text) returns (before: Text, items: seq<Item>, after: Text)
    requires Decode(k) == Some(Str(key))
    ensures Blank(before) && Blank(after) && ValidItems(items) && ItemsValue(items) == key
    ensures k == before + (RenderString(items) + after)
  {
    hide Decode, RenderString, Blank, ValidItems, ItemsValue;
    var b, c, a := TreeOf(k, Str(key));
    before, items, after := b, c.items, a;
  }

  lemma {:induction false} MembersFrom(ks: seq<Text>, ts: seq<Text>, ms: seq<Member>, members: seq<Text>) returns (cs: seq<CMember>)
    requires |ks| == |ts| == |members| == |ms|
    requires forall i | 0 <= i < |ms| ::
      && members[i] == ks[i] + [':' as int] + ts[i]
      && Decode(ks[i]) == Some(Str(ms[i].key)) && Decode(ts[i]) == Some(ms[i].value)
    ensures ValidMembers(cs) && |cs| == |ms| && MemberValues(cs) == ms && RenderMembers(cs) == Joined(members, [',' as int])
    decreases |ms|
  {
    hide Decode, ValidMember, RenderMember, MemberValue;
    cs := [];
    if ms != [] {
      var c := MemberFrom(ks[0], ts[0], ms[0]);
      var rest := MembersFrom(ks[1..], ts[1..], ms[1..], members[1..]);
      cs := [c] + rest;
      assert cs[1..] == rest && ms == [ms[0]] + ms[1..];
    }
  }
}
