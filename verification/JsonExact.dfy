/**
 The parser accepts exactly the grammar: every successful parse is the rendering of a valid syntax
 tree (soundness), and every rendering of a valid syntax tree is parsed back to its value
 (completeness).
 */
module JsonExact {
  import opened Options
  import opened Chars
  import opened Utf8
  import opened JsonGrammar
  import opened JsonParser

  /** The characters of `t` from `i` up to `j` spell `a`. */
  ghost predicate Spells(t: Text, i: nat, j: nat, a: Text) {
    i <= j <= |t| && t[i..j] == a
  }

  lemma Split(t: Text, i: nat, j: nat, a: Text, b: Text)
    requires Spells(t, i, j, a + b)
    ensures Spells(t, i, i + |a|, a) && Spells(t, i + |a|, j, b)
  {
    assert t[i..i + |a|] == t[i..j][..|a|];
    assert t[i + |a|..j] == t[i..j][|a|..];
  }

  lemma Join(t: Text, i: nat, k: nat, j: nat, a: Text, b: Text)
    requires Spells(t, i, k, a) && Spells(t, k, j, b)
    ensures Spells(t, i, j, a + b)
  {
    assert t[i..j] == t[i..k] + t[k..j];
  }

  lemma First(t: Text, i: nat, j: nat, a: Text)
    requires Spells(t, i, j, a) && a != []
    ensures i < j && At(t, i) == a[0]
  {
    assert t[i..j][0] == a[0];
  }

  lemma Length(t: Text, i: nat, k: nat, a: Text)
    requires Spells(t, i, k, a)
    ensures k == i + |a| <= |t|
  {
  }

  lemma Assoc(a: Text, b: Text, c: Text)
    ensures (a + b) + c == a + (b + c)
  {
  }

  lemma One(t: Text, i: nat)
    requires i < |t|
    ensures Spells(t, i, i + 1, [t[i]])
  {
  }

  // ---------------------------------------------------------------------------------------------
  // White space
  // ---------------------------------------------------------------------------------------------

  lemma {:induction false} SkipSound(t: Text, i: nat) returns (w: Text)
    requires i <= |t|
    ensures Blank(w) && Spells(t, i, Skip(t, i), w)
    decreases |t| - i
  {
    if IsSpace(At(t, i)) {
      var w' := SkipSound(t, i + 1);
      w := [t[i]] + w';
      One(t, i);
      Join(t, i, i + 1, Skip(t, i), [t[i]], w');
    } else {
      w := [];
    }
  }

  lemma {:induction false} SkipComplete(t: Text, i: nat, k: nat, w: Text)
    requires Spells(t, i, k, w) && Blank(w) && !IsSpace(At(t, k))
    ensures Skip(t, i) == k
    decreases |w|
  {
    if w != [] {
      First(t, i, k, w);
      assert w == [w[0]] + w[1..];
      Split(t, i, k, [w[0]], w[1..]);
      SkipComplete(t, i + 1, k, w[1..]);
    }
  }

  // ---------------------------------------------------------------------------------------------
  // Numbers
  // ---------------------------------------------------------------------------------------------

  lemma {:induction false} DigitsSound(t: Text, i: nat) returns (d: Text)
    requires i <= |t| && IsDigit(At(t, i))
    ensures Digits(d) && Spells(t, i, DigitsEnd(t, i), d)
    decreases |t| - i
  {
    One(t, i);
    d := [t[i]];
    if IsDigit(At(t, i + 1)) {
      var d' := DigitsSound(t, i + 1);
      Join(t, i, i + 1, DigitsEnd(t, i), d, d');
      d := d + d';
    }
  }

  lemma {:induction false} DigitsComplete(t: Text, i: nat, k: nat, d: Text)
    requires Spells(t, i, k, d) && Digits(d) && !IsDigit(At(t, k))
    ensures DigitsEnd(t, i) == k && IsDigit(At(t, i))
    decreases |d|
  {
    First(t, i, k, d);
    assert d == [d[0]] + d[1..];
    Split(t, i, k, [d[0]], d[1..]);
    if |d| > 1 {
      DigitsComplete(t, i + 1, k, d[1..]);
    }
  }

  lemma IntegerSound(t: Text, i: nat) returns (integer: Text)
    requires i <= |t| && IntegerEnd(t, i).Some?
    ensures ValidInteger(integer) && Spells(t, i, IntegerEnd(t, i).value, integer)
  {
    One(t, i);
    integer := [t[i]];
    if t[i] != ZERO {
      integer := DigitsSound(t, i);
      First(t, i, DigitsEnd(t, i), integer);
    }
  }

  lemma IntegerComplete(t: Text, i: nat, k: nat, integer: Text)
    requires Spells(t, i, k, integer) && ValidInteger(integer) && !IsDigit(At(t, k))
    ensures IntegerEnd(t, i) == Some(k) && MinusEnd(t, i) == i && IsDigit(At(t, i))
  {
    First(t, i, k, integer);
    if integer != [ZERO] {
      DigitsComplete(t, i, k, integer);
    }
  }

  lemma FracSound(t: Text, i: nat) returns (frac: Option<Text>)
    requires i <= |t| && FracEnd(t, i).Some?
    ensures frac.Some? ==> Digits(frac.value)
    ensures Spells(t, i, FracEnd(t, i).value, RenderFrac(frac))
  {
    frac := None;
    if At(t, i) == POINT {
      One(t, i);
      var d := DigitsSound(t, i + 1);
      Join(t, i, i + 1, FracEnd(t, i).value, [POINT], d);
      frac := Some(d);
    }
  }

  lemma FracComplete(t: Text, i: nat, k: nat, frac: Option<Text>)
    requires Spells(t, i, k, RenderFrac(frac)) && (frac.Some? ==> Digits(frac.value))
    requires !IsDigit(At(t, k)) && At(t, k) != POINT
    ensures FracEnd(t, i) == Some(k) && !IsDigit(At(t, i))
  {
    if frac.Some? {
      First(t, i, k, RenderFrac(frac));
      Split(t, i, k, [POINT], frac.value);
      DigitsComplete(t, i + 1, k, frac.value);
    }
  }

  lemma ExpSound(t: Text, i: nat) returns (exp: Option<Exponent>)
    requires i <= |t| && ExpEnd(t, i).Some?
    ensures ValidExponent(exp) && Spells(t, i, ExpEnd(t, i).value, RenderExp(exp))
  {
    exp := None;
    if At(t, i) == 0x45 || At(t, i) == 0x65 {
      var d, k := SignEnd(t, i + 1), ExpEnd(t, i).value;
      One(t, i);
      var sign := [];
      if At(t, i + 1) == PLUS || At(t, i + 1) == MINUS {
        One(t, i + 1);
        sign := [t[i + 1]];
      }
      var digits := DigitsSound(t, d);
      Join(t, i, i + 1, d, [t[i]], sign);
      Join(t, i, d, k, [t[i]] + sign, digits);
      exp := Some(Exponent(t[i], sign, digits));
    }
  }

  lemma ExpComplete(t: Text, i: nat, k: nat, exp: Option<Exponent>)
    requires Spells(t, i, k, RenderExp(exp)) && ValidExponent(exp) && NumberEnd(At(t, k))
    ensures ExpEnd(t, i) == Some(k) && !IsDigit(At(t, i)) && At(t, i) != POINT
  {
    if exp.Some? {
      var Exponent(e, sign, digits) := exp.value;
      First(t, i, k, RenderExp(exp));
      Split(t, i, k, [e] + sign, digits);
      Split(t, i, i + 1 + |sign|, [e], sign);
      First(t, i + 1 + |sign|, k, digits);
      if sign != [] {
        First(t, i + 1, i + 2, sign);
      }
      assert SignEnd(t, i + 1) == i + 1 + |sign|;
      DigitsComplete(t, i + 1 + |sign|, k, digits);
    }
  }

  /** The character behind a number does not continue it. */
  predicate NumberEnd(b: Byte) {
    !IsDigit(b) && b != POINT && b != 0x45 && b != 0x65
  }

  lemma NumberSound(t: Text, i: nat) returns (n: Number)
    requires i <= |t| && ParseNumber(t, i).Ok?
    ensures ValidNumber(n) && RenderNumber(n) == ParseNumber(t, i).value
    ensures Spells(t, i, ParseNumber(t, i).next, RenderNumber(n))
  {
    var minus := At(t, i) == MINUS;
    var i0 := MinusEnd(t, i);
    var i1 := IntegerEnd(t, i0).value;
    var i2 := FracEnd(t, i1).value;
    var i3 := ExpEnd(t, i2).value;
    var integer := IntegerSound(t, i0);
    var frac := FracSound(t, i1);
    var exp := ExpSound(t, i2);
    n := Number(minus, integer, frac, exp);
    Join(t, i1, i2, i3, RenderFrac(frac), RenderExp(exp));
    Join(t, i0, i1, i3, integer, RenderFrac(frac) + RenderExp(exp));
    if minus {
      One(t, i);
    }
    Join(t, i, i0, i3, RenderSign(minus), integer + (RenderFrac(frac) + RenderExp(exp)));
  }

  lemma NumberFromParts(t: Text, i: nat, i1: nat, i2: nat, k: nat, a: Text)
    requires i <= i1 <= i2 <= k <= |t| && Spells(t, i, k, a)
    requires IntegerEnd(t, MinusEnd(t, i)) == Some(i1) && FracEnd(t, i1) == Some(i2) && ExpEnd(t, i2) == Some(k)
    ensures ParseNumber(t, i) == Ok(a, k)
  {
  }

  lemma NumberComplete(t: Text, i: nat, k: nat, n: Number)
    requires Spells(t, i, k, RenderNumber(n)) && ValidNumber(n) && NumberEnd(At(t, k))
    ensures ParseNumber(t, i) == Ok(RenderNumber(n), k)
    ensures At(t, i) == MINUS || IsDigit(At(t, i))
  {
    hide Spells, RenderFrac, RenderExp, ValidExponent, IntegerEnd, FracEnd, ExpEnd, Digits, ParseNumber;
    var tail := RenderFrac(n.frac) + RenderExp(n.exp);
    Split(t, i, k, RenderSign(n.minus), n.integer + tail);
    var i0 := i + |RenderSign(n.minus)|;
    Split(t, i0, k, n.integer, tail);
    var i1 := i0 + |n.integer|;
    Split(t, i1, k, RenderFrac(n.frac), RenderExp(n.exp));
    var i2 := i1 + |RenderFrac(n.frac)|;
    ExpComplete(t, i2, k, n.exp);
    FracComplete(t, i1, i2, n.frac);
    IntegerComplete(t, i0, i1, n.integer);
    if n.minus {
      First(t, i, i0, [MINUS]);
    }
    NumberFromParts(t, i, i1, i2, k, RenderNumber(n));
  }

  /** number_is_valid: a text is a number exactly when the parser consumes all of it. */
  lemma LexemeIsParsed(t: Text)
    ensures Lexeme(t) <==> ParseNumber(t, 0).Ok? && At(t, ParseNumber(t, 0).next) == 0
  {
    if n: Number :| ValidNumber(n) && t == RenderNumber(n) {
      NumberComplete(t, 0, |t|, n);
    }
    if ParseNumber(t, 0).Ok? && At(t, ParseNumber(t, 0).next) == 0 {
      var n := NumberSound(t, 0);
    }
  }

  // ---------------------------------------------------------------------------------------------
  // String literals
  // ---------------------------------------------------------------------------------------------

  lemma FirstByte(u: Rune)
    ensures u <= 0x7F ==> Encoded(u) == [u]
    ensures u > 0x7F ==> Encoded(u)[0] > 0x7F
  {
  }

  lemma ItemSound(t: Text, i: nat) returns (it: Item)
    requires i <= |t| && At(t, i) != QUOTE && ParseChar(t, i).Ok?
    ensures ValidItem(it) && ItemValue(it) == ParseChar(t, i).value
    ensures Spells(t, i, ParseChar(t, i).next, RenderItem(it))
  {
    if t[i] != BACKSLASH {
      var u := ReadChar(t[i..]);
      it := Raw(u);
      assert t[i..][..ValidateCz(t[i..])] == t[i..i + ValidateCz(t[i..])];
      FirstByte(u);
      assert Encoded(u)[0] == t[i];
    } else if t[i + 1] != LETTER_U {
      it := Escape(t[i + 1]);
    } else {
      it := UnicodeSound(t, i);
    }
  }

  lemma UnicodeSound(t: Text, i: nat) returns (it: Item)
    requires i + 2 <= |t| && t[i] == BACKSLASH && t[i + 1] == LETTER_U && ParseUnicode(t, i + 2).Ok?
    ensures ValidItem(it) && ItemValue(it) == ParseUnicode(t, i + 2).value
    ensures Spells(t, i, ParseUnicode(t, i + 2).next, RenderItem(it))
  {
    hide HexValue, PairValue;
    var h := t[i + 2..i + 6];
    Join(t, i, i + 2, i + 6, [BACKSLASH, LETTER_U], h);
    if Surrogate(HexValue(h)) {
      var low := t[i + 8..i + 12];
      it := Pair(h, low);
      Join(t, i + 6, i + 8, i + 12, [BACKSLASH, LETTER_U], low);
      Join(t, i, i + 6, i + 12, [BACKSLASH, LETTER_U] + h, [BACKSLASH, LETTER_U] + low);
    } else {
      it := Hex(h);
    }
  }

  lemma RawComplete(t: Text, i: nat, k: nat, u: Rune)
    requires Spells(t, i, k, Encoded(u)) && ValidItem(Raw(u))
    ensures At(t, i) != QUOTE && ParseChar(t, i) == Ok(Encoded(u), k)
  {
    assert t[i..] == Encoded(u) + t[k..];
    ReadWritten(u, t[k..]);
    FirstByte(u);
    First(t, i, k, Encoded(u));
  }

  lemma HexComplete(t: Text, i: nat, k: nat, h: Text)
    requires Spells(t, i, k, [BACKSLASH, LETTER_U] + h) && HexDigits(h)
    ensures k == i + 6 && t[i] == BACKSLASH && t[i + 1] == LETTER_U && ParseHex16(t, i + 2) == Ok(HexValue(h), k)
  {
    Split(t, i, k, [BACKSLASH, LETTER_U], h);
    assert t[i..i + 2][0] == t[i] && t[i..i + 2][1] == t[i + 1];
  }

  lemma ItemComplete(t: Text, i: nat, k: nat, it: Item)
    requires Spells(t, i, k, RenderItem(it)) && ValidItem(it)
    ensures At(t, i) != QUOTE && ParseChar(t, i) == Ok(ItemValue(it), k)
  {
    match it
    case Raw(u) =>
      RawComplete(t, i, k, u);
    case Escape(c) =>
      assert t[i..k][0] == t[i] && t[i..k][1] == t[i + 1];
    case Hex(h) =>
      HexComplete(t, i, k, h);
    case Pair(high, low) =>
      Split(t, i, k, [BACKSLASH, LETTER_U] + high, [BACKSLASH, LETTER_U] + low);
      HexComplete(t, i, i + 6, high);
      HexComplete(t, i + 6, k, low);
  }

  lemma {:induction false} CharsSound(t: Text, i: nat) returns (items: seq<Item>)
    requires i <= |t| && ParseChars(t, i).Ok?
    ensures ValidItems(items) && ItemsValue(items) == ParseChars(t, i).value
    ensures Spells(t, i, ParseChars(t, i).next, RenderItems(items) + [QUOTE])
    decreases |t| - i
  {
    if t[i] == QUOTE {
      items := [];
      One(t, i);
    } else {
      var it := ItemSound(t, i);
      var k := ParseChar(t, i).next;
      var tail := CharsSound(t, k);
      items := [it] + tail;
      assert items[1..] == tail;
      Join(t, i, k, ParseChars(t, i).next, RenderItem(it), RenderItems(tail) + [QUOTE]);
      assert RenderItem(it) + (RenderItems(tail) + [QUOTE]) == RenderItems(items) + [QUOTE];
    }
  }

  lemma RenderItemsStep(items: seq<Item>)
    ensures if items == [] then RenderItems(items) + [QUOTE] == [QUOTE]
            else RenderItems(items) + [QUOTE] == RenderItem(items[0]) + (RenderItems(items[1..]) + [QUOTE])
  {
  }

  lemma {:induction false} CharsComplete(t: Text, i: nat, k: nat, items: seq<Item>)
    requires Spells(t, i, k, RenderItems(items) + [QUOTE]) && ValidItems(items)
    ensures ParseChars(t, i) == Ok(ItemsValue(items), k)
    decreases |items|
  {
    hide Spells, RenderItem, RenderItems, ItemValue, ParseChar;
    RenderItemsStep(items);
    if items == [] {
      First(t, i, k, [QUOTE]);
      Length(t, i, k, [QUOTE]);
    } else {
      var head, tail := RenderItem(items[0]), RenderItems(items[1..]);
      Split(t, i, k, head, tail + [QUOTE]);
      ItemComplete(t, i, i + |head|, items[0]);
      CharsComplete(t, i + |head|, k, items[1..]);
    }
  }

  lemma StringSound(t: Text, i: nat) returns (items: seq<Item>)
    requires i <= |t| && ParseString(t, i).Ok?
    ensures ValidItems(items) && ItemsValue(items) == ParseString(t, i).value
    ensures Spells(t, i, ParseString(t, i).next, RenderString(items))
  {
    items := CharsSound(t, i + 1);
    One(t, i);
    Join(t, i, i + 1, ParseString(t, i).next, [QUOTE], RenderItems(items) + [QUOTE]);
  }

  lemma StringComplete(t: Text, i: nat, k: nat, items: seq<Item>)
    requires Spells(t, i, k, RenderString(items)) && ValidItems(items)
    ensures At(t, i) == QUOTE && ParseString(t, i) == Ok(ItemsValue(items), k)
  {
    First(t, i, k, RenderString(items));
    Split(t, i, k, [QUOTE], RenderItems(items) + [QUOTE]);
    CharsComplete(t, i + 1, k, items);
  }

  // ---------------------------------------------------------------------------------------------
  // Values: soundness
  // ---------------------------------------------------------------------------------------------

  lemma {:induction false} ValueSound(t: Text, i: nat) returns (c: Cst)
    requires i <= |t| && ParseValue(t, i).Ok?
    ensures Valid(c) && Value(c) == ParseValue(t, i).value
    ensures Spells(t, i, ParseValue(t, i).next, Render(c))
    decreases |t| - i, 0
  {
    var b := At(t, i);
    if b == 0x6E {
      c := CNull;
      assert NULL <= t[i..];
    } else if b == 0x66 {
      c := CBool(false);
      assert FALSE <= t[i..];
    } else if b == 0x74 {
      c := CBool(true);
      assert TRUE <= t[i..];
    } else if b == QUOTE {
      var items := StringSound(t, i);
      c := CStr(items);
    } else if b == OPEN_ARRAY {
      c := ArraySound(t, i);
    } else if b == OPEN_OBJECT {
      c := ObjectSound(t, i);
    } else {
      var n := NumberSound(t, i);
      c := CNum(n);
    }
  }

  lemma {:induction false} ArraySound(t: Text, i: nat) returns (c: Cst)
    requires i < |t| && t[i] == OPEN_ARRAY && ParseArray(t, i).Ok?
    ensures Valid(c) && Value(c) == ParseArray(t, i).value
    ensures Spells(t, i, ParseArray(t, i).next, Render(c))
    decreases |t| - i - 1, 9
  {
    hide Spells, Blank, Skip, RenderElems, ValidElems, ElemValues, ParseElems, Render, Valid, Value;
    var i1, k := Skip(t, i + 1), ParseArray(t, i).next;
    One(t, i);
    var w := SkipSound(t, i + 1);
    if At(t, i1) == CLOSE_ARRAY {
      c := EmptyArray(w);
      One(t, i1);
      Join(t, i + 1, i1, k, w, [CLOSE_ARRAY]);
      Join(t, i, i + 1, k, [OPEN_ARRAY], w + [CLOSE_ARRAY]);
    } else {
      var es := ElemsSound(t, i1);
      c := FullArray(w, es);
      Join(t, i + 1, i1, k, w, RenderElems(es) + [CLOSE_ARRAY]);
      Join(t, i, i + 1, k, [OPEN_ARRAY], w + (RenderElems(es) + [CLOSE_ARRAY]));
    }
  }

  lemma EmptyArray(w: Text) returns (c: Cst)
    requires Blank(w)
    ensures Valid(c) && Value(c) == Arr([]) && Render(c) == [OPEN_ARRAY] + (w + [CLOSE_ARRAY])
  {
    c := CArr(w, []);
    assert [] + [CLOSE_ARRAY] == [CLOSE_ARRAY];
  }

  lemma FullArray(w: Text, es: seq<CElem>) returns (c: Cst)
    requires Blank(w) && es != [] && es[0].pre == [] && ValidElems(es)
    ensures Valid(c) && Value(c) == Arr(ElemValues(es))
    ensures Render(c) == [OPEN_ARRAY] + (w + (RenderElems(es) + [CLOSE_ARRAY]))
  {
    hide ElemValues, RenderElems, ValidElems;
    var es' := IndentElems(w, es);
    c := CArr([], es');
    assert w + (RenderElems(es) + [CLOSE_ARRAY]) == [] + (RenderElems(es') + [CLOSE_ARRAY]);
  }

  lemma IndentElem(w: Text, e: CElem) returns (e': CElem)
    requires Blank(w) && e.pre == [] && ValidElem(e)
    ensures ValidElem(e') && ElemValue(e') == ElemValue(e) && RenderElem(e') == w + RenderElem(e)
  {
    e' := e.(pre := w);
    var body := Render(e.value) + e.post;
    assert [] + body == body;
  }

  /** The white space in front of a list of elements belongs to the first of them. */
  lemma IndentElems(w: Text, es: seq<CElem>) returns (es': seq<CElem>)
    requires Blank(w) && es != [] && es[0].pre == [] && ValidElems(es)
    ensures es' != [] && ValidElems(es') && ElemValues(es') == ElemValues(es)
    ensures RenderElems(es') == w + RenderElems(es)
  {
    hide RenderElem, ValidElem, ElemValue;
    var e' := IndentElem(w, es[0]);
    es' := [e'] + es[1..];
    assert es'[1..] == es[1..];
    Assoc(w, RenderElem(es[0]), [COMMA] + RenderElems(es[1..]));
  }

  lemma {:induction false} ElemsSound(t: Text, i: nat) returns (es: seq<CElem>)
    requires i <= |t| && ParseElems(t, i).Ok?
    ensures es != [] && es[0].pre == [] && ValidElems(es) && ElemValues(es) == ParseElems(t, i).value
    ensures Spells(t, i, ParseElems(t, i).next, RenderElems(es) + [CLOSE_ARRAY])
    decreases |t| - i, 2
  {
    hide Spells, Blank, Skip, Render, RenderElem, Valid, ValidElem, Value, ElemValue, ParseValue;
    var e, k1 := ElemSound(t, i);
    var k := ParseElems(t, i).next;
    One(t, k1);
    if At(t, k1) == CLOSE_ARRAY {
      es := [e];
      Join(t, i, k1, k, RenderElem(e), [CLOSE_ARRAY]);
    } else {
      var k2 := Skip(t, k1 + 1);
      var w := SkipSound(t, k1 + 1);
      var tail := ElemsSound(t, k2);
      var tail' := IndentElems(w, tail);
      es := [e] + tail';
      assert es[1..] == tail';
      Join(t, k1 + 1, k2, k, w, RenderElems(tail) + [CLOSE_ARRAY]);
      Join(t, k1, k1 + 1, k, [COMMA], w + (RenderElems(tail) + [CLOSE_ARRAY]));
      Join(t, i, k1, k, RenderElem(e), [COMMA] + (w + (RenderElems(tail) + [CLOSE_ARRAY])));
      assert RenderElem(e) + ([COMMA] + (w + (RenderElems(tail) + [CLOSE_ARRAY])))
          == RenderElem(e) + ([COMMA] + (w + RenderElems(tail))) + [CLOSE_ARRAY];
    }
  }

  lemma {:induction false} ElemSound(t: Text, i: nat) returns (e: CElem, k: nat)
    requires i <= |t| && ParseValue(t, i).Ok?
    ensures e.pre == [] && ValidElem(e) && ElemValue(e) == ParseValue(t, i).value
    ensures k == Skip(t, ParseValue(t, i).next) && Spells(t, i, k, RenderElem(e))
    decreases |t| - i, 1
  {
    hide Spells, Skip, Render, Valid, Value, ParseValue;
    var c := ValueSound(t, i);
    var next := ParseValue(t, i).next;
    var w := SkipSound(t, next);
    k := Skip(t, next);
    e := CElem([], c, w);
    Join(t, i, next, k, Render(c), w);
    assert [] + (Render(c) + w) == Render(c) + w;
  }

  lemma {:induction false} ObjectSound(t: Text, i: nat) returns (c: Cst)
    requires i < |t| && t[i] == OPEN_OBJECT && ParseObject(t, i).Ok?
    ensures Valid(c) && Value(c) == ParseObject(t, i).value
    ensures Spells(t, i, ParseObject(t, i).next, Render(c))
    decreases |t| - i - 1, 9
  {
    hide Spells, Blank, Skip, RenderMembers, ValidMembers, MemberValues, ParseMembers, Render, Valid, Value;
    var i1, k := Skip(t, i + 1), ParseObject(t, i).next;
    One(t, i);
    var w := SkipSound(t, i + 1);
    if At(t, i1) == CLOSE_OBJECT {
      c := EmptyObject(w);
      One(t, i1);
      Join(t, i + 1, i1, k, w, [CLOSE_OBJECT]);
      Join(t, i, i + 1, k, [OPEN_OBJECT], w + [CLOSE_OBJECT]);
    } else {
      var ms := MembersSound(t, i1);
      c := FullObject(w, ms);
      Join(t, i + 1, i1, k, w, RenderMembers(ms) + [CLOSE_OBJECT]);
      Join(t, i, i + 1, k, [OPEN_OBJECT], w + (RenderMembers(ms) + [CLOSE_OBJECT]));
    }
  }

  lemma EmptyObject(w: Text) returns (c: Cst)
    requires Blank(w)
    ensures Valid(c) && Value(c) == Obj([]) && Render(c) == [OPEN_OBJECT] + (w + [CLOSE_OBJECT])
  {
    c := CObj(w, []);
    assert [] + [CLOSE_OBJECT] == [CLOSE_OBJECT];
  }

  lemma FullObject(w: Text, ms: seq<CMember>) returns (c: Cst)
    requires Blank(w) && ms != [] && ms[0].pre == [] && ValidMembers(ms)
    ensures Valid(c) && Value(c) == Obj(MemberValues(ms))
    ensures Render(c) == [OPEN_OBJECT] + (w + (RenderMembers(ms) + [CLOSE_OBJECT]))
  {
    hide MemberValues, RenderMembers, ValidMembers;
    var ms' := IndentMembers(w, ms);
    c := CObj([], ms');
    assert w + (RenderMembers(ms) + [CLOSE_OBJECT]) == [] + (RenderMembers(ms') + [CLOSE_OBJECT]);
  }

  lemma IndentMember(w: Text, m: CMember) returns (m': CMember)
    requires Blank(w) && m.pre == [] && ValidMember(m)
    ensures ValidMember(m') && MemberValue(m') == MemberValue(m) && RenderMember(m') == w + RenderMember(m)
  {
    m' := m.(pre := w);
    var body := RenderString(m.key) + (m.mid + ([COLON] + RenderElem(m.elem)));
    assert [] + body == body;
  }

  lemma IndentMembers(w: Text, ms: seq<CMember>) returns (ms': seq<CMember>)
    requires Blank(w) && ms != [] && ms[0].pre == [] && ValidMembers(ms)
    ensures ms' != [] && ValidMembers(ms') && MemberValues(ms') == MemberValues(ms)
    ensures RenderMembers(ms') == w + RenderMembers(ms)
  {
    hide RenderMember, ValidMember, MemberValue;
    var m' := IndentMember(w, ms[0]);
    ms' := [m'] + ms[1..];
    assert ms'[1..] == ms[1..];
    Assoc(w, RenderMember(ms[0]), [COMMA] + RenderMembers(ms[1..]));
  }

  lemma {:induction false} MembersSound(t: Text, i: nat) returns (ms: seq<CMember>)
    requires i <= |t| && ParseMembers(t, i).Ok?
    ensures ms != [] && ms[0].pre == [] && ValidMembers(ms) && MemberValues(ms) == ParseMembers(t, i).value
    ensures Spells(t, i, ParseMembers(t, i).next, RenderMembers(ms) + [CLOSE_OBJECT])
    decreases |t| - i, 4
  {
    hide Spells, Blank, Skip, RenderMember, ValidMember, MemberValue, ParseMember;
    var m, k1 := MemberSound(t, i);
    var k := ParseMembers(t, i).next;
    One(t, k1);
    if At(t, k1) == CLOSE_OBJECT {
      ms := [m];
      Join(t, i, k1, k, RenderMember(m), [CLOSE_OBJECT]);
    } else {
      var k2 := Skip(t, k1 + 1);
      var w := SkipSound(t, k1 + 1);
      var tail := MembersSound(t, k2);
      var tail' := IndentMembers(w, tail);
      ms := [m] + tail';
      assert ms[1..] == tail';
      Join(t, k1 + 1, k2, k, w, RenderMembers(tail) + [CLOSE_OBJECT]);
      Join(t, k1, k1 + 1, k, [COMMA], w + (RenderMembers(tail) + [CLOSE_OBJECT]));
      Join(t, i, k1, k, RenderMember(m), [COMMA] + (w + (RenderMembers(tail) + [CLOSE_OBJECT])));
      assert RenderMember(m) + ([COMMA] + (w + (RenderMembers(tail) + [CLOSE_OBJECT])))
          == RenderMember(m) + ([COMMA] + (w + RenderMembers(tail))) + [CLOSE_OBJECT];
    }
  }

  lemma MakeMember(items: seq<Item>, mid: Text, e: CElem) returns (m: CMember)
    requires ValidItems(items) && Blank(mid) && ValidElem(e)
    ensures m.pre == [] && ValidMember(m) && MemberValue(m) == Member(ItemsValue(items), ElemValue(e))
    ensures RenderMember(m) == RenderString(items) + (mid + ([COLON] + RenderElem(e)))
  {
    m := CMember([], items, mid, e);
    var body := RenderString(items) + (mid + ([COLON] + RenderElem(e)));
    assert [] + body == body;
  }

  lemma {:induction false} MemberSound(t: Text, i: nat) returns (m: CMember, k: nat)
    requires i <= |t| && ParseMember(t, i).Ok?
    ensures m.pre == [] && ValidMember(m) && MemberValue(m) == ParseMember(t, i).value
    ensures k == Skip(t, ParseMember(t, i).next) && Spells(t, i, k, RenderMember(m))
    decreases |t| - i, 3
  {
    hide Spells, Blank, Skip, Render, RenderElem, Valid, ValidElem, Value, ElemValue, RenderString, ParseString,
      ParseValue, ItemsValue, ValidItems, RenderMember, ValidMember, MemberValue;
    var items := StringSound(t, i);
    var k0 := ParseString(t, i).next;
    var mid := SkipSound(t, k0);
    var k1 := Skip(t, k0);
    One(t, k1);
    var pre := SkipSound(t, k1 + 1);
    var k2 := Skip(t, k1 + 1);
    var e, k3 := ElemSound(t, k2);
    k := k3;
    var e' := IndentElem(pre, e);
    Join(t, k1 + 1, k2, k, pre, RenderElem(e));
    Join(t, k1, k1 + 1, k, [COLON], RenderElem(e'));
    Join(t, k0, k1, k, mid, [COLON] + RenderElem(e'));
    Join(t, i, k0, k, RenderString(items), mid + ([COLON] + RenderElem(e')));
    m := MakeMember(items, mid, e');
  }

  // ---------------------------------------------------------------------------------------------
  // Values: completeness
  // ---------------------------------------------------------------------------------------------

  /** The characters that can start a value. */
  predicate ValueStart(b: Byte) {
    b == 0x6E || b == 0x66 || b == 0x74 || b == QUOTE || b == OPEN_ARRAY || b == OPEN_OBJECT
    || b == MINUS || IsDigit(b)
  }

  /** The characters that can follow the white space behind an element. */
  predicate ElemEnd(b: Byte) {
    b == COMMA || b == CLOSE_ARRAY || b == CLOSE_OBJECT
  }

  lemma {:induction false} ValueComplete(t: Text, i: nat, k: nat, c: Cst)
    requires Spells(t, i, k, Render(c)) && Valid(c) && (c.CNum? ==> NumberEnd(At(t, k)))
    ensures ParseValue(t, i) == Ok(Value(c), k) && ValueStart(At(t, i))
    decreases c, 1
  {
    match c
    case CNull =>
      First(t, i, k, NULL);
      assert t[i..k] <= t[i..];
    case CBool(b) =>
      First(t, i, k, if b then TRUE else FALSE);
      assert t[i..k] <= t[i..];
    case CStr(items) =>
      StringComplete(t, i, k, items);
    case CNum(n) =>
      NumberComplete(t, i, k, n);
    case CArr(gap, elems) =>
      ArrayComplete(t, i, k, gap, elems);
    case CObj(gap, members) =>
      ObjectComplete(t, i, k, gap, members);
  }

  /** The rest of an empty array or object. */
  lemma ClosedComplete(t: Text, i: nat, k: nat, gap: Text, close: Char)
    requires Spells(t, i, k, gap + [close]) && Blank(gap) && !IsSpace(close)
    ensures i <= |t| && At(t, Skip(t, i)) == close && k == Skip(t, i) + 1
  {
    hide Spells, Blank, Skip, IsSpace, At;
    Split(t, i, k, gap, [close]);
    First(t, i + |gap|, k, [close]);
    Length(t, i + |gap|, k, [close]);
    SkipComplete(t, i, i + |gap|, gap);
  }

  lemma {:induction false} ArrayComplete(t: Text, i: nat, k: nat, gap: Text, elems: seq<CElem>)
    requires Spells(t, i, k, Render(CArr(gap, elems))) && Valid(CArr(gap, elems))
    ensures At(t, i) == OPEN_ARRAY && ParseArray(t, i) == Ok(Arr(ElemValues(elems)), k)
    decreases elems, 1
  {
    hide Spells, Blank, Skip, ValidElems, ElemValues, ParseElems;
    var body := RenderElems(elems) + [CLOSE_ARRAY];
    First(t, i, k, [OPEN_ARRAY] + (gap + body));
    Split(t, i, k, [OPEN_ARRAY], gap + body);
    if elems == [] {
      assert gap + body == gap + [CLOSE_ARRAY];
      ClosedComplete(t, i + 1, k, gap, CLOSE_ARRAY);
    } else {
      Split(t, i + 1, k, gap, body);
      ElemsComplete(t, i + 1, k, elems);
    }
  }

  lemma {:induction false} ElemComplete(t: Text, i: nat, k: nat, e: CElem)
    requires Spells(t, i, k, RenderElem(e)) && ValidElem(e) && ElemEnd(At(t, k))
    ensures i <= |t| && ValueStart(At(t, Skip(t, i)))
    ensures var r := ParseValue(t, Skip(t, i)); r.Ok? && r.value == ElemValue(e) && Skip(t, r.next) == k
    decreases e, 1
  {
    hide Spells, Skip, Render, Valid, Value, ParseValue;
    var i1 := i + |e.pre|;
    var i2 := i1 + |Render(e.value)|;
    Split(t, i, k, e.pre, Render(e.value) + e.post);
    Split(t, i1, k, Render(e.value), e.post);
    Length(t, i2, k, e.post);
    SkipComplete(t, i2, k, e.post);
    if e.post != [] {
      First(t, i2, k, e.post);
    }
    ValueComplete(t, i1, i2, e.value);
    SkipComplete(t, i, i1, e.pre);
  }

  lemma {:induction false} ElemsComplete(t: Text, i: nat, k: nat, es: seq<CElem>)
    requires Spells(t, i, k, RenderElems(es) + [CLOSE_ARRAY]) && ValidElems(es) && es != []
    ensures i <= |t| && ValueStart(At(t, Skip(t, i)))
    ensures ParseElems(t, Skip(t, i)) == Ok(ElemValues(es), k)
    decreases es, 0
  {
    hide Spells, Blank, Skip, Render, RenderElem, Valid, ValidElem, Value, ElemValue, ParseValue;
    var head := RenderElem(es[0]);
    var k1 := i + |head|;
    if |es| == 1 {
      Split(t, i, k, head, [CLOSE_ARRAY]);
      First(t, k1, k, [CLOSE_ARRAY]);
      Length(t, k1, k, [CLOSE_ARRAY]);
      ElemComplete(t, i, k1, es[0]);
      assert ElemValues(es) == [ElemValue(es[0])];
    } else {
      var tail := RenderElems(es[1..]) + [CLOSE_ARRAY];
      assert RenderElems(es) + [CLOSE_ARRAY] == head + ([COMMA] + tail);
      Split(t, i, k, head, [COMMA] + tail);
      First(t, k1, k, [COMMA] + tail);
      Split(t, k1, k, [COMMA], tail);
      ElemComplete(t, i, k1, es[0]);
      ElemsComplete(t, k1 + 1, k, es[1..]);
    }
  }

  lemma {:induction false} ObjectComplete(t: Text, i: nat, k: nat, gap: Text, members: seq<CMember>)
    requires Spells(t, i, k, Render(CObj(gap, members))) && Valid(CObj(gap, members))
    ensures At(t, i) == OPEN_OBJECT && ParseObject(t, i) == Ok(Obj(MemberValues(members)), k)
    decreases members, 1
  {
    hide Spells, Blank, Skip, ValidMembers, MemberValues, ParseMembers;
    var body := RenderMembers(members) + [CLOSE_OBJECT];
    First(t, i, k, [OPEN_OBJECT] + (gap + body));
    Split(t, i, k, [OPEN_OBJECT], gap + body);
    if members == [] {
      assert gap + body == gap + [CLOSE_OBJECT];
      ClosedComplete(t, i + 1, k, gap, CLOSE_OBJECT);
    } else {
      Split(t, i + 1, k, gap, body);
      MembersComplete(t, i + 1, k, members);
    }
  }

  lemma {:induction false} MemberComplete(t: Text, i: nat, k: nat, m: CMember)
    requires Spells(t, i, k, RenderMember(m)) && ValidMember(m) && ElemEnd(At(t, k))
    ensures i <= |t| && At(t, Skip(t, i)) == QUOTE
    ensures var r := ParseMember(t, Skip(t, i)); r.Ok? && r.value == MemberValue(m) && Skip(t, r.next) == k
    decreases m, 1
  {
    hide Spells, Blank, Skip, Render, RenderElem, Valid, ValidElem, Value, ElemValue, ParseValue, ParseString,
      RenderString, ItemsValue, ValidItems;
    var i1 := i + |m.pre|;
    var i2 := i1 + |RenderString(m.key)|;
    var i3 := i2 + |m.mid|;
    Split(t, i, k, m.pre, RenderString(m.key) + (m.mid + ([COLON] + RenderElem(m.elem))));
    Split(t, i1, k, RenderString(m.key), m.mid + ([COLON] + RenderElem(m.elem)));
    Split(t, i2, k, m.mid, [COLON] + RenderElem(m.elem));
    First(t, i3, k, [COLON] + RenderElem(m.elem));
    Split(t, i3, k, [COLON], RenderElem(m.elem));
    StringComplete(t, i1, i2, m.key);
    SkipComplete(t, i, i1, m.pre);
    SkipComplete(t, i2, i3, m.mid);
    ElemComplete(t, i3 + 1, k, m.elem);
  }

  lemma {:induction false} MembersComplete(t: Text, i: nat, k: nat, ms: seq<CMember>)
    requires Spells(t, i, k, RenderMembers(ms) + [CLOSE_OBJECT]) && ValidMembers(ms) && ms != []
    ensures i <= |t| && At(t, Skip(t, i)) == QUOTE
    ensures ParseMembers(t, Skip(t, i)) == Ok(MemberValues(ms), k)
    decreases ms, 0
  {
    hide Spells, Blank, Skip, RenderMember, ValidMember, MemberValue, ParseMember;
    var head := RenderMember(ms[0]);
    var k1 := i + |head|;
    if |ms| == 1 {
      Split(t, i, k, head, [CLOSE_OBJECT]);
      First(t, k1, k, [CLOSE_OBJECT]);
      Length(t, k1, k, [CLOSE_OBJECT]);
      MemberComplete(t, i, k1, ms[0]);
      assert MemberValues(ms) == [MemberValue(ms[0])];
    } else {
      var tail := RenderMembers(ms[1..]) + [CLOSE_OBJECT];
      assert RenderMembers(ms) + [CLOSE_OBJECT] == head + ([COMMA] + tail);
      Split(t, i, k, head, [COMMA] + tail);
      First(t, k1, k, [COMMA] + tail);
      Split(t, k1, k, [COMMA], tail);
      MemberComplete(t, i, k1, ms[0]);
      MembersComplete(t, k1 + 1, k, ms[1..]);
    }
  }

  // ---------------------------------------------------------------------------------------------
  // Whole texts
  // ---------------------------------------------------------------------------------------------

  /** json_decode accepts exactly the JSON texts, with the value the grammar gives them. */
  lemma DecodeExact(t: Text, v: Json)
    ensures Decode(t) == Some(v) <==> JsonText(t, v)
  {
    if Decode(t) == Some(v) {
      var i := Skip(t, 0);
      var before := SkipSound(t, 0);
      var c := ValueSound(t, i);
      var k := ParseValue(t, i).next;
      var after := SkipSound(t, k);
      Join(t, i, k, |t|, Render(c), after);
      Join(t, 0, i, |t|, before, Render(c) + after);
      assert t[0..|t|] == t;
      assert JsonTextWith(t, v, before, c, after);
    }
    if before, c, after :| JsonTextWith(t, v, before, c, after) {
      DecodeComplete(before, c, after);
    }
  }

  lemma DecodeComplete(before: Text, c: Cst, after: Text)
    requires Blank(before) && Valid(c) && Blank(after)
    ensures Decode(before + (Render(c) + after)) == Some(Value(c))
  {
    var t := before + (Render(c) + after);
    var i := |before|;
    var k := i + |Render(c)|;
    assert Spells(t, 0, |t|, t);
    hide Spells, Render, Valid, Value, ParseValue, Skip;
    Split(t, 0, |t|, before, Render(c) + after);
    Split(t, i, |t|, Render(c), after);
    if after != [] {
      First(t, k, |t|, after);
    }
    Length(t, k, |t|, after);
    ValueComplete(t, i, k, c);
    SkipComplete(t, 0, i, before);
    SkipComplete(t, k, |t|, after);
  }

  /** The grammar gives a text at most one value. */
  lemma JsonTextUnambiguous(t: Text, v: Json, v': Json)
    requires JsonText(t, v) && JsonText(t, v')
    ensures v == v'
  {
    DecodeExact(t, v);
    DecodeExact(t, v');
  }
}
