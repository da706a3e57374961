/**
 JSON texts, declaratively: a concrete syntax tree spells out every choice that the grammar of
 RFC 8259 (sections 2 to 7) leaves to the writer of a text, `Render` writes it down, and `Value`
 says what it denotes.  A text is JSON when some valid tree renders to it.

 Three texts of the grammar are not accepted by the parser and are excluded here as well: the
 escape of U+0000, escapes of unpaired surrogates, and anything that is not valid UTF-8.
 */
module JsonGrammar {
  import opened Options
  import opened Chars
  import opened Utf8

  // ---------------------------------------------------------------------------------------------
  // Values
  // ---------------------------------------------------------------------------------------------

  /** A JSON value.  A number is kept as the text of the number. */
  datatype Json =
    | Null
    | Bool(b: bool)
    | Str(s: Text)
    | Num(lexeme: Text)
    | Arr(elems: seq<Json>)
    | Obj(members: seq<Member>)

  datatype Member = Member(key: Text, value: Json)

  // ---------------------------------------------------------------------------------------------
  // Characters
  // ---------------------------------------------------------------------------------------------

  const QUOTE: Char := 0x22
  const PLUS: Char := 0x2B
  const COMMA: Char := 0x2C
  const MINUS: Char := 0x2D
  const POINT: Char := 0x2E
  const ZERO: Char := 0x30
  const COLON: Char := 0x3A
  const OPEN_ARRAY: Char := 0x5B
  const BACKSLASH: Char := 0x5C
  const CLOSE_ARRAY: Char := 0x5D
  const LETTER_U: Char := 0x75
  const OPEN_OBJECT: Char := 0x7B
  const CLOSE_OBJECT: Char := 0x7D

  const NULL: Text := [0x6E, 0x75, 0x6C, 0x6C]
  const TRUE: Text := [0x74, 0x72, 0x75, 0x65]
  const FALSE: Text := [0x66, 0x61, 0x6C, 0x73, 0x65]

  predicate IsSpace(b: Byte) {
    b == 0x09 || b == 0x0A || b == 0x0D || b == 0x20
  }

  predicate Blank(w: Text) {
    forall i | 0 <= i < |w| :: IsSpace(w[i])
  }

  predicate IsDigit(b: Byte) {
    0x30 <= b <= 0x39
  }

  predicate Digits(t: Text) {
    |t| > 0 && forall i | 0 <= i < |t| :: IsDigit(t[i])
  }

  // ---------------------------------------------------------------------------------------------
  // Numbers (section 6)
  // ---------------------------------------------------------------------------------------------

  datatype Number = Number(minus: bool, integer: Text, frac: Option<Text>, exp: Option<Exponent>)

  datatype Exponent = Exponent(e: Char, sign: Text, digits: Text)

  predicate ValidInteger(t: Text) {
    t == [ZERO] || (Digits(t) && t[0] != ZERO)
  }

  predicate ValidNumber(n: Number) {
    && ValidInteger(n.integer)
    && (n.frac.Some? ==> Digits(n.frac.value))
    && ValidExponent(n.exp)
  }

  predicate ValidExponent(exp: Option<Exponent>) {
    exp.Some? ==>
      && (exp.value.e == 0x45 || exp.value.e == 0x65)
      && (exp.value.sign == [] || exp.value.sign == [PLUS] || exp.value.sign == [MINUS])
      && Digits(exp.value.digits)
  }

  function RenderSign(minus: bool): Text {
    if minus then [MINUS] else []
  }

  function RenderFrac(frac: Option<Text>): Text {
    if frac.Some? then [POINT] + frac.value else []
  }

  function RenderExp(exp: Option<Exponent>): Text {
    if exp.Some? then [exp.value.e] + exp.value.sign + exp.value.digits else []
  }

  function RenderNumber(n: Number): Text {
    RenderSign(n.minus) + (n.integer + (RenderFrac(n.frac) + RenderExp(n.exp)))
  }

  /** The text of a number. */
  ghost predicate Lexeme(t: Text) {
    exists n: Number :: ValidNumber(n) && t == RenderNumber(n)
  }

  // ---------------------------------------------------------------------------------------------
  // Strings (section 7)
  // ---------------------------------------------------------------------------------------------

  /** One character of a string literal: itself, a two-character escape, a `\u` escape of four
      hexadecimal digits, or two such escapes that form a surrogate pair. */
  datatype Item = Raw(u: Rune) | Escape(c: Char) | Hex(h: Text) | Pair(high: Text, low: Text)

  function HexDigit(b: Byte): Option<nat> {
    if 0x30 <= b <= 0x39 then Some(b - 0x30)
    else if 0x41 <= b <= 0x46 then Some(b - 0x41 + 10)
    else if 0x61 <= b <= 0x66 then Some(b - 0x61 + 10)
    else None
  }

  predicate HexDigits(h: Text) {
    |h| == 4 && forall i | 0 <= i < 4 :: HexDigit(h[i]).Some?
  }

  function HexValue(h: Text): (v: nat)
    requires HexDigits(h)
    ensures v < 0x10000
  {
    ((HexDigit(h[0]).value * 16 + HexDigit(h[1]).value) * 16 + HexDigit(h[2]).value) * 16
      + HexDigit(h[3]).value
  }

  /** The character that a two-character escape stands for. */
  function EscapeValue(c: Byte): Option<Char> {
    if c == 0x22 || c == 0x5C || c == 0x2F then Some(c)
    else if c == 0x62 then Some(0x08)
    else if c == 0x66 then Some(0x0C)
    else if c == 0x6E then Some(0x0A)
    else if c == 0x72 then Some(0x0D)
    else if c == 0x74 then Some(0x09)
    else None
  }

  predicate HighSurrogate(v: nat) {
    0xD800 <= v <= 0xDBFF
  }

  predicate LowSurrogate(v: nat) {
    0xDC00 <= v <= 0xDFFF
  }

  predicate Surrogate(v: nat) {
    0xD800 <= v <= 0xDFFF
  }

  predicate ValidItem(it: Item) {
    match it
    case Raw(u) => u >= 0x20 && u != QUOTE && u != BACKSLASH
    case Escape(c) => EscapeValue(c).Some?
    case Hex(h) => HexDigits(h) && HexValue(h) != 0 && !Surrogate(HexValue(h))
    case Pair(high, low) =>
      && HexDigits(high) && HighSurrogate(HexValue(high))
      && HexDigits(low) && LowSurrogate(HexValue(low))
  }

  function RenderItem(it: Item): Text {
    match it
    case Raw(u) => Encoded(u)
    case Escape(c) => [BACKSLASH, c]
    case Hex(h) => [BACKSLASH, LETTER_U] + h
    case Pair(high, low) => [BACKSLASH, LETTER_U] + high + ([BACKSLASH, LETTER_U] + low)
  }

  /** The scalar value of a surrogate pair (section 2 of RFC 2781). */
  function PairValue(high: nat, low: nat): (u: Rune)
    requires HighSurrogate(high) && LowSurrogate(low)
  {
    0x10000 + (high - 0xD800) * 0x400 + (low - 0xDC00)
  }

  function ItemValue(it: Item): Text
    requires ValidItem(it)
  {
    match it
    case Raw(u) => Encoded(u)
    case Escape(c) => [EscapeValue(c).value]
    case Hex(h) => Encoded(HexValue(h))
    case Pair(high, low) => Encoded(PairValue(HexValue(high), HexValue(low)))
  }

  predicate ValidItems(items: seq<Item>) {
    forall i | 0 <= i < |items| :: ValidItem(items[i])
  }

  function RenderItems(items: seq<Item>): Text {
    if items == [] then [] else RenderItem(items[0]) + RenderItems(items[1..])
  }

  function ItemsValue(items: seq<Item>): Text
    requires ValidItems(items)
  {
    if items == [] then [] else ItemValue(items[0]) + ItemsValue(items[1..])
  }

  function RenderString(items: seq<Item>): Text {
    [QUOTE] + (RenderItems(items) + [QUOTE])
  }

  // ---------------------------------------------------------------------------------------------
  // Values (sections 3 to 5)
  // ---------------------------------------------------------------------------------------------

  /** `gap` is the white space of an empty array or object; in any other it belongs to the elements. */
  datatype Cst =
    | CNull
    | CBool(b: bool)
    | CStr(items: seq<Item>)
    | CNum(n: Number)
    | CArr(gap: Text, elems: seq<CElem>)
    | CObj(gap: Text, members: seq<CMember>)

  datatype CElem = CElem(pre: Text, value: Cst, post: Text)

  datatype CMember = CMember(pre: Text, key: seq<Item>, mid: Text, elem: CElem)

  predicate Valid(c: Cst)
    decreases c, 0
  {
    match c
    case CNull => true
    case CBool(_) => true
    case CStr(items) => ValidItems(items)
    case CNum(n) => ValidNumber(n)
    case CArr(gap, elems) => Blank(gap) && (elems != [] ==> gap == []) && ValidElems(elems)
    case CObj(gap, members) => Blank(gap) && (members != [] ==> gap == []) && ValidMembers(members)
  }

  predicate ValidElem(e: CElem)
    decreases e, 0
  {
    Blank(e.pre) && Valid(e.value) && Blank(e.post)
  }

  predicate ValidElems(es: seq<CElem>)
    decreases es, 0
  {
    es == [] || (ValidElem(es[0]) && ValidElems(es[1..]))
  }

  predicate ValidMember(m: CMember)
    decreases m, 0
  {
    Blank(m.pre) && ValidItems(m.key) && Blank(m.mid) && ValidElem(m.elem)
  }

  predicate ValidMembers(ms: seq<CMember>)
    decreases ms, 0
  {
    ms == [] || (ValidMember(ms[0]) && ValidMembers(ms[1..]))
  }

  function Render(c: Cst): Text
    decreases c, 0
  {
    match c
    case CNull => NULL
    case CBool(b) => if b then TRUE else FALSE
    case CStr(items) => RenderString(items)
    case CNum(n) => RenderNumber(n)
    case CArr(gap, elems) => [OPEN_ARRAY] + (gap + (RenderElems(elems) + [CLOSE_ARRAY]))
    case CObj(gap, members) => [OPEN_OBJECT] + (gap + (RenderMembers(members) + [CLOSE_OBJECT]))
  }

  function RenderElem(e: CElem): Text
    decreases e, 0
  {
    e.pre + (Render(e.value) + e.post)
  }

  /** The elements, separated by commas. */
  function RenderElems(es: seq<CElem>): Text
    decreases es, 0
  {
    if es == [] then []
    else if |es| == 1 then RenderElem(es[0])
    else RenderElem(es[0]) + ([COMMA] + RenderElems(es[1..]))
  }

  function RenderMember(m: CMember): Text
    decreases m, 0
  {
    m.pre + (RenderString(m.key) + (m.mid + ([COLON] + RenderElem(m.elem))))
  }

  function RenderMembers(ms: seq<CMember>): Text
    decreases ms, 0
  {
    if ms == [] then []
    else if |ms| == 1 then RenderMember(ms[0])
    else RenderMember(ms[0]) + ([COMMA] + RenderMembers(ms[1..]))
  }

  function Value(c: Cst): Json
    requires Valid(c)
    decreases c, 0
  {
    match c
    case CNull => Null
    case CBool(b) => Bool(b)
    case CStr(items) => Str(ItemsValue(items))
    case CNum(n) => Num(RenderNumber(n))
    case CArr(_, elems) => Arr(ElemValues(elems))
    case CObj(_, members) => Obj(MemberValues(members))
  }

  function ElemValues(es: seq<CElem>): (vs: seq<Json>)
    requires ValidElems(es)
    ensures |vs| == |es|
    decreases es, 0
  {
    if es == [] then [] else [ElemValue(es[0])] + ElemValues(es[1..])
  }

  function ElemValue(e: CElem): Json
    requires ValidElem(e)
    decreases e, 0
  {
    Value(e.value)
  }

  function MemberValues(ms: seq<CMember>): (vs: seq<Member>)
    requires ValidMembers(ms)
    ensures |vs| == |ms|
    decreases ms, 0
  {
    if ms == [] then []
    else [MemberValue(ms[0])] + MemberValues(ms[1..])
  }

  function MemberValue(m: CMember): Member
    requires ValidMember(m)
    decreases m, 0
  {
    Member(ItemsValue(m.key), ElemValue(m.elem))
  }

  /** JSON-text = ws value ws: `t` is a JSON text for the value `v`. */
  ghost predicate JsonText(t: Text, v: Json) {
    exists before, c, after :: JsonTextWith(t, v, before, c, after)
  }

  ghost predicate JsonTextWith(t: Text, v: Json, before: Text, c: Cst, after: Text) {
    Blank(before) && Valid(c) && Blank(after) && t == before + (Render(c) + after) && Value(c) == v
  }
}
