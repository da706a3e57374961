/**
 The recursive-descent parser of json.c as functions of the text and the cursor.  `JsonExact` proves
 that they accept exactly the texts of `JsonGrammar`, with the value the grammar gives them; the methods
 of `JsonReader` and `JsonBuilder` are proved against them.
 */
module JsonParser {
  import opened Options
  import opened Bits
  import opened Chars
  import opened Utf8
  import opened JsonGrammar

  /** The outcome of one parsing function: failure, or a value and the position behind it. */
  datatype Parsed<+T> = Fail | Ok(value: T, next: nat)

  /** A successful parse strictly advances the cursor and does not pass the terminator. */
  predicate Advances<T>(t: Text, i: nat, r: Parsed<T>) {
    r.Ok? ==> i < r.next <= |t|
  }

  // ---------------------------------------------------------------------------------------------
  // Lexical functions
  // ---------------------------------------------------------------------------------------------

  /** skip_space */
  function Skip(t: Text, i: nat): (k: nat)
    requires i <= |t|
    ensures i <= k <= |t| && !IsSpace(At(t, k))
    decreases |t| - i
  {
    if IsSpace(At(t, i)) then Skip(t, i + 1) else i
  }

  /** expect_literal */
  function LiteralEnd(t: Text, i: nat, literal: Text): (k: Option<nat>)
    requires i <= |t|
    ensures k.Some? ==> k.value == i + |literal| <= |t|
  {
    if literal <= t[i..] then Some(i + |literal|) else None
  }

  /** The end of the digits that start at `i`. */
  function DigitsEnd(t: Text, i: nat): (k: nat)
    requires i <= |t|
    ensures i <= k <= |t| && !IsDigit(At(t, k))
    ensures IsDigit(At(t, i)) ==> i < k
    decreases |t| - i
  {
    if IsDigit(At(t, i)) then DigitsEnd(t, i + 1) else i
  }

  function MinusEnd(t: Text, i: nat): (k: nat)
    requires i <= |t|
    ensures i <= k <= |t|
  {
    if At(t, i) == MINUS then i + 1 else i
  }

  function IntegerEnd(t: Text, i: nat): (k: Option<nat>)
    requires i <= |t|
    ensures k.Some? ==> i < k.value <= |t|
  {
    if At(t, i) == ZERO then Some(i + 1)
    else if !IsDigit(At(t, i)) then None
    else Some(DigitsEnd(t, i))
  }

  function FracEnd(t: Text, i: nat): (k: Option<nat>)
    requires i <= |t|
    ensures k.Some? ==> i <= k.value <= |t|
  {
    if At(t, i) != POINT then Some(i)
    else if !IsDigit(At(t, i + 1)) then None
    else Some(DigitsEnd(t, i + 1))
  }

  function SignEnd(t: Text, i: nat): (k: nat)
    requires i <= |t|
    ensures i <= k <= |t|
  {
    if At(t, i) == PLUS || At(t, i) == MINUS then i + 1 else i
  }

  function ExpEnd(t: Text, i: nat): (k: Option<nat>)
    requires i <= |t|
    ensures k.Some? ==> i <= k.value <= |t|
  {
    if At(t, i) != 0x45 && At(t, i) != 0x65 then Some(i)
    else
      var d := SignEnd(t, i + 1);
      if !IsDigit(At(t, d)) then None else Some(DigitsEnd(t, d))
  }

  /** parse_number; the value is the text of the number. */
  function ParseNumber(t: Text, i: nat): (r: Parsed<Text>)
    requires i <= |t|
    ensures Advances(t, i, r)
  {
    match IntegerEnd(t, MinusEnd(t, i))
    case None => Fail
    case Some(i1) =>
      match FracEnd(t, i1)
      case None => Fail
      case Some(i2) =>
        match ExpEnd(t, i2)
        case None => Fail
        case Some(i3) => Ok(t[i..i3], i3)
  }

  /** parse_hex16 */
  function ParseHex16(t: Text, i: nat): (r: Parsed<nat>)
    requires i <= |t|
    ensures Advances(t, i, r) && (r.Ok? ==> r.value < 0x10000)
  {
    if i + 4 <= |t| && HexDigits(t[i..i + 4]) then Ok(HexValue(t[i..i + 4]), i + 4) else Fail
  }

  /** from_surrogate_pair */
  function FromSurrogatePair(uc: nat, lc: nat): (r: Option<Rune>)
    ensures r == if HighSurrogate(uc) && LowSurrogate(lc) then Some(PairValue(uc, lc)) else None
  {
    hide And, Shl, Or, Pow2, Mask, ShiftUp, Join;
    if uc >= 0xD800 && uc <= 0xDBFF && lc >= 0xDC00 && lc <= 0xDFFF then
      Powers();
      TenLowBits(uc, 54);
      TenLowBits(lc, 55);
      var high, low := Mask(uc, 10, 1024), Mask(lc, 10, 1024);
      Some(0x10000 + Join(ShiftUp(high, 10, 1024), low, 10, 1024, high))
    else None
  }

  /** `(x & 0x3FF) | tag`, for a tag of which the low ten bits are free */
  function TaggedBits(x: nat, tag: nat, ghost q: nat): (r: nat)
    requires tag == q * 1024
    ensures r == tag + x % 1024
  {
    hide *;
    Powers();
    Join(tag, Mask(x, 10, 1024), 10, 1024, q)
  }

  /** to_surrogate_pair */
  function ToSurrogatePair(u: Rune): (pair: (nat, nat))
    requires u >= 0x10000
    ensures HighSurrogate(pair.0) && LowSurrogate(pair.1) && PairValue(pair.0, pair.1) == u
  {
    hide TaggedBits, ShiftDown, Pow2;
    Powers();
    var n := u - 0x10000;
    TwentyBits(n);
    (TaggedBits(ShiftDown(n, 10, 1024), 0xD800, 54), TaggedBits(n, 0xDC00, 55))
  }

  lemma TwentyBits(n: nat)
    requires n < 0x100000
    ensures n / 1024 % 1024 == n / 1024 < 1024 && n == n / 1024 * 1024 + n % 1024
  {
  }

  lemma TwoDigits(a: nat, b: nat, c: nat, d: nat)
    requires a * 1024 + b == c * 1024 + d && b < 1024 && d < 1024
    ensures a == c && b == d
  {
  }

  /** The two conversions are inverse to each other. */
  lemma SurrogatePairsExact(u: Rune, uc: nat, lc: nat)
    requires u >= 0x10000
    ensures FromSurrogatePair(uc, lc) == Some(u) <==> (uc, lc) == ToSurrogatePair(u)
  {
    hide FromSurrogatePair, ToSurrogatePair;
    var pair := ToSurrogatePair(u);
    if HighSurrogate(uc) && LowSurrogate(lc) && PairValue(uc, lc) == u {
      TwoDigits(uc - 0xD800, lc - 0xDC00, pair.0 - 0xD800, pair.1 - 0xDC00);
    }
  }

  lemma TenLowBits(x: nat, q: nat)
    requires q * 1024 <= x < q * 1024 + 1024
    ensures x % 1024 == x - q * 1024
  {
    DivModUnique(x, 1024, q, x - q * 1024);
  }

  /** The digits of a `\u` escape, and of the second one that a high surrogate needs. */
  function ParseUnicode(t: Text, i: nat): (r: Parsed<Text>)
    requires i <= |t|
    ensures Advances(t, i, r) && (r.Ok? ==> 1 <= |r.value| <= 4)
  {
    match ParseHex16(t, i)
    case Fail => Fail
    case Ok(uc, k) =>
      if Surrogate(uc) then
        if At(t, k) != BACKSLASH || At(t, k + 1) != LETTER_U then Fail
        else
          match ParseHex16(t, k + 2)
          case Fail => Fail
          case Ok(lc, k2) =>
            match FromSurrogatePair(uc, lc)
            case None => Fail
            case Some(u) => Ok(Encoded(u), k2)
      else if uc == 0 then Fail
      else Ok(Encoded(uc), k)
  }

  /** One round of the loop of parse_string. */
  function ParseChar(t: Text, i: nat): (r: Parsed<Text>)
    requires i <= |t|
    ensures Advances(t, i, r) && (r.Ok? ==> 1 <= |r.value| <= 4)
  {
    var c := At(t, i);
    if c == BACKSLASH then
      if At(t, i + 1) == LETTER_U then ParseUnicode(t, i + 2)
      else match EscapeValue(At(t, i + 1))
        case None => Fail
        case Some(v) => Ok([v], i + 2)
    else if c <= 0x1F then Fail
    else
      var len := ValidateCz(t[i..]);
      if len == 0 then Fail else Ok(t[i..i + len], i + len)
  }

  /** The loop of parse_string, from behind the opening quotation mark. */
  function ParseChars(t: Text, i: nat): (r: Parsed<Text>)
    requires i <= |t|
    ensures Advances(t, i, r)
    decreases |t| - i
  {
    if At(t, i) == QUOTE then Ok([], i + 1)
    else
      match ParseChar(t, i)
      case Fail => Fail
      case Ok(c, k) =>
        match ParseChars(t, k)
        case Fail => Fail
        case Ok(cs, k') => Ok(c + cs, k')
  }

  /** parse_string */
  function ParseString(t: Text, i: nat): (r: Parsed<Text>)
    requires i <= |t|
    ensures Advances(t, i, r)
  {
    if At(t, i) != QUOTE then Fail else ParseChars(t, i + 1)
  }

  // ---------------------------------------------------------------------------------------------
  // Values
  // ---------------------------------------------------------------------------------------------

  /** parse_value */
  function ParseValue(t: Text, i: nat): (r: Parsed<Json>)
    requires i <= |t|
    ensures Advances(t, i, r)
    decreases |t| - i, 1
  {
    var c := At(t, i);
    if c == 0x6E then ParseLiteral(t, i, NULL, Null)
    else if c == 0x66 then ParseLiteral(t, i, FALSE, Bool(false))
    else if c == 0x74 then ParseLiteral(t, i, TRUE, Bool(true))
    else if c == QUOTE then
      match ParseString(t, i)
      case Fail => Fail
      case Ok(s, k) => Ok(Str(s), k)
    else if c == OPEN_ARRAY then ParseArray(t, i)
    else if c == OPEN_OBJECT then ParseObject(t, i)
    else
      match ParseNumber(t, i)
      case Fail => Fail
      case Ok(s, k) => Ok(Num(s), k)
  }

  function ParseLiteral(t: Text, i: nat, literal: Text, v: Json): (r: Parsed<Json>)
    requires i <= |t| && literal != []
    ensures Advances(t, i, r)
  {
    match LiteralEnd(t, i, literal)
    case None => Fail
    case Some(k) => Ok(v, k)
  }

  /** parse_array */
  function ParseArray(t: Text, i: nat): (r: Parsed<Json>)
    requires i <= |t|
    ensures Advances(t, i, r)
    decreases |t| - i, 0
  {
    if At(t, i) != OPEN_ARRAY then Fail
    else
      var i1 := Skip(t, i + 1);
      if At(t, i1) == CLOSE_ARRAY then Ok(Arr([]), i1 + 1)
      else
        match ParseElems(t, i1)
        case Fail => Fail
        case Ok(vs, k) => Ok(Arr(vs), k)
  }

  /** parse_object */
  function ParseObject(t: Text, i: nat): (r: Parsed<Json>)
    requires i <= |t|
    ensures Advances(t, i, r)
    decreases |t| - i, 0
  {
    if At(t, i) != OPEN_OBJECT then Fail
    else
      var i1 := Skip(t, i + 1);
      if At(t, i1) == CLOSE_OBJECT then Ok(Obj([]), i1 + 1)
      else
        match ParseMembers(t, i1)
        case Fail => Fail
        case Ok(ms, k) => Ok(Obj(ms), k)
  }

  /** The loop of parse_array, from the start of an element. */
  function ParseElems(t: Text, i: nat): (r: Parsed<seq<Json>>)
    requires i <= |t|
    ensures Advances(t, i, r)
    decreases |t| - i, 2
  {
    match ParseValue(t, i)
    case Fail => Fail
    case Ok(v, k) =>
      var k1 := Skip(t, k);
      if At(t, k1) == CLOSE_ARRAY then Ok([v], k1 + 1)
      else if At(t, k1) != COMMA then Fail
      else
        match ParseElems(t, Skip(t, k1 + 1))
        case Fail => Fail
        case Ok(vs, k') => Ok([v] + vs, k')
  }

  /** A member up to and including its value. */
  function ParseMember(t: Text, i: nat): (r: Parsed<Member>)
    requires i <= |t|
    ensures Advances(t, i, r)
    decreases |t| - i, 2
  {
    match ParseString(t, i)
    case Fail => Fail
    case Ok(key, k) =>
      var k1 := Skip(t, k);
      if At(t, k1) != COLON then Fail
      else
        match ParseValue(t, Skip(t, k1 + 1))
        case Fail => Fail
        case Ok(v, k') => Ok(Member(key, v), k')
  }

  /** The loop of parse_object, from the start of a member. */
  function ParseMembers(t: Text, i: nat): (r: Parsed<seq<Member>>)
    requires i <= |t|
    ensures Advances(t, i, r)
    decreases |t| - i, 3
  {
    match ParseMember(t, i)
    case Fail => Fail
    case Ok(m, k) =>
      var k1 := Skip(t, k);
      if At(t, k1) == CLOSE_OBJECT then Ok([m], k1 + 1)
      else if At(t, k1) != COMMA then Fail
      else
        match ParseMembers(t, Skip(t, k1 + 1))
        case Fail => Fail
        case Ok(ms, k') => Ok([m] + ms, k')
  }

  /** json_decode on a whole text. */
  function Decode(t: Text): Option<Json> {
    match ParseValue(t, Skip(t, 0))
    case Fail => None
    case Ok(v, k) => if At(t, Skip(t, k)) == 0 then Some(v) else None
  }
}
