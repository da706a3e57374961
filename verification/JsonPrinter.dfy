/**
 What json_stringify writes: the rendering of one particular syntax tree, its layout.  Because the
 output is a rendering, the completeness of the parser gives the round trip; the one byte that the
 printer lets through and the parser refuses, 0x1F, is what decides whether it holds.
 */
module JsonPrinter {
  import opened Options
  import opened Bits
  import opened Chars
  import opened Utf8
  import opened JsonGrammar
  import opened JsonParser
  import opened JsonExact

  /** json_stringify with a NULL `space`, or with the given one. */
  datatype Style = Compact | Indented(space: Text)

  // ---------------------------------------------------------------------------------------------
  // Strings
  // ---------------------------------------------------------------------------------------------

  function HexChar(d: nat): Char
    requires d < 16
  {
    if d < 10 then 0x30 + d else 0x41 + (d - 10)
  }

  /** One digit of write_hex16: `hex[(val >> k) & 0xF]` */
  function HexAt(val: nat, k: nat, p: nat): (d: Char)
    requires p == Pow2(k)
    ensures d == HexChar(val / p % 16)
  {
    hide *;
    Powers();
    HexChar(Mask(ShiftDown(val, k, p), 4, 16))
  }

  /** write_hex16 */
  function WriteHex16(val: nat): (h: Text)
    requires val < 0x10000
    ensures HexDigits(h) && HexValue(h) == val
  {
    hide HexAt, Pow2;
    Powers();
    HexCharValue(val / 4096 % 16);
    HexCharValue(val / 256 % 16);
    HexCharValue(val / 16 % 16);
    HexCharValue(val % 16);
    Nibbles(val);
    [HexAt(val, 12, 4096), HexAt(val, 8, 256), HexAt(val, 4, 16), HexAt(val, 0, 1)]
  }

  lemma HexCharValue(d: nat)
    requires d < 16
    ensures HexDigit(HexChar(d)) == Some(d)
  {
  }

  lemma Nibbles(val: nat)
    requires val < 0x10000
    ensures val == ((val / 4096 % 16 * 16 + val / 256 % 16) * 16 + val / 16 % 16) * 16 + val % 16
  {
    assert val / 16 / 16 == val / 256 && val / 256 / 16 == val / 4096 && val / 4096 < 16;
  }

  /** The item emit_string writes for one character. */
  function CharItem(u: Rune): Item {
    if u == 0x22 || u == 0x5C then Escape(u)
    else if u == 0x08 then Escape(0x62)
    else if u == 0x0C then Escape(0x66)
    else if u == 0x0A then Escape(0x6E)
    else if u == 0x0D then Escape(0x72)
    else if u == 0x09 then Escape(0x74)
    else if u < 0x1F then Hex(WriteHex16(u))
    else Raw(u)
  }

  function RuneItems(us: seq<Rune>): (items: seq<Item>)
    ensures |items| == |us|
  {
    if us == [] then [] else [CharItem(us[0])] + RuneItems(us[1..])
  }

  function StringItems(s: Text): seq<Item>
    requires ValidUtf8(s)
  {
    RuneItems(Runes(s))
  }

  /** Below 0x80 the first byte of a character is the character. */
  lemma FirstCharacter(s: Text)
    requires s != [] && ValidateCz(s) > 0
    ensures ReadChar(s) <= 0x7F <==> s[0] <= 0x7F
    ensures s[0] <= 0x7F ==> ReadChar(s) == s[0] && ValidateCz(s) == 1
  {
    Shape(s);
    assert Encoded(ReadChar(s))[0] == s[0];
  }

  /** A text without the byte 0x1F. */
  predicate Clean(t: Text) {
    forall i | 0 <= i < |t| :: t[i] != 0x1F
  }

  lemma CleanConcat(a: Text, b: Text)
    ensures Clean(a + b) <==> Clean(a) && Clean(b)
  {
    if Clean(a + b) {
      forall i | 0 <= i < |a| ensures a[i] != 0x1F {
        assert (a + b)[i] == a[i];
      }
      forall i | 0 <= i < |b| ensures b[i] != 0x1F {
        assert (a + b)[|a| + i] == b[i];
      }
    }
  }

  lemma CharItemExact(u: Rune)
    ensures ValidItem(CharItem(u)) <==> u != 0x1F
    ensures u != 0x1F ==> ItemValue(CharItem(u)) == Encoded(u)
    ensures Clean(Encoded(u)) <==> u != 0x1F
    ensures u == 0x1F ==> RenderItem(CharItem(u)) == [0x1F]
  {
    hide WriteHex16;
    assert u == 0x1F ==> Encoded(u)[0] == 0x1F;
  }

  lemma {:induction false} RuneItemsExact(us: seq<Rune>)
    ensures ValidItems(RuneItems(us)) <==> Clean(EncodeAll(us))
    ensures Clean(EncodeAll(us)) ==> ItemsValue(RuneItems(us)) == EncodeAll(us)
    ensures !Clean(EncodeAll(us)) ==> !Clean(RenderItems(RuneItems(us)))
  {
    if us != [] {
      hide CharItem, ValidItem, ItemValue, RenderItem, Clean;
      var u, tail := us[0], us[1..];
      var items := RuneItems(us);
      assert items[0] == CharItem(u) && items[1..] == RuneItems(tail);
      CharItemExact(u);
      RuneItemsExact(tail);
      CleanConcat(Encoded(u), EncodeAll(tail));
      CleanConcat(RenderItem(items[0]), RenderItems(items[1..]));
      ValidItemsCons(items);
      DirtyByte();
    }
  }

  lemma DirtyByte()
    ensures !Clean([0x1F])
  {
    assert [0x1F][0] == 0x1F;
  }

  lemma ValidItemsCons(items: seq<Item>)
    requires items != []
    ensures ValidItems(items) <==> ValidItem(items[0]) && ValidItems(items[1..])
  {
    assert items == [items[0]] + items[1..];
  }

  // ---------------------------------------------------------------------------------------------
  // Layout
  // ---------------------------------------------------------------------------------------------

  /** emit_string demands valid UTF-8. */
  predicate Printable(v: Json)
    decreases v, 0
  {
    match v
    case Str(s) => ValidUtf8(s)
    case Arr(vs) => PrintableElems(vs)
    case Obj(ms) => PrintableMembers(ms)
    case _ => true
  }

  predicate PrintableElems(vs: seq<Json>)
    decreases vs, 0
  {
    vs == [] || (Printable(vs[0]) && PrintableElems(vs[1..]))
  }

  predicate PrintableMember(m: Member)
    decreases m, 0
  {
    ValidUtf8(m.key) && Printable(m.value)
  }

  predicate PrintableMembers(ms: seq<Member>)
    decreases ms, 0
  {
    ms == [] || (PrintableMember(ms[0]) && PrintableMembers(ms[1..]))
  }

  function Indent(space: Text, level: nat): Text
    decreases level
  {
    if level == 0 then [] else space + Indent(space, level - 1)
  }

  /** The white space in front of an element one level below `level`. */
  function Before(style: Style, level: nat): Text {
    if style.Compact? then [] else [0x0A] + Indent(style.space, level + 1)
  }

  /** The white space behind the last element. */
  function After(style: Style, level: nat): Text {
    if style.Compact? then [] else [0x0A] + Indent(style.space, level)
  }

  ghost function Layout(v: Json, style: Style, level: nat): Cst
    requires Printable(v)
    decreases v, 0
  {
    match v
    case Null => CNull
    case Bool(b) => CBool(b)
    case Str(s) => CStr(StringItems(s))
    case Num(lexeme) => NumberLayout(lexeme)
    case Arr(vs) => CArr([], LayoutElems(vs, style, level))
    case Obj(ms) => CObj([], LayoutMembers(ms, style, level))
  }

  /** emit_number: what is not a valid number is written as null. */
  ghost function NumberLayout(lexeme: Text): (c: Cst)
    ensures Valid(c)
    ensures if Lexeme(lexeme) then Value(c) == Num(lexeme) && Render(c) == lexeme else c == CNull
  {
    if Lexeme(lexeme) then
      var n: Number :| ValidNumber(n) && lexeme == RenderNumber(n);
      CNum(n)
    else CNull
  }

  ghost function LayoutElem(v: Json, pre: Text, post: Text, style: Style, level: nat): CElem
    requires Printable(v)
    decreases v, 1
  {
    CElem(pre, Layout(v, style, level), post)
  }

  ghost function LayoutElems(vs: seq<Json>, style: Style, level: nat): (es: seq<CElem>)
    requires PrintableElems(vs)
    ensures |es| == |vs|
    decreases vs, 0
  {
    if vs == [] then []
    else
      var post := if |vs| == 1 then After(style, level) else [];
      [LayoutElem(vs[0], Before(style, level), post, style, level + 1)] + LayoutElems(vs[1..], style, level)
  }

  ghost function LayoutMember(m: Member, post: Text, style: Style, level: nat): CMember
    requires PrintableMember(m)
    decreases m, 0
  {
    var gap := if style.Compact? then [] else [0x20];
    CMember(Before(style, level), StringItems(m.key), [], LayoutElem(m.value, gap, post, style, level + 1))
  }

  ghost function LayoutMembers(ms: seq<Member>, style: Style, level: nat): (cs: seq<CMember>)
    requires PrintableMembers(ms)
    ensures |cs| == |ms|
    decreases ms, 0
  {
    if ms == [] then []
    else
      var post := if |ms| == 1 then After(style, level) else [];
      [LayoutMember(ms[0], post, style, level)] + LayoutMembers(ms[1..], style, level)
  }

  /** The text of a nonempty list of elements, in either style. */
  lemma ElemsText(vs: seq<Json>, style: Style, level: nat)
    requires PrintableElems(vs) && vs != []
    ensures Printable(vs[0]) && PrintableElems(vs[1..])
    ensures RenderElems(LayoutElems(vs, style, level))
         == var post, comma := if |vs| == 1 then After(style, level) else [], if |vs| == 1 then [] else [COMMA];
            Before(style, level) + (Render(Layout(vs[0], style, level + 1)) + post)
            + (comma + RenderElems(LayoutElems(vs[1..], style, level)))
  {
    var es := LayoutElems(vs, style, level);
    var post := if |vs| == 1 then After(style, level) else [];
    assert es[0] == LayoutElem(vs[0], Before(style, level), post, style, level + 1);
    assert es[1..] == LayoutElems(vs[1..], style, level);
    hide Layout, LayoutElems, After, Before;
    assert es[0] == CElem(Before(style, level), Layout(vs[0], style, level + 1), post);
    var text := RenderElem(es[0]);
    if |vs| == 1 {
      assert RenderElems(es[1..]) == [] && text == text + ([] + []);
    }
  }

  lemma MembersText(ms: seq<Member>, style: Style, level: nat)
    requires PrintableMembers(ms) && ms != []
    ensures ValidUtf8(ms[0].key) && Printable(ms[0].value) && PrintableMembers(ms[1..])
    ensures RenderMembers(LayoutMembers(ms, style, level))
         == var post, comma := if |ms| == 1 then After(style, level) else [], if |ms| == 1 then [] else [COMMA];
            var colon := if style.Compact? then [COLON] else [COLON, 0x20];
            Before(style, level) + RenderString(StringItems(ms[0].key)) + colon
            + (Render(Layout(ms[0].value, style, level + 1)) + post)
            + (comma + RenderMembers(LayoutMembers(ms[1..], style, level)))
  {
    hide Before, After, ValidUtf8, StringItems, RenderString, Layout, LayoutMember, RenderMember, Printable;
    var cs := LayoutMembers(ms, style, level);
    var pre, post := Before(style, level), if |ms| == 1 then After(style, level) else [];
    assert cs[0] == LayoutMember(ms[0], post, style, level);
    assert cs[1..] == LayoutMembers(ms[1..], style, level);
    MemberText(ms[0], post, style, level);
    hide LayoutMembers;
    var text := RenderMember(cs[0]);
    if |ms| == 1 {
      assert RenderMembers(cs[1..]) == [] && text == text + ([] + []);
    }
  }

  lemma MemberText(m: Member, post: Text, style: Style, level: nat)
    requires PrintableMember(m)
    ensures RenderMember(LayoutMember(m, post, style, level))
         == var colon := if style.Compact? then [COLON] else [COLON, 0x20];
            Before(style, level) + RenderString(StringItems(m.key)) + colon
            + (Render(Layout(m.value, style, level + 1)) + post)
  {
    hide Layout, Render, RenderString, StringItems, Printable, ValidUtf8, Before;
    var c := LayoutMember(m, post, style, level);
    var gap := if style.Compact? then [] else [0x20];
    var pre, key, text := Before(style, level), RenderString(StringItems(m.key)), Render(Layout(m.value, style, level + 1));
    assert c.elem == LayoutElem(m.value, gap, post, style, level + 1);
    assert c.elem == CElem(gap, Layout(m.value, style, level + 1), post);
    hide LayoutMember, LayoutElem;
    assert RenderElem(c.elem) == gap + (text + post);
    assert RenderMember(c) == pre + (key + ([] + ([COLON] + (gap + (text + post)))));
    assert pre + (key + ([] + ([COLON] + (gap + (text + post))))) == pre + key + ([COLON] + gap) + (text + post);
  }

  /** The output of json_stringify. */
  ghost function Printed(v: Json, style: Style): Text
    requires Printable(v)
  {
    Render(Layout(v, style, 0))
  }

  // ---------------------------------------------------------------------------------------------
  // What the output denotes
  // ---------------------------------------------------------------------------------------------

  /** No string and no key contains the byte 0x1F. */
  predicate CleanValue(v: Json)
    decreases v, 0
  {
    match v
    case Str(s) => Clean(s)
    case Arr(vs) => CleanElems(vs)
    case Obj(ms) => CleanMembers(ms)
    case _ => true
  }

  predicate CleanElems(vs: seq<Json>)
    decreases vs, 0
  {
    vs == [] || (CleanValue(vs[0]) && CleanElems(vs[1..]))
  }

  predicate CleanMember(m: Member)
    decreases m, 0
  {
    Clean(m.key) && CleanValue(m.value)
  }

  predicate CleanMembers(ms: seq<Member>)
    decreases ms, 0
  {
    ms == [] || (CleanMember(ms[0]) && CleanMembers(ms[1..]))
  }

  /** The value with null for every number whose text is not a JSON number, as NaN and infinity. */
  ghost function Denoted(v: Json): Json
    decreases v, 0
  {
    match v
    case Num(lexeme) => if Lexeme(lexeme) then v else Null
    case Arr(vs) => Arr(DenotedElems(vs))
    case Obj(ms) => Obj(DenotedMembers(ms))
    case _ => v
  }

  ghost function DenotedElems(vs: seq<Json>): seq<Json>
    decreases vs, 0
  {
    if vs == [] then [] else [Denoted(vs[0])] + DenotedElems(vs[1..])
  }

  ghost function DenotedMember(m: Member): Member
    decreases m, 0
  {
    Member(m.key, Denoted(m.value))
  }

  ghost function DenotedMembers(ms: seq<Member>): seq<Member>
    decreases ms, 0
  {
    if ms == [] then [] else [DenotedMember(ms[0])] + DenotedMembers(ms[1..])
  }

  /** The white space of the style is white space. */
  predicate BlankStyle(style: Style) {
    style.Indented? ==> Blank(style.space)
  }

  lemma {:induction false} IndentBlank(space: Text, level: nat)
    requires Blank(space)
    ensures Blank(Indent(space, level))
    decreases level
  {
    if level > 0 {
      IndentBlank(space, level - 1);
    }
  }

  lemma GapsBlank(style: Style, level: nat)
    requires BlankStyle(style)
    ensures Blank(Before(style, level)) && Blank(After(style, level))
  {
    if style.Indented? {
      IndentBlank(style.space, level);
      IndentBlank(style.space, level + 1);
    }
  }

  lemma StringItemsExact(s: Text)
    requires ValidUtf8(s)
    ensures ValidItems(StringItems(s)) <==> Clean(s)
    ensures Clean(s) ==> ItemsValue(StringItems(s)) == s
    ensures !Clean(s) ==> !Clean(RenderString(StringItems(s)))
  {
    hide Clean, ValidItems, ItemsValue, RenderItems;
    RuneItemsExact(Runes(s));
    var items := StringItems(s);
    CleanConcat([QUOTE], RenderItems(items) + [QUOTE]);
    CleanConcat(RenderItems(items), [QUOTE]);
  }

  /** The layout of a clean value is a valid syntax tree for it. */
  lemma {:induction false} LayoutValid(v: Json, style: Style, level: nat)
    requires Printable(v) && CleanValue(v) && BlankStyle(style)
    ensures Valid(Layout(v, style, level)) && Value(Layout(v, style, level)) == Denoted(v)
    decreases v, 1
  {
    match v
    case Null =>
    case Bool(_) =>
    case Str(s) => StringItemsExact(s);
    case Num(_) =>
    case Arr(vs) => LayoutElemsValid(vs, style, level);
    case Obj(ms) => LayoutMembersValid(ms, style, level);
  }

  lemma {:induction false} LayoutElemsValid(vs: seq<Json>, style: Style, level: nat)
    requires PrintableElems(vs) && CleanElems(vs) && BlankStyle(style)
    ensures var es := LayoutElems(vs, style, level);
            ValidElems(es) && ElemValues(es) == DenotedElems(vs)
    decreases vs, 0
  {
    if vs != [] {
      var es := LayoutElems(vs, style, level);
      GapsBlank(style, level);
      LayoutValid(vs[0], style, level + 1);
      LayoutElemsValid(vs[1..], style, level);
      hide Before, After, Layout, Valid, Value, Denoted, CleanValue, Printable;
      assert es[1..] == LayoutElems(vs[1..], style, level);
    }
  }

  lemma {:induction false} LayoutMemberValid(m: Member, post: Text, style: Style, level: nat)
    requires PrintableMember(m) && CleanMember(m) && BlankStyle(style) && Blank(post)
    ensures var c := LayoutMember(m, post, style, level);
            ValidMember(c) && MemberValue(c) == DenotedMember(m)
    decreases m, 0
  {
    GapsBlank(style, level);
    StringItemsExact(m.key);
    LayoutValid(m.value, style, level + 1);
  }

  lemma {:induction false} LayoutMembersValid(ms: seq<Member>, style: Style, level: nat)
    requires PrintableMembers(ms) && CleanMembers(ms) && BlankStyle(style)
    ensures var cs := LayoutMembers(ms, style, level);
            ValidMembers(cs) && MemberValues(cs) == DenotedMembers(ms)
    decreases ms, 0
  {
    if ms != [] {
      var cs := LayoutMembers(ms, style, level);
      GapsBlank(style, level);
      LayoutMemberValid(ms[0], if |ms| == 1 then After(style, level) else [], style, level);
      LayoutMembersValid(ms[1..], style, level);
      hide After, LayoutMember, ValidMember, MemberValue, DenotedMember, CleanMember, PrintableMember;
      assert cs[1..] == LayoutMembers(ms[1..], style, level);
    }
  }

  // ---------------------------------------------------------------------------------------------
  // No JSON text contains the byte 0x1F
  // ---------------------------------------------------------------------------------------------

  lemma BlankClean(w: Text)
    requires Blank(w)
    ensures Clean(w)
  {
  }

  lemma NumberClean(n: Number)
    requires ValidNumber(n)
    ensures Clean(RenderNumber(n))
  {
    hide Clean;
    CleanSmall();
    DigitsClean();
    CleanConcat(RenderSign(n.minus), n.integer + (RenderFrac(n.frac) + RenderExp(n.exp)));
    CleanConcat(n.integer, RenderFrac(n.frac) + RenderExp(n.exp));
    CleanConcat(RenderFrac(n.frac), RenderExp(n.exp));
    if n.frac.Some? {
      CleanConcat([POINT], n.frac.value);
    }
    if n.exp.Some? {
      CleanConcat([n.exp.value.e] + n.exp.value.sign, n.exp.value.digits);
      CleanConcat([n.exp.value.e], n.exp.value.sign);
    }
  }

  lemma CleanSmall()
    ensures Clean([]) && forall c: Char | c != 0x1F :: Clean([c])
  {
  }

  lemma DigitsClean()
    ensures forall d: Text | Digits(d) :: Clean(d)
  {
  }

  lemma ItemClean(it: Item)
    requires ValidItem(it)
    ensures Clean(RenderItem(it))
  {
    match it
    case Raw(u) =>
    case Escape(c) =>
    case Hex(h) => HexClean(h);
    case Pair(high, low) => HexClean(high); HexClean(low);
  }

  lemma HexClean(h: Text)
    requires HexDigits(h)
    ensures Clean(h) && Clean([BACKSLASH, LETTER_U] + h)
  {
    assert forall i | 0 <= i < 4 :: HexDigit(h[i]).Some?;
  }

  lemma {:induction false} ItemsClean(items: seq<Item>)
    requires ValidItems(items)
    ensures Clean(RenderItems(items)) && Clean(RenderString(items))
  {
    hide Clean, ValidItem, RenderItem;
    CleanSmall();
    if items != [] {
      ItemClean(items[0]);
      ItemsClean(items[1..]);
      CleanConcat(RenderItem(items[0]), RenderItems(items[1..]));
    }
    CleanConcat([QUOTE], RenderItems(items) + [QUOTE]);
    CleanConcat(RenderItems(items), [QUOTE]);
  }

  lemma {:induction false} RenderClean(c: Cst)
    requires Valid(c)
    ensures Clean(Render(c))
    decreases c, 1
  {
    match c
    case CNull =>
    case CBool(_) =>
    case CStr(items) => ItemsClean(items);
    case CNum(n) => NumberClean(n);
    case CArr(gap, elems) =>
      ElemsClean(elems);
      CleanBracketed(OPEN_ARRAY, gap, RenderElems(elems), CLOSE_ARRAY);
    case CObj(gap, members) =>
      MembersClean(members);
      CleanBracketed(OPEN_OBJECT, gap, RenderMembers(members), CLOSE_OBJECT);
  }

  lemma CleanBracketed(open: Char, gap: Text, body: Text, close: Char)
    requires open != 0x1F && close != 0x1F && Blank(gap)
    ensures Clean([open] + (gap + (body + [close]))) <==> Clean(body)
  {
    BlankClean(gap);
    hide Clean, Blank;
    CleanSmall();
    CleanConcat([open], gap + (body + [close]));
    CleanConcat(gap, body + [close]);
    CleanConcat(body, [close]);
  }

  lemma CleanElemText(pre: Text, value: Text, post: Text)
    ensures Clean(pre + (value + post)) <==> Clean(pre) && Clean(value) && Clean(post)
  {
    hide Clean;
    CleanConcat(pre, value + post);
    CleanConcat(value, post);
  }

  lemma CleanMemberText(pre: Text, key: Text, mid: Text, elem: Text)
    ensures Clean(pre + (key + (mid + ([COLON] + elem)))) <==>
            Clean(pre) && Clean(key) && Clean(mid) && Clean(elem)
  {
    hide Clean;
    CleanSmall();
    CleanConcat(pre, key + (mid + ([COLON] + elem)));
    CleanConcat(key, mid + ([COLON] + elem));
    CleanConcat(mid, [COLON] + elem);
    CleanConcat([COLON], elem);
  }

  lemma CleanList(head: Text, tail: Text)
    ensures Clean(head + ([COMMA] + tail)) <==> Clean(head) && Clean(tail)
  {
    hide Clean;
    CleanSmall();
    CleanConcat(head, [COMMA] + tail);
    CleanConcat([COMMA], tail);
  }

  lemma {:induction false} ElemClean(e: CElem)
    requires ValidElem(e)
    ensures Clean(RenderElem(e))
    decreases e, 0
  {
    RenderClean(e.value);
    BlankClean(e.pre);
    BlankClean(e.post);
    CleanElemText(e.pre, Render(e.value), e.post);
  }

  lemma {:induction false} ElemsClean(es: seq<CElem>)
    requires ValidElems(es)
    ensures Clean(RenderElems(es))
    decreases es, 0
  {
    hide Clean, RenderElem, ValidElem;
    CleanSmall();
    if es != [] {
      ElemClean(es[0]);
      ElemsClean(es[1..]);
      CleanList(RenderElem(es[0]), RenderElems(es[1..]));
    }
  }

  lemma {:induction false} MemberTextClean(m: CMember)
    requires ValidMember(m)
    ensures Clean(RenderMember(m))
    decreases m, 0
  {
    ElemClean(m.elem);
    ItemsClean(m.key);
    BlankClean(m.pre);
    BlankClean(m.mid);
    CleanMemberText(m.pre, RenderString(m.key), m.mid, RenderElem(m.elem));
  }

  lemma {:induction false} MembersClean(ms: seq<CMember>)
    requires ValidMembers(ms)
    ensures Clean(RenderMembers(ms))
    decreases ms, 0
  {
    hide Clean, RenderMember, ValidMember;
    CleanSmall();
    if ms != [] {
      MemberTextClean(ms[0]);
      MembersClean(ms[1..]);
      CleanList(RenderMember(ms[0]), RenderMembers(ms[1..]));
    }
  }

  /** A value that is not clean is printed with the byte 0x1F. */
  lemma {:induction false} LayoutDirty(v: Json, style: Style, level: nat)
    requires Printable(v) && !CleanValue(v)
    ensures !Clean(Render(Layout(v, style, level)))
    decreases v, 1
  {
    match v
    case Str(s) =>
      StringItemsExact(s);
    case Arr(vs) =>
      LayoutElemsDirty(vs, style, level);
      CleanBracketed(OPEN_ARRAY, [], RenderElems(LayoutElems(vs, style, level)), CLOSE_ARRAY);
    case Obj(ms) =>
      LayoutMembersDirty(ms, style, level);
      CleanBracketed(OPEN_OBJECT, [], RenderMembers(LayoutMembers(ms, style, level)), CLOSE_OBJECT);
  }

  lemma {:induction false} LayoutElemsDirty(vs: seq<Json>, style: Style, level: nat)
    requires PrintableElems(vs) && !CleanElems(vs)
    ensures !Clean(RenderElems(LayoutElems(vs, style, level)))
    decreases vs, 0
  {
    var es := LayoutElems(vs, style, level);
    assert es[1..] == LayoutElems(vs[1..], style, level);
    CleanElemText(es[0].pre, Render(es[0].value), es[0].post);
    CleanList(RenderElem(es[0]), RenderElems(es[1..]));
    if !CleanValue(vs[0]) {
      LayoutDirty(vs[0], style, level + 1);
    } else {
      LayoutElemsDirty(vs[1..], style, level);
    }
  }

  lemma {:induction false} LayoutMembersDirty(ms: seq<Member>, style: Style, level: nat)
    requires PrintableMembers(ms) && !CleanMembers(ms)
    ensures !Clean(RenderMembers(LayoutMembers(ms, style, level)))
    decreases ms, 0
  {
    var cs := LayoutMembers(ms, style, level);
    if !CleanMember(ms[0]) {
      LayoutMemberDirty(ms[0], if |ms| == 1 then After(style, level) else [], style, level);
    } else {
      LayoutMembersDirty(ms[1..], style, level);
    }
    hide Clean, LayoutMember, RenderMember, CleanMember, PrintableMember, After;
    assert cs[1..] == LayoutMembers(ms[1..], style, level);
    CleanList(RenderMember(cs[0]), RenderMembers(cs[1..]));
  }

  lemma {:induction false} LayoutMemberDirty(m: Member, post: Text, style: Style, level: nat)
    requires PrintableMember(m) && !CleanMember(m)
    ensures !Clean(RenderMember(LayoutMember(m, post, style, level)))
    decreases m, 0
  {
    var c := LayoutMember(m, post, style, level);
    if !Clean(m.key) {
      StringItemsExact(m.key);
    } else {
      LayoutDirty(m.value, style, level + 1);
    }
    hide Clean, Layout, Render, RenderString, StringItems, CleanValue;
    CleanElemText(c.elem.pre, Render(c.elem.value), c.elem.post);
    CleanMemberText(c.pre, RenderString(c.key), c.mid, RenderElem(c.elem));
  }

  // ---------------------------------------------------------------------------------------------
  // The round trip
  // ---------------------------------------------------------------------------------------------

  /** Decoding what was printed gives the value back, up to the numbers that print as null, exactly
      when no string or key contains the byte 0x1F; otherwise it fails. */
  lemma DecodePrinted(v: Json, style: Style)
    requires Printable(v) && BlankStyle(style)
    ensures Decode(Printed(v, style)) == if CleanValue(v) then Some(Denoted(v)) else None
  {
    var c := Layout(v, style, 0);
    var t := Printed(v, style);
    hide *;
    if CleanValue(v) {
      LayoutValid(v, style, 0);
      NothingAround(c);
    } else {
      LayoutDirty(v, style, 0);
      DirtyFails(t);
    }
  }

  lemma NothingAround(c: Cst)
    requires Valid(c)
    ensures Decode(Render(c)) == Some(Value(c))
  {
    DecodeComplete([], c, []);
    assert [] + (Render(c) + []) == Render(c);
  }

  lemma DirtyFails(t: Text)
    requires !Clean(t)
    ensures Decode(t) == None
  {
    if Decode(t).Some? {
      var v := Decode(t).value;
      DecodeExact(t, v);
      var before, c, after :| JsonTextWith(t, v, before, c, after);
      RenderClean(c);
      BlankClean(before);
      BlankClean(after);
      CleanElemText(before, Render(c), after);
    }
  }

  /** Every number is the text of a JSON number. */
  ghost predicate NumericValue(v: Json)
    decreases v, 0
  {
    match v
    case Num(lexeme) => Lexeme(lexeme)
    case Arr(vs) => NumericElems(vs)
    case Obj(ms) => NumericMembers(ms)
    case _ => true
  }

  ghost predicate NumericElems(vs: seq<Json>)
    decreases vs, 0
  {
    vs == [] || (NumericValue(vs[0]) && NumericElems(vs[1..]))
  }

  ghost predicate NumericMembers(ms: seq<Member>)
    decreases ms, 0
  {
    ms == [] || (NumericMember(ms[0]) && NumericMembers(ms[1..]))
  }

  ghost predicate NumericMember(m: Member)
    decreases m, 0
  {
    NumericValue(m.value)
  }

  lemma {:induction false} DenotedIsSame(v: Json)
    ensures Denoted(v) == v <==> NumericValue(v)
    decreases v, 1
  {
    match v
    case Arr(vs) => DenotedElemsSame(vs);
    case Obj(ms) => DenotedMembersSame(ms);
    case _ =>
  }

  lemma {:induction false} DenotedElemsSame(vs: seq<Json>)
    ensures DenotedElems(vs) == vs <==> NumericElems(vs)
    decreases vs, 0
  {
    if vs != [] {
      DenotedIsSame(vs[0]);
      DenotedElemsSame(vs[1..]);
      var ds := DenotedElems(vs);
      assert ds[0] == Denoted(vs[0]) && ds[1..] == DenotedElems(vs[1..]);
      assert vs == [vs[0]] + vs[1..];
    }
  }

  lemma {:induction false} DenotedMembersSame(ms: seq<Member>)
    ensures DenotedMembers(ms) == ms <==> NumericMembers(ms)
    decreases ms, 0
  {
    if ms != [] {
      DenotedMemberSame(ms[0]);
      DenotedMembersSame(ms[1..]);
      var ds := DenotedMembers(ms);
      assert ds[0] == DenotedMember(ms[0]) && ds[1..] == DenotedMembers(ms[1..]);
      assert ms == [ms[0]] + ms[1..];
    }
  }

  lemma {:induction false} DenotedMemberSame(m: Member)
    ensures DenotedMember(m) == m <==> NumericMember(m)
    decreases m, 0
  {
    DenotedIsSame(m.value);
  }

  /** The exact condition of the inverse: decode after print is the identity on a value if and only
      if its strings and keys avoid 0x1F and its numbers are JSON numbers, in both styles. */
  lemma RoundTrip(v: Json, style: Style)
    requires Printable(v) && BlankStyle(style)
    ensures Decode(Printed(v, style)) == Some(v) <==> CleanValue(v) && NumericValue(v)
  {
    DecodePrinted(v, style);
    DenotedIsSame(v);
  }

  /** The byte 0x1F by itself breaks the inverse. */
  lemma RoundTripFailsOn1F()
    ensures Printable(Str([0x1F])) && Decode(Printed(Str([0x1F]), Compact)) == None
  {
    RunesOfEncoding([0x1F]);
    assert EncodeAll([0x1F]) == [0x1F];
    DirtyByte();
    DecodePrinted(Str([0x1F]), Compact);
  }

  // ---------------------------------------------------------------------------------------------
  // What was decoded can be printed
  // ---------------------------------------------------------------------------------------------

  /** Every item of a string literal stands for one scalar value. */
  lemma ItemValueIsEncoded(it: Item) returns (u: Rune)
    requires ValidItem(it)
    ensures ItemValue(it) == Encoded(u)
  {
    match it
    case Raw(v) => u := v;
    case Escape(c) => u := EscapeValue(c).value;
    case Hex(h) => u := HexValue(h);
    case Pair(high, low) => u := PairValue(HexValue(high), HexValue(low));
  }

  lemma {:induction false} ItemsValueIsUtf8(items: seq<Item>) returns (us: seq<Rune>)
    requires ValidItems(items)
    ensures ItemsValue(items) == EncodeAll(us)
  {
    us := [];
    if items != [] {
      var u := ItemValueIsEncoded(items[0]);
      var tail := ItemsValueIsUtf8(items[1..]);
      us := [u] + tail;
      assert us[1..] == tail;
    }
  }

  /** Every string that parse_string returns passes utf8_validate. */
  lemma ParsedStringIsUtf8(t: Text, i: nat)
    requires i <= |t| && ParseString(t, i).Ok?
    ensures ValidUtf8(ParseString(t, i).value)
  {
    var items := StringSound(t, i);
    ValueIsUtf8(items);
  }

  lemma ValueIsUtf8(items: seq<Item>)
    requires ValidItems(items)
    ensures ValidUtf8(ItemsValue(items))
  {
    var us := ItemsValueIsUtf8(items);
    RunesOfEncoding(us);
  }

  lemma {:induction false} ValuePrintable(c: Cst)
    requires Valid(c)
    ensures Printable(Value(c)) && NumericValue(Value(c))
    decreases c, 1
  {
    match c
    case CStr(items) => ValueIsUtf8(items);
    case CArr(_, elems) => ElemValuesPrintable(elems);
    case CObj(_, members) => MemberValuesPrintable(members);
    case _ =>
  }

  lemma {:induction false} ElemValuesPrintable(es: seq<CElem>)
    requires ValidElems(es)
    ensures PrintableElems(ElemValues(es)) && NumericElems(ElemValues(es))
    decreases es, 0
  {
    if es != [] {
      ValuePrintable(es[0].value);
      ElemValuesPrintable(es[1..]);
      var vs := ElemValues(es);
      assert vs[0] == ElemValue(es[0]) && vs[1..] == ElemValues(es[1..]);
    }
  }

  lemma {:induction false} MemberValuesPrintable(ms: seq<CMember>)
    requires ValidMembers(ms)
    ensures PrintableMembers(MemberValues(ms)) && NumericMembers(MemberValues(ms))
    decreases ms, 0
  {
    if ms != [] {
      MemberValuePrintable(ms[0]);
      MemberValuesPrintable(ms[1..]);
      var vs := MemberValues(ms);
      assert vs[0] == MemberValue(ms[0]) && vs[1..] == MemberValues(ms[1..]);
    }
  }

  lemma {:induction false} MemberValuePrintable(m: CMember)
    requires ValidMember(m)
    ensures PrintableMember(MemberValue(m)) && NumericMember(MemberValue(m))
    decreases m, 0
  {
    ValueIsUtf8(m.key);
    ValuePrintable(m.elem.value);
  }

  /** What was decoded can be printed, and its numbers are JSON numbers. */
  lemma DecodedPrintable(t: Text, v: Json)
    requires Decode(t) == Some(v)
    ensures Printable(v) && NumericValue(v)
  {
    DecodeExact(t, v);
    var before, c, after :| JsonTextWith(t, v, before, c, after);
    ValuePrintable(c);
  }
}
