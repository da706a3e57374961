/**
 What json_stringify writes, character by character: the printed text of each kind of value in terms of
 literals and of the printed texts of its parts.
 */
module JsonOutput {
  import opened Options
  import opened Chars
  import opened Utf8
  import opened JsonGrammar
  import opened JsonExact
  import opened JsonPrinter
  import opened JsonLaws

  // ---------------------------------------------------------------------------------------------
  // Strings
  // ---------------------------------------------------------------------------------------------

  /** Between its quotation marks a string of one character is one of seven escapes of two characters, or
      \u00 and two upper-case digits for any other character below 0x1F, or the character itself. */
  lemma PrintedCharacter(u: Rune, style: Style)
    ensures Printable(Str(Encoded(u)))
    ensures Printed(Str(Encoded(u)), style)
         == ['"' as int]
            + (if u == '"' as int then Ascii("\\\"")
               else if u == '\\' as int then Ascii("\\\\")
               else if u == 8 then Ascii("\\b")
               else if u == 12 then Ascii("\\f")
               else if u == 10 then Ascii("\\n")
               else if u == 13 then Ascii("\\r")
               else if u == 9 then Ascii("\\t")
               else if u < 0x1F then Ascii("\\u00") + ["0123456789ABCDEF"[u / 16] as int, "0123456789ABCDEF"[u % 16] as int]
               else Encoded(u))
            + ['"' as int]
  {
    RunesOfEncoding([u]);
    assert EncodeAll([u]) == Encoded(u);
    hide Encoding, WriteHex16, ValidUtf8, Runes;
    WrittenItem(u);
    assert RuneItems([u]) == [CharItem(u)];
    assert RenderItems([CharItem(u)]) == RenderItem(CharItem(u)) + [];
    QuotedText(RenderItem(CharItem(u)));
  }

  lemma QuotedText(inner: Text)
    ensures [QUOTE] + ((inner + []) + [QUOTE]) == ['"' as int] + inner + ['"' as int]
  {
  }

  lemma WrittenItem(u: Rune)
    ensures RenderItem(CharItem(u))
         == if u == '"' as int then Ascii("\\\"")
            else if u == '\\' as int then Ascii("\\\\")
            else if u == 8 then Ascii("\\b")
            else if u == 12 then Ascii("\\f")
            else if u == 10 then Ascii("\\n")
            else if u == 13 then Ascii("\\r")
            else if u == 9 then Ascii("\\t")
            else if u < 0x1F then Ascii("\\u00") + ["0123456789ABCDEF"[u / 16] as int, "0123456789ABCDEF"[u % 16] as int]
            else Encoded(u)
  {
    hide Encoding, WriteHex16;
    if u < 0x1F {
      WrittenDigits(u);
    }
  }

  lemma WrittenDigits(u: nat)
    requires u < 0x1F
    ensures [BACKSLASH, LETTER_U] + WriteHex16(u)
         == Ascii("\\u00") + ["0123456789ABCDEF"[u / 16] as int, "0123456789ABCDEF"[u % 16] as int]
  {
    hide *;
    SmallDigits(u);
    EscapeStart();
    WrittenHex(u);
    assert "0123456789ABCDEF"[0] == '0';
  }

  lemma SmallDigits(u: nat)
    requires u < 0x1F
    ensures u / 4096 % 16 == 0 && u / 256 % 16 == 0 && u / 16 % 16 == u / 16
  {
  }

  lemma EscapeStart()
    ensures Ascii("\\u00") == [BACKSLASH, LETTER_U, '0' as int, '0' as int]
  {
  }

  /** write_hex16: upper-case digits, highest first */
  lemma WrittenHex(v: nat)
    requires v < 0x10000
    ensures WriteHex16(v)
         == ["0123456789ABCDEF"[v / 4096 % 16] as int, "0123456789ABCDEF"[v / 256 % 16] as int,
             "0123456789ABCDEF"[v / 16 % 16] as int, "0123456789ABCDEF"[v % 16] as int]
  {
    hide HexChar;
    HexCharLaw(v / 4096 % 16);
    HexCharLaw(v / 256 % 16);
    HexCharLaw(v / 16 % 16);
    HexCharLaw(v % 16);
  }

  lemma HexCharLaw(d: nat)
    requires d < 16
    ensures HexChar(d) == "0123456789ABCDEF"[d] as int
  {
  }

  lemma PrintedEmpty(style: Style)
    ensures Printable(Str([])) && Printed(Str([]), style) == ['"' as int, '"' as int]
  {
  }

  lemma StringText(s: Text, style: Style)
    ensures Printable(Str(s)) <==> ValidUtf8(s)
    ensures ValidUtf8(s) ==> Printed(Str(s), style) == [QUOTE] + (RenderItems(StringItems(s)) + [QUOTE])
  {
    hide ValidUtf8, StringItems, RenderItems;
  }

  lemma ItemsConcat(a: Text, b: Text)
    requires ValidUtf8(a) && ValidUtf8(b)
    ensures ValidUtf8(a + b) && StringItems(a + b) == StringItems(a) + StringItems(b)
  {
    hide ValidUtf8, Runes, EncodeAll, RuneItems;
    var us, vs := Runes(a), Runes(b);
    EncodeConcat(us, vs);
    RunesOfEncoding(us + vs);
    RuneItemsConcat(us, vs);
  }

  /** The characters are written one after the other. */
  lemma PrintedConcat(a: Text, b: Text, style: Style)
    requires Printable(Str(a)) && Printable(Str(b))
    ensures Printable(Str(a + b))
    ensures var p, q := Printed(Str(a), style), Printed(Str(b), style);
            |p| > 0 && |q| > 0 && Printed(Str(a + b), style) == p[..|p| - 1] + q[1..]
  {
    hide *;
    StringText(a, style);
    StringText(b, style);
    StringText(a + b, style);
    ItemsConcat(a, b);
    RenderConcat(StringItems(a), StringItems(b));
    Inner(RenderItems(StringItems(a)), RenderItems(StringItems(b)));
  }

  lemma Inner(x: Text, y: Text)
    ensures var p, q := [QUOTE] + (x + [QUOTE]), [QUOTE] + (y + [QUOTE]);
            [QUOTE] + ((x + y) + [QUOTE]) == p[..|p| - 1] + q[1..]
  {
  }

  lemma {:induction false} EncodeConcat(us: seq<Rune>, vs: seq<Rune>)
    ensures EncodeAll(us + vs) == EncodeAll(us) + EncodeAll(vs)
    decreases |us|
  {
    hide Encoding;
    if us == [] {
      assert us + vs == vs;
    } else {
      EncodeConcat(us[1..], vs);
      assert (us + vs)[1..] == us[1..] + vs;
    }
  }

  lemma {:induction false} RuneItemsConcat(us: seq<Rune>, vs: seq<Rune>)
    ensures RuneItems(us + vs) == RuneItems(us) + RuneItems(vs)
    decreases |us|
  {
    hide *;
    if us == [] {
      NoItems();
      assert us + vs == vs;
    } else {
      RuneItemsConcat(us[1..], vs);
      RuneItemsCons(us);
      RuneItemsCons(us + vs);
      assert (us + vs)[1..] == us[1..] + vs;
    }
  }

  lemma NoItems()
    ensures RuneItems([]) == []
  {
  }

  lemma RuneItemsCons(us: seq<Rune>)
    requires us != []
    ensures RuneItems(us) == [CharItem(us[0])] + RuneItems(us[1..])
  {
    hide CharItem;
  }

  lemma {:induction false} RenderConcat(a: seq<Item>, b: seq<Item>)
    ensures RenderItems(a + b) == RenderItems(a) + RenderItems(b)
    decreases |a|
  {
    hide RenderItem;
    if a == [] {
      assert a + b == b;
    } else {
      RenderConcat(a[1..], b);
      assert (a + b)[1..] == a[1..] + b;
    }
  }

  /** A string without quotation marks, backslashes and control characters is written as it stands. */
  lemma {:induction false} PrintedPlain(s: Text, style: Style)
    requires Printable(Str(s))
    requires forall i | 0 <= i < |s| :: s[i] >= 0x1F && s[i] != '"' as int && s[i] != '\\' as int
    ensures Printed(Str(s), style) == ['"' as int] + s + ['"' as int]
    decreases |s|
  {
    hide *;
    if s == [] {
      PrintedEmpty(style);
    } else {
      var a, b := PlainHead(s, style);
      assert forall i | 0 <= i < |b| :: b[i] == s[|a| + i];
      PrintedPlain(b, style);
      PrintedConcat(a, b, style);
      PlainParts(a, b);
    }
  }

  lemma PlainHead(s: Text, style: Style) returns (a: Text, b: Text)
    requires Printable(Str(s)) && s != []
    requires s[0] >= 0x1F && s[0] != '"' as int && s[0] != '\\' as int
    ensures s == a + b && |b| < |s| && Printable(Str(a)) && Printable(Str(b))
    ensures Printed(Str(a), style) == ['"' as int] + a + ['"' as int]
  {
    hide *;
    StringText(s, style);
    var u;
    u, a, b := SplitFirst(s);
    PrintedCharacter(u, style);
    StringText(b, style);
  }

  lemma SplitFirst(s: Text) returns (u: Rune, a: Text, b: Text)
    requires ValidUtf8(s) && s != []
    ensures s == a + b && |b| < |s| && a == Encoded(u) && ValidUtf8(b)
    ensures u == s[0] || (u >= 0x80 && s[0] >= 0x80)
  {
    hide Encoding, EncodeAll;
    u := ReadChar(s);
    a, b := s[..ValidateCz(s)], s[ValidateCz(s)..];
    FirstCharacter(s);
    hide ValidateCz, ReadChar;
    assert s == a + b;
  }

  lemma PlainParts(a: Text, b: Text)
    ensures var p, q := ['"' as int] + a + ['"' as int], ['"' as int] + b + ['"' as int];
            p[..|p| - 1] + q[1..] == ['"' as int] + (a + b) + ['"' as int]
  {
  }

  // ---------------------------------------------------------------------------------------------
  // Words and numbers
  // ---------------------------------------------------------------------------------------------

  lemma PrintedScalar(v: Json, style: Style)
    requires v.Null? || v.Bool? || v.Num?
    ensures Printable(v)
    ensures Printed(v, style)
         == if v.Bool? then Ascii(if v.b then "true" else "false")
            else if v.Num? && Lexeme(v.lexeme) then v.lexeme
            else Ascii("null")
  {
    hide Lexeme;
    assert Ascii("null") == NULL && Ascii("true") == TRUE && Ascii("false") == FALSE;
  }

  // ---------------------------------------------------------------------------------------------
  // Arrays and objects
  // ---------------------------------------------------------------------------------------------

  /** The text of a value inside `level` others */
  ghost function PrintedAt(v: Json, style: Style, level: nat): Text
    requires Printable(v)
  {
    Render(Layout(v, style, level))
  }

  /** Nesting matters only for arrays and objects. */
  lemma PrintedScalarAt(v: Json, style: Style, level: nat)
    requires Printable(v) && !v.Arr? && !v.Obj?
    ensures PrintedAt(v, style, level) == Printed(v, Compact)
  {
  }

  lemma PrintedAtTop(v: Json, style: Style)
    requires Printable(v)
    ensures Printed(v, style) == PrintedAt(v, style, 0)
  {
  }

  /** The compact layout is the same at every level. */
  lemma {:induction false} SameLayout(v: Json, k: nat, m: nat)
    requires Printable(v)
    ensures Layout(v, Compact, k) == Layout(v, Compact, m)
    decreases v, 1
  {
    match v
    case Arr(vs) => SameElems(vs, k, m);
    case Obj(ms) => SameMembers(ms, k, m);
    case _ =>
  }

  lemma {:induction false} SameElems(vs: seq<Json>, k: nat, m: nat)
    requires PrintableElems(vs)
    ensures LayoutElems(vs, Compact, k) == LayoutElems(vs, Compact, m)
    decreases vs, 0
  {
    if vs != [] {
      SameLayout(vs[0], k + 1, m + 1);
      SameElems(vs[1..], k, m);
    }
  }

  lemma {:induction false} SameMembers(ms: seq<Member>, k: nat, m: nat)
    requires PrintableMembers(ms)
    ensures LayoutMembers(ms, Compact, k) == LayoutMembers(ms, Compact, m)
    decreases ms, 0
  {
    if ms != [] {
      SameMember(ms[0], [], k, m);
      SameMembers(ms[1..], k, m);
    }
  }

  lemma {:induction false} SameMember(x: Member, post: Text, k: nat, m: nat)
    requires PrintableMember(x)
    ensures LayoutMember(x, post, Compact, k) == LayoutMember(x, post, Compact, m)
    decreases x, 0
  {
    SameLayout(x.value, k + 1, m + 1);
  }

  lemma Tokens()
    ensures COMMA == ',' as int && COLON == ':' as int
    ensures OPEN_ARRAY == '[' as int && CLOSE_ARRAY == ']' as int && OPEN_OBJECT == '{' as int && CLOSE_OBJECT == '}' as int
    ensures Ascii("[]") == [OPEN_ARRAY, CLOSE_ARRAY] && Ascii("{}") == [OPEN_OBJECT, CLOSE_OBJECT]
    ensures Ascii(": ") == [COLON, 0x20]
  {
  }

  lemma NothingBefore(t: Text)
    ensures Before(Compact, 0) + t == t
  {
  }

  /** `[a,b]` without a `space` */
  lemma PrintedArrayCompact(vs: seq<Json>, ts: seq<Text>)
    requires Printable(Arr(vs)) && |ts| == |vs|
    requires forall i | 0 <= i < |vs| :: Printable(vs[i]) && ts[i] == Printed(vs[i], Compact)
    ensures Printed(Arr(vs), Compact) == ['[' as int] + Joined(ts, [',' as int]) + [']' as int]
  {
    hide *;
    Tokens();
    ArrayShape(vs, Compact, 0);
    PrintedAtTop(Arr(vs), Compact);
    LineLaw(Compact, 0);
    forall i | 0 <= i < |vs| ensures ts[i] == Before(Compact, 0) + PrintedAt(vs[i], Compact, 0) {
      PrintedAtTop(vs[i], Compact);
      NothingBefore(ts[i]);
    }
    ElemsLaw(vs, Compact, 0, ts);
    Framed(OPEN_ARRAY, Joined(ts, [COMMA]), CLOSE_ARRAY);
  }

  /** What the layout puts in front of the elements of a list, and behind the last one. */
  lemma LineLaw(style: Style, level: nat)
    ensures style.Compact? ==> Before(style, level) == After(style, level) == []
    ensures style.Indented? ==>
      && Before(style, level) == ['\n' as int] + Joined(seq(level + 1, _ => style.space), [])
      && After(style, level) == ['\n' as int] + Joined(seq(level, _ => style.space), [])
  {
    if style.Indented? {
      IndentLaw(style.space, level);
      IndentLaw(style.space, level + 1);
    }
  }

  lemma ArrayShape(vs: seq<Json>, style: Style, level: nat)
    requires Printable(Arr(vs))
    ensures PrintableElems(vs)
    ensures PrintedAt(Arr(vs), style, level)
         == ['[' as int] + ([] + (RenderElems(LayoutElems(vs, style, level)) + [']' as int]))
  {
  }

  lemma ObjectShape(ms: seq<Member>, style: Style, level: nat)
    requires Printable(Obj(ms))
    ensures PrintableMembers(ms)
    ensures PrintedAt(Obj(ms), style, level)
         == ['{' as int] + ([] + (RenderMembers(LayoutMembers(ms, style, level)) + ['}' as int]))
  {
  }

  lemma Framed(open: Char, list: Text, close: Char)
    ensures [open] + ([] + ((list + []) + [close])) == [open] + list + [close]
  {
  }

  /** `{"k":a,"l":b}` without a `space` */
  lemma PrintedObjectCompact(ms: seq<Member>, ts: seq<Text>)
    requires Printable(Obj(ms)) && |ts| == |ms|
    requires forall i | 0 <= i < |ms| ::
      && Printable(Str(ms[i].key)) && Printable(ms[i].value)
      && ts[i] == Printed(Str(ms[i].key), Compact) + [':' as int] + Printed(ms[i].value, Compact)
    ensures Printed(Obj(ms), Compact) == ['{' as int] + Joined(ts, [',' as int]) + ['}' as int]
  {
    hide *;
    Tokens();
    ObjectShape(ms, Compact, 0);
    PrintedAtTop(Obj(ms), Compact);
    LineLaw(Compact, 0);
    forall i | 0 <= i < |ms|
      ensures ts[i] == Before(Compact, 0) + Printed(Str(ms[i].key), Compact) + [COLON] + PrintedAt(ms[i].value, Compact, 0)
    {
      PrintedAtTop(ms[i].value, Compact);
      NothingBefore(Printed(Str(ms[i].key), Compact));
    }
    MembersLaw(ms, Compact, 0, ts);
    Framed(OPEN_OBJECT, Joined(ts, [COMMA]), CLOSE_OBJECT);
  }

  /** With a `space`, an element is on a line of its own, indented by one more `space` than the brackets. */
  lemma PrintedArrayIndented(vs: seq<Json>, space: Text, level: nat, ts: seq<Text>)
    requires Printable(Arr(vs)) && |ts| == |vs|
    requires forall i | 0 <= i < |vs| ::
      && Printable(vs[i])
      && ts[i] == ['\n' as int] + Joined(seq(level + 1, _ => space), []) + PrintedAt(vs[i], Indented(space), level + 1)
    ensures PrintedAt(Arr(vs), Indented(space), level)
         == if vs == [] then Ascii("[]")
            else ['[' as int] + Joined(ts, [',' as int]) + (['\n' as int] + Joined(seq(level, _ => space), [])) + [']' as int]
  {
    hide *;
    Tokens();
    ArrayShape(vs, Indented(space), level);
    LineLaw(Indented(space), level);
    ElemsLaw(vs, Indented(space), level, ts);
    if vs == [] {
      NothingJoined(ts);
    } else {
      FramedLines(OPEN_ARRAY, Joined(ts, [',' as int]), After(Indented(space), level), CLOSE_ARRAY);
    }
  }

  lemma NothingJoined(ts: seq<Text>)
    requires ts == []
    ensures Joined(ts, [',' as int]) == []
  {
  }

  lemma FramedLines(open: Char, list: Text, line: Text, close: Char)
    ensures [open] + ([] + ((list + line) + [close])) == [open] + list + line + [close]
  {
  }

  /** The same for the members of an object, with a blank behind the colon. */
  lemma PrintedObjectIndented(ms: seq<Member>, space: Text, level: nat, ts: seq<Text>)
    requires Printable(Obj(ms)) && |ts| == |ms|
    requires forall i | 0 <= i < |ms| ::
      && Printable(Str(ms[i].key)) && Printable(ms[i].value)
      && ts[i] == ['\n' as int] + Joined(seq(level + 1, _ => space), []) + Printed(Str(ms[i].key), Indented(space))
                  + Ascii(": ") + PrintedAt(ms[i].value, Indented(space), level + 1)
    ensures PrintedAt(Obj(ms), Indented(space), level)
         == if ms == [] then Ascii("{}")
            else ['{' as int] + Joined(ts, [',' as int]) + (['\n' as int] + Joined(seq(level, _ => space), [])) + ['}' as int]
  {
    hide *;
    Tokens();
    ObjectShape(ms, Indented(space), level);
    LineLaw(Indented(space), level);
    MembersLaw(ms, Indented(space), level, ts);
    if ms == [] {
      NothingJoined(ts);
    } else {
      FramedLines(OPEN_OBJECT, Joined(ts, [',' as int]), After(Indented(space), level), CLOSE_OBJECT);
    }
  }

  lemma {:induction false} IndentLaw(space: Text, level: nat)
    ensures Indent(space, level) == Joined(seq(level, _ => space), [])
  {
    var ts := seq(level, _ => space);
    if level > 0 {
      IndentLaw(space, level - 1);
      assert ts == [space] + ts[1..] && ts[1..] == seq(level - 1, _ => space);
      JoinedCons(space, ts[1..]);
    }
  }

  /** A list of elements, in both styles: the last one ends its line. */
  lemma {:induction false} ElemsLaw(vs: seq<Json>, style: Style, level: nat, ts: seq<Text>)
    requires PrintableElems(vs) && |ts| == |vs|
    requires forall i | 0 <= i < |vs| ::
      Printable(vs[i]) && ts[i] == Before(style, level) + PrintedAt(vs[i], style, if style.Compact? then 0 else level + 1)
    ensures RenderElems(LayoutElems(vs, style, level)) == Joined(ts, [COMMA]) + if vs == [] then [] else After(style, level)
    decreases |vs|
  {
    hide *;
    JoinStep(ts, [COMMA]);
    if vs == [] {
      NoElems(style, level);
    } else {
      ElemsHead(vs, style, level);
      ElemsLaw(vs[1..], style, level, ts[1..]);
      ListStep(ts[0], Joined(ts[1..], [COMMA]), After(style, level));
    }
  }

  lemma NoElems(style: Style, level: nat)
    ensures RenderElems(LayoutElems([], style, level)) == []
  {
  }

  lemma JoinStep(ts: seq<Text>, sep: Text)
    ensures Joined(ts, sep) == if ts == [] then [] else if |ts| == 1 then ts[0] else ts[0] + (sep + Joined(ts[1..], sep))
  {
  }

  lemma ListStep(text: Text, more: Text, line: Text)
    ensures text + (([COMMA] + more) + line) == (text + ([COMMA] + more)) + line
    ensures text + ([COMMA] + (more + line)) == (text + ([COMMA] + more)) + line
  {
  }

  lemma ElemsHead(vs: seq<Json>, style: Style, level: nat)
    requires PrintableElems(vs) && vs != []
    ensures Printable(vs[0]) && PrintableElems(vs[1..])
    ensures RenderElems(LayoutElems(vs, style, level))
         == (Before(style, level) + PrintedAt(vs[0], style, if style.Compact? then 0 else level + 1))
            + if |vs| == 1 then After(style, level) else [COMMA] + RenderElems(LayoutElems(vs[1..], style, level))
  {
    hide LayoutElems, RenderElems, PrintableElems, Printable, Layout, Render, Before, After;
    ElemsText(vs, style, level);
    SameText(vs[0], style, level + 1);
    NoElems(style, level);
    assert |vs| == 1 ==> vs[1..] == [];
    HeadStep(Before(style, level), Render(Layout(vs[0], style, level + 1)), After(style, level),
             RenderElems(LayoutElems(vs[1..], style, level)));
  }

  lemma SameText(v: Json, style: Style, level: nat)
    requires Printable(v)
    ensures Render(Layout(v, style, level)) == PrintedAt(v, style, if style.Compact? then 0 else level)
  {
    if style.Compact? {
      SameLayout(v, level, 0);
    }
  }

  lemma HeadStep(pre: Text, text: Text, post: Text, rest: Text)
    ensures pre + (text + post) + ([] + []) == (pre + text) + post
    ensures pre + (text + []) + ([COMMA] + rest) == (pre + text) + ([COMMA] + rest)
  {
  }

  lemma {:induction false} MembersLaw(ms: seq<Member>, style: Style, level: nat, ts: seq<Text>)
    requires PrintableMembers(ms) && |ts| == |ms|
    requires forall i | 0 <= i < |ms| ::
      && Printable(Str(ms[i].key)) && Printable(ms[i].value)
      && ts[i] == Before(style, level) + Printed(Str(ms[i].key), style)
                  + (if style.Compact? then [COLON] else [COLON, 0x20])
                  + PrintedAt(ms[i].value, style, if style.Compact? then 0 else level + 1)
    ensures RenderMembers(LayoutMembers(ms, style, level)) == Joined(ts, [COMMA]) + if ms == [] then [] else After(style, level)
    decreases |ms|
  {
    hide *;
    JoinStep(ts, [COMMA]);
    if ms == [] {
      NoMembers(style, level);
    } else {
      MembersHead(ms, style, level);
      MembersLaw(ms[1..], style, level, ts[1..]);
      ListStep(ts[0], Joined(ts[1..], [COMMA]), After(style, level));
    }
  }

  lemma NoMembers(style: Style, level: nat)
    ensures RenderMembers(LayoutMembers([], style, level)) == []
  {
  }

  lemma MembersHead(ms: seq<Member>, style: Style, level: nat)
    requires PrintableMembers(ms) && ms != []
    ensures Printable(Str(ms[0].key)) && Printable(ms[0].value) && PrintableMembers(ms[1..])
    ensures RenderMembers(LayoutMembers(ms, style, level))
         == (Before(style, level) + Printed(Str(ms[0].key), style) + (if style.Compact? then [COLON] else [COLON, 0x20])
             + PrintedAt(ms[0].value, style, if style.Compact? then 0 else level + 1))
            + if |ms| == 1 then After(style, level) else [COMMA] + RenderMembers(LayoutMembers(ms[1..], style, level))
  {
    hide LayoutMembers, RenderMembers, PrintableMembers, Printable, Layout, Render, Before, After, StringItems, RenderItems, ValidUtf8;
    MembersText(ms, style, level);
    SameText(ms[0].value, style, level + 1);
    StringText(ms[0].key, style);
    NoMembers(style, level);
    assert |ms| == 1 ==> ms[1..] == [];
    HeadStep(Before(style, level) + Printed(Str(ms[0].key), style) + (if style.Compact? then [COLON] else [COLON, 0x20]),
             Render(Layout(ms[0].value, style, level + 1)), After(style, level),
             RenderMembers(LayoutMembers(ms[1..], style, level)));
  }
}
