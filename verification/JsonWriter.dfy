/**
 The printing methods of json.c: they read the nodes on the heap and write into the growable buffer.
 They are proved against `Printed`, the rendering of the layout of a value.
 */
module JsonWriter {
  import opened Options
  import opened Chars
  import opened Utf8
  import opened JsonGrammar
  import opened JsonPrinter
  import opened JsonNumbers
  import opened JsonExact
  import opened JsonBuffer
  import opened JsonNodes
  import opened JsonTree
  import opened JsonBuilder
  import O = JsonOutput
  import R = JsonReader
  import P = JsonParser

  // ---------------------------------------------------------------------------------------------
  // Strings and numbers
  // ---------------------------------------------------------------------------------------------

  /** The cases of the switch in emit_string with an escape of two characters. */
  function ShortEscape(c: Char): (escape: Option<Char>)
    ensures escape.Some? ==> c <= 0x7F
  {
    if c == 0x22 then Some(0x22)
    else if c == 0x5C then Some(0x5C)
    else if c == 0x08 then Some(0x62)
    else if c == 0x0C then Some(0x66)
    else if c == 0x0A then Some(0x6E)
    else if c == 0x0D then Some(0x72)
    else if c == 0x09 then Some(0x74)
    else None
  }

  lemma RenderedChar(u: Rune)
    ensures RenderItem(CharItem(u))
         == if u <= 0x7F && ShortEscape(u).Some? then [0x5C, ShortEscape(u).value]
            else if u < 0x1F then [0x5C, 0x75] + WriteHex16(u)
            else Encoded(u)
    ensures u < 0x1F ==> |WriteHex16(u)| == 4
  {
    hide WriteHex16, Encoded;
  }

  /** The body of the loop of emit_string: one character of `s` is written to `b`, in which there is
      room for an escape. */
  method EmitChar(s: Text, i: nat, b: array<Byte>, at: nat) returns (k: nat, at': nat)
    requires i < |s| && ValidateCz(s[i..]) > 0 && at + 6 <= b.Length
    modifies b
    ensures k == i + ValidateCz(s[i..]) <= |s|
    ensures at <= at' <= at + 6 <= b.Length && b[..at'] == old(b[..at]) + RenderItem(CharItem(ReadChar(s[i..])))
  {
    hide *;
    FirstCharacter(s[i..]);
    RenderedChar(ReadChar(s[i..]));
    var c := s[i];
    var escape := ShortEscape(c);
    if escape.Some? {
      at' := StoreAt(b, at, [0x5C, escape.value]);
      k := i + 1;
    } else {
      var len := ValidateCz(s[i..]);
      if c < 0x1F {
        var unicode := ReadChar(s[i..]);
        assert unicode < 0x1F;
        at' := StoreAt(b, at, [0x5C, 0x75]);
        at' := StoreAt(b, at', WriteHex16(unicode));
      } else {
        assert s[i..][..len] == s[i..i + len];
        at' := StoreAt(b, at, s[i..i + len]);
      }
      k := i + len;
    }
  }

  /** What is left to write of a string. */
  ghost function Rest(s: Text, i: nat): Text
    requires i <= |s| && ValidUtf8(s[i..])
  {
    RenderItems(StringItems(s[i..]))
  }

  lemma RestStep(s: Text, i: nat, done: Text)
    requires i < |s| && ValidUtf8(s[i..])
    ensures ValidateCz(s[i..]) > 0 && i + ValidateCz(s[i..]) <= |s| && ValidUtf8(s[i + ValidateCz(s[i..])..])
    ensures done + Rest(s, i) == done + RenderItem(CharItem(ReadChar(s[i..]))) + Rest(s, i + ValidateCz(s[i..]))
  {
    var n := ValidateCz(s[i..]);
    assert s[i..][n..] == s[i + n..];
    var us := Runes(s[i..]);
    assert us[0] == ReadChar(s[i..]) && us[1..] == Runes(s[i + n..]);
    hide ValidateCz, CharItem, RenderItem;
    var items := RuneItems(us);
    assert items[0] == CharItem(us[0]) && items[1..] == RuneItems(us[1..]);
    Assoc(done, RenderItem(items[0]), RenderItems(items[1..]));
  }

  /** One round of the loop of emit_string: write a character, commit it, and reserve 14 bytes again. */
  method EmitNext(out: SB, at: nat, str: Text, i: nat, ghost pre: Text) returns (k: nat)
    requires i < |str| && ValidateCz(str[i..]) > 0
    requires out.Valid() && at + 13 <= out.end && out.buf[..at] == pre
    modifies out, out.buf
    ensures k == i + ValidateCz(str[i..]) <= |str|
    ensures out.Valid() && out.cur + 14 <= out.end
    ensures out.Contents() == pre + RenderItem(CharItem(ReadChar(str[i..])))
    ensures out.buf == old(out.buf) || fresh(out.buf)
  {
    ghost var c := RenderItem(CharItem(ReadChar(str[i..])));
    hide RenderItem, CharItem, ReadChar, ValidateCz;
    var b := out.buf;
    var at';
    k, at' := EmitChar(str, i, b, at);
    TextHasNoNul(b[..at'], pre + c);
    out.Advance(at');
    out.Need(14);
  }

  /** The loop of emit_string, behind the opening quotation mark. */
  method EmitChars(out: SB, start: nat, str: Text, ghost pre: Text) returns (at: nat)
    requires ValidUtf8(str) && out.Valid() && start + 13 <= out.end && out.buf[..start] == pre
    modifies out, out.buf
    ensures out.Valid() && at + 13 <= out.end && out.buf[..at] == pre + RenderItems(StringItems(str))
    ensures out.buf == old(out.buf) || fresh(out.buf)
  {
    hide ValidUtf8, RenderItems, RenderItem, StringItems, CharItem, ValidateCz, ReadChar;
    ghost var done: Text := [];
    var i: nat := 0;
    at := start;
    assert str[0..] == str;
    while i < |str|
      invariant i <= |str| && ValidUtf8(str[i..]) && done + Rest(str, i) == Rest(str, 0)
      invariant out.buf == old(out.buf) || fresh(out.buf)
      invariant out.Valid() && at + 13 <= out.end && out.end < out.buf.Length
      invariant out.buf[..at] == pre + done
      decreases |str| - i
    {
      RestStep(str, i, done);
      ghost var item := RenderItem(CharItem(ReadChar(str[i..])));
      Assoc(pre, done, item);
      i := EmitNext(out, at, str, i, pre + done);
      at := out.cur;
      done := done + item;
    }
    assert str[i..] == [];
    NothingLeft(done);
  }

  /** emit_string */
  method EmitString(out: SB, str: Text)
    requires out.Valid() && ValidUtf8(str)
    modifies out, out.buf
    ensures out.Valid() && out.Contents() == old(out.Contents()) + RenderString(StringItems(str))
    ensures out.buf == old(out.buf) || fresh(out.buf)
  {
    hide ValidUtf8, RenderItems, StringItems;
    ghost var was := out.Contents();
    ghost var all := was + RenderString(StringItems(str));
    assert all == was + [QUOTE] + RenderItems(StringItems(str)) + [QUOTE];
    hide RenderString;
    out.Need(14);
    var at := StoreAt(out.buf, out.cur, [QUOTE]);
    at := EmitChars(out, at, str, was + [QUOTE]);
    at := StoreAt(out.buf, at, [QUOTE]);
    TextHasNoNul(out.buf[..at], all);
    out.Advance(at);
  }

  lemma NothingLeft(done: Text)
    ensures done + RenderItems(StringItems([])) == done
  {
  }

  lemma TextHasNoNul(s: seq<Byte>, t: Text)
    requires s == t
    ensures NoNul(s)
  {
  }

  /** json_encode_string */
  method JsonEncodeString(str: Text) returns (s: Text)
    requires ValidUtf8(str)
    ensures s == Printed(Str(str), Compact)
    ensures (forall i | 0 <= i < |str| :: str[i] >= 0x1F && str[i] != '"' as int && str[i] != '\\' as int)
      ==> s == ['"' as int] + str + ['"' as int]
  {
    var sb := new SB();
    EmitString(sb, str);
    s := sb.Finish();
    if forall i | 0 <= i < |str| :: str[i] >= 0x1F && str[i] != '"' as int && str[i] != '\\' as int {
      O.PrintedPlain(str, Compact);
    }
  }

  /** emit_number: a double is written as sprintf writes it if that is a JSON number. */
  method EmitNumber<T>(out: SB, c: Doubles<T>, num: T)
    requires out.Valid()
    modifies out, out.buf
    ensures out.Valid() && out.Contents() == old(out.Contents()) + Render(NumberLayout(c.sprintf(num)))
    ensures out.buf == old(out.buf) || fresh(out.buf)
  {
    var buf := c.sprintf(num);
    LexemeIsParsed(buf);
    hide Lexeme, P.ParseNumber;
    var r := R.ParseNumber(buf, 0);
    if r.Ok? && At(buf, r.next) == 0 {
      out.Put(buf);
    } else {
      out.Put(NULL);
    }
  }

  // ---------------------------------------------------------------------------------------------
  // Walking over the children
  // ---------------------------------------------------------------------------------------------

  /** What json_foreach reads from the child at position `i`. */
  lemma LoadKid(f: Forest, n: JsonNode, i: nat)
    requires Rep(f) && n in f && Container(n.tag) && i < |f[n].kids|
    ensures var c := f[n].kids[i];
            c in f && c.next == Nth(f[n].kids, i + 1) && c.key == f[c].key
  {
    var c := f[n].kids[i];
    assert WellFormedNode(f, n) && KidOf(f, n, c) && Linked(f, Snapshot(f), n) && Linked(f, Snapshot(f), c);
    assert KidLinked(Snapshot(f), f[n].kids, i) && Snapshot(f)[c] == LinksOf(c);
  }

  /** The elements of an array as they are printed. */
  ghost function ShownElems<T>(c: Doubles<T>, vs: seq<Json>): (ws: seq<Json>)
    ensures |ws| == |vs| && Shown(c, Arr(vs)) == Arr(ws)
  {
    Shown(c, Arr(vs)).elems
  }

  ghost function ShownMembers<T>(c: Doubles<T>, ms: seq<Member>): (ws: seq<Member>)
    ensures |ws| == |ms| && Shown(c, Obj(ms)) == Obj(ws)
  {
    Shown(c, Obj(ms)).members
  }

  lemma ElementAt<T>(c: Doubles<T>, f: Forest, n: JsonNode, vs: seq<Json>, i: nat)
    requires i < |vs| && Rep(f) && Denotes(f, n, Arr(vs)) && PrintableElems(ShownElems(c, vs)[i..])
    ensures n in f && |f[n].kids| == |vs|
    ensures var kid, ws := f[n].kids[i], ShownElems(c, vs);
            && kid in f && Denotes(f, kid, vs[i]) && kid.next == Nth(f[n].kids, i + 1)
            && ws[i] == Shown(c, vs[i]) && Printable(ws[i]) && PrintableElems(ws[i + 1..])
  {
    LoadKid(f, n, i);
    hide Rep;
    var ws := ShownElems(c, vs);
    assert ws[i..][0] == ws[i] && ws[i..][1..] == ws[i + 1..];
  }

  lemma MemberAt<T>(c: Doubles<T>, f: Forest, n: JsonNode, ms: seq<Member>, i: nat)
    requires i < |ms| && Rep(f) && Denotes(f, n, Obj(ms)) && PrintableMembers(ShownMembers(c, ms)[i..])
    ensures n in f && |f[n].kids| == |ms|
    ensures var kid, ws := f[n].kids[i], ShownMembers(c, ms);
            && kid in f && Denotes(f, kid, ms[i].value) && kid.next == Nth(f[n].kids, i + 1)
            && kid.key == Some(ws[i].key) && ValidUtf8(ws[i].key)
            && ws[i].value == Shown(c, ms[i].value) && Printable(ws[i].value) && PrintableMembers(ws[i + 1..])
  {
    LoadKid(f, n, i);
    hide Rep, ValidUtf8;
    var ws := ShownMembers(c, ms);
    assert ws[i..][0] == ws[i] && ws[i..][1..] == ws[i + 1..];
  }

  /** The first child of an array or object. */
  lemma FirstChild(f: Forest, n: JsonNode, v: Json)
    requires Rep(f) && Denotes(f, n, v) && (v.Arr? || v.Obj?)
    ensures n in f && n.head == Nth(f[n].kids, 0)
    ensures |f[n].kids| == if v.Arr? then |v.elems| else |v.members|
  {
    LoadFirstKid(f, n);
  }

  /** The tag of a node says what kind of value it has, and so what is printed for it. */
  lemma TagOf<T>(c: Doubles<T>, f: Forest, n: JsonNode, v: Json)
    requires Denotes(f, n, v)
    ensures match n.tag
            case NullTag => Shown(c, v) == Null
            case BoolTag => Shown(c, v) == Bool(n.flag)
            case StringTag => Shown(c, v) == Str(n.str)
            case NumberTag => Shown(c, v) == Num(c.sprintf(c.strtod(n.number)))
            case ArrayTag => v.Arr? && Shown(c, v) == Arr(ShownElems(c, v.elems))
            case ObjectTag => v.Obj? && Shown(c, v) == Obj(ShownMembers(c, v.members))
  {
  }

  // ---------------------------------------------------------------------------------------------
  // The compact printer
  // ---------------------------------------------------------------------------------------------

  ghost function RestElems(vs: seq<Json>, i: nat, level: nat): Text
    requires i <= |vs| && PrintableElems(vs[i..])
  {
    RenderElems(LayoutElems(vs[i..], Compact, level))
  }

  lemma ElemsStep(vs: seq<Json>, i: nat, level: nat, done: Text)
    requires i < |vs| && PrintableElems(vs[i..])
    ensures Printable(vs[i]) && PrintableElems(vs[i + 1..])
    ensures done + RestElems(vs, i, level)
         == done + Render(Layout(vs[i], Compact, level + 1)) + (if i + 1 < |vs| then [COMMA] else [])
            + RestElems(vs, i + 1, level)
  {
    ElemsText(vs[i..], Compact, level);
    assert vs[i..][0] == vs[i] && vs[i..][1..] == vs[i + 1..];
    var text := Render(Layout(vs[i], Compact, level + 1));
    var rest := if i + 1 < |vs| then [COMMA] else [];
    hide Layout, LayoutElems, RenderElems, Render, PrintableElems;
    Splice([], text, [], rest, RestElems(vs, i + 1, level), done);
  }

  lemma Splice(pre: Text, text: Text, post: Text, comma: Text, rest: Text, done: Text)
    ensures done + (pre + (text + post) + (comma + rest)) == done + pre + text + post + comma + rest
    ensures pre == [] && post == [] ==> done + (pre + (text + post) + (comma + rest)) == done + text + comma + rest
  {
    assert done + (pre + (text + post) + (comma + rest)) == done + pre + text + post + comma + rest;
  }

  ghost function RestMembers(ms: seq<Member>, i: nat, level: nat): Text
    requires i <= |ms| && PrintableMembers(ms[i..])
  {
    RenderMembers(LayoutMembers(ms[i..], Compact, level))
  }

  lemma MembersStep(ms: seq<Member>, i: nat, level: nat, done: Text)
    requires i < |ms| && PrintableMembers(ms[i..])
    ensures ValidUtf8(ms[i].key) && Printable(ms[i].value) && PrintableMembers(ms[i + 1..])
    ensures done + RestMembers(ms, i, level)
         == done + RenderString(StringItems(ms[i].key)) + [COLON] + Render(Layout(ms[i].value, Compact, level + 1))
            + (if i + 1 < |ms| then [COMMA] else []) + RestMembers(ms, i + 1, level)
  {
    hide ValidUtf8, RenderString, StringItems, Layout, Render;
    MembersText(ms[i..], Compact, level);
    assert ms[i..][0] == ms[i] && ms[i..][1..] == ms[i + 1..];
    var key, text := RenderString(StringItems(ms[i].key)), Render(Layout(ms[i].value, Compact, level + 1));
    var comma, rest := if i + 1 < |ms| then [COMMA] else [], RestMembers(ms, i + 1, level);
    hide LayoutMembers, RenderMembers, PrintableMembers;
    assert RestMembers(ms, i, level) == [] + key + [COLON] + (text + []) + (comma + rest);
    Splice([] + key + [COLON], text, [], comma, rest, done);
    assert done + ([] + key + [COLON]) == done + key + [COLON];
    assert text + [] == text;
  }

  lemma ArrayText(vs: seq<Json>, level: nat, was: Text)
    requires PrintableElems(vs)
    ensures Printable(Arr(vs)) && PrintableElems(vs[0..])
    ensures was + [OPEN_ARRAY] + RestElems(vs, 0, level) + [CLOSE_ARRAY] == was + Render(Layout(Arr(vs), Compact, level))
  {
    assert vs[0..] == vs;
    var elems := RenderElems(LayoutElems(vs, Compact, level));
    hide LayoutElems, RenderElems, PrintableElems;
    assert was + [OPEN_ARRAY] + elems + [CLOSE_ARRAY] == was + ([OPEN_ARRAY] + ([] + (elems + [CLOSE_ARRAY])));
  }

  lemma ObjectText(ms: seq<Member>, level: nat, was: Text)
    requires PrintableMembers(ms)
    ensures Printable(Obj(ms)) && PrintableMembers(ms[0..])
    ensures was + [OPEN_OBJECT] + RestMembers(ms, 0, level) + [CLOSE_OBJECT] == was + Render(Layout(Obj(ms), Compact, level))
  {
    assert ms[0..] == ms;
    var members := RenderMembers(LayoutMembers(ms, Compact, level));
    hide LayoutMembers, RenderMembers, PrintableMembers;
    assert was + [OPEN_OBJECT] + members + [CLOSE_OBJECT] == was + ([OPEN_OBJECT] + ([] + (members + [CLOSE_OBJECT])));
  }

  lemma LayoutOf(v: Json, style: Style, level: nat)
    requires Printable(v)
    ensures match v
            case Null => Render(Layout(v, style, level)) == NULL
            case Bool(b) => Render(Layout(v, style, level)) == if b then TRUE else FALSE
            case Str(s) => ValidUtf8(s) && Render(Layout(v, style, level)) == RenderString(StringItems(s))
            case Num(t) => Layout(v, style, level) == NumberLayout(t)
            case Arr(vs) => PrintableElems(vs)
            case Obj(ms) => PrintableMembers(ms)
  {
  }

  /** emit_value */
  method EmitValue<T>(out: SB, c: Doubles<T>, node: JsonNode, ghost f: Forest, ghost v: Json, ghost level: nat)
    requires out.Valid() && Rep(f) && Denotes(f, node, v) && Printable(Shown(c, v))
    modifies out, out.buf
    ensures out.Valid() && out.Contents() == old(out.Contents()) + Render(Layout(Shown(c, v), Compact, level))
    ensures out.buf == old(out.buf) || fresh(out.buf)
    decreases v, 1
  {
    hide *;
    TagOf(c, f, node, v);
    LayoutOf(Shown(c, v), Compact, level);
    match node.tag
    case NullTag => out.Put(NULL);
    case BoolTag => out.Put(if node.flag then TRUE else FALSE);
    case StringTag => EmitString(out, node.str);
    case NumberTag => EmitNumber(out, c, c.strtod(node.number));
    case ArrayTag => EmitArray(out, c, node, f, v.elems, level);
    case ObjectTag => EmitObject(out, c, node, f, v.members, level);
  }

  /** emit_array */
  method EmitArray<T>(out: SB, c: Doubles<T>, node: JsonNode, ghost f: Forest, ghost vs: seq<Json>, ghost level: nat)
    requires out.Valid() && Rep(f) && Denotes(f, node, Arr(vs)) && PrintableElems(ShownElems(c, vs))
    modifies out, out.buf
    ensures out.Valid() && Printable(Shown(c, Arr(vs)))
    ensures out.Contents() == old(out.Contents()) + Render(Layout(Shown(c, Arr(vs)), Compact, level))
    ensures out.buf == old(out.buf) || fresh(out.buf)
    decreases Arr(vs), 0
  {
    hide *;
    ghost var ws := ShownElems(c, vs);
    ArrayText(ws, level, out.Contents());
    FirstChild(f, node, Arr(vs));
    out.Putc(OPEN_ARRAY);
    ghost var goal := out.Contents() + RestElems(ws, 0, level);
    var element := node.head;
    ghost var i := 0;
    while element != null
      invariant i <= |ws| == |f[node].kids| && element == Nth(f[node].kids, i) && PrintableElems(ws[i..])
      invariant out.Valid() && out.Contents() + RestElems(ws, i, level) == goal
      invariant out.buf == old(out.buf) || fresh(out.buf)
      decreases |ws| - i
    {
      NthIsSome(f[node].kids, i);
      NthIsSome(f[node].kids, i + 1);
      ElementAt(c, f, node, vs, i);
      ElemsStep(ws, i, level, out.Contents());
      EmitValue(out, c, element, f, vs[i], level + 1);
      EmitComma(out, element.next != null);
      element := element.next;
      i := i + 1;
    }
    NthIsSome(f[node].kids, i);
    NothingAfterElems(ws, level, out.Contents());
    out.Putc(CLOSE_ARRAY);
  }

  /** The key of a member and what stands between it and the value. */
  method EmitKey(out: SB, key: Text, colon: Text)
    requires out.Valid() && ValidUtf8(key)
    modifies out, out.buf
    ensures out.Valid() && out.Contents() == old(out.Contents()) + RenderString(StringItems(key)) + colon
    ensures out.buf == old(out.buf) || fresh(out.buf)
  {
    hide *;
    EmitString(out, key);
    out.Put(colon);
  }

  /** The separator behind an element of a list. */
  method EmitComma(out: SB, more: bool)
    requires out.Valid()
    modifies out, out.buf
    ensures out.Valid() && out.Contents() == old(out.Contents()) + (if more then [COMMA] else [])
    ensures out.buf == old(out.buf) || fresh(out.buf)
  {
    if more {
      out.Putc(COMMA);
    }
  }

  lemma NthIsSome(kids: seq<JsonNode>, i: nat)
    requires i <= |kids|
    ensures Nth(kids, i) == if i < |kids| then kids[i] else null
  {
  }

  lemma NothingAfterElems(vs: seq<Json>, level: nat, done: Text)
    ensures PrintableElems(vs[|vs|..]) && done + RestElems(vs, |vs|, level) == done
  {
    assert vs[|vs|..] == [];
  }

  lemma NothingAfterMembers(ms: seq<Member>, level: nat, done: Text)
    ensures PrintableMembers(ms[|ms|..]) && done + RestMembers(ms, |ms|, level) == done
  {
    assert ms[|ms|..] == [];
  }

  /** emit_object */
  method EmitObject<T>(out: SB, c: Doubles<T>, node: JsonNode, ghost f: Forest, ghost ms: seq<Member>, ghost level: nat)
    requires out.Valid() && Rep(f) && Denotes(f, node, Obj(ms)) && PrintableMembers(ShownMembers(c, ms))
    modifies out, out.buf
    ensures out.Valid() && Printable(Shown(c, Obj(ms)))
    ensures out.Contents() == old(out.Contents()) + Render(Layout(Shown(c, Obj(ms)), Compact, level))
    ensures out.buf == old(out.buf) || fresh(out.buf)
    decreases Obj(ms), 0
  {
    hide *;
    ghost var ws := ShownMembers(c, ms);
    ObjectText(ws, level, out.Contents());
    FirstChild(f, node, Obj(ms));
    out.Putc(OPEN_OBJECT);
    ghost var goal := out.Contents() + RestMembers(ws, 0, level);
    var member := node.head;
    ghost var i := 0;
    while member != null
      invariant i <= |ws| == |f[node].kids| && member == Nth(f[node].kids, i) && PrintableMembers(ws[i..])
      invariant out.Valid() && out.Contents() + RestMembers(ws, i, level) == goal
      invariant out.buf == old(out.buf) || fresh(out.buf)
      decreases |ws| - i
    {
      NthIsSome(f[node].kids, i);
      NthIsSome(f[node].kids, i + 1);
      MemberAt(c, f, node, ms, i);
      MembersStep(ws, i, level, out.Contents());
      EmitKey(out, member.key.value, [COLON]);
      EmitValue(out, c, member, f, ms[i].value, level + 1);
      EmitComma(out, member.next != null);
      member := member.next;
      i := i + 1;
    }
    NthIsSome(f[node].kids, i);
    NothingAfterMembers(ws, level, out.Contents());
    out.Putc(CLOSE_OBJECT);
  }

  // ---------------------------------------------------------------------------------------------
  // The indented printer
  // ---------------------------------------------------------------------------------------------

  /** The loops that indent a line. */
  method EmitIndent(out: SB, space: Text, level: nat)
    requires out.Valid()
    modifies out, out.buf
    ensures out.Valid() && out.Contents() == old(out.Contents()) + Indent(space, level)
    ensures out.buf == old(out.buf) || fresh(out.buf)
  {
    hide out.Valid;
    assert old(out.Contents()) + [] == out.Contents();
    for i := 0 to level
      invariant out.Valid() && out.Contents() == old(out.Contents()) + Indent(space, i)
      invariant out.buf == old(out.buf) || fresh(out.buf)
    {
      IndentMore(space, i, old(out.Contents()));
      out.Put(space);
    }
  }

  /** One more `space` behind the others is one more in front of them. */
  lemma {:induction false} IndentMore(space: Text, level: nat, done: Text)
    ensures done + Indent(space, level) + space == done + Indent(space, level + 1)
  {
    if level > 0 {
      IndentMore(space, level - 1, done + space);
      Assoc(done, space, Indent(space, level - 1));
      Assoc(done, space, Indent(space, level));
    } else {
      assert space + [] == space;
      assert done + [] == done;
    }
  }

  /** What emit_array_indented still writes once the line in front of the elements `vs` has ended. */
  ghost function PendingElems(vs: seq<Json>, space: Text, level: nat): Text
    requires PrintableElems(vs)
  {
    if vs == [] then Indent(space, level)
    else
      Indent(space, level + 1)
      + (Render(Layout(vs[0], Indented(space), level + 1)) + (LineEnd(|vs| > 1) + PendingElems(vs[1..], space, level)))
  }

  function LineEnd(more: bool): Text {
    if more then [COMMA, 0x0A] else [0x0A]
  }

  lemma {:induction false} PendingElemsText(vs: seq<Json>, space: Text, level: nat)
    requires PrintableElems(vs) && vs != []
    ensures RenderElems(LayoutElems(vs, Indented(space), level)) == [0x0A] + PendingElems(vs, space, level)
  {
    ElemsText(vs, Indented(space), level);
    if |vs| > 1 {
      PendingElemsText(vs[1..], space, level);
    } else {
      assert RenderElems(LayoutElems(vs[1..], Indented(space), level)) == [];
    }
    hide LayoutElems, RenderElems, Layout, Render, PrintableElems, Indent;
    LinesText(Indent(space, level + 1), Render(Layout(vs[0], Indented(space), level + 1)), |vs| > 1,
              PendingElems(vs[1..], space, level));
  }

  /** An indented line starts with the end of the line before it. */
  lemma LinesText(start: Text, text: Text, more: bool, rest: Text)
    ensures more ==> [0x0A] + start + (text + []) + ([COMMA] + ([0x0A] + rest)) == [0x0A] + (start + (text + (LineEnd(more) + rest)))
    ensures !more ==> [0x0A] + start + (text + ([0x0A] + rest)) + ([] + []) == [0x0A] + (start + (text + (LineEnd(more) + rest)))
  {
    if more {
      assert [0x0A] + start + (text + []) + ([COMMA] + ([0x0A] + rest)) == [0x0A] + (start + (text + (LineEnd(more) + rest)));
    } else {
      assert [0x0A] + start + (text + ([0x0A] + rest)) + ([] + []) == [0x0A] + (start + (text + (LineEnd(more) + rest)));
    }
  }

  ghost function PendingMembers(ms: seq<Member>, space: Text, level: nat): Text
    requires PrintableMembers(ms)
  {
    if ms == [] then Indent(space, level)
    else
      assert PrintableMember(ms[0]);
      Indent(space, level + 1) + RenderString(StringItems(ms[0].key)) + [COLON, 0x20]
      + (Render(Layout(ms[0].value, Indented(space), level + 1)) + (LineEnd(|ms| > 1) + PendingMembers(ms[1..], space, level)))
  }

  lemma {:induction false} PendingMembersText(ms: seq<Member>, space: Text, level: nat)
    requires PrintableMembers(ms) && ms != []
    ensures RenderMembers(LayoutMembers(ms, Indented(space), level)) == [0x0A] + PendingMembers(ms, space, level)
  {
    hide ValidUtf8, RenderString, StringItems, Layout, Render, Indent;
    MembersText(ms, Indented(space), level);
    if |ms| > 1 {
      PendingMembersText(ms[1..], space, level);
    } else {
      assert RenderMembers(LayoutMembers(ms[1..], Indented(space), level)) == [];
    }
    hide LayoutMembers, RenderMembers, PrintableMembers;
    var start, key := Indent(space, level + 1), RenderString(StringItems(ms[0].key));
    assert [0x0A] + start + key + [COLON, 0x20] == [0x0A] + (start + key + [COLON, 0x20]);
    LinesText(start + key + [COLON, 0x20], Render(Layout(ms[0].value, Indented(space), level + 1)), |ms| > 1,
              PendingMembers(ms[1..], space, level));
  }

  lemma PendingElemsStep(vs: seq<Json>, i: nat, space: Text, level: nat, done: Text)
    requires i < |vs| && PrintableElems(vs[i..])
    ensures Printable(vs[i]) && PrintableElems(vs[i + 1..])
    ensures done + PendingElems(vs[i..], space, level)
         == done + Indent(space, level + 1) + Render(Layout(vs[i], Indented(space), level + 1)) + LineEnd(i + 1 < |vs|)
            + PendingElems(vs[i + 1..], space, level)
  {
    hide Indent, Layout, Render, LineEnd;
    assert vs[i..][0] == vs[i] && vs[i..][1..] == vs[i + 1..];
    var start, text := Indent(space, level + 1), Render(Layout(vs[i], Indented(space), level + 1));
    var end, rest := LineEnd(i + 1 < |vs|), PendingElems(vs[i + 1..], space, level);
    assert PendingElems(vs[i..], space, level) == start + (text + (end + rest));
    hide PendingElems;
    Assoc4(done, start, text, end, rest);
  }

  lemma Assoc4(done: Text, start: Text, text: Text, end: Text, rest: Text)
    ensures done + (start + (text + (end + rest))) == done + start + text + end + rest
  {
  }

  lemma PendingMembersStep(ms: seq<Member>, i: nat, space: Text, level: nat, done: Text)
    requires i < |ms| && PrintableMembers(ms[i..])
    ensures ValidUtf8(ms[i].key) && Printable(ms[i].value) && PrintableMembers(ms[i + 1..])
    ensures done + PendingMembers(ms[i..], space, level)
         == done + Indent(space, level + 1) + RenderString(StringItems(ms[i].key)) + [COLON, 0x20]
            + Render(Layout(ms[i].value, Indented(space), level + 1)) + LineEnd(i + 1 < |ms|)
            + PendingMembers(ms[i + 1..], space, level)
  {
    hide Indent, Layout, Render, LineEnd, RenderString, StringItems, ValidUtf8;
    assert ms[i..][0] == ms[i] && ms[i..][1..] == ms[i + 1..];
    var start, key := Indent(space, level + 1), RenderString(StringItems(ms[i].key));
    var text := Render(Layout(ms[i].value, Indented(space), level + 1));
    var end, rest := LineEnd(i + 1 < |ms|), PendingMembers(ms[i + 1..], space, level);
    assert PendingMembers(ms[i..], space, level) == start + key + [COLON, 0x20] + (text + (end + rest));
    hide PendingMembers;
    Assoc4(done, start + key + [COLON, 0x20], text, end, rest);
    assert done + (start + key + [COLON, 0x20]) == done + start + key + [COLON, 0x20];
  }

  lemma IndentedArrayText(vs: seq<Json>, space: Text, level: nat, was: Text)
    requires PrintableElems(vs)
    ensures Printable(Arr(vs))
    ensures was + Render(Layout(Arr(vs), Indented(space), level))
         == if vs == [] then was + [OPEN_ARRAY, CLOSE_ARRAY]
            else was + [OPEN_ARRAY, 0x0A] + PendingElems(vs, space, level) + [CLOSE_ARRAY]
  {
    var elems := RenderElems(LayoutElems(vs, Indented(space), level));
    assert Render(Layout(Arr(vs), Indented(space), level)) == [OPEN_ARRAY] + ([] + (elems + [CLOSE_ARRAY]));
    if vs == [] {
      assert elems == [];
    } else {
      PendingElemsText(vs, space, level);
    }
    hide *;
    Enclosed(was, OPEN_ARRAY, elems, CLOSE_ARRAY, PendingElems(vs, space, level));
  }

  lemma IndentedObjectText(ms: seq<Member>, space: Text, level: nat, was: Text)
    requires PrintableMembers(ms)
    ensures Printable(Obj(ms))
    ensures was + Render(Layout(Obj(ms), Indented(space), level))
         == if ms == [] then was + [OPEN_OBJECT, CLOSE_OBJECT]
            else was + [OPEN_OBJECT, 0x0A] + PendingMembers(ms, space, level) + [CLOSE_OBJECT]
  {
    hide PrintableMember, LayoutMember, RenderMember;
    var members := RenderMembers(LayoutMembers(ms, Indented(space), level));
    assert Render(Layout(Obj(ms), Indented(space), level)) == [OPEN_OBJECT] + ([] + (members + [CLOSE_OBJECT]));
    if ms == [] {
      assert members == [];
    } else {
      PendingMembersText(ms, space, level);
    }
    hide *;
    Enclosed(was, OPEN_OBJECT, members, CLOSE_OBJECT, PendingMembers(ms, space, level));
  }

  lemma Enclosed(was: Text, open: Char, text: Text, close: Char, pending: Text)
    ensures text == [] ==> was + ([open] + ([] + (text + [close]))) == was + [open, close]
    ensures text == [0x0A] + pending
        ==> was + ([open] + ([] + (text + [close]))) == was + [open, 0x0A] + pending + [close]
  {
    if text == [] {
      assert [open] + ([] + (text + [close])) == [open, close];
    } else if text == [0x0A] + pending {
      assert was + ([open] + ([] + (text + [close]))) == was + [open, 0x0A] + pending + [close];
    }
  }

  lemma NothingPending(n: nat, vs: seq<Json>, ms: seq<Member>, space: Text, level: nat)
    ensures n == |vs| ==> vs[n..] == [] && PrintableElems(vs[n..]) && PendingElems(vs[n..], space, level) == Indent(space, level)
    ensures n == |ms| ==> ms[n..] == [] && PrintableMembers(ms[n..]) && PendingMembers(ms[n..], space, level) == Indent(space, level)
  {
  }

  /** emit_value_indented */
  method EmitValueIndented<T>(out: SB, c: Doubles<T>, node: JsonNode, space: Text, level: nat, ghost f: Forest, ghost v: Json)
    requires out.Valid() && Rep(f) && Denotes(f, node, v) && Printable(Shown(c, v))
    modifies out, out.buf
    ensures out.Valid() && out.Contents() == old(out.Contents()) + Render(Layout(Shown(c, v), Indented(space), level))
    ensures out.buf == old(out.buf) || fresh(out.buf)
    decreases v, 1
  {
    hide *;
    TagOf(c, f, node, v);
    LayoutOf(Shown(c, v), Indented(space), level);
    match node.tag
    case NullTag => out.Put(NULL);
    case BoolTag => out.Put(if node.flag then TRUE else FALSE);
    case StringTag => EmitString(out, node.str);
    case NumberTag => EmitNumber(out, c, c.strtod(node.number));
    case ArrayTag => EmitArrayIndented(out, c, node, space, level, f, v.elems);
    case ObjectTag => EmitObjectIndented(out, c, node, space, level, f, v.members);
  }

  /** emit_array_indented */
  method EmitArrayIndented<T>(out: SB, c: Doubles<T>, node: JsonNode, space: Text, level: nat, ghost f: Forest, ghost vs: seq<Json>)
    requires out.Valid() && Rep(f) && Denotes(f, node, Arr(vs)) && PrintableElems(ShownElems(c, vs))
    modifies out, out.buf
    ensures out.Valid() && Printable(Shown(c, Arr(vs)))
    ensures out.Contents() == old(out.Contents()) + Render(Layout(Shown(c, Arr(vs)), Indented(space), level))
    ensures out.buf == old(out.buf) || fresh(out.buf)
    decreases Arr(vs), 0
  {
    hide *;
    ghost var ws := ShownElems(c, vs);
    IndentedArrayText(ws, space, level, out.Contents());
    FirstChild(f, node, Arr(vs));
    var element := node.head;
    NthIsSome(f[node].kids, 0);
    if element == null {
      out.Put([OPEN_ARRAY, CLOSE_ARRAY]);
      return;
    }
    out.Put([OPEN_ARRAY, 0x0A]);
    ghost var goal := out.Contents() + PendingElems(ws, space, level);
    ghost var i := 0;
    assert ws[0..] == ws;
    while element != null
      invariant i <= |ws| == |f[node].kids| && element == Nth(f[node].kids, i) && PrintableElems(ws[i..])
      invariant out.Valid() && out.Contents() + PendingElems(ws[i..], space, level) == goal
      invariant out.buf == old(out.buf) || fresh(out.buf)
      decreases |ws| - i
    {
      NthIsSome(f[node].kids, i);
      NthIsSome(f[node].kids, i + 1);
      ElementAt(c, f, node, vs, i);
      PendingElemsStep(ws, i, space, level, out.Contents());
      EmitIndent(out, space, level + 1);
      EmitValueIndented(out, c, element, space, level + 1, f, vs[i]);
      element := element.next;
      i := i + 1;
      out.Put(LineEnd(element != null));
    }
    NthIsSome(f[node].kids, i);
    NothingPending(i, ws, [], space, level);
    EmitIndent(out, space, level);
    out.Putc(CLOSE_ARRAY);
  }

  /** emit_object_indented */
  method EmitObjectIndented<T>(out: SB, c: Doubles<T>, node: JsonNode, space: Text, level: nat, ghost f: Forest, ghost ms: seq<Member>)
    requires out.Valid() && Rep(f) && Denotes(f, node, Obj(ms)) && PrintableMembers(ShownMembers(c, ms))
    modifies out, out.buf
    ensures out.Valid() && Printable(Shown(c, Obj(ms)))
    ensures out.Contents() == old(out.Contents()) + Render(Layout(Shown(c, Obj(ms)), Indented(space), level))
    ensures out.buf == old(out.buf) || fresh(out.buf)
    decreases Obj(ms), 0
  {
    hide *;
    ghost var ws := ShownMembers(c, ms);
    IndentedObjectText(ws, space, level, out.Contents());
    FirstChild(f, node, Obj(ms));
    var member := node.head;
    NthIsSome(f[node].kids, 0);
    if member == null {
      out.Put([OPEN_OBJECT, CLOSE_OBJECT]);
      return;
    }
    out.Put([OPEN_OBJECT, 0x0A]);
    ghost var goal := out.Contents() + PendingMembers(ws, space, level);
    ghost var i := 0;
    assert ws[0..] == ws;
    while member != null
      invariant i <= |ws| == |f[node].kids| && member == Nth(f[node].kids, i) && PrintableMembers(ws[i..])
      invariant out.Valid() && out.Contents() + PendingMembers(ws[i..], space, level) == goal
      invariant out.buf == old(out.buf) || fresh(out.buf)
      decreases |ws| - i
    {
      NthIsSome(f[node].kids, i);
      NthIsSome(f[node].kids, i + 1);
      MemberAt(c, f, node, ms, i);
      PendingMembersStep(ws, i, space, level, out.Contents());
      EmitIndent(out, space, level + 1);
      EmitKey(out, member.key.value, [COLON, 0x20]);
      EmitValueIndented(out, c, member, space, level + 1, f, ms[i].value);
      member := member.next;
      i := i + 1;
      out.Put(LineEnd(member != null));
    }
    NthIsSome(f[node].kids, i);
    NothingPending(i, [], ws, space, level);
    EmitIndent(out, space, level);
    out.Putc(CLOSE_OBJECT);
  }

  /** json_stringify; json_encode is the case without a `space`. */
  method JsonStringify<T>(c: Doubles<T>, node: JsonNode, space: Option<Text>, ghost f: Forest, ghost v: Json) returns (s: Text)
    requires Rep(f) && Denotes(f, node, v) && Printable(v)
    ensures Printable(Shown(c, v)) && s == Printed(Shown(c, v), if space.Some? then Indented(space.value) else Compact)
  {
    ShownKeeps(c, v);
    var sb := new SB();
    if space.Some? {
      EmitValueIndented(sb, c, node, space.value, 0, f, v);
    } else {
      EmitValue(sb, c, node, f, v, 0);
    }
    s := sb.Finish();
  }
}
