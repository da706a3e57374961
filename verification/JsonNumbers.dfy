/**
 Numbers on the way through json.c: parse_number turns the text of a number into a double with strtod,
 and emit_number makes a text of the double with sprintf.  Both are parameters here, as arbitrary
 functions through an arbitrary type; what is proved says exactly when printing loses nothing.
 */
module JsonNumbers {
  import opened Options
  import opened Chars
  import opened JsonGrammar
  import opened JsonParser
  import opened JsonExact
  import opened JsonPrinter

  datatype Doubles<!T> = Doubles(strtod: Text -> T, sprintf: T -> Text)

  // parse_number gives strtod the rest of the text, not only the number.  In a text that decodes, the
  // character behind a value is one that strtod cannot read on.

  /** Wherever a value stands in a text that is accepted, only white space, a comma, a closing bracket or the
      end follows: in an array, behind the value of a member, and at the top. */
  lemma StrtodStops(t: Text, i: nat)
    requires i <= |t|
    ensures ParseElems(t, i).Ok? ==>
      ParseValue(t, i).Ok? && var b := At(t, ParseValue(t, i).next); b == 0 || b as char in " \t\n\r,]}"
    ensures ParseMembers(t, i).Ok? ==>
      ParseMember(t, i).Ok? && var b := At(t, ParseMember(t, i).next); b == 0 || b as char in " \t\n\r,]}"
    ensures Decode(t).Some? ==>
      && ParseValue(t, Skip(t, 0)).Ok?
      && var b := At(t, ParseValue(t, Skip(t, 0)).next); b == 0 || b as char in " \t\n\r,]}"
  {
    hide ParseValue, ParseMember;
    assert " \t\n\r,]}" == [' ', '\t', '\n', '\r', ',', ']', '}'];
  }

  /** The value with the text that emit_number tests in the place of every number. */
  ghost function Shown<T>(c: Doubles<T>, v: Json): Json
    decreases v
  {
    match v
    case Num(t) => Num(c.sprintf(c.strtod(t)))
    case Arr(vs) => Arr(seq(|vs|, i requires 0 <= i < |vs| => Shown(c, vs[i])))
    case Obj(ms) => Obj(seq(|ms|, i requires 0 <= i < |ms| => Member(ms[i].key, Shown(c, ms[i].value))))
    case _ => v
  }

  lemma {:induction false} ElemsAt(vs: seq<Json>)
    ensures PrintableElems(vs) <==> forall i | 0 <= i < |vs| :: Printable(vs[i])
    ensures CleanElems(vs) <==> forall i | 0 <= i < |vs| :: CleanValue(vs[i])
    ensures NumericElems(vs) <==> forall i | 0 <= i < |vs| :: NumericValue(vs[i])
    ensures |DenotedElems(vs)| == |vs| && forall i | 0 <= i < |vs| :: DenotedElems(vs)[i] == Denoted(vs[i])
  {
    if vs != [] {
      ElemsAt(vs[1..]);
      hide Printable, CleanValue, NumericValue, Denoted;
      assert forall i | 0 < i < |vs| :: vs[i] == vs[1..][i - 1];
    }
  }

  lemma {:induction false} MembersAt(ms: seq<Member>)
    ensures PrintableMembers(ms) <==> forall i | 0 <= i < |ms| :: PrintableMember(ms[i])
    ensures CleanMembers(ms) <==> forall i | 0 <= i < |ms| :: CleanMember(ms[i])
    ensures NumericMembers(ms) <==> forall i | 0 <= i < |ms| :: NumericMember(ms[i])
    ensures |DenotedMembers(ms)| == |ms| && forall i | 0 <= i < |ms| :: DenotedMembers(ms)[i] == DenotedMember(ms[i])
  {
    if ms != [] {
      MembersAt(ms[1..]);
      hide PrintableMember, CleanMember, NumericMember, DenotedMember;
      assert forall i | 0 < i < |ms| :: ms[i] == ms[1..][i - 1];
    }
  }

  /** Numbers do not matter for strings and keys. */
  lemma {:induction false} ShownKeeps<T>(c: Doubles<T>, v: Json)
    ensures Printable(Shown(c, v)) <==> Printable(v)
    ensures CleanValue(Shown(c, v)) <==> CleanValue(v)
    decreases v
  {
    match v
    case Arr(vs) =>
      ElemsAt(vs);
      ElemsAt(Shown(c, v).elems);
      forall i | 0 <= i < |vs|
        ensures Printable(Shown(c, v).elems[i]) <==> Printable(vs[i])
        ensures CleanValue(Shown(c, v).elems[i]) <==> CleanValue(vs[i])
      {
        ShownKeeps(c, vs[i]);
      }
    case Obj(ms) =>
      MembersAt(ms);
      MembersAt(Shown(c, v).members);
      forall i | 0 <= i < |ms|
        ensures PrintableMember(Shown(c, v).members[i]) <==> PrintableMember(ms[i])
        ensures CleanMember(Shown(c, v).members[i]) <==> CleanMember(ms[i])
      {
        ShownKeeps(c, ms[i].value);
      }
    case _ =>
  }

  // ---------------------------------------------------------------------------------------------
  // When the text of every number survives
  // ---------------------------------------------------------------------------------------------

  /** Every number is printed as it was written. */
  ghost predicate KeepsTexts<T>(c: Doubles<T>, v: Json)
    decreases v
  {
    match v
    case Num(t) => c.sprintf(c.strtod(t)) == t
    case Arr(vs) => forall i | 0 <= i < |vs| :: KeepsTexts(c, vs[i])
    case Obj(ms) => forall i | 0 <= i < |ms| :: KeepsTexts(c, ms[i].value)
    case _ => true
  }

  lemma {:induction false} TextsKept<T>(c: Doubles<T>, v: Json)
    requires NumericValue(v)
    ensures Denoted(Shown(c, v)) == v <==> KeepsTexts(c, v)
    decreases v
  {
    var d := Denoted(Shown(c, v));
    match v
    case Arr(vs) =>
      ElemsAt(vs);
      ElemsAt(Shown(c, v).elems);
      forall i | 0 <= i < |vs| ensures d.elems[i] == vs[i] <==> KeepsTexts(c, vs[i]) {
        TextsKept(c, vs[i]);
      }
    case Obj(ms) =>
      MembersAt(ms);
      MembersAt(Shown(c, v).members);
      forall i | 0 <= i < |ms| ensures d.members[i] == ms[i] <==> KeepsTexts(c, ms[i].value) {
        assert NumericMember(ms[i]);
        TextsKept(c, ms[i].value);
      }
    case _ =>
  }

  // ---------------------------------------------------------------------------------------------
  // When every double survives
  // ---------------------------------------------------------------------------------------------

  /** Every number is printed as a JSON number that strtod reads as the same double. */
  ghost predicate KeepsDoubles<T>(c: Doubles<T>, v: Json)
    decreases v
  {
    match v
    case Num(t) =>
      var printed := c.sprintf(c.strtod(t));
      Lexeme(printed) && c.strtod(printed) == c.strtod(t)
    case Arr(vs) => forall i | 0 <= i < |vs| :: KeepsDoubles(c, vs[i])
    case Obj(ms) => forall i | 0 <= i < |ms| :: KeepsDoubles(c, ms[i].value)
    case _ => true
  }

  /** The same value, where the doubles count as numbers and not their texts. */
  ghost predicate SameValue<T>(c: Doubles<T>, v: Json, w: Json)
    decreases v
  {
    match v
    case Num(t) => w.Num? && c.strtod(w.lexeme) == c.strtod(t)
    case Arr(vs) =>
      && w.Arr? && |w.elems| == |vs|
      && forall i | 0 <= i < |vs| :: SameValue(c, vs[i], w.elems[i])
    case Obj(ms) =>
      && w.Obj? && |w.members| == |ms|
      && forall i | 0 <= i < |ms| :: w.members[i].key == ms[i].key && SameValue(c, ms[i].value, w.members[i].value)
    case _ => w == v
  }

  lemma {:induction false} DoublesKept<T>(c: Doubles<T>, v: Json)
    ensures SameValue(c, v, Denoted(Shown(c, v))) <==> KeepsDoubles(c, v)
    decreases v
  {
    var d := Denoted(Shown(c, v));
    match v
    case Arr(vs) =>
      ElemsAt(Shown(c, v).elems);
      forall i | 0 <= i < |vs| ensures SameValue(c, vs[i], d.elems[i]) <==> KeepsDoubles(c, vs[i]) {
        DoublesKept(c, vs[i]);
      }
    case Obj(ms) =>
      MembersAt(Shown(c, v).members);
      forall i | 0 <= i < |ms|
        ensures d.members[i].key == ms[i].key
        ensures SameValue(c, ms[i].value, d.members[i].value) <==> KeepsDoubles(c, ms[i].value)
      {
        DoublesKept(c, ms[i].value);
      }
    case _ =>
  }

  // ---------------------------------------------------------------------------------------------
  // Decode, print, decode
  // ---------------------------------------------------------------------------------------------

  /** What decoding a text, printing the value and decoding the output gives: nothing if a string or key
      has the byte 0x1F; otherwise the value with its numbers converted, and null for those that sprintf
      does not write as JSON numbers. */
  lemma ReprintDecoded<T>(c: Doubles<T>, t: Text, v: Json, style: Style)
    requires Decode(t) == Some(v) && BlankStyle(style)
    ensures Printable(v) && Printable(Shown(c, v))
    ensures Decode(Printed(Shown(c, v), style)) == if CleanValue(v) then Some(Denoted(Shown(c, v))) else None
  {
    DecodedPrintable(t, v);
    ShownKeeps(c, v);
    DecodePrinted(Shown(c, v), style);
  }

  /** The output is a text for the same value if and only if no string or key has the byte 0x1F and every
      number is printed as it was written; with the doubles in the place of the texts, if and only if
      every number is printed as a JSON number for the same double. */
  lemma ReprintExact<T>(c: Doubles<T>, t: Text, v: Json, style: Style)
    requires Decode(t) == Some(v) && BlankStyle(style)
    ensures Printable(Shown(c, v))
    ensures var again := Decode(Printed(Shown(c, v), style));
            && (again == Some(v) <==> CleanValue(v) && KeepsTexts(c, v))
            && (again.Some? && SameValue(c, v, again.value) <==> CleanValue(v) && KeepsDoubles(c, v))
  {
    DecodedPrintable(t, v);
    ReprintDecoded(c, t, v, style);
    hide *;
    TextsKept(c, v);
    DoublesKept(c, v);
  }

  const HUGE: Text := [0x31, 0x65, 0x39, 0x39, 0x39]
  const INFINITY: Text := [0x69, 0x6E, 0x66]

  /** The text 1e999 is a JSON number; where it overflows to an infinity that is printed as inf, what
      comes back is null. */
  lemma InfinityComesBackAsNull<T>(c: Doubles<T>)
    requires c.sprintf(c.strtod(HUGE)) == INFINITY
    ensures Decode(HUGE) == Some(Num(HUGE))
    ensures Printable(Shown(c, Num(HUGE))) && Decode(Printed(Shown(c, Num(HUGE)), Compact)) == Some(Null)
  {
    HugeIsNumber();
    LexemeIsParsed(INFINITY);
    ReprintDecoded(c, HUGE, Num(HUGE), Compact);
  }

  lemma HugeIsNumber()
    ensures Decode(HUGE) == Some(Num(HUGE))
  {
    assert DigitsEnd(HUGE, 2) == 5 by {
      assert DigitsEnd(HUGE, 4) == 5;
      assert DigitsEnd(HUGE, 3) == 5;
    }
    assert DigitsEnd(HUGE, 0) == 1;
    assert HUGE[0..5] == HUGE;
  }
}
