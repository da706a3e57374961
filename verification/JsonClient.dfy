/**
 The JSON library as a caller uses it: json_decode, then json_check or json_stringify on the tree, then
 json_delete.  The theorems here go through the heap and the buffer, from one text to another.
 */
module JsonClient {
  import opened Options
  import opened Chars
  import opened Utf8
  import opened JsonGrammar
  import opened JsonPrinter
  import opened JsonNumbers
  import opened JsonNodes
  import opened JsonTree
  import opened JsonChecker
  import opened JsonBuilder
  import opened JsonWriter
  import P = JsonParser

  // ---------------------------------------------------------------------------------------------
  // json_check accepts what json_decode returns
  // ---------------------------------------------------------------------------------------------

  /** The subtree of a printable value passes json_check, if the key of its top is valid. */
  lemma {:induction false} PrintablePasses(f: Forest, n: JsonNode, v: Json)
    requires Rep(f) && Denotes(f, n, v) && Printable(v)
    requires f[n].key.Some? ==> ValidUtf8(f[n].key.value)
    ensures TreeOk(n, f.Keys)
    decreases v
  {
    NodeScalarsOk(f, n, v);
    TreeOkUnfolds(f, n);
    RepWellFormed(f);
    hide Rep, TreeOk, ScalarsOk, ValidUtf8;
    assert WellFormedNode(f, n);
    match v
    case Arr(vs) =>
      ElemsAt(vs);
      forall i | 0 <= i < |f[n].kids| ensures f[n].kids[i] in f && TreeOk(f[n].kids[i], f.Keys) {
        assert KidOf(f, n, f[n].kids[i]);
        PrintablePasses(f, f[n].kids[i], vs[i]);
      }
    case Obj(ms) =>
      MembersAt(ms);
      forall i | 0 <= i < |f[n].kids| ensures f[n].kids[i] in f && TreeOk(f[n].kids[i], f.Keys) {
        assert PrintableMember(ms[i]);
        PrintablePasses(f, f[n].kids[i], ms[i].value);
      }
    case _ =>
      assert f[n].kids == [];
  }

  lemma NodeScalarsOk(f: Forest, n: JsonNode, v: Json)
    requires Rep(f) && Denotes(f, n, v) && Printable(v)
    requires f[n].key.Some? ==> ValidUtf8(f[n].key.value)
    ensures ScalarsOk(n)
  {
    assert Linked(f, Snapshot(f), n) && Snapshot(f)[n] == LinksOf(n);
    hide Rep, WellFormed, ValidUtf8;
    if n.key.Some? {
      ValidUtf8IsWellFormed(n.key.value);
    }
    ValidUtf8IsWellFormed(n.str);
  }

  /** json_check terminates on every tree that json_decode returns, and accepts it. */
  lemma DecodedPasses(t: Text, v: Json, f: Forest, rank: Ranks, node: JsonNode)
    requires P.Decode(t) == Some(v) && Built(f, rank, node, v)
    ensures node in f && Arena(f.Keys) && !Circles(node, f.Keys) && TreeOk(node, f.Keys)
  {
    hide *;
    BuiltParts(f, rank, node, v);
    DecodedPrintable(t, v);
    RepArena(f);
    PrintablePasses(f, node, v);
    RootOffCircle(f, node);
  }

  /** Decoding a text and checking the tree: the check never fails. */
  method DecodeAndCheck(t: Text, store: Allocator) returns (ok: bool)
    modifies store
    ensures store.live == old(store.live)
    ensures ok <==> P.Decode(t).Some?
  {
    hide *;
    ghost var others := store.live;
    var node, f, rank := JsonDecode(t, store);
    ok := node != null;
    if ok {
      ghost var v := P.Decode(t).value;
      DecodedPasses(t, v, f, rank, node);
      ok := JsonCheck(node, f.Keys);
      f := DeleteTree(node, store, others, f, rank, true, v);
    }
  }

  // ---------------------------------------------------------------------------------------------
  // json_stringify inverts json_decode as far as it can
  // ---------------------------------------------------------------------------------------------

  /** Decoding a text, printing the tree and deleting it.  Decoding the output gives the same value, with
      the doubles as its numbers, exactly when no string in it has the byte 0x1F and sprintf writes every
      double as a JSON number that strtod reads as the same double.  No node is left alive. */
  method Reprint<T>(c: Doubles<T>, t: Text, space: Option<Text>, store: Allocator) returns (s: Option<Text>)
    requires space.Some? ==> Blank(space.value)
    modifies store
    ensures store.live == old(store.live)
    ensures s.Some? <==> P.Decode(t).Some?
    ensures s.Some? ==>
      var v, again := P.Decode(t).value, P.Decode(s.value);
      && again == (if CleanValue(v) then Some(Denoted(Shown(c, v))) else None)
      && (again == Some(v) <==> CleanValue(v) && KeepsTexts(c, v))
      && (again.Some? && SameValue(c, v, again.value) <==> CleanValue(v) && KeepsDoubles(c, v))
  {
    hide *;
    ghost var others := store.live;
    var node, f, rank := JsonDecode(t, store);
    if node == null {
      return None;
    }
    ghost var v := P.Decode(t).value;
    ghost var style := if space.Some? then Indented(space.value) else Compact;
    BlankStyles(space, style);
    ReprintDecoded(c, t, v, style);
    ReprintExact(c, t, v, style);
    BuiltParts(f, rank, node, v);
    var text := JsonStringify(c, node, space, f, v);
    s := Some(text);
    f := DeleteTree(node, store, others, f, rank, true, v);
  }

  lemma BlankStyles(space: Option<Text>, style: Style)
    requires style == if space.Some? then Indented(space.value) else Compact
    requires space.Some? ==> Blank(space.value)
    ensures BlankStyle(style)
  {
  }

  lemma RootOffCircle(f: Forest, n: JsonNode)
    requires Rep(f) && n in f && f[n].parent == null && Arena(f.Keys)
    ensures !Circles(n, f.Keys)
  {
    assert Linked(f, Snapshot(f), n) && Snapshot(f)[n] == LinksOf(n);
    if Circles(n, f.Keys) {
      CircleIsCycle(n, f.Keys);
    }
  }

  lemma BuiltParts(f: Forest, rank: Ranks, n: JsonNode, v: Json)
    requires Built(f, rank, n, v)
    ensures Rep(f) && n in f && f[n].parent == null && f[n].key == None && Denotes(f, n, v)
  {
  }
}
