/**
 The masked tree and its encoding. A masked object is a list of entries ascending in the key, as
 encodeJSONTree and the streaming walker both write it.
 */
module JsonOut {
  import opened Bytes
  import opened Options
  import opened JsonLex
  import opened JsonNumber
  import opened JsonString
  import opened SortedMap
  import T = JsonTree
  import G = JsonGrammar
  import Utf8

  datatype Json =
    | Null
    | Bool(b: bool)
    | Number(text: bytes)
    | String(text: bytes)
    | Array(items: seq<Json>)
    | Object(members: seq<Entry<Json>>)

  function Encode(j: Json): bytes {
    match j
    case Null => T.NULL
    case Bool(b) => if b then T.TRUE else T.FALSE
    case Number(t) => t
    case String(s) => Quoted(s)
    case Array(items) => [LBRACKET] + ItemsBody(items) + [RBRACKET]
    case Object(ms) => [LBRACE] + MembersBody(ms) + [RBRACE]
  }

  /** Elements separated by commas. */
  function ItemsBody(items: seq<Json>): bytes {
    if items == [] then []
    else
      var n := |items| - 1;
      ItemsBody(items[..n]) + (if n == 0 then [] else [COMMA]) + Encode(items[n])
  }

  function MembersBody(ms: seq<Entry<Json>>): bytes {
    if ms == [] then []
    else
      var n := |ms| - 1;
      MembersBody(ms[..n]) + (if n == 0 then [] else [COMMA]) + MemberText(ms[n].key, Encode(ms[n].value))
  }

  function MemberText(key: bytes, value: bytes): bytes { Quoted(key) + [COLON] + value }

  /** The tree encoding/json decodes from a parsed value, members in document order. */
  function Decoded(n: T.Node): Json {
    match n
    case Null => Null
    case Bool(b) => Bool(b)
    case Number(t) => Number(t)
    case String(token) => String(TokenValue(token))
    case Array(items) => Array(seq(|items|, i requires 0 <= i < |items| => Decoded(items[i])))
    case Object(ms) =>
      Object(seq(|ms|, i requires 0 <= i < |ms| => Entry(ms[i].key, Decoded(ms[i].value))))
  }

  /** The string a token decodes to. */
  function TokenValue(token: bytes): bytes {
    match Unmarshal(token)
    case None => []
    case Some(s) => s
  }

  /* ---------- the output is always JSON ---------- */

  ghost predicate NumbersValid(j: Json) {
    match j
    case Number(t) => Accepts(t)
    case Array(items) => forall k :: 0 <= k < |items| ==> NumbersValid(items[k])
    case Object(ms) => forall k :: 0 <= k < |ms| ==> NumbersValid(ms[k].value)
    case _ => true
  }

  /** The tree with every invalid byte of its strings and keys replaced by U+FFFD. */
  function SanitizedTree(j: Json): Json {
    match j
    case String(s) => String(Utf8.Sanitize(s))
    case Array(items) => Array(seq(|items|, i requires 0 <= i < |items| => SanitizedTree(items[i])))
    case Object(ms) =>
      Object(seq(|ms|, i requires 0 <= i < |ms| => Entry(Utf8.Sanitize(ms[i].key), SanitizedTree(ms[i].value))))
    case _ => j
  }

  ghost predicate TextsValid(j: Json) {
    match j
    case String(s) => Utf8.Valid(s)
    case Array(items) => forall k :: 0 <= k < |items| ==> TextsValid(items[k])
    case Object(ms) => forall k :: 0 <= k < |ms| ==> Utf8.Valid(ms[k].key) && TextsValid(ms[k].value)
    case _ => true
  }

  lemma {:induction false} SanitizedKeepsValid(j: Json)
    requires TextsValid(j)
    ensures SanitizedTree(j) == j
    decreases j
  {
    match j
    case String(s) => Utf8.SanitizeValid(s);
    case Array(items) =>
      forall k | 0 <= k < |items| ensures SanitizedTree(items[k]) == items[k] { SanitizedKeepsValid(items[k]); }
      assert SanitizedTree(j).items == items;
    case Object(ms) =>
      forall k | 0 <= k < |ms| ensures SanitizedTree(j).members[k] == ms[k] {
        SanitizedKeepsValid(ms[k].value);
        Utf8.SanitizeValid(ms[k].key);
      }
      assert SanitizedTree(j).members == ms;
    case _ =>
  }

  /** The grammar's derivation of an encoded tree: no white space anywhere. */
  function Derive(j: Json): G.Derivation {
    match j
    case Null => G.Primitive(T.NULL)
    case Bool(b) => G.Primitive(if b then T.TRUE else T.FALSE)
    case Number(t) => G.Primitive(t)
    case String(s) => G.Str(Quoted(s))
    case Array(items) =>
      if items == [] then G.Empty(LBRACKET, [])
      else G.Arr(seq(|items|, i requires 0 <= i < |items| => G.Item([], Derive(items[i]), [])))
    case Object(ms) =>
      if ms == [] then G.Empty(LBRACE, [])
      else G.Obj(seq(|ms|, i requires 0 <= i < |ms| =>
        G.FieldText([], Quoted(ms[i].key), [], G.Item([], Derive(ms[i].value), []))))
  }

  lemma QuotedIsToken(s: bytes)
    ensures G.IsStringToken(Quoted(s)) && Unmarshal(Quoted(s)) == Some(Utf8.Sanitize(s))
  {
    hide Escape, Utf8.Sanitize, Unescape, IsStringBody;
    QuotedRoundTrip(s);
    assert Body(Quoted(s)) == Escape(s);
    UnescapeIffGrammar(Escape(s));
  }

  /** A written key reads back as the sanitized key, decoded or taken as it lies. */
  lemma KeyReadsBack(s: bytes)
    ensures T.KeyText(Quoted(s)) == Utf8.Sanitize(s)
  {
    hide Escape, Utf8.Sanitize, Unescape, IsStringBody, Quoted, Unmarshal, T.NeedsUnmarshal;
    QuotedIsToken(s);
    var token := Quoted(s);
    if !T.NeedsUnmarshal(Body(token)) {
      BareIsRaw(s);
    }
  }

  lemma BareIsRaw(s: bytes)
    requires !T.NeedsUnmarshal(Body(Quoted(s)))
    ensures Body(Quoted(s)) == Utf8.Sanitize(s)
  {
    hide Escape, Utf8.Sanitize;
    assert Body(Quoted(s)) == Escape(s);
    BareEscape(s);
  }

  /** An escaped form without a backslash is the string itself. */
  lemma {:induction false} BareEscape(s: bytes)
    requires BACKSLASH !in Escape(s)
    ensures Escape(s) == s == Utf8.Sanitize(s)
    decreases |s|
  {
    hide UnitText, UnitSize, Utf8.DecodeRune;
    if s != [] {
      var u, tail := UnitText(s), s[UnitSize(s)..];
      assert Escape(s) == u + Escape(tail);
      UnitWritten(s);
      assert u[0] in Escape(s);
      UnitKept(s);
      BareEscape(tail);
      assert s == s[..UnitSize(s)] + tail;
      SanitizeUnit(s);
    }
  }

  lemma UnitWritten(s: bytes)
    requires s != []
    ensures UnitText(s) != []
  {
  }

  lemma SanitizeUnit(s: bytes)
    requires s != [] && Utf8.DecodeRune(s).Rune?
    ensures Utf8.Sanitize(s) == s[..UnitSize(s)] + Utf8.Sanitize(s[UnitSize(s)..])
  {
  }

  lemma UnitKept(s: bytes)
    requires s != [] && UnitText(s) != [] && UnitText(s)[0] != BACKSLASH
    ensures UnitText(s) == s[..UnitSize(s)] && Utf8.DecodeRune(s).Rune?
  {
    if s[0] < 0x80 { assert s[..1] == [s[0]]; }
  }

  lemma {:induction false} DeriveWellFormed(j: Json)
    requires NumbersValid(j)
    ensures G.WellFormed(Derive(j))
    decreases j
  {
    hide Quoted, G.IsStringToken, Accepts;
    match j
    case String(s) => QuotedIsToken(s);
    case Array(items) =>
      forall k | 0 <= k < |items| ensures G.WellFormedItem(G.Item([], Derive(items[k]), [])) {
        DeriveWellFormed(items[k]);
      }
    case Object(ms) =>
      forall k | 0 <= k < |ms|
        ensures G.WellFormedField(G.FieldText([], Quoted(ms[k].key), [], G.Item([], Derive(ms[k].value), [])))
      {
        DeriveWellFormed(ms[k].value);
        QuotedIsToken(ms[k].key);
      }
    case _ =>
  }

  lemma Reassociate(a: bytes, b: bytes, c: bytes, d: bytes)
    ensures (a + b) + c == a + (b + c)
    ensures (a + b) + c + d == a + (b + (c + d))
  {
  }

  /** Joining from the front, as the grammar does, and from the back, as the loops do, is the same. */
  lemma {:induction false} ItemsJoin(items: seq<Json>, di: seq<G.Item>, k: nat)
    requires |di| == |items| && k < |items|
    requires forall i :: 0 <= i < |items| ==> G.ItemText(di[i]) == Encode(items[i])
    ensures ItemsBody(items) + [RBRACKET]
         == (if k == 0 then [] else ItemsBody(items[..k]) + [COMMA]) + G.ItemsText(di[k..])
    decreases |items| - k
  {
    hide G.ItemText, Encode, ItemsBody, G.ItemsText;
    var rest := di[k..];
    G.ItemsUnfold(rest);
    ItemsLast(items[..k + 1]);
    assert items[..k + 1][..k] == items[..k];
    var head := if k == 0 then [] else ItemsBody(items[..k]) + [COMMA];
    var t := G.ItemText(di[k]);
    assert ItemsBody(items[..k + 1]) == head + t;
    if k == |items| - 1 {
      assert items[..k + 1] == items;
      Reassociate(head, t, [RBRACKET], []);
    } else {
      ItemsJoin(items, di, k + 1);
      assert rest[1..] == di[k + 1..];
      Reassociate(head, t, [COMMA], G.ItemsText(di[k + 1..]));
    }
  }

  lemma ItemsLast(items: seq<Json>)
    requires items != []
    ensures var n := |items| - 1;
      ItemsBody(items) == ItemsBody(items[..n]) + (if n == 0 then [] else [COMMA]) + Encode(items[n])
    ensures |items| == 1 ==> ItemsBody(items) == Encode(items[0])
  {
    hide Encode;
    assert |items| == 1 ==> items[..0] == [];
  }

  lemma {:induction false} MembersJoin(ms: seq<Entry<Json>>, df: seq<G.FieldText>, k: nat)
    requires |df| == |ms| && k < |ms|
    requires forall i :: 0 <= i < |ms| ==> G.FieldString(df[i]) == MemberText(ms[i].key, Encode(ms[i].value))
    ensures MembersBody(ms) + [RBRACE]
         == (if k == 0 then [] else MembersBody(ms[..k]) + [COMMA]) + G.FieldsText(df[k..])
    decreases |ms| - k
  {
    hide G.FieldString, Encode, MembersBody, G.FieldsText, MemberText;
    var rest := df[k..];
    G.FieldsUnfold(rest);
    MembersLast(ms[..k + 1]);
    assert ms[..k + 1][..k] == ms[..k];
    var head := if k == 0 then [] else MembersBody(ms[..k]) + [COMMA];
    var t := G.FieldString(df[k]);
    assert MembersBody(ms[..k + 1]) == head + t;
    if k == |ms| - 1 {
      assert ms[..k + 1] == ms;
      Reassociate(head, t, [RBRACE], []);
    } else {
      MembersJoin(ms, df, k + 1);
      assert rest[1..] == df[k + 1..];
      Reassociate(head, t, [COMMA], G.FieldsText(df[k + 1..]));
    }
  }

  lemma MembersLast(ms: seq<Entry<Json>>)
    requires ms != []
    ensures var n := |ms| - 1;
      MembersBody(ms) ==
        MembersBody(ms[..n]) + (if n == 0 then [] else [COMMA]) + MemberText(ms[n].key, Encode(ms[n].value))
    ensures |ms| == 1 ==> MembersBody(ms) == MemberText(ms[0].key, Encode(ms[0].value))
  {
    hide Encode, MemberText;
    assert |ms| == 1 ==> ms[..0] == [];
  }

  lemma {:induction false} DeriveText(j: Json)
    ensures G.Text(Derive(j)) == Encode(j)
    decreases j
  {
    hide ItemsBody, MembersBody, G.ItemsText, G.FieldsText, Quoted, MemberText;
    match j
    case Array(items) =>
      if items == [] {
        NoItems();
      } else {
        var di := Derive(j).items;
        forall i | 0 <= i < |items| ensures G.ItemText(di[i]) == Encode(items[i]) {
          DeriveText(items[i]);
          Unpadded(Derive(items[i]));
        }
        ItemsJoin(items, di, 0);
        assert di[0..] == di;
        Bracketed(LBRACKET, ItemsBody(items), RBRACKET);
      }
    case Object(ms) =>
      if ms == [] {
        NoItems();
      } else {
        var df := Derive(j).fields;
        forall i | 0 <= i < |ms| ensures G.FieldString(df[i]) == MemberText(ms[i].key, Encode(ms[i].value)) {
          DeriveText(ms[i].value);
          Unpadded(Derive(ms[i].value));
          UnpaddedField(df[i]);
        }
        MembersJoin(ms, df, 0);
        assert df[0..] == df;
        Bracketed(LBRACE, MembersBody(ms), RBRACE);
      }
    case _ =>
  }

  lemma NoItems()
    ensures ItemsBody([]) == [] && MembersBody([]) == []
    ensures Encode(Array([])) == [LBRACKET, RBRACKET] && Encode(Object([])) == [LBRACE, RBRACE]
    ensures G.Text(G.Empty(LBRACKET, [])) == [LBRACKET, RBRACKET]
    ensures G.Text(G.Empty(LBRACE, [])) == [LBRACE, RBRACE]
  {
  }

  lemma Bracketed(open: byte, body: bytes, close: byte)
    ensures [open] + body + [close] == [open] + (body + [close])
    ensures [] + (body + [close]) == body + [close]
  {
  }

  lemma Unpadded(v: G.Derivation)
    ensures G.ItemText(G.Item([], v, [])) == G.Text(v)
  {
    hide G.Text;
    assert [] + (G.Text(v) + []) == G.Text(v);
  }

  lemma UnpaddedField(f: G.FieldText)
    requires f.before == [] && f.afterKey == []
    ensures forall k :: f.key == Quoted(k) ==> G.FieldString(f) == MemberText(k, G.ItemText(f.item))
  {
    hide G.ItemText, Quoted;
    var t := G.ItemText(f.item);
    assert [] + (f.key + ([] + ([COLON] + t))) == f.key + [COLON] + t;
  }

  lemma {:induction false} DeriveTree(j: Json)
    requires NumbersValid(j)
    ensures Decoded(G.Tree(Derive(j))) == SanitizedTree(j)
    decreases j
  {
    hide Quoted, T.KeyText, Unmarshal, Accepts, Utf8.Sanitize, G.ItemTrees, G.FieldTrees;
    match j
    case Number(t) => NumberTree(t);
    case String(s) => QuotedIsToken(s);
    case Array(items) =>
      if items != [] {
        var di := Derive(j).items;
        ItemTreesAre(di);
        forall i | 0 <= i < |items| ensures Decoded(G.Tree(di[i].value)) == SanitizedTree(items[i]) { DeriveTree(items[i]); }
        assert Decoded(G.Tree(Derive(j))).items == SanitizedTree(j).items;
      }
    case Object(ms) =>
      if ms != [] {
        var df := Derive(j).fields;
        FieldTreesAre(df);
        var trees := G.FieldTrees(df);
        forall i | 0 <= i < |ms|
          ensures Entry(trees[i].key, Decoded(trees[i].value)) == Entry(Utf8.Sanitize(ms[i].key), SanitizedTree(ms[i].value))
        {
          DeriveTree(ms[i].value);
          KeyReadsBack(ms[i].key);
        }
        assert Decoded(G.Tree(Derive(j))).members == SanitizedTree(j).members;
      }
    case _ =>
  }

  lemma NumberTree(t: bytes)
    requires Accepts(t)
    ensures T.PrimitiveNode(t) == Some(T.Number(t))
  {
  }

  lemma {:induction false} ItemTreesAre(items: seq<G.Item>)
    ensures |G.ItemTrees(items)| == |items|
    ensures forall k :: 0 <= k < |items| ==> G.ItemTrees(items)[k] == G.Tree(items[k].value)
    decreases |items|
  {
    hide G.Tree;
    if items != [] { ItemTreesAre(items[1..]); }
  }

  lemma {:induction false} FieldTreesAre(fields: seq<G.FieldText>)
    ensures |G.FieldTrees(fields)| == |fields|
    ensures forall k :: 0 <= k < |fields| ==>
      G.FieldTrees(fields)[k] == T.Member(T.KeyText(fields[k].key), G.Tree(fields[k].item.value))
    decreases |fields|
  {
    hide G.Tree, T.KeyText;
    if fields != [] { FieldTreesAre(fields[1..]); }
  }

  /**
   Whatever tree is encoded, the text is one JSON document, and reading it back gives the tree, with the
   invalid bytes of its texts, if any, replaced.
   */
  lemma EncodingReadsBack(j: Json)
    requires NumbersValid(j)
    ensures T.ParseDocument(Encode(j)).Some?
    ensures Decoded(T.ParseDocument(Encode(j)).value) == SanitizedTree(j)
    ensures TextsValid(j) ==> Decoded(T.ParseDocument(Encode(j)).value) == j
  {
    hide Encode, Derive, Decoded, SanitizedTree, NumbersValid, TextsValid, G.WellFormed, G.Text, G.Tree, T.ParseDocument;
    DeriveWellFormed(j);
    DeriveText(j);
    DeriveTree(j);
    Unpadded(Derive(j));
    var i := G.Item([], Derive(j), []);
    G.DocumentParsed(Encode(j), i);
    if TextsValid(j) { SanitizedKeepsValid(j); }
  }
}
