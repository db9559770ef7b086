/** Masking a document and masking the Go value decoded from it give the same JSON. */
module DocumentValues {
  import opened Bytes
  import opened Options
  import opened Settings
  import opened SortedMap
  import opened JsonOut
  import opened MaskSpec
  import opened Meaning
  import opened DomMeaning
  import opened DomAgreement
  import opened ValueGraph
  import opened Unfolding
  import opened MaskValue
  import opened MaskJson
  import opened DecodedValues
  import opened PointerFree
  import opened JsonLex
  import JS = JsonString
  import TE = TreeEncoder
  import R = Refinement
  import VT = ValidText
  import T = JsonTree
  import Utf8

  /* ---------- decoded texts are valid ---------- */

  lemma CharIsValid(b: bytes)
    requires b != [] && JS.DecodeChar(b).Char?
    ensures Utf8.Valid(JS.DecodeChar(b).text)
  {
    hide Utf8.DecodeRune, Utf8.EncodeRune, JS.CodeUnit;
    if b[0] == BACKSLASH && b[1] == 0x75 {
      var v := if JS.IsSurrogatePair(b)
        then (JS.CodeUnit(b).value - 0xD800) * 0x400 + (JS.CodeUnit(b[6..]).value - 0xDC00) + 0x10000
        else JS.CodeUnit(b).value;
      if Utf8.IsScalar(v) { RuneIsValid(v); }
      RuneIsValid(0xFFFD);
      Utf8.ReplacementIs();
    } else if b[0] == BACKSLASH {
      Utf8.AsciiIsValid(JS.DecodeChar(b).text);
    } else {
      RuneIsValid(0xFFFD);
      Utf8.ReplacementIs();
      match Utf8.DecodeRune(b)
      case Bad =>
      case Rune(v, size) =>
        Utf8.EncodeDecoded(b);
        RuneIsValid(v);
    }
  }

  lemma RuneIsValid(v: int)
    requires Utf8.IsScalar(v)
    ensures Utf8.Valid(Utf8.EncodeRune(v))
  {
    var e := Utf8.EncodeRune(v);
    Utf8.DecodeEncoded(v, []);
    assert e + [] == e;
    hide Utf8.DecodeRune, Utf8.EncodeRune;
    assert e[|e|..] == [];
  }

  /** Whatever a token decodes to is valid UTF-8. */
  lemma {:induction false} UnescapeIsValid(b: bytes)
    requires JS.Unescape(b).Some?
    ensures Utf8.Valid(JS.Unescape(b).value)
    decreases |b|
  {
    hide JS.DecodeChar, Utf8.DecodeRune;
    if b != [] {
      CharIsValid(b);
      UnescapeIsValid(b[JS.DecodeChar(b).size..]);
      Utf8.ValidAppend(JS.DecodeChar(b).text, JS.Unescape(b[JS.DecodeChar(b).size..]).value);
    }
  }

  lemma TokenIsValid(token: bytes)
    ensures Utf8.Valid(TokenValue(token))
  {
    hide JS.Unescape, Utf8.Valid;
    if JS.Unmarshal(token).Some? { UnescapeIsValid(JS.Body(token)); } else { VT.NothingIsValid(); }
  }

  ghost predicate KeysValid(n: T.Node) {
    match n
    case Array(items) => forall k :: 0 <= k < |items| ==> KeysValid(items[k])
    case Object(ms) => forall k :: 0 <= k < |ms| ==> Utf8.Valid(ms[k].key) && KeysValid(ms[k].value)
    case _ => true
  }

  lemma {:induction false} ValueKeys(d: bytes, i: nat)
    requires Utf8.Valid(d) && i <= |d| && T.ParseValue(d, i).Parsed?
    ensures KeysValid(T.ParseValue(d, i).value)
    decreases |d| - i, 1
  {
    hide Utf8.Valid, T.ParseMembers, T.ParseItems, JS.Unmarshal, StringEnd, T.PrimitiveNode;
    var p := SpaceEnd(d, i);
    if d[p] == LBRACE {
      var q := SpaceEnd(d, p + 1);
      if !(q < |d| && d[q] == RBRACE) { MemberKeys(d, q); }
    } else if d[p] == LBRACKET {
      var q := SpaceEnd(d, p + 1);
      if !(q < |d| && d[q] == RBRACKET) { ItemKeys(d, q); }
    } else if d[p] != QUOTE {
      PrimitiveKeys(d[p..PrimitiveEnd(d, p)]);
    }
  }

  lemma PrimitiveKeys(token: bytes)
    ensures T.PrimitiveNode(token).Some? ==> KeysValid(T.PrimitiveNode(token).value)
  {
  }

  lemma {:induction false} MemberKeys(d: bytes, q: nat)
    requires Utf8.Valid(d) && q <= |d| && T.ParseMembers(d, q).Parsed?
    ensures forall k :: 0 <= k < |T.ParseMembers(d, q).value| ==>
      Utf8.Valid(T.ParseMembers(d, q).value[k].key) && KeysValid(T.ParseMembers(d, q).value[k].value)
    decreases |d| - q, 2
  {
    hide Utf8.Valid, T.ParseValue, T.ParseKey, T.ParseMembers, T.MoreMembers, KeysValid;
    T.MembersStep(d, q);
    KeyIsValid(d, q);
    var v := T.ParseKey(d, q).end;
    ValueKeys(d, v);
    var n, e := T.ParseValue(d, v).value, T.ParseValue(d, v).end;
    T.MoreMembersStep(d, e, T.Member(T.ParseKey(d, q).value, n));
    var s := SpaceEnd(d, e);
    if d[s] == COMMA { MemberKeys(d, SpaceEnd(d, s + 1)); }
  }

  lemma KeyIsValid(d: bytes, q: nat)
    requires Utf8.Valid(d) && q <= |d| && T.ParseKey(d, q).Parsed?
    ensures Utf8.Valid(T.ParseKey(d, q).value)
  {
    hide Utf8.Valid, StringEnd, JS.Unmarshal, T.KeyText, TokenValue;
    VT.TokenFaithful(d, q);
    TokenIsValid(d[q..StringEnd(d, q)]);
  }

  lemma {:induction false} ItemKeys(d: bytes, q: nat)
    requires Utf8.Valid(d) && q <= |d| && T.ParseItems(d, q).Parsed?
    ensures forall k :: 0 <= k < |T.ParseItems(d, q).value| ==> KeysValid(T.ParseItems(d, q).value[k])
    decreases |d| - q, 2
  {
    hide Utf8.Valid, T.ParseValue, T.ParseItems, T.MoreItems, KeysValid;
    T.ItemsStep(d, q);
    ValueKeys(d, q);
    var n, e := T.ParseValue(d, q).value, T.ParseValue(d, q).end;
    T.MoreItemsStep(d, e, n);
    var s := SpaceEnd(d, e);
    if d[s] == COMMA { ItemKeys(d, SpaceEnd(d, s + 1)); }
  }

  lemma {:induction false} DecodedTexts(n: T.Node, j: Json)
    requires KeysValid(n) && Decodes(n, j)
    ensures TextsValid(j)
    decreases j
  {
    hide Utf8.Valid, TokenValue, LastWith, AsEntries;
    match j
    case String(_) => TokenIsValid(n.token);
    case Array(js) =>
      forall k | 0 <= k < |js| ensures TextsValid(js[k]) { DecodedTexts(n.items[k], js[k]); }
    case Object(es) =>
      forall k | 0 <= k < |es| ensures Utf8.Valid(es[k].key) && TextsValid(es[k].value) {
        var i := LastIsMember(AsEntries(n.members), es[k].key);
        EntryOf(n.members, i);
        DecodedTexts(n.members[i].value, es[k].value);
      }
    case _ =>
  }

  /** What encoding/json decodes from a document is fit to be masked as a Go value. */
  lemma DocumentDecodable(src: bytes, j: Json)
    requires Utf8.Valid(src) && T.ParseDocument(src).Some? && Decodes(T.ParseDocument(src).value, j)
    ensures Decodable(j)
  {
    hide Utf8.Valid, Decodes, T.ParseValue, TextsValid, NumbersValid, TE.IsMapTree, KeysValid;
    ValueKeys(src, 0);
    DecodedTexts(T.ParseDocument(src).value, j);
    R.DecodedSound(src, j);
  }

  /* ---------- masked texts are valid ---------- */

  ghost predicate TextSense(s: Sense<Out>) { s.Means? && s.value.Kept? ==> TextsValid(s.value.tree) }

  lemma ChosenTextIsValid(cfg: Config, text: bytes, f: Field)
    ensures var c := Chosen(cfg, text, f); c.Chose? && c.out.Kept? ==> TextsValid(c.out.tree)
  {
    hide Utf8.Valid;
  }

  lemma WordsAreValid()
    ensures Utf8.Valid(T.TRUE) && Utf8.Valid(T.FALSE)
  {
    hide Utf8.Valid;
    Utf8.AsciiIsValid(T.TRUE);
    Utf8.AsciiIsValid(T.FALSE);
  }

  lemma {:induction false} ListedTexts(senses: seq<Sense<Out>>)
    requires forall k :: 0 <= k < |senses| ==> TextSense(senses[k])
    ensures Listed(senses).Means? ==> TextsValid(JsonOut.Json.Array(Listed(senses).value))
    decreases |senses|
  {
    hide Utf8.Valid;
    if senses != [] { ListedTexts(senses[..|senses| - 1]); }
  }

  lemma GatheredTexts(senses: seq<Entry<Sense<Out>>>)
    requires forall k :: 0 <= k < |senses| ==> Utf8.Valid(senses[k].key) && TextSense(senses[k].value)
    ensures Gathered(senses).Means? ==> TextsValid(Object(Gathered(senses).value))
  {
    hide Gathered, Get, LastWith, Utf8.Valid;
    if Gathered(senses).Means? {
      var outs := Gathered(senses).value;
      forall i | 0 <= i < |outs| ensures Utf8.Valid(outs[i].key) && TextsValid(outs[i].value) {
        GatheredLookup(senses, outs[i].key);
        AscendingIsDistinct(outs);
        GetIffIn(outs, outs[i].key, outs[i].value);
        assert outs[i] in outs;
        var k := LastIsMember(senses, outs[i].key);
      }
    }
  }

  /** Without inspection every text and key of a masked document is valid UTF-8: a rule's answer that is not is a failure. */
  lemma {:induction false} MaskedTexts(cfg: Config, n: T.Node, field: Field, here: bytes, depth: nat)
    requires KeysValid(n) && Faithful(n) && !cfg.embedded && !cfg.textDetectors
    ensures TextSense(Mean(cfg, n, field, here, depth))
    decreases n
  {
    hide Chosen, RuleText, T.KeyText, TokenValue, MeanItems, MeanMembers, Listed, Gathered, Located, Utf8.Valid, MeanInspect;
    var f := Seen(cfg, field, KindOf(n), here);
    ChosenTextIsValid(cfg, RuleText(n), f);
    if depth <= cfg.maxDepth {
      match n
      case Bool(_) => WordsAreValid();
      case String(token) =>
        TokenIsValid(token);
        assert !Inspectable(cfg, T.KeyText(token));
        assert MeanString(cfg, T.KeyText(token), TokenValue(token), Located(f, here), depth).Means?;
        assert MeanShape(cfg, n, f, here, depth) == Means(Kept(String(TokenValue(token))), false, 0);
      case Array(items) =>
        var senses := MeanItems(cfg, items, here, depth);
        forall k | 0 <= k < |items| ensures TextSense(senses[k]) {
          R.ItemSense(cfg, items, here, depth, k);
          MaskedTexts(cfg, items[k], ItemField(), PathForIndex(here, k), depth + 1);
        }
        ListedTexts(senses);
      case Object(ms) =>
        var senses := MeanMembers(cfg, ms, here, depth);
        forall k | 0 <= k < |ms| ensures Utf8.Valid(senses[k].key) && TextSense(senses[k].value) {
          R.MemberSense(cfg, ms, here, depth, k);
          MaskedTexts(cfg, ms[k].value, MemberField(ms[k].key), PathFor(here, ms[k].key), depth + 1);
        }
        GatheredTexts(senses);
      case _ =>
    }
  }

  /** Without inspection, what MaskJSON writes reads back as exactly the masked tree, whatever the rules answer. */
  lemma OutputReadsBack(cfg: Config, src: bytes)
    requires Masking(cfg, src).errs == [] && T.ParseDocument(src).Some? && !cfg.embedded && !cfg.textDetectors
    ensures R.StreamMeaning(cfg, RootNode(src)).Means?
    ensures T.ParseDocument(Masking(cfg, src).text).Some?
    ensures Decoded(T.ParseDocument(Masking(cfg, src).text).value) == R.RootTree(R.StreamMeaning(cfg, RootNode(src)).value)
  {
    hide Mean, T.ParseDocument, Utf8.Valid, Decoded, TextsValid, KeysValid, Faithful, RootWalk, LoneRoot, Encode, SanitizedTree;
    R.OutputIsJson(cfg, src);
    InputIsValid(cfg, src);
    DocumentKeys(src);
    VT.DocumentFaithful(src);
    MaskedTexts(cfg, RootNode(src), DocumentField(), ROOT, 0);
    NullIsText();
  }

  lemma InputIsValid(cfg: Config, src: bytes)
    requires Masking(cfg, src).errs == []
    ensures Utf8.Valid(src)
  {
    hide Utf8.Valid, T.ParseDocument, RootWalk, LoneRoot, RootNode;
  }

  lemma DocumentKeys(src: bytes)
    requires Utf8.Valid(src) && T.ParseDocument(src).Some?
    ensures KeysValid(T.ParseDocument(src).value)
  {
    hide Utf8.Valid, T.ParseValue, KeysValid;
    ValueKeys(src, 0);
  }

  lemma NullIsText()
    ensures TextsValid(Null)
  {
  }

  /* ---------- one document, two ways ---------- */

  /** v is the Go value encoding/json decodes from src, in a heap without pointers, and j is its tree. */
  ghost predicate DecodedFrom(src: bytes, h: Heap, v: Value, t: Tree, j: Json) {
    && T.ParseDocument(src).Some? && Decodes(T.ParseDocument(src).value, j) && Represents(t, j)
    && Closed(h) && Fits(h, v) && NoTargets(h) && Unfolds(h, v, t)
  }

  /** The value means what the decoded tree means, at the same price, and no pointer is followed. */
  lemma ValueMeansDocument(cfg: Config, src: bytes, h: Heap, v: Value, t: Tree, j: Json)
    requires Utf8.Valid(src) && DecodedFrom(src, h, v, t, j) && PathsHonest(cfg) && SourceBlind(cfg)
    ensures Alike(RootMeaning(cfg, NODES, h, v), R.DomMeaningOf(cfg, j))
    ensures Allowed(cfg, false, h, v) <==> R.DomMeaningOf(cfg, j).Means? && R.DomMeaningOf(cfg, j).cost <= cfg.maxNodes
  {
    hide Utf8.Valid, Decodes, Represents, Closed, Fits, NoTargets, Unfolds, T.ParseDocument, MeanValue, MeanTree, MeanUnfolded,
      PathsHonest, SourceBlind, Decodable, Alike;
    DocumentDecodable(src, j);
    VT.NothingIsValid();
    SharingIsInvisible(cfg, h, v, h, v, t, RootValueField(), ROOT, 0);
    TreeMeansJson(cfg, t, j, RootValueField(), ROOT, 0);
    AlikeIs(RootMeaning(cfg, NODES, h, v), R.DomMeaningOf(cfg, j));
    PointersAreFree(cfg, false, h, v, RootValueField(), ROOT, 0, {});
  }

  lemma RootCanon(out: Out)
    ensures R.RootTree(CanonOut(out)) == Canon(R.RootTree(out))
  {
  }

  /** Without preserved safe types, a value that is masked can be written as JSON: its numbers came from the document. */
  lemma WrittenToo(cfg: Config, src: bytes, h: Heap, v: Value, t: Tree, j: Json)
    requires Utf8.Valid(src) && DecodedFrom(src, h, v, t, j) && PathsHonest(cfg) && SourceBlind(cfg) && !cfg.preserveSafe
    requires |src| <= cfg.maxInputBytes && Masking(cfg, src).errs == []
    ensures Allowed(cfg, false, h, v) ==> Allowed(cfg, true, h, v)
  {
    hide Utf8.Valid, Decodes, Represents, Closed, Fits, NoTargets, Unfolds, T.ParseDocument, MeanValue, MeanTree, Mean,
      PathsHonest, SourceBlind, Masking, NumbersValid, Faithful, Hidden, Canon;
    var n := T.ParseDocument(src).value;
    R.StreamSucceeds(cfg, src);
    VT.DocumentFaithful(src);
    TreesAgree(cfg, n, j, DocumentField(), ROOT, 0);
    R.MeanNumbers(cfg, n, DocumentField(), ROOT, 0);
    R.NullIsNumberless();
    ValueMeansDocument(cfg, src, h, v, t, j);
    TwinsAgree(cfg, h, v);
  }

  /**
   A document masked as text, and the value decoded from it masked as a tree and as text. Whenever the document is
   masked without an error so is the value, and all three are the same JSON; without repeated keys they succeed together.
   */
  method MaskDecoded(cfg: Config, src: bytes, h: Heap, v: Value, ghost t: Tree, ghost j: Json)
    returns (document: Outcome, tree: Json, errs: seq<MaskError>, value: Outcome)
    requires |src| <= cfg.maxInputBytes && Utf8.Valid(src) && DecodedFrom(src, h, v, t, j)
    requires PathsHonest(cfg) && SourceBlind(cfg)
    ensures document == Masking(cfg, src)
    ensures document.errs == [] ==> errs == [] && document.text == Encode(Canon(tree))
    ensures document.errs == [] && !cfg.preserveSafe ==> value == document
    ensures NoRepeats(T.ParseDocument(src).value) ==>
      && (document.errs == [] <==> errs == [])
      && (!cfg.preserveSafe ==> (document.errs == [] <==> value.errs == []))
  {
    hide Utf8.Valid, Decodes, Represents, Closed, Fits, NoTargets, Unfolds, T.ParseDocument, MeanValue, MeanTree, Mean,
      PathsHonest, SourceBlind, Masking, NumbersValid, Encode, Canon, NoRepeats, CycleMet, RootMeaning, Allowed;
    document := MaskJSON(cfg, src);
    ghost var walker;
    tree, errs, walker := MaskAny(cfg, h, v);
    value := MaskJSONValue(cfg, h, v);
    R.StreamRefinesReference(cfg, src, j);
    ValueMeansDocument(cfg, src, h, v, t, j);
    AlikeIs(RootMeaning(cfg, NODES, h, v), R.DomMeaningOf(cfg, j));
    if R.DomMeaningOf(cfg, j).Means? { RootCanon(R.DomMeaningOf(cfg, j).value); }
    if !cfg.preserveSafe {
      TwinsAgree(cfg, h, v);
      if document.errs == [] { WrittenToo(cfg, src, h, v, t, j); }
      BothModes(cfg, h, v);
    }
  }

  lemma BothModes(cfg: Config, h: Heap, v: Value)
    requires Closed(h) && Fits(h, v)
    ensures Allowed(cfg, true, h, v) ==> RootMeaning(cfg, Mode(true, false), h, v).Means?
    ensures Allowed(cfg, false, h, v) ==> RootMeaning(cfg, NODES, h, v).Means?
  {
  }
}
