/**
 The prefilter of embedded.go skips nothing: a string that is no candidate, and in which no detector finds anything,
 would be left alone by the inspection as well. And every object or array in a string is masked as a document.
 */
module Prefilter {
  import opened Bytes
  import opened Options
  import opened JsonLex
  import opened Settings
  import opened MaskSpec
  import opened Meaning
  import opened Embedded
  import T = JsonTree
  import J = JsonOut
  import D = Detect
  import DT = DetectText
  import EG = EmbeddedGrammar
  import Q = UrlQuery

  /* ---------- what is looked into is a candidate ---------- */

  /** The first byte past the white space of a text that starts with none. */
  lemma StartsAtOnce(s: bytes)
    requires s != [] && !IsSpace(s[0])
    ensures SpaceEnd(s, 0) == 0
  {
  }

  lemma SchemeIsCandidate(s: bytes)
    requires HasScheme(s)
    ensures IsCandidate(s)
  {
    StartsAtOnce(s);
    assert DT.HasPrefixAt(s, DT.RunEnd(s, 1, IsSchemeByte), SCHEME_MARK);
    assert Contains(s, SCHEME_MARK);
  }

  lemma FormIsCandidate(s: bytes)
    requires IsOneWord(s) && Q.EQUALS in s
    ensures IsCandidate(s)
  {
    StartsAtOnce(s);
  }

  lemma BracketIsCandidate(s: bytes)
    requires IsBracketed(s)
    ensures IsCandidate(s)
  {
    var first, last :| 0 <= first <= last < |s| && SpansText(s, first, last) &&
      ((s[first] == LBRACE && s[last] == RBRACE) || (s[first] == LBRACKET && s[last] == RBRACKET));
    SpaceEndIs(s, 0, first);
  }

  /** The prefilter loses nothing: what it turns away, the inspection would return as it is, without a trace. */
  lemma NothingSkipped(cfg: Config, s: bytes, field: Field, depth: nat, st: State)
    requires depth <= cfg.maxDepth && !Inspectable(cfg, s) && !st.stop && |s| <= cfg.maxInputBytes
    ensures Inspect(cfg, s, field, depth, st) == Inspected(s, false, st)
  {
    hide IsCandidate, IsBracketed, HasScheme, IsOneWord, AreFormParts, D.Found;
    if HasScheme(s) { SchemeIsCandidate(s); }
    if IsOneWord(s) && Q.EQUALS in s { FormIsCandidate(s); }
    if IsBracketed(s) { BracketIsCandidate(s); }
  }

  /* ---------- every object and array is looked into ---------- */

  lemma {:induction false} MembersEnd(d: bytes, q: nat)
    requires q <= |d| && T.ParseMembers(d, q).Parsed?
    ensures d[T.ParseMembers(d, q).end - 1] == RBRACE
    decreases |d| - q
  {
    hide T.ParseValue, T.ParseKey, T.ParseMembers, T.MoreMembers;
    T.MembersStep(d, q);
    var v := T.ParseKey(d, q).end;
    var n, e := T.ParseValue(d, v).value, T.ParseValue(d, v).end;
    T.MoreMembersStep(d, e, T.Member(T.ParseKey(d, q).value, n));
    var s := SpaceEnd(d, e);
    if d[s] == COMMA { MembersEnd(d, SpaceEnd(d, s + 1)); }
  }

  lemma {:induction false} ItemsEnd(d: bytes, q: nat)
    requires q <= |d| && T.ParseItems(d, q).Parsed?
    ensures d[T.ParseItems(d, q).end - 1] == RBRACKET
    decreases |d| - q
  {
    hide T.ParseValue, T.ParseItems, T.MoreItems;
    T.ItemsStep(d, q);
    var n, e := T.ParseValue(d, q).value, T.ParseValue(d, q).end;
    T.MoreItemsStep(d, e, n);
    var s := SpaceEnd(d, e);
    if d[s] == COMMA { ItemsEnd(d, SpaceEnd(d, s + 1)); }
  }

  predicate IsContainer(n: T.Node) { n.Object? || n.Array? }

  /** A value is a container exactly if it starts with a bracket, and then it ends with the closing one. */
  lemma BracketsAround(d: bytes, i: nat)
    requires i <= |d| && T.ParseValue(d, i).Parsed?
    ensures var p, r := SpaceEnd(d, i), T.ParseValue(d, i);
      && p < |d| && (IsContainer(r.value) <==> d[p] == LBRACE || d[p] == LBRACKET)
      && (IsContainer(r.value) ==> d[r.end - 1] == if d[p] == LBRACE then RBRACE else RBRACKET)
  {
    hide T.ParseMembers, T.ParseItems, T.ParseValue, SpaceEnd, T.PrimitiveNode;
    T.ValueStep(d, i);
    var p := SpaceEnd(d, i);
    var q := SpaceEnd(d, p + 1);
    if d[p] == LBRACE && !(q < |d| && d[q] == RBRACE) { MembersEnd(d, q); }
    if d[p] == LBRACKET && !(q < |d| && d[q] == RBRACKET) { ItemsEnd(d, q); }
    PrimitiveIsScalar(d[p..PrimitiveEnd(d, p)]);
  }

  lemma PrimitiveIsScalar(token: bytes)
    ensures T.PrimitiveNode(token).Some? ==> !IsContainer(T.PrimitiveNode(token).value)
  {
  }

  /** Of the JSON documents, exactly those with an object or array at the root are in brackets. */
  lemma BracketedIffContainer(s: bytes)
    requires T.ParseDocument(s).Some?
    ensures IsBracketed(s) <==> IsContainer(T.ParseDocument(s).value)
  {
    hide T.ParseValue;
    var r := T.ParseValue(s, 0);
    BracketsAround(s, 0);
    var p := SpaceEnd(s, 0);
    if IsContainer(r.value) {
      assert SpansText(s, p, r.end - 1);
    }
    if IsBracketed(s) {
      var first, last :| 0 <= first <= last < |s| && SpansText(s, first, last) &&
        ((s[first] == LBRACE && s[last] == RBRACE) || (s[first] == LBRACKET && s[last] == RBRACKET));
      SpaceEndIs(s, 0, first);
    }
  }

  /** A container is no URL: it starts with a bracket, past white space. */
  lemma ContainerIsNoUrl(s: bytes)
    requires T.ParseDocument(s).Some? && IsContainer(T.ParseDocument(s).value)
    ensures !HasScheme(s) && IsCandidate(s) && IsEmbedded(s)
  {
    hide T.ParseValue;
    BracketsAround(s, 0);
    BracketedIffContainer(s);
    BracketIsCandidate(s);
    if HasScheme(s) { StartsAtOnce(s); }
  }

  /**
   A string that holds an object or an array, and nothing else but white space, is masked as the document it holds,
   one level deeper and at the price of its nodes. It keeps its text if masking changes nothing in it.
   */
  lemma EmbeddedIsMasked(cfg: Config, text: bytes, value: bytes, f: Field, depth: nat)
    requires cfg.embedded && depth <= cfg.maxDepth && |text| <= cfg.maxInputBytes
    requires T.ParseDocument(text).Some? && IsContainer(T.ParseDocument(text).value)
    ensures MeanString(cfg, text, value, f, depth) ==
      match Mean(cfg, T.ParseDocument(text).value, Field(f.key, f.path, JSONSource, NilKind),
                 if f.path == [] then ['$' as int] else f.path, depth + 1)
      case Fails => Fails
      case Means(out, changed, cost) =>
        Means(Kept(J.String(if changed then RootText(out) else value)), changed, cost)
  {
    hide T.ParseDocument, Mean, IsCandidate, IsBracketed, HasScheme, RootText;
    ContainerIsNoUrl(text);
    assert MeanInspect(cfg, text, f, depth) == MeanJson(cfg, text, f, depth);
    match Mean(cfg, T.ParseDocument(text).value, RootField(f), RootPath(f), depth + 1)
    case Fails => assert MeanJson(cfg, text, f, depth).Fails?;
    case Means(out, changed, cost) =>
      assert MeanJson(cfg, text, f, depth) == Means(if changed then RootText(out) else text, changed, cost);
  }

  /* ---------- URLs ---------- */

  /** A string is read as a URL exactly if it begins with a scheme, is one word, and the library finds a host and no opaque part. */
  lemma UrlIff(cfg: Config, s: bytes, field: Field, depth: nat, st: State)
    requires depth <= cfg.maxDepth
    ensures InspectUrl(cfg, s, field, depth, st).Some? <==>
      && (exists n :: EG.SchemeTo(s, n)) && (forall k :: 0 <= k < |s| ==> s[k] > 32 && s[k] != 127)
      && match cfg.parseUrl(s)
         case None => false
         case Some(u) => u.host != [] && u.opaqueText == []
  {
    hide MaskQuery, InspectUrlPath, HasScheme, Veiled, HasVeil;
    EG.SchemeIff(s);
  }

  /** A URL is written as its front, its path and its back, each by the library. */
  predicate WrittenInParts(cfg: Config, u: Url, path: bytes) {
    cfg.urlText(u) == cfg.urlText(Url(u.scheme, [], u.user, u.host, [], [], false, [], [])) + path +
      cfg.urlText(Url([], [], None, [], [], u.rawQuery, u.forceQuery, u.fragment, u.rawFragment))
  }

  /** In a URL so written, a masked path stands where the path stood, and nothing around it moves. */
  lemma PathInPlace(cfg: Config, s: bytes, result: Url, path: bytes, masked: bytes, changed: bool)
    requires WrittenInParts(cfg, result, path)
    ensures exists front, back ::
      cfg.urlText(result) == front + path + back && UrlResult(cfg, s, result, changed, masked, true) == front + masked + back
    ensures UrlResult(cfg, s, result, true, path, false) == UrlResult(cfg, s, result, true, path, true) == cfg.urlText(result)
    ensures UrlResult(cfg, s, result, false, path, false) == s
  {
  }
}
