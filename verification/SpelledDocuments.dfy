/** However the text of a string is spelled in a document, MaskJSON reads that text: it asks with it and writes it. */
module SpelledDocuments {
  import opened Bytes
  import opened Options
  import opened Settings
  import opened MaskSpec
  import opened Meaning
  import opened MaskJson
  import opened JsonString
  import opened JsonEscapes
  import J = JsonOut
  import T = JsonTree
  import G = JsonGrammar
  import R = Refinement
  import VT = ValidText
  import Utf8

  /** A document that is one string, spelled in pieces. */
  function StringDocument(ps: seq<Piece>): bytes
    requires forall k :: 0 <= k < |ps| ==> IsPiece(ps[k])
  {
    [QUOTE] + WrittenAll(ps) + [QUOTE]
  }

  lemma StringParses(ps: seq<Piece>)
    requires ArePieces(ps)
    ensures var d := StringDocument(ps);
      && Utf8.Valid(d) && T.ParseDocument(d) == Some(T.String(d))
      && T.KeyText(d) == Spelled(ps) == J.TokenValue(d)
  {
    hide T.ParseDocument, IsStringBody, Unescape, WrittenAll, Spelled, T.KeyText, Utf8.Valid, IsPiece;
    var d, body := StringDocument(ps), WrittenAll(ps);
    PiecesRead(ps);
    UnescapeIffGrammar(body);
    assert Body(d) == body;
    var i := G.Item([], G.Str(d), []);
    assert G.ItemText(i) == d;
    G.DocumentParsed(d, i);
    WrittenIsValid(ps);
    Enclosed(body);
    VT.DocumentFaithful(d);
  }

  lemma Enclosed(body: bytes)
    requires Utf8.Valid(body)
    ensures Utf8.Valid([QUOTE] + body + [QUOTE])
  {
    hide Utf8.Valid;
    OneQuote();
    Utf8.ValidAppend(body, [QUOTE]);
    AsciiFront([QUOTE], body + [QUOTE]);
    assert [QUOTE] + body + [QUOTE] == [QUOTE] + (body + [QUOTE]);
  }

  lemma OneQuote()
    ensures Utf8.Valid([QUOTE])
  {
    assert [QUOTE][1..] == [];
  }

  /** The text the policy leaves alone is written as it was spelled out; a rule is given that text, and its answer is written if it is valid. */
  lemma StringMasked(cfg: Config, ps: seq<Piece>)
    requires ArePieces(ps) && |StringDocument(ps)| <= cfg.maxInputBytes && cfg.maxNodes > 0
    ensures var f, t := Seen(cfg, DocumentField(), StringKind, ROOT), Spelled(ps);
      match cfg.policy(f)
      case Decision(omit, rule) =>
        if omit then Masking(cfg, StringDocument(ps)) == Outcome(T.NULL, [])
        else if rule.None? then !Inspectable(cfg, t) ==> Masking(cfg, StringDocument(ps)) == Outcome(Quoted(t), [])
        else
          var answer := rule.value.apply(RuleInput(t, StringKind, cfg.marker));
          if answer.Text? && Utf8.Valid(answer.text) then Masking(cfg, StringDocument(ps)) == Outcome(Quoted(answer.text), [])
          else Masking(cfg, StringDocument(ps)).errs != []
      case PolicyError => Masking(cfg, StringDocument(ps)).errs != []
      case PolicyPanic => Masking(cfg, StringDocument(ps)).errs != []
  {
    hide T.ParseDocument, RootWalk, Inspectable, MeanInspect, Utf8.Valid, Spelled, WrittenAll, Quoted, T.KeyText, IsPiece;
    var d, f, t := StringDocument(ps), Seen(cfg, DocumentField(), StringKind, ROOT), Spelled(ps);
    StringParses(ps);
    R.StreamSucceeds(cfg, d);
    assert !Inspectable(cfg, t) ==>
      MeanShape(cfg, T.String(d), f, ROOT, 0) == MeanString(cfg, t, t, Located(f, ROOT), 0) == Means(Kept(J.String(t)), false, 0);
  }

  /** A text spelled in escapes alone comes out as the text. */
  lemma EscapesMasked(cfg: Config, s: bytes)
    requires Utf8.Valid(s) && |StringDocument(AllEscaped(s))| <= cfg.maxInputBytes && cfg.maxNodes > 0
    requires cfg.policy(Seen(cfg, DocumentField(), StringKind, ROOT)) == Decision(false, None) && !Inspectable(cfg, s)
    ensures Masking(cfg, StringDocument(AllEscaped(s))) == Outcome(Quoted(s), [])
  {
    AllEscapedSpells(s);
    StringMasked(cfg, AllEscaped(s));
  }
}
