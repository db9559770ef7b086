/** Masking one JSON document: MaskJSON, and what it accepts. */
module MaskJson {
  import opened Bytes
  import opened Settings
  import opened MaskSpec
  import opened JsonLex
  import W = StreamWalker
  import opened StreamState
  import J = JsonOut
  import T = JsonTree
  import G = JsonGrammar
  import K = JsonSkip
  import Utf8

  /** A result, and the errors that made it the marker. */
  datatype Outcome = Outcome(text: bytes, errs: seq<MaskError>)

  function DocumentError(cfg: Config, code: Code): MaskError { MaskError(code, cfg.diagnostic(ROOT), [], 0, []) }

  /** safeJSONFallback: the marker as a JSON string. */
  function Failed(cfg: Config, errs: seq<MaskError>): Outcome { Outcome(J.Encode(J.String(cfg.marker)), errs) }

  function DocumentField(): Field { Field([], ROOT, JSONSource, NilKind) }

  const FRESH := Run(State(0, [], false, []), 0)

  /** The walk of a whole document. */
  ghost function RootWalk(cfg: Config, n: T.Node): Walked { Walk(cfg, n, DocumentField(), ROOT, 0, FRESH) }

  /** A lone quote at the root is stepped over when the policy fails or omits, or no node is allowed. */
  predicate LoneRoot(cfg: Config, src: bytes) {
    G.IsLoneQuote(src) && SteppedOver(cfg, DocumentField(), ROOT, 0, FRESH)
  }

  function RootNode(src: bytes): T.Node {
    if T.ParseDocument(src).Some? then T.ParseDocument(src).value else T.String([QUOTE])
  }

  /** What MaskJSON gives for src. */
  ghost function Masking(cfg: Config, src: bytes): Outcome {
    if |src| > cfg.maxInputBytes then Failed(cfg, [DocumentError(cfg, InputLimit)])
    else if !Utf8.Valid(src) then Failed(cfg, [DocumentError(cfg, InvalidUTF8)])
    else if T.ParseDocument(src).None? && !LoneRoot(cfg, src) then Failed(cfg, [DocumentError(cfg, InvalidJSON)])
    else
      var w := RootWalk(cfg, RootNode(src));
      if w.run.st.errs != [] then Failed(cfg, w.run.st.errs) else Outcome(RootText(w.out), [])
  }

  /** Masker.MaskJSON, maskJSON and maskJSONStream. */
  method MaskJSON(cfg: Config, src: bytes) returns (result: Outcome)
    ensures result == Masking(cfg, src)
  {
    hide Walk, J.Encode, T.ParseDocument, G.IsDocument, IsValueAt, NodeAt, EndAt, LoneRoot, Utf8.Valid,
      SteppedOver, G.IsLoneQuote;
    if |src| > cfg.maxInputBytes {
      return Failed(cfg, [DocumentError(cfg, InputLimit)]);
    }
    if !Utf8.Valid(src) {
      return Failed(cfg, [DocumentError(cfg, InvalidUTF8)]);
    }
    RootParses(cfg, src);
    var budget := new Budget(0, []);
    var walker := new W.Walker(cfg, [], budget);
    var out := new Buffer();
    var next, ok, omitted := walker.AppendValue(src, 0, DocumentField(), 0, out);
    if !ok {
      return Failed(cfg, [DocumentError(cfg, InvalidJSON)]);
    }
    var e := SkipJSONSpace(src, next);
    if e != |src| {
      return Failed(cfg, [DocumentError(cfg, InvalidJSON)]);
    }
    var limited := HasResourceError(budget.errs);
    if limited {
      // The recursive parser took the document, so the skipper takes it too.
      var valid := G.ValidJSONDocument(src);
      AcceptedIsValid(cfg, src);
      assert valid;
    }
    if |budget.errs| > 0 {
      return Failed(cfg, budget.errs);
    }
    result := Outcome(out.data, []);
  }

  method HasResourceError(errs: seq<MaskError>) returns (found: bool)
    ensures found <==> exists e :: e in errs && e.IsLimit()
  {
    var index := 0;
    while index < |errs|
      invariant index <= |errs|
      invariant forall k :: 0 <= k < index ==> !errs[k].IsLimit()
    {
      if errs[index].IsLimit() {
        return true;
      }
      index := index + 1;
    }
    return false;
  }

  /** The root is read exactly as a document, but for the lone quote. */
  lemma RootParses(cfg: Config, src: bytes)
    ensures PathOf([], []) == ROOT
    ensures (IsValueAt(cfg, src, 0, DocumentField(), ROOT, 0, FRESH) && SpaceEnd(src, EndAt(src, 0)) == |src|)
      <==> (T.ParseDocument(src).Some? || LoneRoot(cfg, src))
    ensures T.ParseDocument(src).Some? || LoneRoot(cfg, src) ==> NodeAt(src, 0) == RootNode(src)
  {
    hide T.ParseValue, SteppedOver;
    if LoneAt(src, 0) {
      K.LoneQuoteReadsNothing(src, SpaceEnd(src, 0));
      T.ParseFromSpaceEnd(src, 0);
    }
  }

  lemma AcceptedIsValid(cfg: Config, src: bytes)
    requires T.ParseDocument(src).Some? || LoneRoot(cfg, src)
    ensures G.IsDocument(src) || G.IsLoneQuote(src)
  {
    G.DocumentIffParsed(src);
  }
}
