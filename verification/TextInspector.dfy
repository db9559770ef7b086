/** Strings on their own: what is copied unread, and the inspections that start no walker. */
module TextInspector {
  import opened Bytes
  import opened Options
  import opened Settings
  import opened MaskSpec
  import opened JsonLex
  import opened StreamState
  import J = JsonOut
  import JS = JsonString
  import T = JsonTree
  import K = JsonSkip
  import S = Splice
  import D = Detect
  import DP = DetectPatterns
  import E = Embedded
  import Q = UrlQuery
  import Utf8

  /* ---------- strings ---------- */

  /** inspectableToken: text without an escape is looked at as it lies. */
  method InspectableToken(cfg: Config, token: bytes) returns (ok: bool)
    ensures T.TokenText(token).Some? ==> ok == Inspectable(cfg, T.TokenText(token).value)
  {
    if (!cfg.embedded && !cfg.textDetectors) || |token| < 2 {
      return false;
    }
    var text: bytes;
    if BACKSLASH in token {
      var decoded := T.TokenText(token);
      if decoded.None? {
        return false;
      }
      text := decoded.value;
    } else {
      text := token[1..|token| - 1];
      UnescapedText(token);
    }
    ok := IsInspectable(cfg, text);
  }

  /** A token without a backslash has no text but its body. */
  lemma UnescapedText(token: bytes)
    requires |token| >= 2 && BACKSLASH !in token
    ensures T.TokenText(token).Some? ==> T.TokenText(token).value == token[1..|token| - 1]
  {
    if JS.IsDelimited(token) && T.NeedsUnmarshal(JS.Body(token)) {
      var body := JS.Body(token);
      var k :| 0 <= k < |body| && (body[k] == BACKSLASH || body[k] < 0x20);
      assert body[k] == token[k + 1];
      K.ControlNeverReads(body, k);
    }
  }

  /** inspectable. */
  method IsInspectable(cfg: Config, s: bytes) returns (ok: bool)
    ensures ok == Inspectable(cfg, s)
  {
    hide D.Found, E.IsCandidate;
    ok := false;
    if cfg.embedded {
      ok := E.EmbeddedCandidate(s);
    }
    if !ok && cfg.textDetectors {
      ok := D.Candidate(s, cfg.detectors);
    }
  }

  /** appendStreamJSONString: a token is copied unread when decoding and encoding it would give it back. */
  method AppendStreamString(dst: bytes, data: bytes, start: nat, end: nat) returns (r: bytes, ok: bool)
    requires start < |data| && data[start] == QUOTE && end == StringEnd(data, start)
    ensures ok <==> JS.Unmarshal(data[start..end]).Some?
    ensures ok ==> r == dst + J.Encode(J.String(J.TokenValue(data[start..end])))
  {
    hide JS.Escape, JS.Unescape, JS.Copyable, StringEnd;
    var token := data[start..end];
    var copy := JS.CanCopy(token);
    if copy {
      CopiedTokenIsExact(data, start);
      return dst + token, true;
    }
    var decoded := JS.Unmarshal(token);
    if decoded.None? {
      return dst, false;
    }
    r := JS.AppendJSONString(dst, decoded.value);
    ok := true;
  }

  lemma CopiedTokenIsExact(data: bytes, start: nat)
    requires start < |data| && data[start] == QUOTE
    requires var token := data[start..StringEnd(data, start)]; JS.IsDelimited(token) && JS.Copyable(JS.Body(token))
    ensures var token := data[start..StringEnd(data, start)];
      JS.Unmarshal(token).Some? && JS.Quoted(J.TokenValue(token)) == token
  {
    hide StringEnd, JS.Unescape, JS.Escape;
    var token := data[start..StringEnd(data, start)];
    CopyableHasNoBackslash(JS.Body(token));
    T.ScannedBody(data, start);
    JS.RawCopyIsExact(token);
  }

  lemma {:induction false} CopyableHasNoBackslash(b: bytes)
    requires JS.Copyable(b)
    ensures BACKSLASH !in b
    decreases |b|
  {
    if b != [] {
      var n := JS.UnitSize(b);
      assert b == b[..n] + b[n..];
      assert BACKSLASH !in b[..n] by {
        if b[0] < 0x80 { assert b[..1] == [b[0]]; }
      }
      CopyableHasNoBackslash(b[n..]);
    }
  }

  method InspectPlainString(cfg: Config, s: bytes, field: Field, depth: nat, state: Budget)
    returns (text: bytes, changed: bool)
    modifies state
    ensures Inspected(text, changed, state.St()) == InspectPlain(cfg, s, field, depth, old(state.St()))
  {
    hide InspectText;
    if cfg.textDetectors {
      text, changed := InspectTextString(cfg, s, field, depth, state);
    } else {
      text, changed := s, false;
    }
  }

  /** decideMember. */
  method DecideText(cfg: Config, member: Field, value: bytes, depth: nat, state: Budget)
    returns (masked: bytes, decided: bool, keep: bool)
    modifies state
    ensures Decided(masked, decided, keep, state.St()) == DecideMember(cfg, member, value, depth, old(state.St()))
  {
    if state.stop {
      return cfg.marker, true, true;
    }
    if !Utf8.Valid(member.key) {
      state.Fail(FieldError(cfg, InvalidUTF8, member, depth + 1));
      return cfg.marker, true, true;
    }
    if depth + 1 > cfg.maxDepth {
      state.Limit(FieldError(cfg, DepthLimit, member, depth + 1));
      return cfg.marker, true, true;
    }
    state.nodes := state.nodes + 1;
    if state.nodes > cfg.maxNodes {
      state.Limit(FieldError(cfg, NodeLimit, member, depth + 1));
      return cfg.marker, true, true;
    }
    var decision := state.Ask(cfg, member);
    match decision
    case PolicyError =>
      state.Fail(FieldError(cfg, PolicyFailure, member, 0));
      return cfg.marker, true, true;
    case PolicyPanic =>
      state.Fail(FieldError(cfg, Panicked, member, 0));
      return cfg.marker, true, true;
    case Decision(omit, rule) =>
      if omit {
        return [], true, false;
      }
      if rule.None? {
        return value, false, true;
      }
      var answer := ApplyRule(rule.value, RuleInput(value, StringKind, cfg.marker));
      match answer
      case Text(result) => return result, true, true;
      case RuleError =>
        state.Fail(RuleFieldError(cfg, RuleFailure, member, rule.value));
        return cfg.marker, true, true;
      case RulePanic =>
        state.Fail(RuleFieldError(cfg, Panicked, member, rule.value));
        return cfg.marker, true, true;
  }

  /** inspectText. */
  method InspectTextString(cfg: Config, s: bytes, field: Field, depth: nat, state: Budget)
    returns (text: bytes, changed: bool)
    modifies state
    ensures Inspected(text, changed, state.St()) == InspectText(cfg, s, field, depth, old(state.St()))
  {
    hide D.Found, PairEdits, SpanEdits, S.Kept, S.Replaced;
    D.FoundInOrder(s, cfg.detectors);
    var found := D.Find(s, cfg.detectors);
    if found.spans == [] && found.pairs == [] {
      return s, false;
    }
    ghost var st := state.St();
    var edits, stopped := DecidePairs(cfg, s, found.pairs, field, depth, state);
    if stopped {
      return cfg.marker, true;
    }
    EditsInText(cfg, s, found.pairs, found.spans, field, depth, st);
    var spans := MarkSpans(cfg, s, found.spans);
    edits := edits + spans;
    var sorted := cfg.sortEdits(edits);
    SortedInText(sorted, edits, |s|);
    text, changed := S.Apply(s, sorted);
    if !changed {
      S.KeptAreDisjoint(sorted, 0, |s|);
      S.NothingChanged(s, S.Kept(sorted, 0), 0);
      assert s[0..] == s;
    }
  }

  /** The loop over the pairs; it stops as soon as the operation has. */
  method DecidePairs(cfg: Config, s: bytes, pairs: seq<DP.Pair>, field: Field, depth: nat, state: Budget)
    returns (edits: seq<S.Edit>, stopped: bool)
    requires forall p :: p in pairs ==> D.WellShaped(p, |s|)
    modifies state
    ensures var e := PairEdits(cfg, s, pairs, field, depth, old(state.St()));
      && state.St() == e.st && (stopped <==> e.st.stop && pairs != []) && edits == e.edits
  {
    hide DecideMember;
    edits := [];
    var k := 0;
    ghost var st := state.St();
    assert pairs[..0] == [];
    while k < |pairs|
      invariant k <= |pairs|
      invariant forall p :: p in pairs[..k] ==> p in pairs
      invariant Edits(edits, state.St()) == PairEdits(cfg, s, pairs[..k], field, depth, st)
      invariant k > 0 ==> !state.stop
    {
      var pair := pairs[k];
      assert pairs[..k + 1][..k] == pairs[..k] && pairs[..k + 1][k] == pair;
      ghost var before := Edits(edits, state.St());
      assert pair in pairs;
      if state.stop {
        // Only on entry: deciding the first pair would change nothing.
        StoppedPairs(cfg, s, pairs, field, depth, st);
        return edits, true;
      }
      var key := s[pair.keyStart..pair.keyEnd];
      var member := Field(key, PathFor(field.path, key), TextSource, StringKind);
      var masked, decided, keep := DecideText(cfg, member, s[pair.valueStart..pair.valueEnd], depth, state);
      assert PairEdits(cfg, s, pairs[..k + 1], field, depth, st) == PairEdit(cfg, s, pair, field, depth, before);
      if state.stop {
        StoppedAt(cfg, s, pairs, field, depth, st, k + 1);
        return edits, true;
      }
      if decided {
        edits := edits + [S.Edit(pair.valueStart, pair.valueEnd, if keep then masked else cfg.marker)];
      }
      k := k + 1;
    }
    assert pairs[..k] == pairs;
    stopped := false;
  }

  /** Once stopped, the rest of the pairs change nothing. */
  lemma {:induction false} StoppedAt(cfg: Config, s: bytes, pairs: seq<DP.Pair>, field: Field, depth: nat, st: State, k: nat)
    requires forall p :: p in pairs ==> D.WellShaped(p, |s|)
    requires k <= |pairs| && (forall p :: p in pairs[..k] ==> p in pairs)
    requires PairEdits(cfg, s, pairs[..k], field, depth, st).st.stop
    ensures PairEdits(cfg, s, pairs, field, depth, st) == PairEdits(cfg, s, pairs[..k], field, depth, st)
    decreases |pairs| - k
  {
    hide PairEdit;
    if k == |pairs| {
      assert pairs[..k] == pairs;
    } else {
      assert pairs[..k + 1][..k] == pairs[..k];
      StoppedAt(cfg, s, pairs, field, depth, st, k + 1);
    }
  }

  lemma StoppedPairs(cfg: Config, s: bytes, pairs: seq<DP.Pair>, field: Field, depth: nat, st: State)
    requires forall p :: p in pairs ==> D.WellShaped(p, |s|)
    requires st.stop
    ensures PairEdits(cfg, s, pairs, field, depth, st) == Edits([], st)
  {
    assert pairs[..0] == [];
    StoppedAt(cfg, s, pairs, field, depth, st, 0);
  }

  /** The loop over the spans. */
  method MarkSpans(cfg: Config, s: bytes, spans: seq<DP.Span>) returns (edits: seq<S.Edit>)
    requires forall p :: p in spans ==> p.start < p.end <= |s|
    ensures edits == SpanEdits(cfg, s, spans)
  {
    edits := [];
    var k := 0;
    while k < |spans|
      invariant k <= |spans|
      invariant |edits| == k && forall i :: 0 <= i < k ==> spans[i] in spans && edits[i] == SpanEdit(cfg, s, spans[i])
    {
      var span := spans[k];
      var text := cfg.marker;
      if span.kind == DP.Card {
        text := cfg.maskCard(s[span.start..span.end]);
      }
      edits := edits + [S.Edit(span.start, span.end, text)];
      k := k + 1;
    }
  }

  /** The end of inspectURL: the path is text, spliced in as it was masked. */
  method InspectURLPath(cfg: Config, s: bytes, url: Url, result: Url, changed0: bool,
                        field: Field, depth: nat, state: Budget) returns (text: bytes, changed: bool)
    modifies state
    ensures Inspected(text, changed, state.St())
         == InspectUrlPath(cfg, s, url, result, changed0, field, depth, old(state.St()))
  {
    hide InspectText, D.Found;
    var path: bytes, pathChanged := [], false;
    if cfg.textDetectors {
      var escaped := cfg.escapedPath(url);
      var candidate := D.Candidate(escaped, cfg.detectors);
      if candidate {
        path, pathChanged := InspectTextString(cfg, escaped, field, depth, state);
        if state.stop {
          return cfg.marker, true;
        }
      }
    }
    if !changed0 && !pathChanged {
      return s, false;
    }
    if !pathChanged {
      return cfg.urlText(result), true;
    }
    var head := Url(result.scheme, [], result.user, result.host, [], [], false, [], []);
    var tail := Url([], [], None, [], [], result.rawQuery, result.forceQuery, result.fragment, result.rawFragment);
    return cfg.urlText(head) + path + cfg.urlText(tail), true;
  }

  /** The errors of an inner walker joined to the outer list. */
  method MergeErrors(state: Budget, inner: seq<MaskError>)
    modifies state`errs
    ensures state.errs == Merge(old(state.errs), inner)
  {
    var index := 0;
    assert inner[..0] == [];
    while index < |inner|
      invariant index <= |inner|
      invariant state.errs == Merge(old(state.errs), inner[..index])
    {
      assert inner[..index + 1][..index] == inner[..index];
      if inner[index].IsLimit() {
        state.errs := RecordPriority(state.errs, inner[index]);
      } else {
        state.errs := Record(state.errs, inner[index]);
      }
      index := index + 1;
    }
    assert inner[..index] == inner;
  }

  method WritePair(builder: bytes, keyEscaped: bytes, key: bytes, value: bytes, ghost kept: seq<Q.Pair>)
    returns (r: bytes)
    requires builder == Q.Render(kept) && keyEscaped == Q.QueryEscape(key)
    ensures r == Q.Render(kept + [Q.Pair(key, value)])
  {
    hide Q.Render, Q.QueryEscape;
    Q.RenderAppends(kept, Q.Pair(key, value));
    r := builder;
    if |r| > 0 {
      r := r + [Q.AMPERSAND];
    }
    r := r + (keyEscaped + [Q.EQUALS] + Q.QueryEscape(value));
  }

  lemma NothingRendered()
    ensures Q.Render([]) == []
  {
  }

  lemma NothingFolded(cfg: Config, field: Field, depth: nat, st: State)
    requires depth <= cfg.maxDepth
    ensures QueryFold(cfg, [], field, depth, st) == MaskSpec.Fold([], false, false, st)
  {
  }

  lemma FoldNext(cfg: Config, ps: seq<Q.Pair>, k: nat, field: Field, depth: nat, st: State)
    requires depth <= cfg.maxDepth && k < |ps|
    ensures var f := QueryFold(cfg, ps[..k], field, depth, st);
      QueryFold(cfg, ps[..k + 1], field, depth, st) == if f.halted then f else QueryStep(cfg, ps[k], field, depth, f)
  {
    hide QueryStep;
    assert ps[..k + 1][..k] == ps[..k];
  }

  /** Once halted, the rest of the pairs are not looked at. */
  lemma {:induction false} FoldHalts(cfg: Config, ps: seq<Q.Pair>, k: nat, field: Field, depth: nat, st: State)
    requires depth <= cfg.maxDepth && k <= |ps| && QueryFold(cfg, ps[..k], field, depth, st).halted
    ensures QueryFold(cfg, ps, field, depth, st) == QueryFold(cfg, ps[..k], field, depth, st)
    decreases |ps| - k
  {
    hide QueryStep, QueryFold;
    if k == |ps| {
      assert ps[..k] == ps;
    } else {
      FoldNext(cfg, ps, k, field, depth, st);
      FoldHalts(cfg, ps, k + 1, field, depth, st);
    }
  }

  /** A member left undecided is within the depth limit, and kept. */
  lemma DecidedWithinDepth(cfg: Config, member: Field, value: bytes, depth: nat, st: State)
    requires !DecideMember(cfg, member, value, depth, st).decided
    ensures depth + 1 <= cfg.maxDepth
  {
  }
}
