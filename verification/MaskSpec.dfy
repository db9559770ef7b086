/**
 What masking a parsed value and inspecting a string mean: pure functions that thread the state every walker
 of one operation shares. The methods of StreamWalker are proved equal to them; the properties of whole runs
 are proved about them.
 */
module MaskSpec {
  import opened Bytes
  import opened Options
  import opened Settings
  import opened SortedMap
  import opened JsonOut
  import T = JsonTree
  import S = Splice
  import D = Detect
  import DP = DetectPatterns
  import E = Embedded
  import Q = UrlQuery
  import Utf8

  /** The node budget, the error list and the stop flag of an operation, and the questions put to its policy. */
  datatype State = State(nodes: nat, errs: seq<MaskError>, stop: bool, asked: seq<Field>) {
    /** Stop the operation for a limit, unless it has stopped. */
    function Limit(e: MaskError): State {
      if stop then this else this.(stop := true, errs := RecordPriority(errs, e))
    }

    function Ask(f: Field): State { this.(asked := asked + [f]) }

    function Fail(e: MaskError): State { this.(errs := Record(errs, e)) }

    function FailUnique(e: MaskError): State { this.(errs := RecordUnique(errs, e)) }
  }

  /** The state of one JSON walker: the shared state and its count of changes. */
  datatype Run = Run(st: State, changes: nat) {
    function Changed(st': State): Run { Run(st', changes + 1) }
  }

  datatype Out = Omitted | Kept(tree: Json)

  datatype Walked = Walked(out: Out, run: Run)

  function Marker(cfg: Config): Out { Kept(String(cfg.marker)) }

  /** What is left of the depth limit; past it nothing is looked into. */
  function Fuel(cfg: Config, depth: nat): nat {
    if depth <= cfg.maxDepth then cfg.maxDepth - depth + 1 else 0
  }

  function KindOf(n: T.Node): Kind {
    match n
    case Null => NilKind
    case Bool(_) => BoolKind
    case Number(_) => NumberKind
    case String(_) => StringKind
    case Array(_) => ArrayKind
    case Object(_) => ObjectKind
  }

  /** The text a rule is given: nothing for null and for containers. */
  function RuleText(n: T.Node): bytes {
    match n
    case Bool(b) => if b then T.TRUE else T.FALSE
    case Number(t) => t
    case String(token) => T.KeyText(token)
    case _ => []
  }

  /** A path that was not built during the walk. */
  function Located(f: Field, here: bytes): Field { if f.path == [] then f.(path := here) else f }

  /* ---------- one node ---------- */

  datatype Verdict = Final(w: Walked) | Undecided(run: Run)

  /** streamJSONWalker.decide: the policy is asked, and its rule applied to the text of the value. */
  ghost function Decide(cfg: Config, text: bytes, f: Field, here: bytes, run: Run): Verdict {
    var asked := run.(st := run.st.Ask(f));
    match cfg.policy(f)
    case PolicyError => Final(Walked(Marker(cfg), asked.Changed(asked.st.FailUnique(
      FieldError(cfg, PolicyFailure, Located(f, here), 0)))))
    case PolicyPanic => Final(Walked(Marker(cfg), asked.Changed(asked.st.FailUnique(
      FieldError(cfg, Panicked, Located(f, here), 0)))))
    case Decision(omit, rule) =>
      if omit then Final(Walked(Omitted, asked.Changed(asked.st)))
      else if rule.None? then Undecided(asked)
      else match ApplyRule(rule.value, RuleInput(text, f.kind, cfg.marker))
        case Text(t) => Final(Walked(Kept(String(t)), asked.Changed(asked.st)))
        case RuleError => Final(Walked(Marker(cfg), asked.Changed(asked.st.FailUnique(
          RuleFieldError(cfg, RuleFailure, Located(f, here), rule.value)))))
        case RulePanic => Final(Walked(Marker(cfg), asked.Changed(asked.st.FailUnique(
          RuleFieldError(cfg, Panicked, Located(f, here), rule.value)))))
  }

  /** The field as the policy sees it. */
  function Seen(cfg: Config, field: Field, kind: Kind, here: bytes): Field {
    field.(path := if cfg.needPaths then here else field.path, kind := kind)
  }

  ghost function LimitError(cfg: Config, code: Code, field: Field, here: bytes, depth: nat): MaskError {
    FieldError(cfg, code, Located(field, here), depth)
  }

  /** streamJSONWalker.appendValue on the value n at path here. */
  ghost function Walk(cfg: Config, n: T.Node, field: Field, here: bytes, depth: nat, run: Run): Walked
    decreases Fuel(cfg, depth), 10, n
  {
    var st := run.st;
    if st.stop then Walked(Marker(cfg), run)
    else if depth > cfg.maxDepth then
      Walked(Marker(cfg), run.Changed(st.Limit(LimitError(cfg, DepthLimit, field, here, depth))))
    else
      var st1 := st.(nodes := st.nodes + 1);
      if st1.nodes > cfg.maxNodes then
        Walked(Marker(cfg), run.Changed(st1.Limit(LimitError(cfg, NodeLimit, field, here, depth))))
      else
        WalkNode(cfg, n, Seen(cfg, field, KindOf(n), here), here, depth, run.(st := st1))
  }

  /** A value within the limits: decided, or looked into. */
  ghost function WalkNode(cfg: Config, n: T.Node, f: Field, here: bytes, depth: nat, run: Run): Walked
    requires depth <= cfg.maxDepth
    decreases Fuel(cfg, depth), 9, n, 0
  {
    match Decide(cfg, RuleText(n), f, here, run)
    case Final(w) => w
    case Undecided(r) => WalkShape(cfg, n, f, here, depth, r)
  }

  /** A value the policy left alone. */
  ghost function WalkShape(cfg: Config, n: T.Node, f: Field, here: bytes, depth: nat, run: Run): Walked
    requires depth <= cfg.maxDepth
    decreases Fuel(cfg, depth), 8, n
  {
    match n
    case Null => Walked(Kept(Null), run)
    case Bool(b) => Walked(Kept(if cfg.preserveSafe then Bool(b) else String(if b then T.TRUE else T.FALSE)), run)
    case Number(t) => Walked(Kept(Number(t)), run)
    case String(token) => WalkString(cfg, token, f, here, depth, run)
    case Array(items) =>
      var (outs, r) := WalkItems(cfg, items, here, depth, run);
      Walked(Kept(Array(outs)), r)
    case Object(ms) =>
      var (outs, r) := WalkMembers(cfg, ms, here, depth, run);
      Walked(Kept(Object(outs)), r)
  }

  ghost function WalkString(cfg: Config, token: bytes, f: Field, here: bytes, depth: nat, run: Run): Walked
    requires depth <= cfg.maxDepth
    decreases Fuel(cfg, depth), 7
  {
    var text := T.KeyText(token);
    if Inspectable(cfg, text) then
      var i := Inspect(cfg, text, Located(f, here), depth, run.st);
      if i.changed then Walked(Kept(String(i.text)), run.Changed(i.st))
      else Walked(Kept(String(TokenValue(token))), run.(st := i.st))
    else Walked(Kept(String(TokenValue(token))), run)
  }

  function ItemField(): Field { Field([], [], JSONSource, NilKind) }

  function MemberField(key: bytes): Field { Field(key, [], JSONSource, NilKind) }

  /** The elements in order; an omitted one stays as null. */
  ghost function WalkItems(cfg: Config, items: seq<T.Node>, here: bytes, depth: nat, run: Run): (r: (seq<Json>, Run))
    requires depth <= cfg.maxDepth
    ensures |r.0| == |items|
    decreases Fuel(cfg, depth), 6, |items|
  {
    if items == [] then ([], run)
    else
      var k := |items| - 1;
      var (outs, r) := WalkItems(cfg, items[..k], here, depth, run);
      var w := Walk(cfg, items[k], ItemField(), PathForIndex(here, k), depth + 1, r);
      (outs + [if w.out.Omitted? then Null else w.out.tree], w.run)
  }

  /** The members in order: the last one of a key wins, and an omitted one takes its key away. */
  ghost function WalkMembers(cfg: Config, ms: seq<T.Member>, here: bytes, depth: nat, run: Run): (seq<Entry<Json>>, Run)
    requires depth <= cfg.maxDepth
    decreases Fuel(cfg, depth), 6, |ms|
  {
    if ms == [] then ([], run)
    else
      var k := |ms| - 1;
      var (outs, r) := WalkMembers(cfg, ms[..k], here, depth, run);
      var w := Walk(cfg, ms[k].value, MemberField(ms[k].key), PathFor(here, ms[k].key), depth + 1, r);
      (Settle(outs, ms[k].key, w.out), w.run)
  }

  function Settle(outs: seq<Entry<Json>>, key: bytes, out: Out): seq<Entry<Json>> {
    match out
    case Omitted => Drop(outs, key)
    case Kept(tree) => Put(outs, key, tree)
  }

  /* ---------- strings ---------- */

  datatype Inspected = Inspected(text: bytes, changed: bool, st: State)

  /** Whether inspection may change s. */
  predicate Inspectable(cfg: Config, s: bytes) {
    (cfg.embedded && E.IsCandidate(s)) || (cfg.textDetectors && D.Found(s, cfg.detectors).Any())
  }

  /** Masker.inspectString. */
  ghost function Inspect(cfg: Config, s: bytes, field: Field, depth: nat, st: State): Inspected
    requires depth <= cfg.maxDepth
    decreases Fuel(cfg, depth), 5
  {
    if st.stop then Inspected(cfg.marker, true, st)
    else if |s| > cfg.maxInputBytes then
      Inspected(cfg.marker, true, st.Fail(FieldError(cfg, InputLimit, field, depth)))
    else if cfg.embedded then
      match InspectUrl(cfg, s, field, depth, st)
      case Some(r) => r
      case None =>
        match InspectJson(cfg, s, field, depth, st)
        case Some(r) => r
        case None =>
          match InspectForm(cfg, s, field, depth, st)
          case None => InspectPlain(cfg, s, field, depth, st)
          case Some(r) =>
            if r.changed || !cfg.textDetectors then r
            else if r.st.stop then Inspected(cfg.marker, true, r.st)
            else InspectPlain(cfg, s, field, depth, r.st)
    else InspectPlain(cfg, s, field, depth, st)
  }

  ghost function InspectPlain(cfg: Config, s: bytes, field: Field, depth: nat, st: State): Inspected {
    if cfg.textDetectors then InspectText(cfg, s, field, depth, st) else Inspected(s, false, st)
  }

  /** Whether s is read as a URL. */
  predicate IsUrl(cfg: Config, s: bytes) {
    E.HasScheme(s) && E.IsOneWord(s) && cfg.parseUrl(s).Some? &&
    cfg.parseUrl(s).value.opaqueText == [] && cfg.parseUrl(s).value.host != []
  }

  /** Userinfo and fragment are never shown. */
  function Veiled(cfg: Config, url: Url): Url {
    var u := if url.user.Some? then url.(user := Some(cfg.marker)) else url;
    if u.fragment != [] then u.(fragment := cfg.marker, rawFragment := []) else u
  }

  predicate HasVeil(url: Url) { url.user.Some? || url.fragment != [] }

  /** Masker.inspectURL. */
  ghost function InspectUrl(cfg: Config, s: bytes, field: Field, depth: nat, st: State): Option<Inspected>
    requires depth <= cfg.maxDepth
    decreases Fuel(cfg, depth), 4
  {
    if !IsUrl(cfg, s) then None
    else
      var url := cfg.parseUrl(s).value;
      if url.rawQuery == [] then
        Some(InspectUrlPath(cfg, s, url, Veiled(cfg, url), HasVeil(url), field, depth, st))
      else
        var q := MaskQuery(cfg, url.rawQuery, field, depth, st);
        if q.text.None? then Some(Inspected(cfg.marker, true, q.st))
        else Some(InspectUrlPath(cfg, s, url, Veiled(cfg, url).(rawQuery := q.text.value),
                                 HasVeil(url) || q.changed, field, depth, q.st))
  }

  /** The path of a URL is text like any other. */
  ghost function InspectUrlPath(cfg: Config, s: bytes, url: Url, result: Url, changed: bool,
                                field: Field, depth: nat, st: State): Inspected
  {
    var path := cfg.escapedPath(url);
    var t := if cfg.textDetectors && D.Found(path, cfg.detectors).Any()
             then InspectText(cfg, path, field, depth, st) else Inspected([], false, st);
    if t.st.stop && cfg.textDetectors && D.Found(path, cfg.detectors).Any() then Inspected(cfg.marker, true, t.st)
    else Inspected(UrlResult(cfg, s, result, changed, t.text, t.changed), changed || t.changed, t.st)
  }

  function UrlResult(cfg: Config, s: bytes, result: Url, changed: bool, path: bytes, pathChanged: bool): bytes {
    if !changed && !pathChanged then s
    else if !pathChanged then cfg.urlText(result)
    else
      cfg.urlText(Url(result.scheme, [], result.user, result.host, [], [], false, [], [])) + path +
      cfg.urlText(Url([], [], None, [], [], result.rawQuery, result.forceQuery, result.fragment, result.rawFragment))
  }

  /** The root field and path of a document inside a string. */
  function RootField(field: Field): Field { Field(field.key, field.path, JSONSource, NilKind) }

  function RootPath(field: Field): bytes { if field.path == [] then ROOT else field.path }

  /** The errors of an inner walker joined to the outer list; a limit is never lost. */
  function Merge(errs: seq<MaskError>, inner: seq<MaskError>): seq<MaskError>
    decreases |inner|
  {
    if inner == [] then errs
    else
      var k := |inner| - 1;
      var merged := Merge(errs, inner[..k]);
      if inner[k].IsLimit() then RecordPriority(merged, inner[k]) else Record(merged, inner[k])
  }

  function AfterInner(st: State, inner: State): State {
    State(inner.nodes, Merge(st.errs, inner.errs), st.stop || inner.stop, inner.asked)
  }

  /** Masker.inspectJSON: a whole document is masked by a walker of its own, one level deeper. */
  ghost function InspectJson(cfg: Config, s: bytes, field: Field, depth: nat, st: State): Option<Inspected>
    requires depth <= cfg.maxDepth
    decreases Fuel(cfg, depth), 4
  {
    if !E.IsBracketed(s) || T.ParseDocument(s).None? then None
    else
      var inner := Run(State(st.nodes, [], false, st.asked), 0);
      var w := Walk(cfg, T.ParseDocument(s).value, RootField(field), RootPath(field), depth + 1, inner);
      var after := AfterInner(st, w.run.st);
      if w.run.st.errs != [] then Some(Inspected(cfg.marker, true, after))
      else if w.run.changes == 0 then Some(Inspected(s, false, after))
      else Some(Inspected(RootText(w.out), true, after))
  }

  /** The text of a document: an omitted root is null. */
  function RootText(out: Out): bytes {
    match out
    case Omitted => T.NULL
    case Kept(tree) => Encode(tree)
  }

  /** Masker.inspectForm. */
  ghost function InspectForm(cfg: Config, s: bytes, field: Field, depth: nat, st: State): Option<Inspected>
    requires depth <= cfg.maxDepth
    decreases Fuel(cfg, depth), 4
  {
    if Q.EQUALS !in s || !E.IsStrictForm(s) then None
    else
      var q := MaskQuery(cfg, s, field, depth, st);
      if q.text.None? then Some(Inspected(cfg.marker, true, q.st))
      else if !q.changed then Some(Inspected(s, false, q.st))
      else Some(Inspected(q.text.value, true, q.st))
  }

  /** No text: the query is invalid, or the operation stopped in it. */
  datatype Masked = Masked(text: Option<bytes>, changed: bool, st: State)

  /** Masker.maskQueryValues. */
  ghost function MaskQuery(cfg: Config, raw: bytes, field: Field, depth: nat, st: State): Masked
    requires depth <= cfg.maxDepth
    decreases Fuel(cfg, depth), 3
  {
    match Q.Pairs(raw)
    case None => Masked(None, false, st)
    case Some(ps) =>
      var f := QueryFold(cfg, Q.StableSort(ps), field, depth, st);
      Masked(if f.halted then None else Some(Q.Render(f.kept)), f.changed, f.st)
  }

  datatype Fold = Fold(kept: seq<Q.Pair>, changed: bool, halted: bool, st: State)

  /** The pairs of a query decided in turn, until the operation stops. */
  ghost function QueryFold(cfg: Config, ps: seq<Q.Pair>, field: Field, depth: nat, st: State): Fold
    requires depth <= cfg.maxDepth
    decreases Fuel(cfg, depth), 2, |ps|
  {
    if ps == [] then Fold([], false, false, st)
    else
      var k := |ps| - 1;
      var f := QueryFold(cfg, ps[..k], field, depth, st);
      if f.halted then f else QueryStep(cfg, ps[k], field, depth, f)
  }

  ghost function QueryStep(cfg: Config, p: Q.Pair, field: Field, depth: nat, f: Fold): Fold
    requires depth <= cfg.maxDepth
    decreases Fuel(cfg, depth), 1
  {
    var member := Field(p.key, PathFor(field.path, p.key), QuerySource, StringKind);
    var d := DecideMember(cfg, member, p.value, depth, f.st);
    if d.st.stop then Fold(f.kept, f.changed, true, d.st)
    else if d.decided then
      Fold(if d.keep then f.kept + [Q.Pair(p.key, d.masked)] else f.kept,
           f.changed || !d.keep || d.masked != p.value, false, d.st)
    else if depth + 1 > cfg.maxDepth then Fold(f.kept + [p], f.changed, false, d.st)
    else
      var i := Inspect(cfg, p.value, member, depth + 1, d.st);
      Fold(f.kept + [Q.Pair(p.key, if i.changed then i.text else p.value)], f.changed || i.changed, false, i.st)
  }

  datatype Decided = Decided(masked: bytes, decided: bool, keep: bool, st: State)

  /** Masker.decideMember: a member found inside a string, one level deeper. */
  ghost function DecideMember(cfg: Config, member: Field, value: bytes, depth: nat, st: State): Decided {
    if st.stop then Decided(cfg.marker, true, true, st)
    else if !Utf8.Valid(member.key) then
      Decided(cfg.marker, true, true, st.Fail(FieldError(cfg, InvalidUTF8, member, depth + 1)))
    else if depth + 1 > cfg.maxDepth then
      Decided(cfg.marker, true, true, st.Limit(FieldError(cfg, DepthLimit, member, depth + 1)))
    else
      var st1 := st.(nodes := st.nodes + 1);
      if st1.nodes > cfg.maxNodes then
        Decided(cfg.marker, true, true, st1.Limit(FieldError(cfg, NodeLimit, member, depth + 1)))
      else
        var st2 := st1.Ask(member);
        match cfg.policy(member)
        case PolicyError => Decided(cfg.marker, true, true, st2.Fail(FieldError(cfg, PolicyFailure, member, 0)))
        case PolicyPanic => Decided(cfg.marker, true, true, st2.Fail(FieldError(cfg, Panicked, member, 0)))
        case Decision(omit, rule) =>
          if omit then Decided([], true, false, st2)
          else if rule.None? then Decided(value, false, true, st2)
          else match ApplyRule(rule.value, RuleInput(value, StringKind, cfg.marker))
            case Text(t) => Decided(t, true, true, st2)
            case RuleError =>
              Decided(cfg.marker, true, true, st2.Fail(RuleFieldError(cfg, RuleFailure, member, rule.value)))
            case RulePanic =>
              Decided(cfg.marker, true, true, st2.Fail(RuleFieldError(cfg, Panicked, member, rule.value)))
  }

  /* ---------- text ---------- */

  datatype Edits = Edits(edits: seq<S.Edit>, st: State)

  /** The edits the decided pairs make, until the operation stops. */
  ghost function PairEdits(cfg: Config, s: bytes, pairs: seq<DP.Pair>, field: Field, depth: nat, st: State): Edits
    requires forall p :: p in pairs ==> D.WellShaped(p, |s|)
    decreases |pairs|
  {
    if pairs == [] then Edits([], st)
    else
      var k := |pairs| - 1;
      var e := PairEdits(cfg, s, pairs[..k], field, depth, st);
      if e.st.stop then e else PairEdit(cfg, s, pairs[k], field, depth, e)
  }

  ghost function PairEdit(cfg: Config, s: bytes, p: DP.Pair, field: Field, depth: nat, e: Edits): Edits
    requires D.WellShaped(p, |s|)
  {
    var key := s[p.keyStart..p.keyEnd];
    var member := Field(key, PathFor(field.path, key), TextSource, StringKind);
    var d := DecideMember(cfg, member, s[p.valueStart..p.valueEnd], depth, e.st);
    if !d.decided || d.st.stop then Edits(e.edits, d.st)
    else Edits(e.edits + [S.Edit(p.valueStart, p.valueEnd, if d.keep then d.masked else cfg.marker)], d.st)
  }

  /** The edits of the detected spans: the marker, or the last four digits of a card number. */
  function SpanEdits(cfg: Config, s: bytes, spans: seq<DP.Span>): (r: seq<S.Edit>)
    requires forall p :: p in spans ==> p.start < p.end <= |s|
    ensures |r| == |spans|
  {
    seq(|spans|, i requires 0 <= i < |spans| => SpanEdit(cfg, s, spans[i]))
  }

  function SpanEdit(cfg: Config, s: bytes, span: DP.Span): S.Edit
    requires span.start < span.end <= |s|
  {
    S.Edit(span.start, span.end, if span.kind == DP.Card then cfg.maskCard(s[span.start..span.end]) else cfg.marker)
  }

  /** s with the edits that win the overlaps applied. */
  function Spliced(s: bytes, sorted: seq<S.Edit>): bytes
    requires S.InText(sorted, |s|)
  {
    S.KeptAreDisjoint(sorted, 0, |s|);
    S.Replaced(s, S.Kept(sorted, 0), 0)
  }

  /** Masker.inspectText. */
  ghost function InspectText(cfg: Config, s: bytes, field: Field, depth: nat, st: State): Inspected {
    var found := D.Found(s, cfg.detectors);
    D.FoundInOrder(s, cfg.detectors);
    if !found.Any() then Inspected(s, false, st)
    else
      var e := PairEdits(cfg, s, found.pairs, field, depth, st);
      if e.st.stop && found.pairs != [] then Inspected(cfg.marker, true, e.st)
      else
        var edits := e.edits + SpanEdits(cfg, s, found.spans);
        var sorted := cfg.sortEdits(edits);
        EditsInText(cfg, s, found.pairs, found.spans, field, depth, st);
        SortedInText(sorted, edits, |s|);
        if S.ChangesNothing(s, S.Kept(sorted, 0)) then Inspected(s, false, e.st)
        else Inspected(Spliced(s, sorted), true, e.st)
  }

  lemma SortedInText(sorted: seq<S.Edit>, edits: seq<S.Edit>, n: nat)
    requires S.IsSortOf(sorted, edits) && S.InText(edits, n)
    ensures S.InText(sorted, n)
  {
    forall k | 0 <= k < |sorted| ensures sorted[k].start < sorted[k].end <= n {
      assert sorted[k] in multiset(sorted);
      assert sorted[k] in edits;
    }
  }

  lemma {:induction false} PairEditsInText(cfg: Config, s: bytes, pairs: seq<DP.Pair>, field: Field, depth: nat, st: State)
    requires forall p :: p in pairs ==> D.WellShaped(p, |s|)
    ensures S.InText(PairEdits(cfg, s, pairs, field, depth, st).edits, |s|)
    decreases |pairs|
  {
    hide DecideMember;
    if pairs != [] {
      var k := |pairs| - 1;
      PairEditsInText(cfg, s, pairs[..k], field, depth, st);
      assert pairs[k] in pairs;
    }
  }

  lemma EditsInText(cfg: Config, s: bytes, pairs: seq<DP.Pair>, spans: seq<DP.Span>, field: Field, depth: nat, st: State)
    requires forall p :: p in pairs ==> D.WellShaped(p, |s|)
    requires forall p :: p in spans ==> p.start < p.end <= |s|
    ensures S.InText(PairEdits(cfg, s, pairs, field, depth, st).edits + SpanEdits(cfg, s, spans), |s|)
  {
    PairEditsInText(cfg, s, pairs, field, depth, st);
  }
}
