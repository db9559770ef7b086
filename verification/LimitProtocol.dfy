/**
 The limits over whole runs: what every step of a walk, of an inspection, and of the walkers restarted inside
 strings keeps of the state they share.
 */
module LimitProtocol {
  import opened Bytes
  import opened Options
  import opened Settings
  import opened MaskSpec
  import T = JsonTree
  import J = JsonOut
  import D = Detect
  import DP = DetectPatterns
  import E = Embedded
  import Q = UrlQuery
  import S = Splice
  import Utf8

  /** The list an operation collects: capped, and free of limits but perhaps for its last entry. */
  ghost predicate WellKept(cfg: Config, errs: seq<MaskError>) {
    && |errs| <= MAX_ERRORS
    && (forall k :: 0 <= k < |errs| - 1 ==> !errs[k].IsLimit())
    && (forall k :: 0 <= k < |errs| ==> errs[k].depth <= cfg.maxDepth + 1)
  }

  predicate EndsInLimit(errs: seq<MaskError>) { errs != [] && errs[|errs| - 1].IsLimit() }

  /** Stopped exactly when the last error is a limit; every question was paid for with a node. */
  ghost predicate Lawful(cfg: Config, st: State) {
    && WellKept(cfg, st.errs)
    && (st.stop <==> EndsInLimit(st.errs))
    && |st.asked| <= st.nodes && |st.asked| <= cfg.maxNodes
    && st.nodes <= cfg.maxNodes + (if st.stop then 1 else 0)
  }

  /* ---------- what a policy or a rule did wrong ---------- */

  predicate FromCallback(code: Code) { code == PolicyFailure || code == RuleFailure || code == Panicked }

  /** A rule refuses a text with an error, or with an answer that is no valid text. */
  predicate Refuses(rule: Rule, input: RuleInput) {
    match rule.apply(input)
    case RuleError => true
    case Text(t) => !Utf8.Valid(t)
    case RulePanic => false
  }

  predicate Panics(rule: Rule, input: RuleInput) { rule.apply(input).RulePanic? }

  /** What an error says of a callback is what the policy answered for f, or the rule it chose for some text. */
  ghost predicate Explains(cfg: Config, f: Field, e: MaskError) {
    e.field == cfg.diagnostic(f.key) && (f.path != [] ==> e.path == cfg.diagnostic(f.path)) &&
    match cfg.policy(f)
    case PolicyError => e.code == PolicyFailure
    case PolicyPanic => e.code == Panicked
    case Decision(omit, rule) =>
      !omit && rule.Some? && e.rule == cfg.diagnostic(rule.value.name) &&
      ((e.code == RuleFailure && exists text :: Refuses(rule.value, RuleInput(text, f.kind, cfg.marker))) ||
       (e.code == Panicked && exists text :: Panics(rule.value, RuleInput(text, f.kind, cfg.marker))))
  }

  /** A callback's error comes from a question that was asked, and a depth limit from one level past the limit. */
  ghost predicate Explained(cfg: Config, asked: seq<Field>, e: MaskError) {
    && (FromCallback(e.code) ==> exists f :: f in asked && Explains(cfg, f, e))
    && (e.code == DepthLimit ==> e.depth == cfg.maxDepth + 1)
  }

  /** Every new error about a callback is explained by a question that was asked. */
  ghost predicate NewExplained(cfg: Config, errs: seq<MaskError>, b: State) {
    forall e :: e in b.errs ==> e in errs || Explained(cfg, b.asked, e)
  }

  lemma ExplainedStill(cfg: Config, asked: seq<Field>, more: seq<Field>, e: MaskError)
    requires asked <= more && Explained(cfg, asked, e)
    ensures Explained(cfg, more, e)
  {
    hide Explains;
    if FromCallback(e.code) {
      var f :| f in asked && Explains(cfg, f, e);
      assert f in more;
    }
  }

  lemma NewExplainedThen(cfg: Config, errs: seq<MaskError>, b: State, c: State)
    requires NewExplained(cfg, errs, b) && NewExplained(cfg, b.errs, c) && b.asked <= c.asked
    ensures NewExplained(cfg, errs, c)
  {
    hide Explained;
    forall e | e in c.errs && e !in errs ensures Explained(cfg, c.asked, e) {
      if e in b.errs { ExplainedStill(cfg, b.asked, c.asked, e); }
    }
  }

  /** One more error, explained. */
  lemma NewExplainedRecord(cfg: Config, a: State, b: State, e: MaskError)
    requires Explained(cfg, b.asked, e)
    requires b.errs == a.errs || b.errs == Record(a.errs, e) || (|a.errs| <= MAX_ERRORS && b.errs == RecordPriority(a.errs, e))
    ensures NewExplained(cfg, a.errs, b)
  {
    hide Explained;
  }

  lemma NoCallback(cfg: Config, asked: seq<Field>, e: MaskError)
    requires !FromCallback(e.code) && e.code != DepthLimit
    ensures Explained(cfg, asked, e)
  {
  }

  /** The question just put explains whatever comes of it. */
  lemma AnswerExplains(cfg: Config, asked: seq<Field>, f: Field, g: Field, text: bytes, depth: nat)
    requires f in asked && g.key == f.key && (f.path != [] ==> g.path == f.path)
    ensures cfg.policy(f).PolicyError? ==> Explained(cfg, asked, FieldError(cfg, PolicyFailure, g, depth))
    ensures cfg.policy(f).PolicyPanic? ==> Explained(cfg, asked, FieldError(cfg, Panicked, g, depth))
    ensures cfg.policy(f).Decision? && !cfg.policy(f).omit && cfg.policy(f).rule.Some? ==>
      var rule := cfg.policy(f).rule.value;
      var answer := ApplyRule(rule, RuleInput(text, f.kind, cfg.marker));
      && (answer.RuleError? ==> Explained(cfg, asked, RuleFieldError(cfg, RuleFailure, g, rule)))
      && (answer.RulePanic? ==> Explained(cfg, asked, RuleFieldError(cfg, Panicked, g, rule)))
  {
    hide Utf8.Valid;
    match cfg.policy(f) {
      case PolicyError => assert Explains(cfg, f, FieldError(cfg, PolicyFailure, g, depth));
      case PolicyPanic => assert Explains(cfg, f, FieldError(cfg, Panicked, g, depth));
      case Decision(omit, rule) =>
        if !omit && rule.Some? {
          var input := RuleInput(text, f.kind, cfg.marker);
          if ApplyRule(rule.value, input).RuleError? {
            assert Refuses(rule.value, input);
            assert Explains(cfg, f, RuleFieldError(cfg, RuleFailure, g, rule.value));
          }
          if ApplyRule(rule.value, input).RulePanic? {
            assert Panics(rule.value, input);
            assert Explains(cfg, f, RuleFieldError(cfg, Panicked, g, rule.value));
          }
        }
    }
  }

  /** From a to b: nothing at all once stopped; before, errors and questions only join those there were. */
  ghost predicate Advance(cfg: Config, a: State, b: State) {
    && Lawful(cfg, b) && NewExplained(cfg, a.errs, b)
    && (a.stop ==> b == a)
    && (!b.stop ==> a.errs <= b.errs)
    && a.nodes <= b.nodes && |a.errs| <= |b.errs|
    && a.asked <= b.asked && |b.asked| - |a.asked| <= b.nodes - a.nodes
  }

  predicate HasCycle(errs: seq<MaskError>) { exists e :: e in errs && e.code == Cycle }

  /** What a policy, a rule, an inspection or a JSON walk does: it reports no cycle. */
  ghost predicate Step(cfg: Config, a: State, b: State) {
    Advance(cfg, a, b) && (HasCycle(b.errs) ==> HasCycle(a.errs))
  }

  lemma Stays(cfg: Config, a: State)
    requires Lawful(cfg, a)
    ensures Step(cfg, a, a) && Advance(cfg, a, a)
  {
  }

  lemma AdvanceLawful(cfg: Config, a: State, b: State)
    requires Advance(cfg, a, b)
    ensures Lawful(cfg, b)
  {
  }

  lemma AdvanceThen(cfg: Config, a: State, b: State, c: State)
    requires Advance(cfg, a, b) && Advance(cfg, b, c)
    ensures Advance(cfg, a, c)
  {
    NewExplainedThen(cfg, a.errs, b, c);
    hide NewExplained;
    assert a.asked <= c.asked;
  }

  lemma Then(cfg: Config, a: State, b: State, c: State)
    requires Step(cfg, a, b) && Step(cfg, b, c)
    ensures Step(cfg, a, c)
  {
    hide HasCycle;
    AdvanceThen(cfg, a, b, c);
  }

  /** One more error that is no cycle. */
  lemma NoCycleAdded(errs: seq<MaskError>, e: MaskError)
    requires e.code != Cycle
    ensures HasCycle(Record(errs, e)) <==> HasCycle(errs)
    ensures HasCycle(RecordPriority(errs, e)) ==> HasCycle(errs)
  {
    var more := errs + [e];
    if HasCycle(errs) {
      var c :| c in errs && c.code == Cycle;
      assert c in more;
    }
  }

  /** A node counted within the limit, and the question it pays for. */
  lemma Asks(cfg: Config, a: State, f: Field)
    requires Lawful(cfg, a) && !a.stop && a.nodes + 1 <= cfg.maxNodes
    ensures Step(cfg, a, a.(nodes := a.nodes + 1).Ask(f))
  {
  }

  lemma Recorded(cfg: Config, a: State, e: MaskError)
    requires Lawful(cfg, a) && !a.stop && !e.IsLimit() && e.code != Cycle && e.depth <= cfg.maxDepth + 1
    requires Explained(cfg, a.asked, e)
    ensures Step(cfg, a, a.Fail(e)) && Step(cfg, a, a.FailUnique(e))
  {
    NoCycleAdded(a.errs, e);
    NewExplainedRecord(cfg, a, a.Fail(e), e);
    NewExplainedRecord(cfg, a, a.FailUnique(e), e);
    hide HasCycle, NewExplained;
  }

  lemma Limits(cfg: Config, a: State, e: MaskError)
    requires Lawful(cfg, a) && !a.stop && e.depth <= cfg.maxDepth + 1 && e.IsLimit()
    requires e.code == DepthLimit ==> e.depth > cfg.maxDepth
    ensures Step(cfg, a, a.Limit(e))
    ensures a.nodes == cfg.maxNodes ==> Step(cfg, a, a.(nodes := a.nodes + 1).Limit(e))
  {
    NoCycleAdded(a.errs, e);
    NewExplainedRecord(cfg, a, a.Limit(e), e);
    NewExplainedRecord(cfg, a, a.(nodes := a.nodes + 1).Limit(e), e);
    hide HasCycle, NewExplained;
  }

  /* ---------- documents ---------- */

  lemma DecideSteps(cfg: Config, text: bytes, f: Field, here: bytes, run: Run, a: State)
    requires Lawful(cfg, a) && !a.stop && a.nodes + 1 <= cfg.maxNodes && run.st == a.(nodes := a.nodes + 1)
    ensures var v := Decide(cfg, text, f, here, run);
      (v.Final? ==> Step(cfg, a, v.w.run.st)) && (v.Undecided? ==> Step(cfg, a, v.run.st) && !v.run.st.stop)
  {
    hide Step, Lawful, ApplyRule, Record, Explained;
    Asks(cfg, a, f);
    var b := run.st.Ask(f);
    assert Lawful(cfg, b) by { StepLawful(cfg, a, b); }
    AnswerExplains(cfg, b.asked, f, Located(f, here), text, 0);
    forall e: MaskError | !e.IsLimit() && e.code != Cycle && e.depth == 0 && Explained(cfg, b.asked, e)
      ensures Step(cfg, a, b.FailUnique(e))
    {
      Recorded(cfg, b, e);
      Then(cfg, a, b, b.FailUnique(e));
    }
  }

  lemma StepLawful(cfg: Config, a: State, b: State)
    requires Step(cfg, a, b)
    ensures Lawful(cfg, b)
  {
  }

  lemma {:induction false} WalkSteps(cfg: Config, n: T.Node, field: Field, here: bytes, depth: nat, run: Run)
    requires Lawful(cfg, run.st) && depth <= cfg.maxDepth + 1
    ensures Step(cfg, run.st, Walk(cfg, n, field, here, depth, run).run.st)
    decreases Fuel(cfg, depth), 10, n
  {
    hide Step, WalkNode, Located;
    var st := run.st;
    if st.stop {
      Stays(cfg, st);
    } else if depth > cfg.maxDepth {
      Limits(cfg, st, LimitError(cfg, DepthLimit, field, here, depth));
    } else if st.nodes + 1 > cfg.maxNodes {
      Limits(cfg, st, LimitError(cfg, NodeLimit, field, here, depth));
    } else {
      WalkNodeSteps(cfg, n, Seen(cfg, field, KindOf(n), here), here, depth, run.(st := st.(nodes := st.nodes + 1)), st);
    }
  }

  lemma {:induction false} WalkNodeSteps(cfg: Config, n: T.Node, f: Field, here: bytes, depth: nat, run: Run, a: State)
    requires depth <= cfg.maxDepth
    requires Lawful(cfg, a) && !a.stop && a.nodes + 1 <= cfg.maxNodes && run.st == a.(nodes := a.nodes + 1)
    ensures Step(cfg, a, WalkNode(cfg, n, f, here, depth, run).run.st)
    decreases Fuel(cfg, depth), 9, n, 0
  {
    hide Step, Lawful, WalkShape, Decide;
    DecideSteps(cfg, RuleText(n), f, here, run, a);
    match Decide(cfg, RuleText(n), f, here, run)
    case Final(_) =>
    case Undecided(r) =>
      StepLawful(cfg, a, r.st);
      WalkShapeSteps(cfg, n, f, here, depth, r);
      Then(cfg, a, r.st, WalkShape(cfg, n, f, here, depth, r).run.st);
  }

  lemma {:induction false} WalkShapeSteps(cfg: Config, n: T.Node, f: Field, here: bytes, depth: nat, run: Run)
    requires depth <= cfg.maxDepth && Lawful(cfg, run.st) && !run.st.stop
    ensures Step(cfg, run.st, WalkShape(cfg, n, f, here, depth, run).run.st)
    decreases Fuel(cfg, depth), 8, n
  {
    hide Step, Lawful, WalkString, WalkItems, WalkMembers;
    match n
    case String(token) => WalkStringSteps(cfg, token, f, here, depth, run);
    case Array(items) => WalkItemsSteps(cfg, items, here, depth, run);
    case Object(ms) => WalkMembersSteps(cfg, ms, here, depth, run);
    case _ => Stays(cfg, run.st);
  }

  lemma {:induction false} WalkStringSteps(cfg: Config, token: bytes, f: Field, here: bytes, depth: nat, run: Run)
    requires depth <= cfg.maxDepth && Lawful(cfg, run.st)
    ensures Step(cfg, run.st, WalkString(cfg, token, f, here, depth, run).run.st)
    decreases Fuel(cfg, depth), 7
  {
    hide Step, Lawful, Inspect, Inspectable, T.KeyText, J.TokenValue, Located;
    Stays(cfg, run.st);
    InspectSteps(cfg, T.KeyText(token), Located(f, here), depth, run.st);
  }

  lemma {:induction false} WalkItemsSteps(cfg: Config, items: seq<T.Node>, here: bytes, depth: nat, run: Run)
    requires depth <= cfg.maxDepth && Lawful(cfg, run.st)
    ensures Step(cfg, run.st, WalkItems(cfg, items, here, depth, run).1.st)
    decreases Fuel(cfg, depth), 6, |items|
  {
    hide Step, Lawful, Walk;
    if items == [] {
      Stays(cfg, run.st);
    } else {
      var k := |items| - 1;
      WalkItemsSteps(cfg, items[..k], here, depth, run);
      var r := WalkItems(cfg, items[..k], here, depth, run).1;
      StepLawful(cfg, run.st, r.st);
      WalkSteps(cfg, items[k], ItemField(), PathForIndex(here, k), depth + 1, r);
      Then(cfg, run.st, r.st, Walk(cfg, items[k], ItemField(), PathForIndex(here, k), depth + 1, r).run.st);
    }
  }

  lemma {:induction false} WalkMembersSteps(cfg: Config, ms: seq<T.Member>, here: bytes, depth: nat, run: Run)
    requires depth <= cfg.maxDepth && Lawful(cfg, run.st)
    ensures Step(cfg, run.st, WalkMembers(cfg, ms, here, depth, run).1.st)
    decreases Fuel(cfg, depth), 6, |ms|
  {
    hide Step, Lawful, Walk, Settle;
    if ms == [] {
      Stays(cfg, run.st);
    } else {
      var k := |ms| - 1;
      WalkMembersSteps(cfg, ms[..k], here, depth, run);
      var r := WalkMembers(cfg, ms[..k], here, depth, run).1;
      StepLawful(cfg, run.st, r.st);
      WalkSteps(cfg, ms[k].value, MemberField(ms[k].key), PathFor(here, ms[k].key), depth + 1, r);
      Then(cfg, run.st, r.st, Walk(cfg, ms[k].value, MemberField(ms[k].key), PathFor(here, ms[k].key), depth + 1, r).run.st);
    }
  }

  /* ---------- strings ---------- */

  lemma {:induction false} InspectSteps(cfg: Config, s: bytes, field: Field, depth: nat, st: State)
    requires depth <= cfg.maxDepth && Lawful(cfg, st)
    ensures Step(cfg, st, Inspect(cfg, s, field, depth, st).st)
    decreases Fuel(cfg, depth), 5
  {
    hide Step, Lawful, InspectUrl, InspectJson, InspectForm, InspectPlain;
    Stays(cfg, st);
    InspectPlainSteps(cfg, s, field, depth, st);
    if !st.stop {
      Recorded(cfg, st, FieldError(cfg, InputLimit, field, depth));
      InspectUrlSteps(cfg, s, field, depth, st);
      InspectJsonSteps(cfg, s, field, depth, st);
      InspectFormSteps(cfg, s, field, depth, st);
      var form := InspectForm(cfg, s, field, depth, st);
      if form.Some? {
        StepLawful(cfg, st, form.value.st);
        InspectPlainSteps(cfg, s, field, depth, form.value.st);
        Then(cfg, st, form.value.st, InspectPlain(cfg, s, field, depth, form.value.st).st);
      }
    }
  }

  lemma InspectPlainSteps(cfg: Config, s: bytes, field: Field, depth: nat, st: State)
    requires depth <= cfg.maxDepth && Lawful(cfg, st)
    ensures Step(cfg, st, InspectPlain(cfg, s, field, depth, st).st)
  {
    hide Step, Lawful, InspectText;
    Stays(cfg, st);
    InspectTextSteps(cfg, s, field, depth, st);
  }

  lemma {:induction false} InspectUrlSteps(cfg: Config, s: bytes, field: Field, depth: nat, st: State)
    requires depth <= cfg.maxDepth && Lawful(cfg, st)
    ensures var r := InspectUrl(cfg, s, field, depth, st); r.Some? ==> Step(cfg, st, r.value.st)
    decreases Fuel(cfg, depth), 4
  {
    hide Step, Lawful, MaskQuery, InspectUrlPath, IsUrl, Veiled, HasVeil;
    if IsUrl(cfg, s) && InspectUrl(cfg, s, field, depth, st).Some? {
      UrlParses(cfg, s);
      var url := cfg.parseUrl(s).value;
      if url.rawQuery == [] {
        InspectUrlPathSteps(cfg, s, url, Veiled(cfg, url), HasVeil(url), field, depth, st);
      } else {
        MaskQuerySteps(cfg, url.rawQuery, field, depth, st);
        var q := MaskQuery(cfg, url.rawQuery, field, depth, st);
        if q.text.Some? {
          StepLawful(cfg, st, q.st);
          var result, changed := Veiled(cfg, url).(rawQuery := q.text.value), HasVeil(url) || q.changed;
          InspectUrlPathSteps(cfg, s, url, result, changed, field, depth, q.st);
          Then(cfg, st, q.st, InspectUrlPath(cfg, s, url, result, changed, field, depth, q.st).st);
        }
      }
    }
  }

  lemma UrlParses(cfg: Config, s: bytes)
    requires IsUrl(cfg, s)
    ensures cfg.parseUrl(s).Some?
  {
  }

  lemma InspectUrlPathSteps(cfg: Config, s: bytes, url: Url, result: Url, changed: bool, field: Field, depth: nat, st: State)
    requires depth <= cfg.maxDepth && Lawful(cfg, st)
    ensures Step(cfg, st, InspectUrlPath(cfg, s, url, result, changed, field, depth, st).st)
  {
    hide Step, Lawful, InspectText, D.Found, UrlResult;
    Stays(cfg, st);
    InspectTextSteps(cfg, cfg.escapedPath(url), field, depth, st);
  }

  /** A walker restarted inside a string starts from the nodes and questions of the outer one. */
  lemma {:induction false} InspectJsonSteps(cfg: Config, s: bytes, field: Field, depth: nat, st: State)
    requires depth <= cfg.maxDepth && Lawful(cfg, st) && !st.stop
    ensures var r := InspectJson(cfg, s, field, depth, st); r.Some? ==> Step(cfg, st, r.value.st)
    decreases Fuel(cfg, depth), 4
  {
    hide Walk, E.IsBracketed, T.ParseDocument, AfterInner, RootText, Step, Lawful;
    if T.ParseDocument(s).Some? {
      var inner := Run(State(st.nodes, [], false, st.asked), 0);
      InnerStarts(cfg, st);
      WalkSteps(cfg, T.ParseDocument(s).value, RootField(field), RootPath(field), depth + 1, inner);
      Joins(cfg, st, Walk(cfg, T.ParseDocument(s).value, RootField(field), RootPath(field), depth + 1, inner).run.st);
    }
  }

  lemma InnerStarts(cfg: Config, st: State)
    requires Lawful(cfg, st) && !st.stop
    ensures Lawful(cfg, State(st.nodes, [], false, st.asked))
  {
  }

  /** The inner list joined to the outer one: a limit among them stays the only one, and last. */
  lemma {:induction false} MergeKeeps(cfg: Config, errs: seq<MaskError>, inner: seq<MaskError>)
    requires WellKept(cfg, errs) && !EndsInLimit(errs) && WellKept(cfg, inner)
    ensures WellKept(cfg, Merge(errs, inner)) && |errs| <= |Merge(errs, inner)|
    ensures EndsInLimit(Merge(errs, inner)) <==> EndsInLimit(inner)
    ensures !EndsInLimit(inner) ==> errs <= Merge(errs, inner)
    decreases |inner|
  {
    if inner != [] {
      var k := |inner| - 1;
      assert !EndsInLimit(inner[..k]);
      MergeKeeps(cfg, errs, inner[..k]);
    }
  }

  /** Inner errors without a cycle bring none. */
  lemma {:induction false} MergeBringsNoCycle(errs: seq<MaskError>, inner: seq<MaskError>)
    requires |errs| <= MAX_ERRORS && !HasCycle(inner)
    ensures |Merge(errs, inner)| <= MAX_ERRORS && (HasCycle(Merge(errs, inner)) ==> HasCycle(errs))
    decreases |inner|
  {
    if inner != [] {
      var k := |inner| - 1;
      assert inner[k] in inner && inner[k].code != Cycle;
      assert !HasCycle(inner[..k]) by {
        forall e | e in inner[..k] ensures e.code != Cycle { assert e in inner; }
      }
      MergeBringsNoCycle(errs, inner[..k]);
      NoCycleAdded(Merge(errs, inner[..k]), inner[k]);
      hide HasCycle;
    }
  }

  /** Joined lists hold nothing but their errors. */
  lemma {:induction false} MergeHolds(errs: seq<MaskError>, inner: seq<MaskError>)
    requires |errs| <= MAX_ERRORS
    ensures |Merge(errs, inner)| <= MAX_ERRORS && forall e :: e in Merge(errs, inner) ==> e in errs || e in inner
    decreases |inner|
  {
    if inner != [] {
      var k := |inner| - 1;
      MergeHolds(errs, inner[..k]);
      assert inner[k] in inner;
    }
  }

  lemma Joins(cfg: Config, st: State, inner: State)
    requires Lawful(cfg, st) && !st.stop && Step(cfg, State(st.nodes, [], false, st.asked), inner)
    ensures Step(cfg, st, AfterInner(st, inner))
  {
    assert !HasCycle(inner.errs);
    MergeHolds(st.errs, inner.errs);
    assert NewExplained(cfg, st.errs, AfterInner(st, inner)) by { hide Explained, Merge; }
    hide Merge, HasCycle, NewExplained;
    MergeKeeps(cfg, st.errs, inner.errs);
    MergeBringsNoCycle(st.errs, inner.errs);
  }

  lemma {:induction false} InspectFormSteps(cfg: Config, s: bytes, field: Field, depth: nat, st: State)
    requires depth <= cfg.maxDepth && Lawful(cfg, st)
    ensures var r := InspectForm(cfg, s, field, depth, st); r.Some? ==> Step(cfg, st, r.value.st)
    decreases Fuel(cfg, depth), 4
  {
    hide Step, Lawful, MaskQuery, E.IsStrictForm;
    MaskQuerySteps(cfg, s, field, depth, st);
  }

  lemma {:induction false} MaskQuerySteps(cfg: Config, raw: bytes, field: Field, depth: nat, st: State)
    requires depth <= cfg.maxDepth && Lawful(cfg, st)
    ensures Step(cfg, st, MaskQuery(cfg, raw, field, depth, st).st)
    decreases Fuel(cfg, depth), 3
  {
    hide Step, Lawful, QueryFold, Q.Pairs, Q.StableSort, Q.Render;
    Stays(cfg, st);
    if Q.Pairs(raw).Some? {
      QueryFoldSteps(cfg, Q.StableSort(Q.Pairs(raw).value), field, depth, st);
    }
  }

  lemma {:induction false} QueryFoldSteps(cfg: Config, ps: seq<Q.Pair>, field: Field, depth: nat, st: State)
    requires depth <= cfg.maxDepth && Lawful(cfg, st)
    ensures Step(cfg, st, QueryFold(cfg, ps, field, depth, st).st)
    decreases Fuel(cfg, depth), 2, |ps|
  {
    hide Step, Lawful, QueryStep;
    if ps == [] {
      Stays(cfg, st);
    } else {
      var k := |ps| - 1;
      QueryFoldSteps(cfg, ps[..k], field, depth, st);
      var f := QueryFold(cfg, ps[..k], field, depth, st);
      if !f.halted {
        StepLawful(cfg, st, f.st);
        QueryStepSteps(cfg, ps[k], field, depth, f);
        Then(cfg, st, f.st, QueryStep(cfg, ps[k], field, depth, f).st);
      }
    }
  }

  lemma {:induction false} QueryStepSteps(cfg: Config, p: Q.Pair, field: Field, depth: nat, f: Fold)
    requires depth <= cfg.maxDepth && Lawful(cfg, f.st)
    ensures Step(cfg, f.st, QueryStep(cfg, p, field, depth, f).st)
    decreases Fuel(cfg, depth), 1
  {
    hide Step, Lawful, Inspect, DecideMember;
    var member := Field(p.key, PathFor(field.path, p.key), QuerySource, StringKind);
    DecideMemberSteps(cfg, member, p.value, depth, f.st);
    var d := DecideMember(cfg, member, p.value, depth, f.st);
    if depth + 1 <= cfg.maxDepth {
      StepLawful(cfg, f.st, d.st);
      InspectSteps(cfg, p.value, member, depth + 1, d.st);
      Then(cfg, f.st, d.st, Inspect(cfg, p.value, member, depth + 1, d.st).st);
    }
  }

  lemma DecideMemberSteps(cfg: Config, member: Field, value: bytes, depth: nat, st: State)
    requires depth <= cfg.maxDepth && Lawful(cfg, st) && member.kind == StringKind
    ensures Step(cfg, st, DecideMember(cfg, member, value, depth, st).st)
  {
    hide Step, Lawful, ApplyRule, Utf8.Valid, Record, RecordPriority, Explains;
    Stays(cfg, st);
    if !st.stop {
      Recorded(cfg, st, FieldError(cfg, InvalidUTF8, member, depth + 1));
      if depth + 1 > cfg.maxDepth { Limits(cfg, st, FieldError(cfg, DepthLimit, member, depth + 1)); }
      if st.nodes + 1 > cfg.maxNodes {
        NodesFull(cfg, st);
        Limits(cfg, st, FieldError(cfg, NodeLimit, member, depth + 1));
      } else {
        Asks(cfg, st, member);
        var b := st.(nodes := st.nodes + 1).Ask(member);
        StepLawful(cfg, st, b);
        AnswerExplains(cfg, b.asked, member, member, value, 0);
        forall e: MaskError | !e.IsLimit() && e.code != Cycle && e.depth == 0 && Explained(cfg, b.asked, e)
          ensures Step(cfg, st, b.Fail(e))
        {
          Recorded(cfg, b, e);
          Then(cfg, st, b, b.Fail(e));
        }
      }
    }
  }

  lemma NodesFull(cfg: Config, st: State)
    requires Lawful(cfg, st) && !st.stop && st.nodes + 1 > cfg.maxNodes
    ensures st.nodes == cfg.maxNodes
  {
  }

  /* ---------- text ---------- */

  lemma InspectTextSteps(cfg: Config, s: bytes, field: Field, depth: nat, st: State)
    requires depth <= cfg.maxDepth && Lawful(cfg, st)
    ensures Step(cfg, st, InspectText(cfg, s, field, depth, st).st)
  {
    hide Step, Lawful, PairEdits, D.Found, SpanEdits, S.Kept, Spliced;
    Stays(cfg, st);
    D.FoundInOrder(s, cfg.detectors);
    PairEditsSteps(cfg, s, D.Found(s, cfg.detectors).pairs, field, depth, st);
  }

  lemma {:induction false} PairEditsSteps(cfg: Config, s: bytes, pairs: seq<DP.Pair>, field: Field, depth: nat, st: State)
    requires forall p :: p in pairs ==> D.WellShaped(p, |s|)
    requires depth <= cfg.maxDepth && Lawful(cfg, st)
    ensures Step(cfg, st, PairEdits(cfg, s, pairs, field, depth, st).st)
    decreases |pairs|
  {
    hide Step, Lawful, PairEdit;
    if pairs == [] {
      Stays(cfg, st);
    } else {
      var k := |pairs| - 1;
      PairEditsSteps(cfg, s, pairs[..k], field, depth, st);
      var e := PairEdits(cfg, s, pairs[..k], field, depth, st);
      assert pairs[k] in pairs;
      if !e.st.stop {
        StepLawful(cfg, st, e.st);
        PairEditSteps(cfg, s, pairs[k], field, depth, e);
        Then(cfg, st, e.st, PairEdit(cfg, s, pairs[k], field, depth, e).st);
      }
    }
  }

  lemma PairEditSteps(cfg: Config, s: bytes, p: DP.Pair, field: Field, depth: nat, e: Edits)
    requires D.WellShaped(p, |s|) && depth <= cfg.maxDepth && Lawful(cfg, e.st)
    ensures Step(cfg, e.st, PairEdit(cfg, s, p, field, depth, e).st)
  {
    hide Step, Lawful, DecideMember;
    var key := s[p.keyStart..p.keyEnd];
    var member := Field(key, PathFor(field.path, key), TextSource, StringKind);
    DecideMemberSteps(cfg, member, s[p.valueStart..p.valueEnd], depth, e.st);
  }

  /* ---------- whole operations ---------- */

  /**
   Every run from a fresh state: at most 64 errors, none deeper than one level past the limit; the operation has
   stopped exactly when a limit error is recorded, and then it is the last and the only one, though the list
   may have been full; the policy was asked at most once for every node, and never past the node limit; and every
   failure or panic reported of a policy or rule is what it answered for a field that was asked.
   */
  lemma OperationLimits(cfg: Config, n: T.Node, field: Field, here: bytes)
    ensures var st := Walk(cfg, n, field, here, 0, Run(State(0, [], false, []), 0)).run.st;
      && |st.errs| <= 64
      && (forall k :: 0 <= k < |st.errs| ==> st.errs[k].depth <= cfg.maxDepth + 1)
      && (st.stop <==> exists k :: 0 <= k < |st.errs| && st.errs[k].IsLimit())
      && (forall k :: 0 <= k < |st.errs| && st.errs[k].IsLimit() ==> k == |st.errs| - 1)
      && |st.asked| <= st.nodes <= cfg.maxNodes + 1 && |st.asked| <= cfg.maxNodes
      && (forall e :: e in st.errs ==> Explained(cfg, st.asked, e))
  {
    hide Walk, Explained;
    WalkSteps(cfg, n, field, here, 0, Run(State(0, [], false, []), 0));
  }

  /** Once stopped, an inspection asks nothing, counts nothing and records nothing: what is left is the marker. */
  lemma StoppedIsMarker(cfg: Config, s: bytes, field: Field, depth: nat, st: State)
    requires depth <= cfg.maxDepth && Lawful(cfg, st) && st.stop
    ensures Inspect(cfg, s, field, depth, st) == Inspected(cfg.marker, true, st)
    ensures MaskQuery(cfg, s, field, depth, st).st == st
    ensures InspectText(cfg, s, field, depth, st).st == st
  {
    hide MaskQuery, InspectText;
    MaskQuerySteps(cfg, s, field, depth, st);
    InspectTextSteps(cfg, s, field, depth, st);
  }
}
