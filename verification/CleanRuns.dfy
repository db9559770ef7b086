/**
 Runs without errors, with and without state: a walk or an inspection ends without an error exactly when it
 has a meaning and the meaning's cost is within the node limit, and then it gives that meaning.
 */
module CleanRuns {
  import opened Bytes
  import opened Options
  import opened Settings
  import opened SortedMap
  import opened MaskSpec
  import opened Meaning
  import opened LimitProtocol
  import J = JsonOut
  import T = JsonTree
  import D = Detect
  import DP = DetectPatterns
  import E = Embedded
  import Q = UrlQuery
  import S = Splice
  import Utf8

  predicate Clean(st: State) { st.errs == [] && !st.stop }

  /** From the clean state a, the step to b is clean exactly when it means something that a can pay for. */
  predicate Ends<X>(cfg: Config, a: State, b: State, m: Sense<X>) {
    (Clean(b) <==> m.Means? && a.nodes + m.cost <= cfg.maxNodes) && (Clean(b) ==> b.nodes == a.nodes + m.cost)
  }

  lemma CleanBefore(cfg: Config, a: State, b: State)
    requires Step(cfg, a, b) && Clean(b)
    ensures Clean(a)
  {
  }

  lemma WithinNodes(cfg: Config, a: State)
    requires Lawful(cfg, a) && Clean(a)
    ensures a.nodes <= cfg.maxNodes
  {
  }

  /* ---------- documents ---------- */

  lemma DecideMeans(cfg: Config, text: bytes, f: Field, here: bytes, run: Run)
    requires Clean(run.st)
    ensures var v := Decide(cfg, text, f, here, run);
      match Chosen(cfg, text, f)
      case Refused => v.Final? && !Clean(v.w.run.st)
      case Chose(out) => v == Final(Walked(out, Run(run.st.Ask(f), run.changes + 1)))
      case Open => v == Undecided(Run(run.st.Ask(f), run.changes))
  {
    hide ApplyRule, Located;
  }

  predicate SameOut(w: Walked, run: Run, m: Sense<Out>) {
    m.Means? && w.out == m.value && run.changes <= w.run.changes && (m.changed <==> run.changes < w.run.changes)
  }

  lemma {:induction false} WalkMeans(cfg: Config, n: T.Node, field: Field, here: bytes, depth: nat, run: Run)
    requires Lawful(cfg, run.st) && Clean(run.st) && depth <= cfg.maxDepth + 1
    ensures var w, m := Walk(cfg, n, field, here, depth, run), Mean(cfg, n, field, here, depth);
      Ends(cfg, run.st, w.run.st, m) && (Clean(w.run.st) ==> SameOut(w, run, m))
    decreases Fuel(cfg, depth), 10, n
  {
    hide Step, Lawful, WalkNode, MeanShape, Chosen, Located;
    var st := run.st;
    if depth <= cfg.maxDepth && st.nodes + 1 <= cfg.maxNodes {
      var r := run.(st := st.(nodes := st.nodes + 1));
      WalkNodeMeans(cfg, n, Seen(cfg, field, KindOf(n), here), here, depth, r, st);
    }
  }

  lemma {:induction false} WalkNodeMeans(cfg: Config, n: T.Node, f: Field, here: bytes, depth: nat, run: Run, a: State)
    requires depth <= cfg.maxDepth && Clean(a)
    requires Lawful(cfg, a) && a.nodes + 1 <= cfg.maxNodes && run.st == a.(nodes := a.nodes + 1)
    ensures var w := WalkNode(cfg, n, f, here, depth, run);
      match Chosen(cfg, RuleText(n), f)
      case Refused => !Clean(w.run.st)
      case Chose(out) => Clean(w.run.st) && w.run.st.nodes == a.nodes + 1 && SameOut(w, run, Means(out, true, 1))
      case Open =>
        var m := MeanShape(cfg, n, f, here, depth).Costing(1);
        Ends(cfg, a, w.run.st, m) && (Clean(w.run.st) ==> SameOut(w, run, m))
    decreases Fuel(cfg, depth), 9, n, 0
  {
    hide Step, Lawful, WalkShape, MeanShape, Decide, Chosen;
    DecideMeans(cfg, RuleText(n), f, here, run);
    DecideSteps(cfg, RuleText(n), f, here, run, a);
    match Chosen(cfg, RuleText(n), f)
    case Refused =>
    case Chose(_) =>
    case Open =>
      var r := Run(run.st.Ask(f), run.changes);
      StepLawful(cfg, a, r.st);
      WalkShapeMeans(cfg, n, f, here, depth, r);
  }

  lemma {:induction false} WalkShapeMeans(cfg: Config, n: T.Node, f: Field, here: bytes, depth: nat, run: Run)
    requires depth <= cfg.maxDepth && Lawful(cfg, run.st) && Clean(run.st)
    ensures var w, m := WalkShape(cfg, n, f, here, depth, run), MeanShape(cfg, n, f, here, depth);
      Ends(cfg, run.st, w.run.st, m) && (Clean(w.run.st) ==> SameOut(w, run, m))
    decreases Fuel(cfg, depth), 8, n
  {
    hide Step, Lawful, WalkString, MeanString, WalkItems, MeanItems, WalkMembers, MeanMembers, Listed, Gathered, T.KeyText,
      J.TokenValue, Located;
    WithinNodes(cfg, run.st);
    match n
    case String(token) => WalkStringMeans(cfg, token, f, here, depth, run);
    case Array(items) => WalkItemsMeans(cfg, items, here, depth, run);
    case Object(ms) => WalkMembersMeans(cfg, ms, here, depth, run);
    case _ =>
  }

  lemma {:induction false} WalkStringMeans(cfg: Config, token: bytes, f: Field, here: bytes, depth: nat, run: Run)
    requires depth <= cfg.maxDepth && Lawful(cfg, run.st) && Clean(run.st)
    ensures var w := WalkString(cfg, token, f, here, depth, run);
      var m := MeanString(cfg, T.KeyText(token), J.TokenValue(token), Located(f, here), depth);
      Ends(cfg, run.st, w.run.st, m) && (Clean(w.run.st) ==> SameOut(w, run, m))
    decreases Fuel(cfg, depth), 7
  {
    hide Step, Lawful, Inspect, MeanInspect, Inspectable, T.KeyText, J.TokenValue, Located;
    WithinNodes(cfg, run.st);
    InspectMeans(cfg, T.KeyText(token), Located(f, here), depth, run.st);
  }

  lemma ItemsPrefix(cfg: Config, items: seq<T.Node>, here: bytes, depth: nat)
    requires depth <= cfg.maxDepth && items != []
    ensures var k, senses := |items| - 1, MeanItems(cfg, items, here, depth);
      && MeanItems(cfg, items[..k], here, depth) == senses[..k]
      && senses[k] == Mean(cfg, items[k], ItemField(), PathForIndex(here, k), depth + 1)
  {
    hide Mean;
    var k, senses := |items| - 1, MeanItems(cfg, items, here, depth);
    var prefix := MeanItems(cfg, items[..k], here, depth);
    forall i | 0 <= i < k ensures prefix[i] == senses[i] {
      assert items[..k][i] == items[i];
    }
  }

  lemma MembersPrefix(cfg: Config, ms: seq<T.Member>, here: bytes, depth: nat)
    requires depth <= cfg.maxDepth && ms != []
    ensures var k, senses := |ms| - 1, MeanMembers(cfg, ms, here, depth);
      && MeanMembers(cfg, ms[..k], here, depth) == senses[..k]
      && senses[k] == Entry(ms[k].key, Mean(cfg, ms[k].value, MemberField(ms[k].key), PathFor(here, ms[k].key), depth + 1))
  {
    hide Mean;
    var k, senses := |ms| - 1, MeanMembers(cfg, ms, here, depth);
    var prefix := MeanMembers(cfg, ms[..k], here, depth);
    forall i | 0 <= i < k ensures prefix[i] == senses[i] {
      assert ms[..k][i] == ms[i];
    }
  }

  lemma {:induction false} WalkItemsMeans(cfg: Config, items: seq<T.Node>, here: bytes, depth: nat, run: Run)
    requires depth <= cfg.maxDepth && Lawful(cfg, run.st) && Clean(run.st)
    ensures var (outs, r) := WalkItems(cfg, items, here, depth, run);
      var m := Listed(MeanItems(cfg, items, here, depth));
      && Ends(cfg, run.st, r.st, m)
      && (Clean(r.st) ==>
            outs == m.value && run.changes <= r.changes && (m.changed <==> run.changes < r.changes))
    decreases Fuel(cfg, depth), 6, |items|
  {
    hide Step, Lawful, Walk, Mean, MeanItems;
    WithinNodes(cfg, run.st);
    if items != [] {
      var k := |items| - 1;
      ItemsPrefix(cfg, items, here, depth);
      WalkItemsMeans(cfg, items[..k], here, depth, run);
      WalkItemsSteps(cfg, items[..k], here, depth, run);
      var r := WalkItems(cfg, items[..k], here, depth, run).1;
      StepLawful(cfg, run.st, r.st);
      WalkSteps(cfg, items[k], ItemField(), PathForIndex(here, k), depth + 1, r);
      var w := Walk(cfg, items[k], ItemField(), PathForIndex(here, k), depth + 1, r);
      if Clean(r.st) {
        WalkMeans(cfg, items[k], ItemField(), PathForIndex(here, k), depth + 1, r);
      } else if Clean(w.run.st) {
        CleanBefore(cfg, r.st, w.run.st);
      }
    }
  }

  lemma {:induction false} WalkMembersMeans(cfg: Config, ms: seq<T.Member>, here: bytes, depth: nat, run: Run)
    requires depth <= cfg.maxDepth && Lawful(cfg, run.st) && Clean(run.st)
    ensures var (outs, r) := WalkMembers(cfg, ms, here, depth, run);
      var m := Gathered(MeanMembers(cfg, ms, here, depth));
      && Ends(cfg, run.st, r.st, m)
      && (Clean(r.st) ==>
            outs == m.value && run.changes <= r.changes && (m.changed <==> run.changes < r.changes))
    decreases Fuel(cfg, depth), 6, |ms|
  {
    hide Step, Lawful, Walk, Mean, MeanMembers, Settle;
    WithinNodes(cfg, run.st);
    if ms != [] {
      var k := |ms| - 1;
      MembersPrefix(cfg, ms, here, depth);
      WalkMembersMeans(cfg, ms[..k], here, depth, run);
      WalkMembersSteps(cfg, ms[..k], here, depth, run);
      var r := WalkMembers(cfg, ms[..k], here, depth, run).1;
      StepLawful(cfg, run.st, r.st);
      WalkSteps(cfg, ms[k].value, MemberField(ms[k].key), PathFor(here, ms[k].key), depth + 1, r);
      var w := Walk(cfg, ms[k].value, MemberField(ms[k].key), PathFor(here, ms[k].key), depth + 1, r);
      if Clean(r.st) {
        WalkMeans(cfg, ms[k].value, MemberField(ms[k].key), PathFor(here, ms[k].key), depth + 1, r);
      } else if Clean(w.run.st) {
        CleanBefore(cfg, r.st, w.run.st);
      }
    }
  }

  /* ---------- strings ---------- */

  predicate SameText(i: Inspected, m: Sense<bytes>) { m.Means? && i.text == m.value && (i.changed <==> m.changed) }

  lemma {:induction false} InspectMeans(cfg: Config, s: bytes, field: Field, depth: nat, st: State)
    requires depth <= cfg.maxDepth && Lawful(cfg, st) && Clean(st)
    ensures var i, m := Inspect(cfg, s, field, depth, st), MeanInspect(cfg, s, field, depth);
      Ends(cfg, st, i.st, m) && (Clean(i.st) ==> SameText(i, m))
    decreases Fuel(cfg, depth), 5
  {
    hide Step, Lawful, InspectUrl, MeanUrl, InspectJson, MeanJson, InspectForm, MeanForm, InspectPlain, MeanPlain, IsUrl,
      IsEmbedded, IsForm;
    InspectPlainMeans(cfg, s, field, depth, st);
    if cfg.embedded && |s| <= cfg.maxInputBytes {
      if IsUrl(cfg, s) {
        InspectUrlMeans(cfg, s, field, depth, st);
      } else {
        NotUrl(cfg, s, field, depth, st);
        InspectJsonMeans(cfg, s, field, depth, st);
        if !IsEmbedded(s) {
          InspectFormMeans(cfg, s, field, depth, st);
          InspectFormSteps(cfg, s, field, depth, st);
          if IsForm(s) {
            var form := InspectForm(cfg, s, field, depth, st).value;
            StepLawful(cfg, st, form.st);
            InspectPlainSteps(cfg, s, field, depth, form.st);
            var plain := InspectPlain(cfg, s, field, depth, form.st);
            if Clean(form.st) {
              InspectPlainMeans(cfg, s, field, depth, form.st);
            } else if Clean(plain.st) {
              CleanBefore(cfg, form.st, plain.st);
            }
          }
        }
      }
    }
  }

  lemma NotUrl(cfg: Config, s: bytes, field: Field, depth: nat, st: State)
    requires depth <= cfg.maxDepth
    ensures InspectUrl(cfg, s, field, depth, st).Some? <==> IsUrl(cfg, s)
  {
    hide MaskQuery, InspectUrlPath, IsUrl, Veiled, HasVeil;
  }

  lemma InspectPlainMeans(cfg: Config, s: bytes, field: Field, depth: nat, st: State)
    requires depth <= cfg.maxDepth && Lawful(cfg, st) && Clean(st)
    ensures var i, m := InspectPlain(cfg, s, field, depth, st), MeanPlain(cfg, s, field, depth);
      Ends(cfg, st, i.st, m) && (Clean(i.st) ==> SameText(i, m))
  {
    hide Step, Lawful, InspectText, MeanText;
    WithinNodes(cfg, st);
    InspectTextMeans(cfg, s, field, depth, st);
  }

  lemma {:induction false} InspectUrlMeans(cfg: Config, s: bytes, field: Field, depth: nat, st: State)
    requires depth <= cfg.maxDepth && Lawful(cfg, st) && Clean(st) && IsUrl(cfg, s)
    ensures var i, m := InspectUrl(cfg, s, field, depth, st), MeanUrl(cfg, s, cfg.parseUrl(s).value, field, depth);
      i.Some? && Ends(cfg, st, i.value.st, m) && (Clean(i.value.st) ==> SameText(i.value, m))
    decreases Fuel(cfg, depth), 4
  {
    hide Step, Lawful, MaskQuery, MeanQuery, InspectUrlPath, MeanUrlPath, Veiled, HasVeil, E.HasScheme, E.IsOneWord;
    var url := cfg.parseUrl(s).value;
    if url.rawQuery == [] {
      InspectUrlPathMeans(cfg, s, url, Veiled(cfg, url), HasVeil(url), field, depth, st);
    } else {
      MaskQueryMeans(cfg, url.rawQuery, field, depth, st);
      MaskQuerySteps(cfg, url.rawQuery, field, depth, st);
      var q := MaskQuery(cfg, url.rawQuery, field, depth, st);
      StepLawful(cfg, st, q.st);
      if q.text.Some? {
        var result, changed := Veiled(cfg, url).(rawQuery := q.text.value), HasVeil(url) || q.changed;
        InspectUrlPathSteps(cfg, s, url, result, changed, field, depth, q.st);
        var i := InspectUrlPath(cfg, s, url, result, changed, field, depth, q.st);
        if Clean(q.st) {
          InspectUrlPathMeans(cfg, s, url, result, changed, field, depth, q.st);
        } else if Clean(i.st) {
          CleanBefore(cfg, q.st, i.st);
        }
      }
    }
  }

  lemma InspectUrlPathMeans(cfg: Config, s: bytes, url: Url, result: Url, changed: bool, field: Field, depth: nat, st: State)
    requires depth <= cfg.maxDepth && Lawful(cfg, st) && Clean(st)
    ensures var i := InspectUrlPath(cfg, s, url, result, changed, field, depth, st);
      var m := MeanUrlPath(cfg, s, url, result, changed, field, depth);
      Ends(cfg, st, i.st, m) && (Clean(i.st) ==> SameText(i, m))
  {
    hide Step, Lawful, InspectText, MeanText, D.Found, UrlResult;
    WithinNodes(cfg, st);
    InspectTextMeans(cfg, cfg.escapedPath(url), field, depth, st);
  }

  lemma {:induction false} InspectJsonMeans(cfg: Config, s: bytes, field: Field, depth: nat, st: State)
    requires depth <= cfg.maxDepth && Lawful(cfg, st) && Clean(st)
    ensures var i := InspectJson(cfg, s, field, depth, st);
      && (i.Some? <==> IsEmbedded(s))
      && (i.Some? ==>
            var m := MeanJson(cfg, s, field, depth);
            Ends(cfg, st, i.value.st, m) && (Clean(i.value.st) ==> SameText(i.value, m)))
    decreases Fuel(cfg, depth), 4
  {
    hide Step, Lawful, Walk, Mean, E.IsBracketed, T.ParseDocument, RootText, Merge;
    if IsEmbedded(s) {
      var n := T.ParseDocument(s).value;
      var inner := Run(State(st.nodes, [], false, st.asked), 0);
      InnerStarts(cfg, st);
      WalkMeans(cfg, n, RootField(field), RootPath(field), depth + 1, inner);
      var w := Walk(cfg, n, RootField(field), RootPath(field), depth + 1, inner);
      MergeNothing(w.run.st.errs);
    }
  }

  lemma {:induction false} MergeNothing(inner: seq<MaskError>)
    ensures Merge([], inner) == [] <==> inner == []
    decreases |inner|
  {
    if inner != [] { MergeNothing(inner[..|inner| - 1]); }
  }

  lemma {:induction false} InspectFormMeans(cfg: Config, s: bytes, field: Field, depth: nat, st: State)
    requires depth <= cfg.maxDepth && Lawful(cfg, st) && Clean(st)
    ensures var i := InspectForm(cfg, s, field, depth, st);
      && (i.Some? <==> IsForm(s))
      && (i.Some? ==>
            var m := MeanForm(cfg, s, field, depth);
            Ends(cfg, st, i.value.st, m) && (Clean(i.value.st) ==> SameText(i.value, m)))
    decreases Fuel(cfg, depth), 4
  {
    hide Step, Lawful, MaskQuery, MeanQuery, E.IsStrictForm;
    MaskQueryMeans(cfg, s, field, depth, st);
  }

  lemma {:induction false} MaskQueryMeans(cfg: Config, raw: bytes, field: Field, depth: nat, st: State)
    requires depth <= cfg.maxDepth && Lawful(cfg, st) && Clean(st)
    ensures var q, m := MaskQuery(cfg, raw, field, depth, st), MeanQuery(cfg, raw, field, depth);
      Ends(cfg, st, q.st, m) && (Clean(q.st) ==> q.text == m.value && q.changed == m.changed)
    decreases Fuel(cfg, depth), 3
  {
    hide Step, Lawful, QueryFold, MeanPairs, Q.Pairs, Q.StableSort, Q.Render;
    WithinNodes(cfg, st);
    if Q.Pairs(raw).Some? {
      QueryFoldMeans(cfg, Q.StableSort(Q.Pairs(raw).value), field, depth, st);
    }
  }

  lemma {:induction false} QueryFoldMeans(cfg: Config, ps: seq<Q.Pair>, field: Field, depth: nat, st: State)
    requires depth <= cfg.maxDepth && Lawful(cfg, st) && Clean(st)
    ensures var f, m := QueryFold(cfg, ps, field, depth, st), MeanPairs(cfg, ps, field, depth);
      Ends(cfg, st, f.st, m) && (Clean(f.st) ==> !f.halted && f.kept == m.value && f.changed == m.changed)
    decreases Fuel(cfg, depth), 2, |ps|
  {
    hide Step, Lawful, QueryStep, MeanPair;
    WithinNodes(cfg, st);
    if ps != [] {
      var k := |ps| - 1;
      QueryFoldMeans(cfg, ps[..k], field, depth, st);
      QueryFoldSteps(cfg, ps[..k], field, depth, st);
      var f := QueryFold(cfg, ps[..k], field, depth, st);
      StepLawful(cfg, st, f.st);
      QueryStepSteps(cfg, ps[k], field, depth, f);
      var g := QueryStep(cfg, ps[k], field, depth, f);
      if Clean(f.st) {
        QueryStepMeans(cfg, ps[k], field, depth, f);
      } else if Clean(g.st) {
        CleanBefore(cfg, f.st, g.st);
      }
    }
  }

  lemma {:induction false} QueryStepMeans(cfg: Config, p: Q.Pair, field: Field, depth: nat, f: Fold)
    requires depth <= cfg.maxDepth && Lawful(cfg, f.st) && Clean(f.st)
    ensures var g, m := QueryStep(cfg, p, field, depth, f), MeanPair(cfg, p, field, depth);
      && Ends(cfg, f.st, g.st, m)
      && (Clean(g.st) ==> !g.halted && g.kept == f.kept + m.value && g.changed == (f.changed || m.changed))
    decreases Fuel(cfg, depth), 1
  {
    hide Step, Lawful, Inspect, MeanInspect, DecideMember, MemberDecision;
    var member := Field(p.key, PathFor(field.path, p.key), QuerySource, StringKind);
    DecideMemberMeans(cfg, member, p.value, depth, f.st);
    DecideMemberSteps(cfg, member, p.value, depth, f.st);
    var d := DecideMember(cfg, member, p.value, depth, f.st);
    StepLawful(cfg, f.st, d.st);
    assert f.kept + [] == f.kept;
    if MemberDecision(cfg, member, p.value, depth).Left? && depth + 1 <= cfg.maxDepth {
      InspectSteps(cfg, p.value, member, depth + 1, d.st);
      var i := Inspect(cfg, p.value, member, depth + 1, d.st);
      if Clean(d.st) {
        InspectMeans(cfg, p.value, member, depth + 1, d.st);
      } else if Clean(i.st) {
        CleanBefore(cfg, d.st, i.st);
      }
    }
  }

  lemma DecideMemberMeans(cfg: Config, member: Field, value: bytes, depth: nat, st: State)
    requires Clean(st)
    ensures var d, c := DecideMember(cfg, member, value, depth, st), MemberDecision(cfg, member, value, depth);
      && (Clean(d.st) <==> !c.Rejected? && st.nodes + 1 <= cfg.maxNodes)
      && (Clean(d.st) ==> d.st.nodes == st.nodes + 1)
      && (Clean(d.st) ==>
            match c
            case Becomes(text) => d.decided && d.keep && d.masked == text
            case Dropped => d.decided && !d.keep
            case Left => !d.decided
            case Rejected => false)
      && (!Clean(d.st) ==> d.decided) && (c.Left? ==> depth + 1 <= cfg.maxDepth)
  {
    hide ApplyRule, Utf8.Valid;
  }

  /* ---------- text ---------- */

  lemma InspectTextMeans(cfg: Config, s: bytes, field: Field, depth: nat, st: State)
    requires depth <= cfg.maxDepth && Lawful(cfg, st) && Clean(st)
    ensures var i, m := InspectText(cfg, s, field, depth, st), MeanText(cfg, s, field, depth);
      Ends(cfg, st, i.st, m) && (Clean(i.st) ==> SameText(i, m))
  {
    hide Step, Lawful, PairEdits, MeanEdits, D.Found, SpanEdits, S.Kept, Spliced;
    WithinNodes(cfg, st);
    D.FoundInOrder(s, cfg.detectors);
    PairEditsMeans(cfg, s, D.Found(s, cfg.detectors).pairs, field, depth, st);
  }

  lemma {:induction false} PairEditsMeans(cfg: Config, s: bytes, pairs: seq<DP.Pair>, field: Field, depth: nat, st: State)
    requires forall p :: p in pairs ==> D.WellShaped(p, |s|)
    requires depth <= cfg.maxDepth && Lawful(cfg, st) && Clean(st)
    ensures var e, m := PairEdits(cfg, s, pairs, field, depth, st), MeanEdits(cfg, s, pairs, field, depth);
      Ends(cfg, st, e.st, m) && (Clean(e.st) ==> e.edits == m.value)
    decreases |pairs|
  {
    hide Step, Lawful, PairEdit, MeanEdit;
    WithinNodes(cfg, st);
    if pairs != [] {
      var k := |pairs| - 1;
      PairEditsMeans(cfg, s, pairs[..k], field, depth, st);
      PairEditsSteps(cfg, s, pairs[..k], field, depth, st);
      var e := PairEdits(cfg, s, pairs[..k], field, depth, st);
      assert pairs[k] in pairs;
      StepLawful(cfg, st, e.st);
      PairEditSteps(cfg, s, pairs[k], field, depth, e);
      var g := PairEdit(cfg, s, pairs[k], field, depth, e);
      if Clean(e.st) {
        PairEditMeans(cfg, s, pairs[k], field, depth, e);
      } else if Clean(g.st) {
        CleanBefore(cfg, e.st, g.st);
      }
    }
  }

  lemma PairEditMeans(cfg: Config, s: bytes, p: DP.Pair, field: Field, depth: nat, e: Edits)
    requires D.WellShaped(p, |s|) && Clean(e.st)
    ensures var g, m := PairEdit(cfg, s, p, field, depth, e), MeanEdit(cfg, s, p, field, depth);
      Ends(cfg, e.st, g.st, m) && (Clean(g.st) ==> g.edits == e.edits + m.value)
  {
    hide DecideMember, MemberDecision;
    var key := s[p.keyStart..p.keyEnd];
    var member := Field(key, PathFor(field.path, key), TextSource, StringKind);
    DecideMemberMeans(cfg, member, s[p.valueStart..p.valueEnd], depth, e.st);
    assert e.edits + [] == e.edits;
  }
}
