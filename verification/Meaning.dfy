/**
 Masking without state: what a value or a string becomes when no error occurs, and how many nodes that takes.
 It is the reference both walkers are compared with: no counters, no error list, no stop flag, no order.
 */
module Meaning {
  import opened Bytes
  import opened Options
  import opened Settings
  import opened SortedMap
  import opened JsonOut
  import opened MaskSpec
  import T = JsonTree
  import S = Splice
  import D = Detect
  import DP = DetectPatterns
  import E = Embedded
  import Q = UrlQuery
  import Utf8

  /** A result, whether masking changed anything, and the nodes counted for it; or an error on the way. */
  datatype Sense<+X> = Fails | Means(value: X, changed: bool, cost: nat) {
    function Costing(more: nat): Sense<X> { if Fails? then Fails else this.(cost := cost + more) }
  }

  /* ---------- decisions ---------- */

  datatype Choice = Refused | Chose(out: Out) | Open

  /** The policy's decision about a value, and its rule applied. */
  function Chosen(cfg: Config, text: bytes, f: Field): Choice {
    match cfg.policy(f)
    case PolicyError => Refused
    case PolicyPanic => Refused
    case Decision(omit, rule) =>
      if omit then Chose(Omitted)
      else if rule.None? then Open
      else match ApplyRule(rule.value, RuleInput(text, f.kind, cfg.marker))
        case Text(t) => Chose(Kept(String(t)))
        case RuleError => Refused
        case RulePanic => Refused
  }

  /* ---------- documents ---------- */

  /** The value n at path here. */
  ghost function Mean(cfg: Config, n: T.Node, field: Field, here: bytes, depth: nat): Sense<Out>
    decreases Fuel(cfg, depth), 10, n
  {
    if depth > cfg.maxDepth then Fails
    else
      var f := Seen(cfg, field, KindOf(n), here);
      match Chosen(cfg, RuleText(n), f)
      case Refused => Fails
      case Chose(out) => Means(out, true, 1)
      case Open => MeanShape(cfg, n, f, here, depth).Costing(1)
  }

  ghost function MeanShape(cfg: Config, n: T.Node, f: Field, here: bytes, depth: nat): Sense<Out>
    requires depth <= cfg.maxDepth
    decreases Fuel(cfg, depth), 8, n
  {
    match n
    case Null => Means(Kept(Null), false, 0)
    case Bool(b) => Means(Kept(BoolTree(cfg, b)), false, 0)
    case Number(t) => Means(Kept(Number(t)), false, 0)
    case String(token) => MeanString(cfg, T.KeyText(token), TokenValue(token), Located(f, here), depth)
    case Array(items) => ListOut(Listed(MeanItems(cfg, items, here, depth)))
    case Object(ms) => ObjectOut(Gathered(MeanMembers(cfg, ms, here, depth)))
  }

  function BoolTree(cfg: Config, b: bool): Json {
    if cfg.preserveSafe then Bool(b) else String(if b then T.TRUE else T.FALSE)
  }

  /** A string inspected as text, and left as value when nothing changes. */
  ghost function MeanString(cfg: Config, text: bytes, value: bytes, f: Field, depth: nat): Sense<Out>
    requires depth <= cfg.maxDepth
    decreases Fuel(cfg, depth), 7
  {
    if !Inspectable(cfg, text) then Means(Kept(String(value)), false, 0)
    else
      match MeanInspect(cfg, text, f, depth)
      case Fails => Fails
      case Means(t, changed, cost) => Means(Kept(String(if changed then t else value)), changed, cost)
  }

  /** What every element means. */
  ghost function MeanItems(cfg: Config, items: seq<T.Node>, here: bytes, depth: nat): (r: seq<Sense<Out>>)
    requires depth <= cfg.maxDepth
    ensures |r| == |items|
    decreases Fuel(cfg, depth), 6, items
  {
    seq(|items|, i requires 0 <= i < |items| => Mean(cfg, items[i], ItemField(), PathForIndex(here, i), depth + 1))
  }

  /** What every member means, repeated keys and all. */
  ghost function MeanMembers(cfg: Config, ms: seq<T.Member>, here: bytes, depth: nat): (r: seq<Entry<Sense<Out>>>)
    requires depth <= cfg.maxDepth
    ensures |r| == |ms|
    decreases Fuel(cfg, depth), 6, ms
  {
    seq(|ms|, i requires 0 <= i < |ms| =>
      Entry(ms[i].key, Mean(cfg, ms[i].value, MemberField(ms[i].key), PathFor(here, ms[i].key), depth + 1)))
  }

  /** All elements, an omitted one as null. */
  function Listed(senses: seq<Sense<Out>>): Sense<seq<Json>> {
    if senses == [] then Means([], false, 0)
    else
      var k := |senses| - 1;
      match (Listed(senses[..k]), senses[k])
      case (Means(outs, c, n), Means(out, changed, cost)) =>
        Means(outs + [if out.Omitted? then Null else out.tree], c || changed, n + cost)
      case _ => Fails
  }

  /** All members, the last one of a key settling it, ascending in the key. */
  function Gathered(senses: seq<Entry<Sense<Out>>>): Sense<seq<Entry<Json>>> {
    if senses == [] then Means([], false, 0)
    else
      var k := |senses| - 1;
      match (Gathered(senses[..k]), senses[k].value)
      case (Means(outs, c, n), Means(out, changed, cost)) =>
        Means(Settle(outs, senses[k].key, out), c || changed, n + cost)
      case _ => Fails
  }

  function ListOut(s: Sense<seq<Json>>): Sense<Out> {
    if s.Fails? then Fails else Means(Kept(Array(s.value)), s.changed, s.cost)
  }

  function ObjectOut(s: Sense<seq<Entry<Json>>>): Sense<Out> {
    if s.Fails? then Fails else Means(Kept(Object(s.value)), s.changed, s.cost)
  }

  /* ---------- strings ---------- */

  ghost function MeanInspect(cfg: Config, s: bytes, field: Field, depth: nat): Sense<bytes>
    requires depth <= cfg.maxDepth
    decreases Fuel(cfg, depth), 5
  {
    if |s| > cfg.maxInputBytes then Fails
    else if !cfg.embedded then MeanPlain(cfg, s, field, depth)
    else if IsUrl(cfg, s) then MeanUrl(cfg, s, cfg.parseUrl(s).value, field, depth)
    else if IsEmbedded(s) then MeanJson(cfg, s, field, depth)
    else if IsForm(s) then
      var form := MeanForm(cfg, s, field, depth);
      if form.Fails? || form.changed || !cfg.textDetectors then form
      else MeanPlain(cfg, s, field, depth).Costing(form.cost)
    else MeanPlain(cfg, s, field, depth)
  }

  predicate IsEmbedded(s: bytes) { E.IsBracketed(s) && T.ParseDocument(s).Some? }

  predicate IsForm(s: bytes) { Q.EQUALS in s && E.IsStrictForm(s) }

  ghost function MeanPlain(cfg: Config, s: bytes, field: Field, depth: nat): Sense<bytes> {
    if cfg.textDetectors then MeanText(cfg, s, field, depth) else Means(s, false, 0)
  }

  ghost function MeanUrl(cfg: Config, s: bytes, url: Url, field: Field, depth: nat): Sense<bytes>
    requires depth <= cfg.maxDepth
    decreases Fuel(cfg, depth), 4
  {
    if url.rawQuery == [] then MeanUrlPath(cfg, s, url, Veiled(cfg, url), HasVeil(url), field, depth)
    else
      match MeanQuery(cfg, url.rawQuery, field, depth)
      case Fails => Fails
      case Means(query, changed, cost) =>
        if query.None? then Means(cfg.marker, true, cost)
        else MeanUrlPath(cfg, s, url, Veiled(cfg, url).(rawQuery := query.value), HasVeil(url) || changed,
                         field, depth).Costing(cost)
  }

  ghost function MeanUrlPath(cfg: Config, s: bytes, url: Url, result: Url, changed: bool, field: Field, depth: nat): Sense<bytes> {
    var path := cfg.escapedPath(url);
    var t := if cfg.textDetectors && D.Found(path, cfg.detectors).Any() then MeanText(cfg, path, field, depth)
             else Means([], false, 0);
    if t.Fails? then Fails
    else Means(UrlResult(cfg, s, result, changed, t.value, t.changed), changed || t.changed, t.cost)
  }

  ghost function MeanJson(cfg: Config, s: bytes, field: Field, depth: nat): Sense<bytes>
    requires depth <= cfg.maxDepth && IsEmbedded(s)
    decreases Fuel(cfg, depth), 4
  {
    match Mean(cfg, T.ParseDocument(s).value, RootField(field), RootPath(field), depth + 1)
    case Fails => Fails
    case Means(out, changed, cost) => Means(if changed then RootText(out) else s, changed, cost)
  }

  ghost function MeanForm(cfg: Config, s: bytes, field: Field, depth: nat): Sense<bytes>
    requires depth <= cfg.maxDepth
    decreases Fuel(cfg, depth), 4
  {
    match MeanQuery(cfg, s, field, depth)
    case Fails => Fails
    case Means(query, changed, cost) =>
      if query.None? then Means(cfg.marker, true, cost)
      else Means(if changed then query.value else s, changed, cost)
  }

  /** The text of a query, or none if it is invalid. */
  ghost function MeanQuery(cfg: Config, raw: bytes, field: Field, depth: nat): Sense<Option<bytes>>
    requires depth <= cfg.maxDepth
    decreases Fuel(cfg, depth), 3
  {
    match Q.Pairs(raw)
    case None => Means(None, false, 0)
    case Some(ps) =>
      match MeanPairs(cfg, Q.StableSort(ps), field, depth)
      case Fails => Fails
      case Means(kept, changed, cost) => Means(Some(Q.Render(kept)), changed, cost)
  }

  ghost function MeanPairs(cfg: Config, ps: seq<Q.Pair>, field: Field, depth: nat): Sense<seq<Q.Pair>>
    requires depth <= cfg.maxDepth
    decreases Fuel(cfg, depth), 2, |ps|
  {
    if ps == [] then Means([], false, 0)
    else
      var k := |ps| - 1;
      match (MeanPairs(cfg, ps[..k], field, depth), MeanPair(cfg, ps[k], field, depth))
      case (Means(kept, c, n), Means(pair, changed, cost)) => Means(kept + pair, c || changed, n + cost)
      case _ => Fails
  }

  /** One pair of a query: what is kept of it. */
  ghost function MeanPair(cfg: Config, p: Q.Pair, field: Field, depth: nat): Sense<seq<Q.Pair>>
    requires depth <= cfg.maxDepth
    decreases Fuel(cfg, depth), 1
  {
    var member := Field(p.key, PathFor(field.path, p.key), QuerySource, StringKind);
    match MemberDecision(cfg, member, p.value, depth)
    case Rejected => Fails
    case Becomes(text) => Means([Q.Pair(p.key, text)], text != p.value, 1)
    case Dropped => Means([], true, 1)
    case Left =>
      if depth + 1 > cfg.maxDepth then Fails
      else match MeanInspect(cfg, p.value, member, depth + 1)
        case Fails => Fails
        case Means(t, changed, cost) => Means([Q.Pair(p.key, if changed then t else p.value)], changed, cost + 1)
  }

  datatype MemberChoice = Rejected | Becomes(text: bytes) | Dropped | Left

  /** The decision about a member found inside a string. */
  function MemberDecision(cfg: Config, member: Field, value: bytes, depth: nat): MemberChoice {
    if !Utf8.Valid(member.key) || depth + 1 > cfg.maxDepth then Rejected
    else match cfg.policy(member)
      case PolicyError => Rejected
      case PolicyPanic => Rejected
      case Decision(omit, rule) =>
        if omit then Dropped
        else if rule.None? then Left
        else match ApplyRule(rule.value, RuleInput(value, StringKind, cfg.marker))
          case Text(t) => Becomes(t)
          case RuleError => Rejected
          case RulePanic => Rejected
  }

  /* ---------- text ---------- */

  ghost function MeanEdits(cfg: Config, s: bytes, pairs: seq<DP.Pair>, field: Field, depth: nat): Sense<seq<S.Edit>>
    requires forall p :: p in pairs ==> D.WellShaped(p, |s|)
    decreases |pairs|
  {
    if pairs == [] then Means([], false, 0)
    else
      var k := |pairs| - 1;
      match (MeanEdits(cfg, s, pairs[..k], field, depth), MeanEdit(cfg, s, pairs[k], field, depth))
      case (Means(edits, _, n), Means(edit, _, cost)) => Means(edits + edit, false, n + cost)
      case _ => Fails
  }

  ghost function MeanEdit(cfg: Config, s: bytes, p: DP.Pair, field: Field, depth: nat): Sense<seq<S.Edit>>
    requires D.WellShaped(p, |s|)
  {
    var key := s[p.keyStart..p.keyEnd];
    var member := Field(key, PathFor(field.path, key), TextSource, StringKind);
    match MemberDecision(cfg, member, s[p.valueStart..p.valueEnd], depth)
    case Rejected => Fails
    case Becomes(text) => Means([S.Edit(p.valueStart, p.valueEnd, text)], false, 1)
    case Dropped => Means([S.Edit(p.valueStart, p.valueEnd, cfg.marker)], false, 1)
    case Left => Means([], false, 1)
  }

  ghost function MeanText(cfg: Config, s: bytes, field: Field, depth: nat): Sense<bytes> {
    var found := D.Found(s, cfg.detectors);
    D.FoundInOrder(s, cfg.detectors);
    if !found.Any() then Means(s, false, 0)
    else
      match MeanEdits(cfg, s, found.pairs, field, depth)
      case Fails => Fails
      case Means(edits, _, cost) =>
        var all := edits + SpanEdits(cfg, s, found.spans);
        var sorted := cfg.sortEdits(all);
        MeanEditsInText(cfg, s, found.pairs, field, depth);
        SortedInText(sorted, all, |s|);
        if S.ChangesNothing(s, S.Kept(sorted, 0)) then Means(s, false, cost)
        else Means(Spliced(s, sorted), true, cost)
  }

  lemma {:induction false} MeanEditsInText(cfg: Config, s: bytes, pairs: seq<DP.Pair>, field: Field, depth: nat)
    requires forall p :: p in pairs ==> D.WellShaped(p, |s|)
    ensures var e := MeanEdits(cfg, s, pairs, field, depth); e.Means? ==> S.InText(e.value, |s|)
    decreases |pairs|
  {
    if pairs != [] {
      var k := |pairs| - 1;
      MeanEditsInText(cfg, s, pairs[..k], field, depth);
      assert pairs[k] in pairs;
    }
  }
}
