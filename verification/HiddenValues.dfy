/**
 What masking hides leaves no trace: two documents that differ only in values the policy decides on, and in the
 userinfo and fragments of URLs, are masked to the same bytes, with the same errors and the same questions.
 */
module HiddenValues {
  import opened Bytes
  import opened Options
  import opened Settings
  import opened MaskSpec
  import opened MaskJson
  import opened Embedded
  import PF = Prefilter
  import D = Detect
  import T = JsonTree
  import Utf8

  /* ---------- decided values ---------- */

  /** A rule that answers alike whatever text it is given. */
  ghost predicate Constant(rule: Rule, kind: Kind, marker: bytes) {
    forall a: bytes, b: bytes :: ApplyRule(rule, RuleInput(a, kind, marker)) == ApplyRule(rule, RuleInput(b, kind, marker))
  }

  /** What becomes of a value at field f does not depend on the value. */
  ghost predicate Blind(cfg: Config, f: Field) {
    match cfg.policy(f)
    case Decision(omit, rule) => omit || (rule.Some? && Constant(rule.value, f.kind, cfg.marker))
    case PolicyError => true
    case PolicyPanic => true
  }

  /** The policy leaves f alone. */
  predicate LeftAlone(cfg: Config, f: Field) { cfg.policy(f) == Decision(false, None) }

  /* ---------- veiled URLs ---------- */

  /** The same URL but for what its userinfo and its fragment say; it has at least one of them. */
  predicate SameVeiled(u: Url, v: Url) {
    && u.scheme == v.scheme && u.host == v.host && u.path == v.path && u.rawQuery == v.rawQuery
    && u.forceQuery == v.forceQuery && u.opaqueText == v.opaqueText
    && (u.user.Some? <==> v.user.Some?) && (u.fragment == [] <==> v.fragment == [])
    && (u.fragment == [] ==> u.rawFragment == v.rawFragment)
    && (u.user.Some? || u.fragment != [])
  }

  predicate UrlsAlike(cfg: Config, s: bytes, t: bytes) {
    && IsUrl(cfg, s) && IsUrl(cfg, t) && |s| <= cfg.maxInputBytes && |t| <= cfg.maxInputBytes
    && SameVeiled(cfg.parseUrl(s).value, cfg.parseUrl(t).value)
    && cfg.escapedPath(cfg.parseUrl(s).value) == cfg.escapedPath(cfg.parseUrl(t).value)
  }

  lemma SameResult(cfg: Config, s: bytes, t: bytes, u: Url, v: Url, field: Field, depth: nat, st: State, result: Url)
    requires cfg.escapedPath(u) == cfg.escapedPath(v)
    ensures InspectUrlPath(cfg, s, u, result, true, field, depth, st) == InspectUrlPath(cfg, t, v, result, true, field, depth, st)
    ensures InspectUrlPath(cfg, s, u, result, true, field, depth, st).changed
  {
    hide InspectText, D.Found;
  }

  /** Such URLs are masked alike: neither userinfo nor fragment shows in the result, the errors or the nodes. */
  lemma UrlsMaskedAlike(cfg: Config, s: bytes, t: bytes, field: Field, depth: nat, st: State)
    requires cfg.embedded && depth <= cfg.maxDepth && UrlsAlike(cfg, s, t)
    ensures Inspect(cfg, s, field, depth, st) == Inspect(cfg, t, field, depth, st)
    ensures Inspect(cfg, s, field, depth, st).changed && Inspectable(cfg, s) && Inspectable(cfg, t)
  {
    hide InspectText, InspectJson, InspectForm, MaskQuery, IsCandidate, D.Found, InspectUrlPath, HasScheme;
    PF.SchemeIsCandidate(s);
    PF.SchemeIsCandidate(t);
    var u, v := cfg.parseUrl(s).value, cfg.parseUrl(t).value;
    assert Veiled(cfg, u) == Veiled(cfg, v);
    assert HasVeil(u) && HasVeil(v);
    var q := MaskQuery(cfg, u.rawQuery, field, depth, st);
    if u.rawQuery == [] {
      SameResult(cfg, s, t, u, v, field, depth, st, Veiled(cfg, u));
    } else if q.text.Some? {
      SameResult(cfg, s, t, u, v, field, depth, q.st, Veiled(cfg, u).(rawQuery := q.text.value));
    }
    assert InspectUrl(cfg, s, field, depth, st) == InspectUrl(cfg, t, field, depth, st);
    assert InspectUrl(cfg, s, field, depth, st).Some? && InspectUrl(cfg, s, field, depth, st).value.changed;
  }

  /* ---------- documents ---------- */

  /**
   n and m, met at the same place, differ only in what is hidden: values of one kind the policy decides on without
   regard to the value, and URLs in strings it leaves alone.
   */
  ghost predicate HiddenAlike(cfg: Config, n: T.Node, m: T.Node, field: Field, here: bytes)
    decreases n
  {
    var f := Seen(cfg, field, KindOf(n), here);
    || n == m
    || (KindOf(n) == KindOf(m) && Blind(cfg, f))
    || match (n, m)
       case (String(a), String(b)) =>
         cfg.embedded && LeftAlone(cfg, f) && UrlsAlike(cfg, T.KeyText(a), T.KeyText(b))
       case (Array(a), Array(b)) =>
         |a| == |b| && forall k :: 0 <= k < |a| ==> HiddenAlike(cfg, a[k], b[k], ItemField(), PathForIndex(here, k))
       case (Object(a), Object(b)) =>
         |a| == |b| && forall k :: 0 <= k < |a| ==>
           a[k].key == b[k].key && HiddenAlike(cfg, a[k].value, b[k].value, MemberField(a[k].key), PathFor(here, a[k].key))
       case _ => false
  }

  lemma DecidedAlike(cfg: Config, a: bytes, b: bytes, f: Field, here: bytes, run: Run)
    requires Blind(cfg, f)
    ensures Decide(cfg, a, f, here, run) == Decide(cfg, b, f, here, run) && Decide(cfg, a, f, here, run).Final?
  {
    hide ApplyRule, Located;
  }

  /** Such values are walked alike: the same result, the same errors, the same count, the same questions. */
  lemma {:induction false} WalkedAlike(cfg: Config, n: T.Node, m: T.Node, field: Field, here: bytes, depth: nat, run: Run)
    requires HiddenAlike(cfg, n, m, field, here)
    ensures Walk(cfg, n, field, here, depth, run) == Walk(cfg, m, field, here, depth, run)
    decreases n, 1
  {
    hide Blind, LeftAlone, UrlsAlike, WalkNode, Decide, WalkShape, T.KeyText, LimitError;
    var f := Seen(cfg, field, KindOf(n), here);
    if n != m && !run.st.stop && depth <= cfg.maxDepth && run.st.nodes + 1 <= cfg.maxNodes {
      var next := run.(st := run.st.(nodes := run.st.nodes + 1));
      if KindOf(n) == KindOf(m) && Blind(cfg, f) {
        DecidedAlike(cfg, RuleText(n), RuleText(m), f, here, next);
        FinalNode(cfg, n, f, here, depth, next);
        FinalNode(cfg, m, f, here, depth, next);
      } else {
        SameKind(n, m);
        NodeAlike(cfg, n, m, f, here, depth, next);
      }
    }
  }

  lemma SameKind(n: T.Node, m: T.Node)
    requires (n.String? && m.String?) || (n.Array? && m.Array?) || (n.Object? && m.Object?)
    ensures KindOf(n) == KindOf(m)
  {
  }

  lemma FinalNode(cfg: Config, n: T.Node, f: Field, here: bytes, depth: nat, run: Run)
    requires depth <= cfg.maxDepth && Decide(cfg, RuleText(n), f, here, run).Final?
    ensures WalkNode(cfg, n, f, here, depth, run) == Decide(cfg, RuleText(n), f, here, run).w
  {
    hide Decide, WalkShape;
  }

  lemma LeftUndecided(cfg: Config, text: bytes, f: Field, here: bytes, run: Run)
    requires LeftAlone(cfg, f)
    ensures Decide(cfg, text, f, here, run) == Undecided(run.(st := run.st.Ask(f)))
  {
  }

  lemma {:induction false} NodeAlike(cfg: Config, n: T.Node, m: T.Node, f: Field, here: bytes, depth: nat, run: Run)
    requires depth <= cfg.maxDepth
    requires match (n, m)
      case (String(a), String(b)) => cfg.embedded && LeftAlone(cfg, f) && UrlsAlike(cfg, T.KeyText(a), T.KeyText(b))
      case (Array(a), Array(b)) =>
        |a| == |b| && forall k :: 0 <= k < |a| ==> HiddenAlike(cfg, a[k], b[k], ItemField(), PathForIndex(here, k))
      case (Object(a), Object(b)) =>
        |a| == |b| && forall k :: 0 <= k < |a| ==>
          a[k].key == b[k].key && HiddenAlike(cfg, a[k].value, b[k].value, MemberField(a[k].key), PathFor(here, a[k].key))
      case _ => false
    ensures WalkNode(cfg, n, f, here, depth, run) == WalkNode(cfg, m, f, here, depth, run)
    decreases n, 0
  {
    hide HiddenAlike, Decide, LeftAlone, UrlsAlike, T.KeyText, Walk, WalkItems, WalkMembers, WalkString, Located;
    match n
    case String(a) =>
      LeftUndecided(cfg, RuleText(n), f, here, run);
      LeftUndecided(cfg, RuleText(m), f, here, run);
      StringAlike(cfg, a, m.token, f, here, depth, run.(st := run.st.Ask(f)));
    case Array(a) =>
      match Decide(cfg, RuleText(n), f, here, run) {
        case Final(_) =>
        case Undecided(r) => ItemsAlike(cfg, a, m.items, |a|, here, depth, r);
      }
    case Object(a) =>
      match Decide(cfg, RuleText(n), f, here, run) {
        case Final(_) =>
        case Undecided(r) => MembersAlike(cfg, a, m.members, |a|, here, depth, r);
      }
  }

  lemma StringAlike(cfg: Config, a: bytes, b: bytes, f: Field, here: bytes, depth: nat, run: Run)
    requires depth <= cfg.maxDepth && cfg.embedded && UrlsAlike(cfg, T.KeyText(a), T.KeyText(b))
    ensures WalkString(cfg, a, f, here, depth, run) == WalkString(cfg, b, f, here, depth, run)
  {
    hide UrlsAlike, Inspect, Inspectable, T.KeyText, Located;
    UrlsMaskedAlike(cfg, T.KeyText(a), T.KeyText(b), Located(f, here), depth, run.st);
  }

  lemma {:induction false} ItemsAlike(cfg: Config, a: seq<T.Node>, b: seq<T.Node>, k: nat, here: bytes, depth: nat, run: Run)
    requires depth <= cfg.maxDepth && k <= |a| == |b|
    requires forall k :: 0 <= k < |a| ==> HiddenAlike(cfg, a[k], b[k], ItemField(), PathForIndex(here, k))
    ensures WalkItems(cfg, a[..k], here, depth, run) == WalkItems(cfg, b[..k], here, depth, run)
    ensures a[..|a|] == a && b[..|b|] == b
    decreases a, k
  {
    hide Walk, HiddenAlike;
    if k > 0 {
      ItemsAlike(cfg, a, b, k - 1, here, depth, run);
      assert a[..k][..k - 1] == a[..k - 1] && b[..k][..k - 1] == b[..k - 1];
      var r := WalkItems(cfg, a[..k - 1], here, depth, run).1;
      WalkedAlike(cfg, a[k - 1], b[k - 1], ItemField(), PathForIndex(here, k - 1), depth + 1, r);
    }
  }

  lemma {:induction false} MembersAlike(cfg: Config, a: seq<T.Member>, b: seq<T.Member>, k: nat, here: bytes, depth: nat, run: Run)
    requires depth <= cfg.maxDepth && k <= |a| == |b|
    requires forall k :: 0 <= k < |a| ==>
      a[k].key == b[k].key && HiddenAlike(cfg, a[k].value, b[k].value, MemberField(a[k].key), PathFor(here, a[k].key))
    ensures WalkMembers(cfg, a[..k], here, depth, run) == WalkMembers(cfg, b[..k], here, depth, run)
    ensures a[..|a|] == a && b[..|b|] == b
    decreases a, k
  {
    hide Walk, HiddenAlike, Settle;
    if k > 0 {
      MembersAlike(cfg, a, b, k - 1, here, depth, run);
      assert a[..k][..k - 1] == a[..k - 1] && b[..k][..k - 1] == b[..k - 1];
      var r := WalkMembers(cfg, a[..k - 1], here, depth, run).1;
      WalkedAlike(cfg, a[k - 1].value, b[k - 1].value, MemberField(a[k - 1].key), PathFor(here, a[k - 1].key), depth + 1, r);
    }
  }

  /** Nothing of a hidden value is in the output or in an error: documents that differ only there are masked to the same. */
  lemma NothingShows(cfg: Config, src: bytes, other: bytes)
    requires |src| <= cfg.maxInputBytes && |other| <= cfg.maxInputBytes && Utf8.Valid(src) && Utf8.Valid(other)
    requires T.ParseDocument(src).Some? && T.ParseDocument(other).Some?
    requires HiddenAlike(cfg, T.ParseDocument(src).value, T.ParseDocument(other).value, DocumentField(), ROOT)
    ensures Masking(cfg, src) == Masking(cfg, other)
    ensures RootWalk(cfg, RootNode(src)) == RootWalk(cfg, RootNode(other))
  {
    hide Walk, HiddenAlike, T.ParseDocument, Utf8.Valid, RootText;
    WalkedAlike(cfg, RootNode(src), RootNode(other), DocumentField(), ROOT, 0, FRESH);
  }
}
