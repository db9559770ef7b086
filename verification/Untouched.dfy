/**
 A masker with nothing to mask: when the policy leaves everything alone and strings are not inspected, what comes out
 is what went in, objects in key order and with the last value of a repeated key.
 */
module Untouched {
  import opened Bytes
  import opened Options
  import opened Settings
  import opened SortedMap
  import opened JsonOut
  import opened MaskSpec
  import opened Meaning
  import opened MaskJson
  import V = ValueGraph
  import U = Unfolding
  import DM = DomMeaning
  import MV = MaskValue
  import R = Refinement
  import G = JsonGrammar
  import T = JsonTree
  import VT = ValidText
  import Utf8

  ghost predicate Silent(cfg: Config) {
    !cfg.embedded && !cfg.textDetectors && forall f: Field :: cfg.policy(f) == Decision(false, None)
  }

  lemma LeftOpen(cfg: Config, text: bytes, f: Field)
    requires Silent(cfg)
    ensures Chosen(cfg, text, f) == Open && !Inspectable(cfg, text)
  {
  }

  /* ---------- sums over children ---------- */

  function Sum(ns: seq<nat>): nat { if ns == [] then 0 else Sum(ns[..|ns| - 1]) + ns[|ns| - 1] }

  function Most(ns: seq<nat>): nat {
    if ns == [] then 0
    else if Most(ns[..|ns| - 1]) > ns[|ns| - 1] then Most(ns[..|ns| - 1]) else ns[|ns| - 1]
  }

  lemma {:induction false} MostBounds(ns: seq<nat>, bound: nat)
    ensures Most(ns) <= bound <==> forall k :: 0 <= k < |ns| ==> ns[k] <= bound
    decreases |ns|
  {
    if ns != [] {
      var n := |ns| - 1;
      MostBounds(ns[..n], bound);
      assert forall k :: 0 <= k < n ==> ns[..n][k] == ns[k];
    }
  }

  /** A sense that leaves a tree as it is, at a cost, or none if the child does not fit. */
  ghost predicate Shows(s: Sense<Out>, fits: bool, tree: Json, cost: nat) {
    s == if fits then Means(Kept(tree), false, cost) else Fails
  }

  lemma {:induction false} ListedShows(senses: seq<Sense<Out>>, fits: seq<bool>, trees: seq<Json>, costs: seq<nat>)
    requires |senses| == |fits| == |trees| == |costs|
    requires forall k :: 0 <= k < |senses| ==> Shows(senses[k], fits[k], trees[k], costs[k])
    ensures Listed(senses) == if false in fits then Fails else Means(trees, false, Sum(costs))
    decreases |senses|
  {
    if senses != [] {
      var n := |senses| - 1;
      ListedShows(senses[..n], fits[..n], trees[..n], costs[..n]);
      assert fits == fits[..n] + [fits[n]] && trees == trees[..n] + [trees[n]];
    }
  }

  /** Members put one after the other: sorted, the last of a key winning. */
  function PutAll(es: seq<Entry<Json>>): seq<Entry<Json>> {
    if es == [] then [] else Put(PutAll(es[..|es| - 1]), es[|es| - 1].key, es[|es| - 1].value)
  }

  /** What is shown of an object: its keys in order, each with its last value. */
  lemma {:induction false} PutAllLookup(es: seq<Entry<Json>>, key: bytes)
    ensures Ascending(PutAll(es)) && Get(PutAll(es), key) == DM.LastWith(es, key)
    decreases |es|
  {
    hide Put, Get, Ascending;
    if es == [] {
      DM.NoEntries(key);
    } else {
      var n := |es| - 1;
      PutAllLookup(es[..n], key);
      PutAscends(PutAll(es[..n]), es[n].key, es[n].value);
      GetPut(PutAll(es[..n]), es[n].key, es[n].value, key);
    }
  }

  lemma {:induction false} GatheredShows(senses: seq<Entry<Sense<Out>>>, fits: seq<bool>, es: seq<Entry<Json>>, costs: seq<nat>)
    requires |senses| == |fits| == |es| == |costs|
    requires forall k :: 0 <= k < |senses| ==>
      senses[k].key == es[k].key && Shows(senses[k].value, fits[k], es[k].value, costs[k])
    ensures Gathered(senses) == if false in fits then Fails else Means(PutAll(es), false, Sum(costs))
    decreases |senses|
  {
    hide Put;
    if senses != [] {
      var n := |senses| - 1;
      GatheredShows(senses[..n], fits[..n], es[..n], costs[..n]);
      assert fits == fits[..n] + [fits[n]] && es == es[..n] + [es[n]];
    }
  }

  /* ---------- documents ---------- */

  /** How many levels lie below n. */
  function Levels(n: T.Node): nat {
    match n
    case Array(items) =>
      if items == [] then 0 else 1 + Most(seq(|items|, i requires 0 <= i < |items| => Levels(items[i])))
    case Object(ms) =>
      if ms == [] then 0 else 1 + Most(seq(|ms|, i requires 0 <= i < |ms| => Levels(ms[i].value)))
    case _ => 0
  }

  /** How many values n holds, itself among them. */
  function Size(n: T.Node): nat {
    match n
    case Array(items) => 1 + Sum(seq(|items|, i requires 0 <= i < |items| => Size(items[i])))
    case Object(ms) => 1 + Sum(seq(|ms|, i requires 0 <= i < |ms| => Size(ms[i].value)))
    case _ => 1
  }

  /** n as it is written again: a boolean is its own JSON text, as a string unless safe types are preserved. */
  function Shown(cfg: Config, n: T.Node): Json {
    match n
    case Null => Null
    case Bool(b) => if cfg.preserveSafe then Bool(b) else String(Encode(Bool(b)))
    case Number(t) => Number(t)
    case String(token) => String(TokenValue(token))
    case Array(items) => Array(seq(|items|, i requires 0 <= i < |items| => Shown(cfg, items[i])))
    case Object(ms) =>
      Object(PutAll(seq(|ms|, i requires 0 <= i < |ms| => Entry(ms[i].key, Shown(cfg, ms[i].value)))))
  }

  lemma BoolText(cfg: Config, b: bool)
    ensures BoolTree(cfg, b) == V.SafeBool(cfg, b) == if cfg.preserveSafe then Bool(b) else String(Encode(Bool(b)))
  {
  }

  ghost predicate NodeShows(cfg: Config, n: T.Node, s: Sense<Out>, depth: nat) {
    Shows(s, depth + Levels(n) <= cfg.maxDepth, Shown(cfg, n), Size(n))
  }

  lemma {:induction false} NodeUntouched(cfg: Config, n: T.Node, field: Field, here: bytes, depth: nat)
    requires Silent(cfg)
    ensures NodeShows(cfg, n, Mean(cfg, n, field, here, depth), depth)
    decreases n
  {
    hide Silent, Chosen, Inspectable, MeanItems, MeanMembers, Listed, Gathered, PutAll, Sum, Most, RuleText, T.KeyText,
      TokenValue, Encode, BoolTree, Located;
    var f := Seen(cfg, field, KindOf(n), here);
    LeftOpen(cfg, RuleText(n), f);
    if depth <= cfg.maxDepth {
      match n
      case String(token) =>
        LeftOpen(cfg, T.KeyText(token), f);
        assert MeanString(cfg, T.KeyText(token), TokenValue(token), Located(f, here), depth).Means?;
        assert MeanShape(cfg, n, f, here, depth) == Means(Kept(String(TokenValue(token))), false, 0);
      case Bool(b) => BoolText(cfg, b);
      case Array(items) => ItemsUntouched(cfg, items, here, depth);
      case Object(ms) => MembersUntouched(cfg, ms, here, depth);
      case _ =>
    }
  }

  lemma {:induction false} ItemsUntouched(cfg: Config, items: seq<T.Node>, here: bytes, depth: nat)
    requires Silent(cfg) && depth <= cfg.maxDepth
    ensures var n := T.Node.Array(items);
      Shows(ListOut(Listed(MeanItems(cfg, items, here, depth))), depth + Levels(n) <= cfg.maxDepth, Shown(cfg, n), Size(n) - 1)
    decreases items
  {
    hide Silent, Mean, Listed, Sum, Most;
    var senses := MeanItems(cfg, items, here, depth);
    var levels := seq(|items|, i requires 0 <= i < |items| => Levels(items[i]));
    var fits := seq(|items|, i requires 0 <= i < |items| => depth + 1 + Levels(items[i]) <= cfg.maxDepth);
    var trees := seq(|items|, i requires 0 <= i < |items| => Shown(cfg, items[i]));
    var costs := seq(|items|, i requires 0 <= i < |items| => Size(items[i]));
    forall k | 0 <= k < |items| ensures Shows(senses[k], fits[k], trees[k], costs[k]) {
      NodeUntouched(cfg, items[k], ItemField(), PathForIndex(here, k), depth + 1);
    }
    ListedShows(senses, fits, trees, costs);
    AllFit(cfg, levels, fits, depth);
  }

  lemma {:induction false} MembersUntouched(cfg: Config, ms: seq<T.Member>, here: bytes, depth: nat)
    requires Silent(cfg) && depth <= cfg.maxDepth
    ensures var n := T.Node.Object(ms);
      Shows(ObjectOut(Gathered(MeanMembers(cfg, ms, here, depth))), depth + Levels(n) <= cfg.maxDepth, Shown(cfg, n), Size(n) - 1)
    decreases ms
  {
    hide Silent, Mean, Gathered, PutAll, Sum, Most;
    var senses := MeanMembers(cfg, ms, here, depth);
    var levels := seq(|ms|, i requires 0 <= i < |ms| => Levels(ms[i].value));
    var fits := seq(|ms|, i requires 0 <= i < |ms| => depth + 1 + Levels(ms[i].value) <= cfg.maxDepth);
    var es := seq(|ms|, i requires 0 <= i < |ms| => Entry(ms[i].key, Shown(cfg, ms[i].value)));
    var costs := seq(|ms|, i requires 0 <= i < |ms| => Size(ms[i].value));
    forall k | 0 <= k < |ms| ensures senses[k].key == es[k].key && Shows(senses[k].value, fits[k], es[k].value, costs[k]) {
      NodeUntouched(cfg, ms[k].value, MemberField(ms[k].key), PathFor(here, ms[k].key), depth + 1);
    }
    GatheredShows(senses, fits, es, costs);
    AllFit(cfg, levels, fits, depth);
  }

  lemma AllFit(cfg: Config, levels: seq<nat>, fits: seq<bool>, depth: nat)
    requires |levels| == |fits| && depth <= cfg.maxDepth
    requires forall k :: 0 <= k < |levels| ==> fits[k] == (depth + 1 + levels[k] <= cfg.maxDepth)
    ensures false !in fits <==> levels == [] || depth + 1 + Most(levels) <= cfg.maxDepth
  {
    if levels != [] {
      if depth + 1 <= cfg.maxDepth {
        MostBounds(levels, cfg.maxDepth - depth - 1);
        hide Most;
        if exists k :: 0 <= k < |levels| && levels[k] > cfg.maxDepth - depth - 1 {
          var k :| 0 <= k < |levels| && levels[k] > cfg.maxDepth - depth - 1;
          assert fits[k] == false;
        }
      } else {
        assert fits[0] == false;
      }
    }
  }

  /**
   A document is masked without an error exactly if it is not too deep and does not hold too many values; what is
   written is the document again, and reads back as such.
   */
  lemma DocumentUntouched(cfg: Config, src: bytes)
    requires Silent(cfg) && |src| <= cfg.maxInputBytes && Utf8.Valid(src) && T.ParseDocument(src).Some?
    ensures var n := T.ParseDocument(src).value;
      && (Masking(cfg, src).errs == [] <==> Levels(n) <= cfg.maxDepth && Size(n) <= cfg.maxNodes)
      && (Masking(cfg, src).errs == [] ==>
            && Masking(cfg, src).text == Encode(Shown(cfg, n))
            && T.ParseDocument(Masking(cfg, src).text).Some?
            && Decoded(T.ParseDocument(Masking(cfg, src).text).value) == SanitizedTree(Shown(cfg, n)))
  {
    hide Silent, Mean, T.ParseDocument, Utf8.Valid, Encode, RootWalk, LoneRoot, Levels, Size, Shown, Decoded, SanitizedTree,
      TextsValid, G.IsDocument;
    R.StreamSucceeds(cfg, src);
    NodeUntouched(cfg, T.ParseDocument(src).value, DocumentField(), ROOT, 0);
    if Masking(cfg, src).errs == [] { R.OutputIsJson(cfg, src); }
  }

  /* ---------- unchanged is untouched ---------- */

  /** If nothing is said to have changed, the tree is the one shown. */
  predicate Honest(s: Sense<Out>, tree: Json) { s.Means? && !s.changed ==> s.value == Kept(tree) }

  lemma {:induction false} ListedHonest(senses: seq<Sense<Out>>, trees: seq<Json>)
    requires |senses| == |trees| && forall k :: 0 <= k < |senses| ==> Honest(senses[k], trees[k])
    ensures Listed(senses).Means? && !Listed(senses).changed ==> Listed(senses).value == trees
    decreases |senses|
  {
    if senses != [] {
      var n := |senses| - 1;
      ListedHonest(senses[..n], trees[..n]);
      assert trees == trees[..n] + [trees[n]];
    }
  }

  lemma {:induction false} GatheredHonest(senses: seq<Entry<Sense<Out>>>, es: seq<Entry<Json>>)
    requires |senses| == |es|
    requires forall k :: 0 <= k < |senses| ==> senses[k].key == es[k].key && Honest(senses[k].value, es[k].value)
    ensures Gathered(senses).Means? && !Gathered(senses).changed ==> Gathered(senses).value == PutAll(es)
    decreases |senses|
  {
    hide Put;
    if senses != [] {
      var n := |senses| - 1;
      GatheredHonest(senses[..n], es[..n]);
    }
  }

  /**
   Whatever the policy and the rules: a value that counts as unchanged means itself. A document in a string is
   returned as it stands only then, so nothing decided in it is ever left standing.
   */
  lemma {:induction false} UnchangedIsUntouched(cfg: Config, n: T.Node, field: Field, here: bytes, depth: nat)
    ensures Honest(Mean(cfg, n, field, here, depth), Shown(cfg, n))
    decreases n
  {
    hide Chosen, Inspectable, MeanItems, MeanMembers, Listed, Gathered, PutAll, RuleText, T.KeyText, TokenValue, Encode,
      BoolTree, MeanInspect;
    var f := Seen(cfg, field, KindOf(n), here);
    if depth <= cfg.maxDepth {
      match n
      case Bool(b) => BoolText(cfg, b);
      case String(token) =>
        assert MeanShape(cfg, n, f, here, depth) ==
          MeanString(cfg, T.KeyText(token), TokenValue(token), Located(f, here), depth);
      case Array(items) =>
        var senses := MeanItems(cfg, items, here, depth);
        var trees := seq(|items|, i requires 0 <= i < |items| => Shown(cfg, items[i]));
        forall k | 0 <= k < |items| ensures Honest(senses[k], trees[k]) {
          R.ItemSense(cfg, items, here, depth, k);
          UnchangedIsUntouched(cfg, items[k], ItemField(), PathForIndex(here, k), depth + 1);
        }
        ListedHonest(senses, trees);
      case Object(ms) =>
        var senses := MeanMembers(cfg, ms, here, depth);
        var es := seq(|ms|, i requires 0 <= i < |ms| => Entry(ms[i].key, Shown(cfg, ms[i].value)));
        forall k | 0 <= k < |ms| ensures senses[k].key == es[k].key && Honest(senses[k].value, es[k].value) {
          R.MemberSense(cfg, ms, here, depth, k);
          UnchangedIsUntouched(cfg, ms[k].value, MemberField(ms[k].key), PathFor(here, ms[k].key), depth + 1);
        }
        GatheredHonest(senses, es);
      case _ =>
    }
  }

  /* ---------- Go values ---------- */

  function TreeLevels(t: U.Tree): nat {
    match t
    case Leaf(_) => 0
    case Listing(ts) =>
      if ts == [] then 0 else 1 + Most(seq(|ts|, i requires 0 <= i < |ts| => TreeLevels(ts[i])))
    case Mapping(ts) =>
      if ts == [] then 0 else 1 + Most(seq(|ts|, i requires 0 <= i < |ts| => TreeLevels(ts[i].value)))
  }

  function TreeSize(t: U.Tree): nat {
    match t
    case Leaf(_) => 1
    case Listing(ts) => 1 + Sum(seq(|ts|, i requires 0 <= i < |ts| => TreeSize(ts[i])))
    case Mapping(ts) => 1 + Sum(seq(|ts|, i requires 0 <= i < |ts| => TreeSize(ts[i].value)))
  }

  /** Nothing in t is unsupported, and its texts and keys are valid UTF-8. */
  ghost predicate Showable(t: U.Tree) {
    match t
    case Leaf(v) => V.KindOfValue(v) != InvalidKind && U.IsLeaf(v) && ((v.Text? || v.JsonNumber?) ==> Utf8.Valid(v.text))
    case Listing(ts) => forall k :: 0 <= k < |ts| ==> Showable(ts[k])
    case Mapping(ts) => forall k :: 0 <= k < |ts| ==> Utf8.Valid(ts[k].key) && Showable(ts[k].value)
  }

  /** t as it comes out: an integer and a boolean are their own text, as a string unless safe types are preserved. */
  function ShownTree(cfg: Config, t: U.Tree): Json {
    match t
    case Leaf(v) => ShownLeaf(cfg, v)
    case Listing(ts) => Array(seq(|ts|, i requires 0 <= i < |ts| => ShownTree(cfg, ts[i])))
    case Mapping(ts) =>
      Object(PutAll(seq(|ts|, i requires 0 <= i < |ts| => Entry(ts[i].key, ShownTree(cfg, ts[i].value)))))
  }

  function ShownLeaf(cfg: Config, v: V.Value): Json {
    match v
    case Text(x) => String(x)
    case JsonNumber(x) => Number(x)
    case Integer(x) => if cfg.preserveSafe then Number(x) else String(x)
    case Bool(b) => if cfg.preserveSafe then Bool(b) else String(Encode(Bool(b)))
    case _ => Null
  }

  ghost predicate TreeShows(cfg: Config, t: U.Tree, s: Sense<Out>, depth: nat) {
    Shows(s, depth + TreeLevels(t) <= cfg.maxDepth && Showable(t), ShownTree(cfg, t), TreeSize(t))
  }

  lemma {:induction false} TreeUntouched(cfg: Config, t: U.Tree, field: Field, here: bytes, depth: nat)
    requires Silent(cfg) && Utf8.Valid(field.key)
    ensures TreeShows(cfg, t, U.MeanUnfolded(cfg, t, field, here, depth), depth)
    decreases t
  {
    hide Silent, Chosen, Listed, Gathered, PutAll, Sum, Most, U.TreeScalar, Utf8.Valid, U.MeanUnfoldedShape;
    var f := Seen(cfg, field, U.TreeKind(t), here);
    LeftOpen(cfg, U.TreeScalar(t), f);
    if depth <= cfg.maxDepth {
      match t
      case Leaf(v) => LeafUntouched(cfg, v, f, here, depth);
      case Listing(ts) => ListingUntouched(cfg, ts, f, here, depth);
      case Mapping(ts) => MappingUntouched(cfg, ts, f, here, depth);
    }
  }

  lemma LeafUntouched(cfg: Config, v: V.Value, f: Field, here: bytes, depth: nat)
    requires Silent(cfg) && depth <= cfg.maxDepth
    ensures !U.BadLeaf(U.Leaf(v)) ==>
      Shows(U.MeanUnfoldedShape(cfg, U.Leaf(v), f, here, depth), Showable(U.Leaf(v)), ShownLeaf(cfg, v), 0)
    ensures U.BadLeaf(U.Leaf(v)) ==> !Showable(U.Leaf(v))
  {
    hide Silent, MeanInspect, Inspectable, Utf8.Valid, Encode;
    match v
    case Text(s) => LeftOpen(cfg, s, f);
    case Bool(b) => BoolText(cfg, b);
    case _ =>
  }

  lemma {:induction false} ListingUntouched(cfg: Config, ts: seq<U.Tree>, f: Field, here: bytes, depth: nat)
    requires Silent(cfg) && depth <= cfg.maxDepth
    ensures var t := U.Listing(ts);
      Shows(U.MeanUnfoldedShape(cfg, t, f, here, depth), depth + TreeLevels(t) <= cfg.maxDepth && Showable(t),
            ShownTree(cfg, t), TreeSize(t) - 1)
    decreases ts
  {
    hide Silent, U.MeanUnfolded, Listed, Sum, Most, Utf8.Valid, Showable;
    var senses := seq(|ts|, i requires 0 <= i < |ts| =>
      U.MeanUnfolded(cfg, ts[i], V.EntryField(f, []), PathForIndex(here, i), depth + 1));
    var levels := seq(|ts|, i requires 0 <= i < |ts| => TreeLevels(ts[i]));
    var fine := seq(|ts|, i requires 0 <= i < |ts| => Showable(ts[i]));
    var fits := seq(|ts|, i requires 0 <= i < |ts| => depth + 1 + TreeLevels(ts[i]) <= cfg.maxDepth && Showable(ts[i]));
    var trees := seq(|ts|, i requires 0 <= i < |ts| => ShownTree(cfg, ts[i]));
    var costs := seq(|ts|, i requires 0 <= i < |ts| => TreeSize(ts[i]));
    VT.NothingIsValid();
    forall k | 0 <= k < |ts| ensures Shows(senses[k], fits[k], trees[k], costs[k]) {
      TreeUntouched(cfg, ts[k], V.EntryField(f, []), PathForIndex(here, k), depth + 1);
    }
    ListedShows(senses, fits, trees, costs);
    BothFit(cfg, levels, fine, fits, depth);
    assert Showable(U.Listing(ts)) <==> false !in fine by { AllShowable(ts, fine); }
  }

  lemma AllShowable(ts: seq<U.Tree>, fine: seq<bool>)
    requires |fine| == |ts| && forall k :: 0 <= k < |ts| ==> fine[k] == Showable(ts[k])
    ensures Showable(U.Listing(ts)) <==> false !in fine
  {
    if Showable(U.Listing(ts)) {
      forall k | 0 <= k < |ts| ensures fine[k] { assert Showable(ts[k]); }
    }
  }

  lemma AllEntriesShowable(ts: seq<Entry<U.Tree>>, fine: seq<bool>)
    requires |fine| == |ts| && forall k :: 0 <= k < |ts| ==> fine[k] == (Utf8.Valid(ts[k].key) && Showable(ts[k].value))
    ensures Showable(U.Mapping(ts)) <==> false !in fine
  {
    hide Utf8.Valid;
    if Showable(U.Mapping(ts)) {
      forall k | 0 <= k < |ts| ensures fine[k] { assert Showable(ts[k].value); }
    }
  }

  lemma BothFit(cfg: Config, levels: seq<nat>, fine: seq<bool>, fits: seq<bool>, depth: nat)
    requires |levels| == |fits| == |fine| && depth <= cfg.maxDepth
    requires forall k :: 0 <= k < |levels| ==> fits[k] == (depth + 1 + levels[k] <= cfg.maxDepth && fine[k])
    ensures false !in fits <==> (levels == [] || depth + 1 + Most(levels) <= cfg.maxDepth) && false !in fine
  {
    var deep := seq(|levels|, i requires 0 <= i < |levels| => depth + 1 + levels[i] <= cfg.maxDepth);
    AllFit(cfg, levels, deep, depth);
    hide Most;
    if false !in fits {
      forall k | 0 <= k < |fits| ensures deep[k] && fine[k] { assert fits[k] in fits; }
    }
    if false !in deep && false !in fine {
      forall k | 0 <= k < |fits| ensures fits[k] {
        assert deep[k] in deep && fine[k] in fine;
      }
    }
  }

  lemma {:induction false} MappingUntouched(cfg: Config, ts: seq<Entry<U.Tree>>, f: Field, here: bytes, depth: nat)
    requires Silent(cfg) && depth <= cfg.maxDepth
    ensures var t := U.Mapping(ts);
      Shows(U.MeanUnfoldedShape(cfg, t, f, here, depth), depth + TreeLevels(t) <= cfg.maxDepth && Showable(t),
            ShownTree(cfg, t), TreeSize(t) - 1)
    decreases ts
  {
    hide Silent, U.MeanUnfolded, Gathered, PutAll, Sum, Most, Utf8.Valid, Showable;
    var senses := seq(|ts|, i requires 0 <= i < |ts| =>
      Entry(ts[i].key, U.MeanUnfolded(cfg, ts[i].value, V.EntryField(f, ts[i].key), PathFor(here, ts[i].key), depth + 1)));
    var levels := seq(|ts|, i requires 0 <= i < |ts| => TreeLevels(ts[i].value));
    var fine := seq(|ts|, i requires 0 <= i < |ts| => Utf8.Valid(ts[i].key) && Showable(ts[i].value));
    var fits := seq(|ts|, i requires 0 <= i < |ts| =>
      depth + 1 + TreeLevels(ts[i].value) <= cfg.maxDepth && Utf8.Valid(ts[i].key) && Showable(ts[i].value));
    var es := seq(|ts|, i requires 0 <= i < |ts| => Entry(ts[i].key, ShownTree(cfg, ts[i].value)));
    var costs := seq(|ts|, i requires 0 <= i < |ts| => TreeSize(ts[i].value));
    forall k | 0 <= k < |ts| ensures senses[k].key == es[k].key && Shows(senses[k].value, fits[k], es[k].value, costs[k]) {
      if Utf8.Valid(ts[k].key) {
        TreeUntouched(cfg, ts[k].value, V.EntryField(f, ts[k].key), PathFor(here, ts[k].key), depth + 1);
      } else {
        BadKeyFails(cfg, ts[k].value, V.EntryField(f, ts[k].key), PathFor(here, ts[k].key), depth + 1);
      }
    }
    GatheredShows(senses, fits, es, costs);
    BothFit(cfg, levels, fine, fits, depth);
    AllEntriesShowable(ts, fine);
  }

  lemma BadKeyFails(cfg: Config, t: U.Tree, field: Field, here: bytes, depth: nat)
    requires !Utf8.Valid(field.key)
    ensures U.MeanUnfolded(cfg, t, field, here, depth).Fails?
  {
    hide Utf8.Valid;
  }

  /**
   A Go value that unfolds to a tree means that tree again, or nothing if it is too deep, holds something unsupported,
   or holds a text or a key that is not valid UTF-8.
   */
  lemma ValueUntouched(cfg: Config, h: V.Heap, v: V.Value, t: U.Tree)
    requires Silent(cfg) && V.Closed(h) && V.Fits(h, v) && U.Unfolds(h, v, t)
    ensures TreeShows(cfg, t, MV.RootMeaning(cfg, V.NODES, h, v), 0)
  {
    hide Silent, V.Closed, V.Fits, U.Unfolds, U.MeanUnfolded, V.MeanValue, TreeShows;
    VT.NothingIsValid();
    U.SharingIsInvisible(cfg, h, v, h, v, t, MV.RootValueField(), ROOT, 0);
    TreeUntouched(cfg, t, MV.RootValueField(), ROOT, 0);
  }
}
