/** The streaming walk against the reference walk of the decoded tree, as meanings. */
module DomAgreement {
  import opened Bytes
  import opened Options
  import opened Settings
  import opened SortedMap
  import opened JsonOut
  import opened MaskSpec
  import opened Meaning
  import opened DomMeaning
  import T = JsonTree

  /** Whatever the streamed value a means, the decoded value b means, for no more nodes. */
  predicate Covers(a: Sense<Out>, b: Sense<Out>) {
    a.Means? ==> b.Means? && b.cost <= a.cost && a.value == CanonOut(b.value)
  }

  /* ---------- what a later duplicate hides ---------- */

  /** What the members cost that a later duplicate hides from the reference, or that one of them fails. */
  datatype Extra = Broken | Extra(cost: nat)

  /**
   When the decoded value b means something, the streamed value a does exactly if nothing hidden fails, and costs
   what is hidden on top.
   */
  predicate Differs(a: Sense<Out>, b: Sense<Out>, x: Extra) {
    b.Means? ==> (a.Means? <==> x.Extra?) && (a.Means? ==> a.cost == b.cost + x.cost)
  }

  function ExtraOf(s: Sense<Out>): Extra { if s.Means? then Extra(s.cost) else Broken }

  function TotalExtra(xs: seq<Extra>): Extra {
    if xs == [] then Extra(0)
    else
      match (TotalExtra(xs[..|xs| - 1]), xs[|xs| - 1])
      case (Extra(m), Extra(n)) => Extra(m + n)
      case _ => Broken
  }

  /** A later member has the key of member k. */
  predicate IsHidden<V>(es: seq<Entry<V>>, k: nat)
    requires k < |es|
  {
    exists i :: k < i < |es| && es[i].key == es[k].key
  }

  /** What is hidden anywhere in n, as far as the walk looks into it. */
  ghost function Hidden(cfg: Config, n: T.Node, field: Field, here: bytes, depth: nat): Extra
    decreases n, 1
  {
    if depth > cfg.maxDepth || !Chosen(cfg, RuleText(n), Seen(cfg, field, KindOf(n), here)).Open? then Extra(0)
    else HiddenIn(cfg, n, here, depth)
  }

  ghost function HiddenIn(cfg: Config, n: T.Node, here: bytes, depth: nat): Extra
    decreases n, 0
  {
    match n
    case Array(items) => TotalExtra(HiddenItems(cfg, items, here, depth))
    case Object(ms) => TotalExtra(HiddenMembers(cfg, ms, here, depth))
    case _ => Extra(0)
  }

  ghost function HiddenItems(cfg: Config, items: seq<T.Node>, here: bytes, depth: nat): (r: seq<Extra>)
    ensures |r| == |items|
    decreases items
  {
    seq(|items|, i requires 0 <= i < |items| => Hidden(cfg, items[i], ItemField(), PathForIndex(here, i), depth + 1))
  }

  /** A hidden member is hidden whole; in any other there may be hidden ones. */
  ghost function HiddenMembers(cfg: Config, ms: seq<T.Member>, here: bytes, depth: nat): (r: seq<Extra>)
    ensures |r| == |ms|
    decreases ms
  {
    seq(|ms|, i requires 0 <= i < |ms| =>
      if IsHidden(AsEntries(ms), i)
      then ExtraOf(Mean(cfg, ms[i].value, MemberField(ms[i].key), PathFor(here, ms[i].key), depth + 1))
      else Hidden(cfg, ms[i].value, MemberField(ms[i].key), PathFor(here, ms[i].key), depth + 1))
  }

  /* ---------- members ---------- */

  ghost predicate KeyedAlike(a: seq<Entry<Sense<Out>>>, b: seq<Entry<Sense<Out>>>) {
    && DistinctKeys(b)
    && (forall key :: LastWith(a, key).Some? <==> Get(b, key).Some?)
    && (forall k :: 0 <= k < |b| ==> LastWith(a, b[k].key).Some?)
  }

  ghost predicate AllCover(a: seq<Entry<Sense<Out>>>, b: seq<Entry<Sense<Out>>>)
    requires forall k :: 0 <= k < |b| ==> LastWith(a, b[k].key).Some?
  {
    forall k :: 0 <= k < |b| ==> Covers(LastWith(a, b[k].key).value, b[k].value)
  }

  /** The last member of a key is one of the members. */
  lemma {:induction false} LastIsMember<V>(es: seq<Entry<V>>, key: bytes) returns (k: nat)
    requires LastWith(es, key).Some?
    ensures k < |es| && es[k] == Entry(key, LastWith(es, key).value)
    decreases |es|
  {
    k := |es| - 1;
    if es[k].key != key {
      k := LastIsMember(es[..k], key);
    }
  }

  /** A map costs no more than the members it was decoded from. */
  lemma {:induction false} CostFalls(a: seq<Entry<Sense<Out>>>, b: seq<Entry<Sense<Out>>>)
    requires AllMean(a) && DistinctKeys(b)
    requires forall k :: 0 <= k < |b| ==> LastWith(a, b[k].key).Some?
    requires AllCover(a, b)
    ensures AllMean(b) && TotalCost(b) <= TotalCost(a)
    decreases |b|
  {
    hide Without, TotalCost, LastWith;
    if b == [] {
      NothingCosts();
    } else {
      var n := |b| - 1;
      var key, rest, front := b[n].key, Without(a, b[n].key), b[..n];
      WithoutKey(a, key, key);
      WithoutCosts(a, key);
      forall k | 0 <= k < n ensures LastWith(rest, front[k].key) == LastWith(a, front[k].key) {
        WithoutKey(a, key, front[k].key);
      }
      forall k | 0 <= k < n
        ensures LastWith(rest, front[k].key).Some? && Covers(LastWith(rest, front[k].key).value, front[k].value)
      {
        assert front[k] == b[k];
      }
      CostFalls(rest, front);
      CostOfLast(b);
      forall k | 0 <= k < |b| ensures b[k].value.Means? {
        if k < n { assert front[k] == b[k]; }
      }
    }
  }

  lemma NothingCosts()
    ensures TotalCost([]) == 0
  {
  }

  lemma CostOfLast(b: seq<Entry<Sense<Out>>>)
    requires b != [] && b[|b| - 1].value.Means?
    ensures TotalCost(b) == TotalCost(b[..|b| - 1]) + b[|b| - 1].value.cost
  {
  }

  /** The last member of a key differs from the map's entry by what is hidden in it; any other is hidden whole. */
  ghost predicate AllDiffer(a: seq<Entry<Sense<Out>>>, b: seq<Entry<Sense<Out>>>, xs: seq<Extra>) {
    && |xs| == |a|
    && (forall k :: 0 <= k < |a| && IsHidden(a, k) ==> xs[k] == ExtraOf(a[k].value))
    && (forall k :: 0 <= k < |a| && !IsHidden(a, k) ==>
          Get(b, a[k].key).Some? && Differs(a[k].value, Get(b, a[k].key).value, xs[k]))
  }

  ghost predicate HasKey<V>(es: seq<Entry<V>>, key: bytes) { exists k :: 0 <= k < |es| && es[k].key == key }

  lemma {:induction false} TotalCostCons(a: seq<Entry<Sense<Out>>>)
    requires a != []
    ensures TotalCost(a) == TotalCost(a[1..]) + if a[0].value.Means? then a[0].value.cost else 0
    decreases |a|
  {
    if |a| > 1 {
      TotalCostCons(a[..|a| - 1]);
      assert a[..|a| - 1][1..] == a[1..][..|a| - 2];
    } else {
      assert a[..0] == [] && a[1..] == [];
    }
  }

  lemma {:induction false} TotalExtraCons(xs: seq<Extra>)
    requires xs != []
    ensures TotalExtra(xs).Extra? <==> xs[0].Extra? && TotalExtra(xs[1..]).Extra?
    ensures TotalExtra(xs).Extra? ==> TotalExtra(xs).cost == xs[0].cost + TotalExtra(xs[1..]).cost
    decreases |xs|
  {
    if |xs| > 1 {
      TotalExtraCons(xs[..|xs| - 1]);
      assert xs[..|xs| - 1][1..] == xs[1..][..|xs| - 2];
    } else {
      assert xs[..0] == [] && xs[1..] == [];
    }
  }

  /** The first member aside, the others are hidden or not as before. */
  lemma HiddenShift<V>(es: seq<Entry<V>>, k: nat)
    requires k + 1 < |es|
    ensures IsHidden(es[1..], k) <==> IsHidden(es, k + 1)
  {
    if IsHidden(es, k + 1) {
      var i :| k + 1 < i < |es| && es[i].key == es[k + 1].key;
      assert es[1..][i - 1].key == es[1..][k].key;
    }
    if IsHidden(es[1..], k) {
      var i :| k < i < |es[1..]| && es[1..][i].key == es[1..][k].key;
      assert es[i + 1].key == es[k + 1].key;
    }
  }

  /** Over a whole object: the members mean something exactly if nothing hidden fails, and what is hidden comes on top. */
  lemma {:induction false} ExtrasAddUp(a: seq<Entry<Sense<Out>>>, b: seq<Entry<Sense<Out>>>, xs: seq<Extra>)
    requires DistinctKeys(b) && AllMean(b) && AllDiffer(a, b, xs)
    requires forall key :: HasKey(a, key) <==> Get(b, key).Some?
    ensures AllMean(a) <==> TotalExtra(xs).Extra?
    ensures AllMean(a) ==> TotalCost(a) == TotalCost(b) + TotalExtra(xs).cost
    decreases |a|
  {
    hide TotalCost, TotalExtra, Get, Differs, IsHidden, Without, LastWith;
    if a == [] {
      NothingLeft(b);
    } else {
      var key, rest, more := a[0].key, a[1..], xs[1..];
      TotalCostCons(a);
      TotalExtraCons(xs);
      assert AllMean(a) <==> a[0].value.Means? && AllMean(rest) by { MeanCons(a); }
      var left := if IsHidden(a, 0) then b else Without(b, key);
      RestDiffers(a, b, xs);
      ExtrasAddUp(rest, left, more);
      if !IsHidden(a, 0) { FirstDiffers(a, b, xs); }
    }
  }

  lemma NothingLeft(b: seq<Entry<Sense<Out>>>)
    requires forall key :: Get(b, key).None?
    ensures TotalCost([]) == 0 == TotalCost(b) && TotalExtra([]) == Extra(0)
  {
    assert b == [] || Get(b, b[0].key).Some?;
  }

  lemma MeanCons(a: seq<Entry<Sense<Out>>>)
    requires a != []
    ensures AllMean(a) <==> a[0].value.Means? && AllMean(a[1..])
  {
    if AllMean(a[1..]) && a[0].value.Means? {
      forall k | 0 <= k < |a| ensures a[k].value.Means? { if k > 0 { assert a[k] == a[1..][k - 1]; } }
    }
  }

  /** A member that is not hidden stands alone from there on, and pays for its entry. */
  lemma FirstDiffers(a: seq<Entry<Sense<Out>>>, b: seq<Entry<Sense<Out>>>, xs: seq<Extra>)
    requires DistinctKeys(b) && AllMean(b) && AllDiffer(a, b, xs) && a != [] && !IsHidden(a, 0)
    ensures a[0].value.Means? <==> xs[0].Extra?
    ensures a[0].value.Means? ==>
      a[0].value.cost + TotalCost(Without(b, a[0].key)) == TotalCost(b) + xs[0].cost
  {
    hide TotalCost, Without, Get, LastWith;
    LastIsOnly(b, a[0].key);
    WithoutOnly(b, a[0].key);
    var k := LastIsMember(b, a[0].key);
  }

  lemma RestDiffers(a: seq<Entry<Sense<Out>>>, b: seq<Entry<Sense<Out>>>, xs: seq<Extra>)
    requires DistinctKeys(b) && AllMean(b) && AllDiffer(a, b, xs) && a != []
    requires forall key :: HasKey(a, key) <==> Get(b, key).Some?
    ensures var left := if IsHidden(a, 0) then b else Without(b, a[0].key);
      && DistinctKeys(left) && AllMean(left) && AllDiffer(a[1..], left, xs[1..])
      && forall key :: HasKey(a[1..], key) <==> Get(left, key).Some?
  {
    hide Without, Get, LastWith, Differs, IsHidden, HasKey;
    var rest, key := a[1..], a[0].key;
    var left := if IsHidden(a, 0) then b else Without(b, key);
    if !IsHidden(a, 0) {
      LastIsOnly(b, key);
      WithoutOnly(b, key);
      WithoutKey(b, key, key);
    }
    forall other ensures Get(left, other) == if !IsHidden(a, 0) && other == key then None else Get(b, other) {
      if !IsHidden(a, 0) {
        WithoutKey(b, key, other);
        LastIsOnly(b, other);
        LastIsOnly(left, other);
      }
    }
    forall other ensures HasKey(rest, other) <==> HasKey(a, other) && (IsHidden(a, 0) || other != key) {
      HasKeyCons(a, other);
    }
    forall k | 0 <= k < |rest| ensures IsHidden(rest, k) <==> IsHidden(a, k + 1) { HiddenShift(a, k); }
    forall k | 0 <= k < |rest| && !IsHidden(rest, k) ensures IsHidden(a, 0) || rest[k].key != key {
      HasKeyCons(a, rest[k].key);
      KeyAt(rest, k);
    }
  }

  lemma KeyAt<V>(es: seq<Entry<V>>, k: nat)
    requires k < |es|
    ensures HasKey(es, es[k].key)
  {
  }

  lemma HasKeyCons<V>(a: seq<Entry<V>>, key: bytes)
    requires a != []
    ensures HasKey(a[1..], key) <==> HasKey(a, key) && (IsHidden(a, 0) || key != a[0].key)
  {
    if HasKey(a[1..], key) {
      var k :| 0 <= k < |a[1..]| && a[1..][k].key == key;
      assert a[k + 1].key == key;
    }
    if HasKey(a, key) {
      var k :| 0 <= k < |a| && a[k].key == key;
      if k > 0 {
        assert a[1..][k - 1].key == key;
      } else if IsHidden(a, 0) {
        var i :| 0 < i < |a| && a[i].key == a[0].key;
        assert a[1..][i - 1].key == key;
      }
    }
  }

  /** With distinct keys, every member is the last of its key. */
  lemma LastOfKey<V>(es: seq<Entry<V>>, k: nat)
    requires k < |es| && DistinctKeys(es)
    ensures LastWith(es, es[k].key) == Some(es[k].value)
  {
    LastIsOnly(es, es[k].key);
    GetIffIn(es, es[k].key, es[k].value);
  }

  /** Lists with distinct keys that answer every lookup alike cost the same. */
  lemma SameCost(a: seq<Entry<Sense<Out>>>, b: seq<Entry<Sense<Out>>>)
    requires DistinctKeys(a) && DistinctKeys(b) && AllMean(a) && AllMean(b)
    requires forall key :: LastWith(a, key) == Get(b, key)
    ensures TotalCost(a) == TotalCost(b)
  {
    hide Get, LastWith, TotalCost, TotalExtra;
    var xs := seq(|a|, i requires 0 <= i < |a| => Extra(0));
    forall k | 0 <= k < |a| ensures !IsHidden(a, k) && Get(b, a[k].key) == Some(a[k].value) { LastOfKey(a, k); }
    forall key ensures HasKey(a, key) <==> Get(b, key).Some? { LastIffKey(a, key); }
    ExtrasAddUp(a, b, xs);
    NoExtras(xs);
  }

  /** The members of the streamed object, settled, are the map's entries in key order. */
  lemma SameMembers(a: seq<Entry<Sense<Out>>>, b: seq<Entry<Sense<Out>>>)
    requires KeyedAlike(a, b) && AllCover(a, b) && AllMean(a) && AllMean(b)
    ensures Gathered(a).Means? && Collected(b).Means?
    ensures Gathered(a).value == SortEntries(CanonEntries(Collected(b).value))
  {
    hide LastWith, Get, Gathered, Collected, SortEntries, Ascending, Canon;
    GatheredLookup(a, []);
    CollectedLookup(b, []);
    var kept := Collected(b).value;
    SortedLookups(CanonEntries(kept), []);
    forall key ensures Get(Gathered(a).value, key) == Get(SortEntries(CanonEntries(kept)), key) {
      GatheredLookup(a, key);
      CollectedLookup(b, key);
      SortedLookups(CanonEntries(kept), key);
      CanonLookup(kept, key);
      LastIsOnly(b, key);
      if LastWith(b, key).Some? {
        var k := LastIsMember(b, key);
        var i := LastIsMember(a, key);
        assert Covers(LastWith(a, b[k].key).value, b[k].value);
      }
    }
    SameLookups(Gathered(a).value, SortEntries(CanonEntries(kept)));
  }

  lemma {:induction false} LastIffKey<V>(es: seq<Entry<V>>, key: bytes)
    ensures LastWith(es, key).Some? <==> HasKey(es, key)
    decreases |es|
  {
    if es != [] {
      var n := |es| - 1;
      LastIffKey(es[..n], key);
      assert es == es[..n] + [es[n]];
      if HasKey(es, key) && es[n].key != key {
        var k :| 0 <= k < |es| && es[k].key == key;
        assert es[..n][k].key == key;
      }
    }
  }

  lemma ObjectsAgree(a: seq<Entry<Sense<Out>>>, b: seq<Entry<Sense<Out>>>)
    requires KeyedAlike(a, b) && AllCover(a, b)
    ensures Covers(ObjectOut(Gathered(a)), ObjectOut(Collected(b)))
    ensures forall xs :: AllDiffer(a, b, xs) ==> Differs(ObjectOut(Gathered(a)), ObjectOut(Collected(b)), TotalExtra(xs))
  {
    hide LastWith, Get, Gathered, Collected, SortEntries, TotalCost, CanonEntries;
    GatheredLookup(a, []);
    CollectedLookup(b, []);
    if AllMean(a) {
      CostFalls(a, b);
      SameMembers(a, b);
    }
    if AllMean(b) {
      forall key ensures HasKey(a, key) <==> Get(b, key).Some? { LastIffKey(a, key); }
      forall xs | AllDiffer(a, b, xs)
        ensures Differs(ObjectOut(Gathered(a)), ObjectOut(Collected(b)), TotalExtra(xs))
      {
        ExtrasAddUp(a, b, xs);
      }
    }
  }

  /* ---------- elements ---------- */

  predicate EachCovers(a: seq<Sense<Out>>, b: seq<Sense<Out>>) {
    |a| == |b| && forall k :: 0 <= k < |a| ==> Covers(a[k], b[k])
  }

  predicate EachDiffers(a: seq<Sense<Out>>, b: seq<Sense<Out>>, xs: seq<Extra>) {
    |a| == |b| == |xs| && forall k :: 0 <= k < |a| ==> Differs(a[k], b[k], xs[k])
  }

  lemma {:induction false} ItemsAgree(a: seq<Sense<Out>>, b: seq<Sense<Out>>)
    requires EachCovers(a, b)
    ensures var x, y := Listed(a), Listed(b);
      x.Means? ==> y.Means? && y.cost <= x.cost && Array(x.value) == Canon(Array(y.value))
    decreases |a|
  {
    if a != [] {
      ItemsAgree(a[..|a| - 1], b[..|b| - 1]);
    }
  }

  lemma {:induction false} ItemsDiffer(a: seq<Sense<Out>>, b: seq<Sense<Out>>, xs: seq<Extra>)
    requires EachDiffers(a, b, xs)
    ensures var x, y := Listed(a), Listed(b);
      y.Means? ==> (x.Means? <==> TotalExtra(xs).Extra?) && (x.Means? ==> x.cost == y.cost + TotalExtra(xs).cost)
    decreases |a|
  {
    if a != [] {
      var n := |a| - 1;
      ItemsDiffer(a[..n], b[..n], xs[..n]);
    }
  }

  lemma ArraysAgree(a: seq<Sense<Out>>, b: seq<Sense<Out>>)
    requires EachCovers(a, b)
    ensures Covers(ListOut(Listed(a)), ListOut(Listed(b)))
    ensures forall xs :: EachDiffers(a, b, xs) ==> Differs(ListOut(Listed(a)), ListOut(Listed(b)), TotalExtra(xs))
  {
    hide Listed, TotalExtra;
    ItemsAgree(a, b);
    forall xs | EachDiffers(a, b, xs) ensures Differs(ListOut(Listed(a)), ListOut(Listed(b)), TotalExtra(xs)) {
      ItemsDiffer(a, b, xs);
    }
  }

  /* ---------- trees ---------- */

  /** A policy that says it reads no paths decides alike on all of them. */
  ghost predicate PathsHonest(cfg: Config) {
    !cfg.needPaths ==> forall f: Field, p: bytes :: cfg.policy(f) == cfg.policy(f.(path := p))
  }

  lemma SameChoice(cfg: Config, text: bytes, f: Field, p: bytes)
    requires PathsHonest(cfg) && (cfg.needPaths ==> f.path == p)
    ensures Chosen(cfg, text, f) == Chosen(cfg, text, f.(path := p))
  {
    hide ApplyRule;
    if cfg.needPaths { assert f == f.(path := p); }
  }

  lemma SameKind(n: T.Node, j: Json)
    requires Decodes(n, j) && Faithful(n)
    ensures KindOf(n) == KindOfTree(j) && RuleText(n) == TreeText(j)
  {
    hide T.KeyText, TokenValue, LastWith;
  }

  /**
   Whatever the document means streamed, it means decoded, with the same tree and for no more nodes; and if it means
   something decoded, it does so streamed exactly if nothing a later duplicate hides fails, and costs that much more.
   */
  lemma {:induction false} TreesAgree(cfg: Config, n: T.Node, j: Json, field: Field, here: bytes, depth: nat)
    requires PathsHonest(cfg) && Decodes(n, j) && Faithful(n)
    requires field.source == JSONSource && field.path in {[], here} && here != []
    ensures Covers(Mean(cfg, n, field, here, depth), MeanTree(cfg, j, field.key, here, depth))
    ensures Differs(Mean(cfg, n, field, here, depth), MeanTree(cfg, j, field.key, here, depth),
                    Hidden(cfg, n, field, here, depth))
    decreases j, 1
  {
    hide Chosen, RuleText, TreeText, Decodes, Faithful, MeanShape, MeanTreeShape, Canon, HiddenItems, HiddenMembers, TotalExtra;
    SameKind(n, j);
    var f := Seen(cfg, field, KindOf(n), here);
    SameChoice(cfg, RuleText(n), f, here);
    assert f.(path := here) == TreeField(j, field.key, here);
    ChosenIsCanon(cfg, RuleText(n), f);
    if depth <= cfg.maxDepth {
      ShapesAgree(cfg, n, j, f, here, depth);
    }
  }

  lemma ChosenIsCanon(cfg: Config, text: bytes, f: Field)
    ensures var c := Chosen(cfg, text, f); c.Chose? ==> CanonOut(c.out) == c.out
  {
    hide ApplyRule;
  }

  lemma {:induction false} ShapesAgree(cfg: Config, n: T.Node, j: Json, f: Field, here: bytes, depth: nat)
    requires PathsHonest(cfg) && Decodes(n, j) && Faithful(n) && depth <= cfg.maxDepth
    requires f.source == JSONSource && f.path in {[], here} && here != [] && f.kind == KindOfTree(j)
    ensures var a, b := MeanShape(cfg, n, f, here, depth), MeanTreeShape(cfg, j, TreeField(j, f.key, here), depth);
      Covers(a, b) && Differs(a, b, HiddenIn(cfg, n, here, depth))
    decreases j, 0
  {
    hide Mean, MeanTree, MeanString, T.KeyText, TokenValue, Listed, Gathered, Collected, LastWith, SortEntries, CanonEntries,
      MeanItems, MeanTrees, MeanMembers, MeanEntries, HiddenItems, HiddenMembers, TotalExtra;
    match j
    case Array(js) =>
      ElementsAgree(cfg, n.items, js, here, depth);
      ArraysAgree(MeanItems(cfg, n.items, here, depth), MeanTrees(cfg, js, here, depth));
    case Object(es) =>
      EntriesAgree(cfg, n.members, es, here, depth);
      ObjectsAgree(MeanMembers(cfg, n.members, here, depth), MeanEntries(cfg, es, here, depth));
    case String(s) => StringIsCanon(cfg, s, s, TreeField(j, f.key, here), depth);
    case _ =>
  }

  lemma StringIsCanon(cfg: Config, text: bytes, value: bytes, f: Field, depth: nat)
    requires depth <= cfg.maxDepth
    ensures var m := MeanString(cfg, text, value, f, depth); m.Means? ==> CanonOut(m.value) == m.value
  {
    hide MeanInspect, Inspectable;
  }

  lemma {:induction false} ElementsAgree(cfg: Config, items: seq<T.Node>, js: seq<Json>, here: bytes, depth: nat)
    requires PathsHonest(cfg) && depth <= cfg.maxDepth && here != [] && |items| == |js|
    requires forall k :: 0 <= k < |js| ==> Decodes(items[k], js[k]) && Faithful(items[k])
    ensures var a, b := MeanItems(cfg, items, here, depth), MeanTrees(cfg, js, here, depth);
      EachCovers(a, b) && EachDiffers(a, b, HiddenItems(cfg, items, here, depth))
    decreases js
  {
    hide Mean, MeanTree, Decodes, Faithful, Canon, Hidden;
    forall k | 0 <= k < |js|
      ensures Covers(MeanItems(cfg, items, here, depth)[k], MeanTrees(cfg, js, here, depth)[k])
      ensures Differs(MeanItems(cfg, items, here, depth)[k], MeanTrees(cfg, js, here, depth)[k],
                      HiddenItems(cfg, items, here, depth)[k])
    {
      TreesAgree(cfg, items[k], js[k], ItemField(), PathForIndex(here, k), depth + 1);
    }
  }

  /** The senses of the members, looked up by key. */
  lemma {:induction false} MeanOfLast(cfg: Config, ms: seq<T.Member>, here: bytes, depth: nat, key: bytes)
    requires depth <= cfg.maxDepth
    ensures LastWith(MeanMembers(cfg, ms, here, depth), key) ==
      match LastWith(AsEntries(ms), key)
      case None => None
      case Some(n) => Some(Mean(cfg, n, MemberField(key), PathFor(here, key), depth + 1))
    decreases |ms|
  {
    hide Mean;
    if ms != [] {
      var k := |ms| - 1;
      MeanOfLast(cfg, ms[..k], here, depth, key);
      assert MeanMembers(cfg, ms[..k], here, depth) == MeanMembers(cfg, ms, here, depth)[..k];
      assert AsEntries(ms[..k]) == AsEntries(ms)[..k];
    }
  }

  lemma {:induction false} EntriesAgree(cfg: Config, ms: seq<T.Member>, es: seq<Entry<Json>>, here: bytes, depth: nat)
    requires PathsHonest(cfg) && depth <= cfg.maxDepth && here != [] && DistinctKeys(es)
    requires forall key :: LastWith(AsEntries(ms), key).Some? <==> Get(es, key).Some?
    requires forall k :: 0 <= k < |es| ==>
      LastWith(AsEntries(ms), es[k].key).Some? && Decodes(LastWith(AsEntries(ms), es[k].key).value, es[k].value)
    requires forall k :: 0 <= k < |ms| ==> Faithful(ms[k].value)
    ensures var a, b := MeanMembers(cfg, ms, here, depth), MeanEntries(cfg, es, here, depth);
      KeyedAlike(a, b) && AllCover(a, b) && AllDiffer(a, b, HiddenMembers(cfg, ms, here, depth))
    decreases es
  {
    hide Mean, MeanTree, Decodes, Faithful, Canon, LastWith, Get, AsEntries, Hidden, IsHidden, Differs;
    var a, b := MeanMembers(cfg, ms, here, depth), MeanEntries(cfg, es, here, depth);
    var xs := HiddenMembers(cfg, ms, here, depth);
    forall key ensures LastWith(a, key).Some? <==> Get(b, key).Some? {
      MeanOfLast(cfg, ms, here, depth, key);
      EntryKeys(cfg, es, here, depth, key);
    }
    forall k | 0 <= k < |es|
      ensures LastWith(a, b[k].key).Some? && Covers(LastWith(a, b[k].key).value, b[k].value)
      ensures Differs(LastWith(a, b[k].key).value, b[k].value,
                      Hidden(cfg, LastWith(AsEntries(ms), es[k].key).value, MemberField(es[k].key),
                             PathFor(here, es[k].key), depth + 1))
    {
      var key := es[k].key;
      MeanOfLast(cfg, ms, here, depth, key);
      var n := LastWith(AsEntries(ms), key).value;
      var i := LastIsMember(AsEntries(ms), key);
      EntryOf(ms, i);
      TreesAgree(cfg, n, es[k].value, MemberField(key), PathFor(here, key), depth + 1);
    }
    forall i | 0 <= i < |ms| ensures IsHidden(a, i) <==> IsHidden(AsEntries(ms), i) {
      HiddenAlike(cfg, ms, here, depth, i);
    }
    forall i | 0 <= i < |ms| && !IsHidden(a, i)
      ensures Get(b, a[i].key).Some? && Differs(a[i].value, Get(b, a[i].key).value, xs[i])
    {
      OpenIsLast(AsEntries(ms), i);
      EntryOf(ms, i);
      OpenIsLast(a, i);
      var k := FoundAt(b, a[i].key);
    }
  }

  /** A member that is not hidden is the last of its key. */
  lemma {:induction false} OpenIsLast<V>(es: seq<Entry<V>>, k: nat)
    requires k < |es| && !IsHidden(es, k)
    ensures LastWith(es, es[k].key) == Some(es[k].value)
    decreases |es|
  {
    var n := |es| - 1;
    if k < n {
      assert es[n].key != es[k].key;
      forall i | k < i < n ensures es[..n][i].key != es[..n][k].key { assert es[i].key != es[k].key; }
      OpenIsLast(es[..n], k);
    }
  }

  lemma {:induction false} FoundAt<V>(es: seq<Entry<V>>, key: bytes) returns (k: nat)
    requires Get(es, key).Some?
    ensures k < |es| && es[k] == Entry(key, Get(es, key).value)
    decreases |es|
  {
    k := 0;
    if es[0].key != key {
      k := FoundAt(es[1..], key);
      k := k + 1;
    }
  }

  lemma HiddenAlike(cfg: Config, ms: seq<T.Member>, here: bytes, depth: nat, k: nat)
    requires depth <= cfg.maxDepth && k < |ms|
    ensures IsHidden(MeanMembers(cfg, ms, here, depth), k) <==> IsHidden(AsEntries(ms), k)
  {
    hide Mean;
    var a, es := MeanMembers(cfg, ms, here, depth), AsEntries(ms);
    forall i | 0 <= i < |ms| ensures a[i].key == es[i].key {}
  }

  /** Where no object repeats a key nothing is hidden. */
  lemma {:induction false} NoRepeatsHideNothing(cfg: Config, n: T.Node, field: Field, here: bytes, depth: nat)
    requires NoRepeats(n)
    ensures Hidden(cfg, n, field, here, depth) == Extra(0)
    decreases n
  {
    hide Chosen, RuleText, Mean, AsEntries, TotalExtra;
    match n
    case Array(items) =>
      forall k | 0 <= k < |items| ensures HiddenItems(cfg, items, here, depth)[k] == Extra(0) {
        NoRepeatsHideNothing(cfg, items[k], ItemField(), PathForIndex(here, k), depth + 1);
      }
      NoExtras(HiddenItems(cfg, items, here, depth));
    case Object(ms) =>
      forall k | 0 <= k < |ms| ensures HiddenMembers(cfg, ms, here, depth)[k] == Extra(0) {
        assert !IsHidden(AsEntries(ms), k);
        NoRepeatsHideNothing(cfg, ms[k].value, MemberField(ms[k].key), PathFor(here, ms[k].key), depth + 1);
      }
      NoExtras(HiddenMembers(cfg, ms, here, depth));
    case _ =>
  }

  lemma {:induction false} NoExtras(xs: seq<Extra>)
    requires forall k :: 0 <= k < |xs| ==> xs[k] == Extra(0)
    ensures TotalExtra(xs) == Extra(0)
    decreases |xs|
  {
    if xs != [] { NoExtras(xs[..|xs| - 1]); }
  }

  lemma EntryOf(ms: seq<T.Member>, i: nat)
    requires i < |ms|
    ensures AsEntries(ms)[i] == Entry(ms[i].key, ms[i].value)
  {
  }

  lemma {:induction false} EntryKeys(cfg: Config, es: seq<Entry<Json>>, here: bytes, depth: nat, key: bytes)
    ensures Get(MeanEntries(cfg, es, here, depth), key).Some? <==> Get(es, key).Some?
    decreases |es|
  {
    hide MeanTree;
    if es != [] {
      EntryKeys(cfg, es[1..], here, depth, key);
      assert MeanEntries(cfg, es, here, depth)[1..] == MeanEntries(cfg, es[1..], here, depth);
    }
  }
}
