/** The steps of the reflection walk, against the meaning of a value: what each one pays and what it delivers. */
module ValueSteps {
  import opened Bytes
  import opened Options
  import opened Settings
  import opened SortedMap
  import opened JsonOut
  import opened MaskSpec
  import opened Meaning
  import opened ValueGraph
  import opened LimitProtocol
  import opened CleanRuns
  import opened DomMeaning
  import opened TreeEncoder
  import DA = DomAgreement
  import DW = DomWalker
  import T = JsonTree
  import Utf8

  ghost predicate IsStackOf(active: set<nat>, stack: seq<nat>) {
    && (forall k :: 0 <= k < |stack| ==> stack[k] in active)
    && (forall id :: id in active ==> id in stack)
    && (forall j, k :: 0 <= j < k < |stack| ==> stack[j] != stack[k])
  }

  /** A stack holds one set. */
  lemma SameStackSameSet(a: set<nat>, b: set<nat>, stack: seq<nat>)
    requires IsStackOf(a, stack) && IsStackOf(b, stack)
    ensures a == b
  {
    forall id ensures id in a <==> id in b {
      if id in a { assert id in stack; }
      if id in b { assert id in stack; }
    }
  }

  /* ---------- what the loops pay ---------- */

  /** From the clean state a, with ind pointers followed, the run to b is clean exactly when both limits allow it. */
  predicate Pays<X>(cfg: Config, a: State, ind: nat, b: State, ind': nat, mn: Sense<X>, mh: Sense<X>) {
    && (Clean(b) <==>
          mn.Means? && mh.Means? && a.nodes + mn.cost <= cfg.maxNodes && ind + mh.cost <= cfg.maxNodes)
    && (Clean(b) ==> b.nodes == a.nodes + mn.cost && ind' == ind + mh.cost)
  }

  /* What a run delivers: the tree, the list or the map of the meaning, the entries of maps in any order. */

  predicate SameTree(out: Out, m: Sense<Out>) { m.Means? && CanonOut(out) == m.value }

  predicate SameList(values: seq<Json>, m: Sense<seq<Json>>) { m.Means? && CanonItems(values) == m.value }

  predicate SameMap(typed: seq<Entry<Json>>, m: Sense<seq<Entry<Json>>>) {
    m.Means? && SortEntries(CanonEntries(typed)) == m.value
  }

  /** A walk from the clean state a to b ends clean exactly when the value means something within both limits. */
  ghost predicate Delivers(cfg: Config, h: Heap, v: Value, field: Field, here: bytes, depth: nat, seen: set<nat>,
                           a: State, ind: nat, b: State, ind': nat, result: Out)
    requires Closed(h) && Fits(h, v)
  {
    var mn := MeanValue(cfg, NODES, h, v, field, here, depth, seen);
    Pays(cfg, a, ind, b, ind', mn, MeanValue(cfg, HOPS, h, v, field, here, depth, seen)) &&
    (Clean(b) ==> SameTree(result, mn))
  }

  ghost predicate ShapeDelivers(cfg: Config, h: Heap, v: Value, f: Field, here: bytes, depth: nat, seen: set<nat>,
                                a: State, ind: nat, b: State, ind': nat, result: Out)
    requires Closed(h) && Fits(h, v) && depth <= cfg.maxDepth && !Loops(v, seen)
  {
    var mn := MeanValueShape(cfg, NODES, h, v, f, here, depth, seen);
    Pays(cfg, a, ind, b, ind', mn, MeanValueShape(cfg, HOPS, h, v, f, here, depth, seen)) &&
    (Clean(b) ==> SameTree(result, mn))
  }

  /** The policy settled the value, or it was not entered. */
  lemma DoneDelivers(cfg: Config, h: Heap, v: Value, field: Field, here: bytes, depth: nat, seen: set<nat>,
                     a: State, ind: nat, b: State, ind': nat, result: Out)
    requires Closed(h) && Fits(h, v)
    requires var e := Entered(cfg, h, v, field, here, depth, seen);
      && (Clean(b) <==> e.Settles? && a.nodes + 1 <= cfg.maxNodes && ind + e.hops <= cfg.maxNodes)
      && (Clean(b) ==> result == e.out && b.nodes == a.nodes + 1 && ind' == ind + e.hops)
      && (e.Opens? ==> a.nodes + 1 > cfg.maxNodes || ind + e.hops > cfg.maxNodes)
    ensures Delivers(cfg, h, v, field, here, depth, seen, a, ind, b, ind', result)
  {
    hide Entered, MeanValue, CanonOut, Closed, Fits;
    var e := Entered(cfg, h, v, field, here, depth, seen);
    forall mode: Mode
      ensures var m := MeanValue(cfg, mode, h, v, field, here, depth, seen);
        && (e.Bad? ==> m.Fails?)
        && (e.Settles? ==> m == Means(e.out, true, EnterCost(mode, e.hops)))
        && (e.Opens? && m.Means? ==> m.cost >= EnterCost(mode, e.hops))
    {
      if e.Bad? {
        MeanBad(cfg, mode, h, v, field, here, depth, seen);
      } else if e.Settles? {
        MeanSettled(cfg, mode, h, v, field, here, depth, seen);
      } else {
        MeanOpen(cfg, mode, h, v, field, here, depth, seen);
      }
    }
    SettlesCanon(cfg, h, v, field, here, depth, seen);
  }

  /** The value was entered and looked into. */
  lemma OpenDelivers(cfg: Config, h: Heap, v: Value, field: Field, here: bytes, depth: nat, seen: set<nat>,
                     a: State, ind: nat, b: State, ind1: nat, c: State, ind2: nat, result: Out)
    requires Closed(h) && Fits(h, v) && Clean(b) && a.nodes + 1 <= cfg.maxNodes
    requires var e := Entered(cfg, h, v, field, here, depth, seen);
      && e.Opens? && Fits(h, e.node) && depth <= cfg.maxDepth && !Loops(e.node, e.seen)
      && b.nodes == a.nodes + 1 && ind1 == ind + e.hops
      && ShapeDelivers(cfg, h, e.node, e.f, here, depth, e.seen, b, ind1, c, ind2, result)
    ensures Delivers(cfg, h, v, field, here, depth, seen, a, ind, c, ind2, result)
  {
    hide Entered, MeanValue, MeanValueShape, CanonOut, Closed, Fits, Loops;
    MeanOpen(cfg, NODES, h, v, field, here, depth, seen);
    MeanOpen(cfg, HOPS, h, v, field, here, depth, seen);
  }

  lemma MetDone(cfg: Config, h: Heap, v: Value, field: Field, here: bytes, depth: nat, seen: set<nat>)
    requires Closed(h) && Fits(h, v)
    ensures var e := Entered(cfg, h, v, field, here, depth, seen);
      !e.Opens? ==> (CycleMet(cfg, h, v, field, here, depth, seen) <==> e.Bad? && e.looped)
  {
    hide Entered, CycleBelow, Closed, Fits;
  }

  lemma MetOpen(cfg: Config, h: Heap, v: Value, field: Field, here: bytes, depth: nat, seen: set<nat>)
    requires Closed(h) && Fits(h, v) && Entered(cfg, h, v, field, here, depth, seen).Opens?
    ensures var e := Entered(cfg, h, v, field, here, depth, seen);
      && Fits(h, e.node) && !Loops(e.node, e.seen)
      && (CycleMet(cfg, h, v, field, here, depth, seen) <==> CycleBelow(cfg, h, e.node, e.f, here, depth, e.seen))
  {
    hide Entered, CycleBelow, Closed, Fits, Loops;
    OpensFits(cfg, h, v, field, here, depth, seen);
  }

  lemma BelowIs(cfg: Config, h: Heap, v: Value, f: Field, here: bytes, depth: nat, seen: set<nat>)
    requires Closed(h) && Fits(h, v) && !Loops(v, seen)
    ensures v.Array? ==> (CycleBelow(cfg, h, v, f, here, depth, seen) <==> CycleInList(cfg, h, v.items, f, here, depth, seen))
    ensures v.Slice? && v.cell.Some? ==>
      && v.cell.value in h && (forall k :: 0 <= k < |ElementsOf(h, v.cell)| ==> Fits(h, ElementsOf(h, v.cell)[k]))
      && (CycleInList(cfg, h, ElementsOf(h, v.cell), f, here, depth, seen + {v.cell.value}) <==>
            CycleBelow(cfg, h, v, f, here, depth, seen))
    ensures v.Map? && v.cell.Some? ==>
      && v.cell.value in h && (forall k :: 0 <= k < |EntriesOf(h, v.cell)| ==> Fits(h, EntriesOf(h, v.cell)[k].value))
      && (CycleInMap(cfg, h, EntriesOf(h, v.cell), f, here, depth, seen + {v.cell.value}) <==>
            CycleBelow(cfg, h, v, f, here, depth, seen))
    ensures !v.Array? && !(v.Slice? && v.cell.Some?) && !(v.Map? && v.cell.Some?) ==>
      !CycleBelow(cfg, h, v, f, here, depth, seen)
  {
    hide Closed, CycleInList, CycleInMap;
    if v.Slice? && v.cell.Some? { CellDescends(h, v.cell.value, seen); }
    if v.Map? && v.cell.Some? { CellDescends(h, v.cell.value, seen); }
  }

  lemma TextDelivers(cfg: Config, h: Heap, s: bytes, f: Field, here: bytes, depth: nat, seen: set<nat>,
                     a: State, ind: nat, b: State, result: Out)
    requires Closed(h) && depth <= cfg.maxDepth && ind <= cfg.maxNodes
    requires var m := MeanString(cfg, s, s, Located(f, here), depth);
      Ends(cfg, a, b, m) && (Clean(b) ==> SameTree(result, m))
    ensures ShapeDelivers(cfg, h, Value.Text(s), f, here, depth, seen, a, ind, b, ind, result)
  {
    hide MeanString, CanonOut;
  }

  lemma ListDelivers(cfg: Config, h: Heap, v: Value, f: Field, here: bytes, depth: nat, seen: set<nat>,
                     a: State, ind: nat, b: State, ind': nat, values: seq<Json>)
    requires Closed(h) && Fits(h, v) && depth <= cfg.maxDepth && !Loops(v, seen)
    requires v.Array? || (v.Slice? && v.cell.Some?)
    requires var items := if v.Array? then v.items else ElementsOf(h, v.cell);
      && (forall k :: 0 <= k < |items| ==> Fits(h, items[k]))
      && var mn := Listed(MeanElements(cfg, NODES, h, items, f, here, depth, WithCell(seen, v)));
         var mh := Listed(MeanElements(cfg, HOPS, h, items, f, here, depth, WithCell(seen, v)));
         Pays(cfg, a, ind, b, ind', mn, mh) && (Clean(b) ==> SameList(values, mn))
    ensures ShapeDelivers(cfg, h, v, f, here, depth, seen, a, ind, b, ind', Kept(JsonOut.Json.Array(values)))
  {
    hide Listed, MeanElements, Closed;
    assert Canon(JsonOut.Json.Array(values)) == JsonOut.Json.Array(CanonItems(values));
  }

  lemma MapDelivers(cfg: Config, h: Heap, v: Value, f: Field, here: bytes, depth: nat, seen: set<nat>,
                    a: State, ind: nat, b: State, ind': nat, typed: seq<Entry<Json>>)
    requires Closed(h) && Fits(h, v) && depth <= cfg.maxDepth && !Loops(v, seen) && v.Map? && v.cell.Some?
    requires var es := EntriesOf(h, v.cell);
      && (forall k :: 0 <= k < |es| ==> Fits(h, es[k].value))
      && var mn := Gathered(MeanMap(cfg, NODES, h, es, f, here, depth, WithCell(seen, v)));
         var mh := Gathered(MeanMap(cfg, HOPS, h, es, f, here, depth, WithCell(seen, v)));
         Pays(cfg, a, ind, b, ind', mn, mh) && (Clean(b) ==> SameMap(typed, mn))
    ensures ShapeDelivers(cfg, h, v, f, here, depth, seen, a, ind, b, ind', Kept(Object(typed)))
  {
    hide Gathered, MeanMap, Closed, SortEntries, CanonEntries;
  }

  lemma ScalarDelivers(cfg: Config, h: Heap, v: Value, f: Field, here: bytes, depth: nat, seen: set<nat>,
                       a: State, ind: nat, b: State, result: Out)
    requires Closed(h) && Fits(h, v) && depth <= cfg.maxDepth && !Loops(v, seen)
    requires Lawful(cfg, a) && Clean(a) && ind <= cfg.maxNodes
    requires if v.Unsupported? then b.errs != [] else b == a
    requires IsScalar(v) && !v.Text? && (!v.Unsupported? ==> result == Kept(ScalarTree(cfg, v)))
    ensures ShapeDelivers(cfg, h, v, f, here, depth, seen, a, ind, b, ind, result)
  {
    hide Closed;
    WithinNodes(cfg, a);
    NothingListed();
  }

  predicate IsScalar(v: Value) { !v.Pointer? && !v.Array? && CellOf(v).None? }

  function ScalarTree(cfg: Config, v: Value): Json {
    match v
    case Bool(b) => SafeBool(cfg, b)
    case Integer(t) => SafeInteger(cfg, t)
    case JsonNumber(t) => Number(t)
    case Slice(_) => JsonOut.Json.Array([])
    case Map(_) => Object([])
    case _ => Null
  }

  lemma SettlesCanon(cfg: Config, h: Heap, v: Value, field: Field, here: bytes, depth: nat, seen: set<nat>)
    requires Closed(h) && Fits(h, v)
    ensures var e := Entered(cfg, h, v, field, here, depth, seen); e.Settles? ==> CanonOut(e.out) == e.out
  {
    hide Closed, Fits, Land, Chosen, CanonOut;
    var r := Land(h, v, seen);
    if r.Landed? { DA.ChosenIsCanon(cfg, ScalarText(r.value), ValueField(cfg, field, r.value, here)); }
  }

  lemma NothingListed()
    ensures Listed([]) == Means([], false, 0) && Gathered([]) == Means([], false, 0)
    ensures CanonOut(Kept(JsonOut.Json.Array([]))) == Kept(JsonOut.Json.Array([]))
    ensures CanonOut(Kept(Object([]))) == Kept(Object([]))
  {
  }

  lemma ElementSense(cfg: Config, mode: Mode, h: Heap, items: seq<Value>, f: Field, here: bytes, depth: nat,
                     seen: set<nat>, k: nat)
    requires Closed(h) && (forall k :: 0 <= k < |items| ==> Fits(h, items[k])) && k < |items|
    ensures MeanElements(cfg, mode, h, items, f, here, depth, seen)[k] ==
      MeanValue(cfg, mode, h, items[k], EntryField(f, []), PathForIndex(here, k), depth + 1, seen)
  {
    hide MeanValue;
  }

  lemma MapSense(cfg: Config, mode: Mode, h: Heap, es: seq<Entry<Value>>, f: Field, here: bytes, depth: nat,
                 seen: set<nat>, k: nat)
    requires Closed(h) && (forall k :: 0 <= k < |es| ==> Fits(h, es[k].value)) && k < |es|
    ensures MeanMap(cfg, mode, h, es, f, here, depth, seen)[k] == Entry(es[k].key,
      MeanValue(cfg, mode, h, es[k].value, EntryField(f, es[k].key), PathFor(here, es[k].key), depth + 1, seen))
  {
    hide MeanValue;
  }

  lemma MapKeys(cfg: Config, mode: Mode, h: Heap, es: seq<Entry<Value>>, f: Field, here: bytes, depth: nat, seen: set<nat>)
    requires Closed(h) && (forall k :: 0 <= k < |es| ==> Fits(h, es[k].value)) && DistinctKeys(es)
    ensures DistinctKeys(MeanMap(cfg, mode, h, es, f, here, depth, seen))
  {
    hide MeanValue;
    var senses := MeanMap(cfg, mode, h, es, f, here, depth, seen);
    forall k | 0 <= k < |es| ensures senses[k].key == es[k].key {}
  }

  lemma ListPaysNothing(cfg: Config, st: State, ind: nat, sn: seq<Sense<Out>>, sh: seq<Sense<Out>>)
    requires Lawful(cfg, st) && (!st.stop ==> ind <= cfg.maxNodes)
    ensures Clean(st) ==> Pays(cfg, st, ind, st, ind, Listed(sn[..0]), Listed(sh[..0]))
    ensures SameList([], Listed(sn[..0]))
  {
  }

  lemma MapPaysNothing(cfg: Config, st: State, ind: nat, sn: seq<Entry<Sense<Out>>>, sh: seq<Entry<Sense<Out>>>)
    requires Lawful(cfg, st) && (!st.stop ==> ind <= cfg.maxNodes)
    ensures Clean(st) ==> Pays(cfg, st, ind, st, ind, Gathered(sn[..0]), Gathered(sh[..0]))
    ensures SameMap([], Gathered(sn[..0]))
  {
  }

  /** The next element pays for itself. */
  lemma ListPaysNext(cfg: Config, a: State, ind: nat, b: State, ind1: nat, c: State, ind2: nat,
                     sn: seq<Sense<Out>>, sh: seq<Sense<Out>>, k: nat)
    requires k < |sn| == |sh| && Pays(cfg, a, ind, b, ind1, Listed(sn[..k]), Listed(sh[..k])) && Advance(cfg, b, c)
    requires Clean(b) ==> Pays(cfg, b, ind1, c, ind2, sn[k], sh[k])
    ensures Pays(cfg, a, ind, c, ind2, Listed(sn[..k + 1]), Listed(sh[..k + 1]))
  {
    hide Listed, Advance;
    DW.ListedNext(sn, k);
    DW.ListedNext(sh, k);
    if Clean(c) { CleanBefore(cfg, b, c); }
  }

  lemma MapPaysNext(cfg: Config, a: State, ind: nat, b: State, ind1: nat, c: State, ind2: nat,
                    sn: seq<Entry<Sense<Out>>>, sh: seq<Entry<Sense<Out>>>, k: nat)
    requires k < |sn| == |sh| && Pays(cfg, a, ind, b, ind1, Gathered(sn[..k]), Gathered(sh[..k])) && Advance(cfg, b, c)
    requires Clean(b) ==> Pays(cfg, b, ind1, c, ind2, sn[k].value, sh[k].value)
    ensures Pays(cfg, a, ind, c, ind2, Gathered(sn[..k + 1]), Gathered(sh[..k + 1]))
  {
    hide Gathered, Advance;
    GatheredNext(sn, k);
    GatheredNext(sh, k);
    if Clean(c) { CleanBefore(cfg, b, c); }
  }

  /** A cycle is met in one of the first n entries. */
  ghost predicate CycleBefore(cfg: Config, h: Heap, es: seq<Entry<Value>>, f: Field, here: bytes, depth: nat,
                              seen: set<nat>, n: nat)
    requires Closed(h) && (forall k :: 0 <= k < |es| ==> Fits(h, es[k].value)) && n <= |es|
  {
    exists k :: 0 <= k < n &&
      CycleMet(cfg, h, es[k].value, EntryField(f, es[k].key), PathFor(here, es[k].key), depth + 1, seen)
  }

  lemma CycleNext(cfg: Config, h: Heap, es: seq<Entry<Value>>, f: Field, here: bytes, depth: nat, seen: set<nat>, n: nat)
    requires Closed(h) && (forall k :: 0 <= k < |es| ==> Fits(h, es[k].value)) && n < |es|
    ensures CycleBefore(cfg, h, es, f, here, depth, seen, n + 1) <==>
      CycleBefore(cfg, h, es, f, here, depth, seen, n) ||
      CycleMet(cfg, h, es[n].value, EntryField(f, es[n].key), PathFor(here, es[n].key), depth + 1, seen)
  {
    hide CycleMet, Closed, Fits, PathFor;
  }

  lemma CycleAnywhere(cfg: Config, h: Heap, es: seq<Entry<Value>>, f: Field, here: bytes, depth: nat, seen: set<nat>)
    requires Closed(h) && (forall k :: 0 <= k < |es| ==> Fits(h, es[k].value))
    ensures !CycleBefore(cfg, h, es, f, here, depth, seen, 0)
    ensures CycleBefore(cfg, h, es, f, here, depth, seen, |es|) <==> CycleInMap(cfg, h, es, f, here, depth, seen)
    ensures forall n :: 0 <= n <= |es| && CycleBefore(cfg, h, es, f, here, depth, seen, n) ==>
      CycleInMap(cfg, h, es, f, here, depth, seen)
  {
    hide CycleMet, Closed, Fits, PathFor;
  }

  /** A cycle is met in one of the first n elements. */
  ghost predicate CycleInFront(cfg: Config, h: Heap, items: seq<Value>, f: Field, here: bytes, depth: nat,
                               seen: set<nat>, n: nat)
    requires Closed(h) && (forall k :: 0 <= k < |items| ==> Fits(h, items[k])) && n <= |items|
  {
    exists k :: 0 <= k < n && CycleMet(cfg, h, items[k], EntryField(f, []), PathForIndex(here, k), depth + 1, seen)
  }

  lemma FrontNext(cfg: Config, h: Heap, items: seq<Value>, f: Field, here: bytes, depth: nat, seen: set<nat>, n: nat)
    requires Closed(h) && (forall k :: 0 <= k < |items| ==> Fits(h, items[k])) && n < |items|
    ensures CycleInFront(cfg, h, items, f, here, depth, seen, n + 1) <==>
      CycleInFront(cfg, h, items, f, here, depth, seen, n) ||
      CycleMet(cfg, h, items[n], EntryField(f, []), PathForIndex(here, n), depth + 1, seen)
  {
    hide CycleMet, Closed, Fits, PathForIndex;
  }

  lemma FrontAnywhere(cfg: Config, h: Heap, items: seq<Value>, f: Field, here: bytes, depth: nat, seen: set<nat>)
    requires Closed(h) && (forall k :: 0 <= k < |items| ==> Fits(h, items[k]))
    ensures !CycleInFront(cfg, h, items, f, here, depth, seen, 0)
    ensures CycleInFront(cfg, h, items, f, here, depth, seen, |items|) <==> CycleInList(cfg, h, items, f, here, depth, seen)
    ensures forall n :: 0 <= n <= |items| && CycleInFront(cfg, h, items, f, here, depth, seen, n) ==>
      CycleInList(cfg, h, items, f, here, depth, seen)
  {
    hide CycleMet, Closed, Fits, PathForIndex;
  }

  /** One entry of a map: walked and paid for, and held by the result unless it was omitted. */
  lemma MapStep(cfg: Config, h: Heap, es: seq<Entry<Value>>, f: Field, here: bytes, depth: nat, seen: set<nat>,
                a: State, ind: nat, b: State, ind1: nat, c: State, ind2: nat, k: nat, typed: seq<Entry<Json>>, out: Out)
    requires Closed(h) && (forall k :: 0 <= k < |es| ==> Fits(h, es[k].value)) && DistinctKeys(es) && k < |es|
    requires var sn := MeanMap(cfg, NODES, h, es, f, here, depth, seen);
      var sh := MeanMap(cfg, HOPS, h, es, f, here, depth, seen);
      && Pays(cfg, a, ind, b, ind1, Gathered(sn[..k]), Gathered(sh[..k]))
      && (Clean(b) ==> SameMap(typed, Gathered(sn[..k])))
    requires Advance(cfg, b, c)
    requires Clean(b) ==>
      Delivers(cfg, h, es[k].value, EntryField(f, es[k].key), PathFor(here, es[k].key), depth + 1, seen, b, ind1, c, ind2, out)
    ensures var sn := MeanMap(cfg, NODES, h, es, f, here, depth, seen);
      var sh := MeanMap(cfg, HOPS, h, es, f, here, depth, seen);
      && Pays(cfg, a, ind, c, ind2, Gathered(sn[..k + 1]), Gathered(sh[..k + 1]))
      && (Clean(c) ==> SameMap(if out.Kept? then [Entry(es[k].key, out.tree)] + typed else typed, Gathered(sn[..k + 1])))
  {
    hide Advance, Closed, Fits, MeanValue, MeanMap, Gathered, Pays, SameMap, SameTree, PathFor, DistinctKeys;
    var sn := MeanMap(cfg, NODES, h, es, f, here, depth, seen);
    var sh := MeanMap(cfg, HOPS, h, es, f, here, depth, seen);
    MapSense(cfg, NODES, h, es, f, here, depth, seen, k);
    MapSense(cfg, HOPS, h, es, f, here, depth, seen, k);
    MapPaysNext(cfg, a, ind, b, ind1, c, ind2, sn, sh, k);
    if Clean(c) {
      CleanBefore(cfg, b, c);
      MapKeys(cfg, NODES, h, es, f, here, depth, seen);
      CanonGathered(sn, k, typed, out);
    }
  }

  lemma GatheredNext(senses: seq<Entry<Sense<Out>>>, k: nat)
    requires k < |senses|
    ensures var a, b, r := Gathered(senses[..k]), senses[k].value, Gathered(senses[..k + 1]);
      if a.Fails? || b.Fails? then r.Fails?
      else r == Means(Settle(a.value, senses[k].key, b.value), a.changed || b.changed, a.cost + b.cost)
  {
    hide Settle;
    assert senses[..k + 1][..k] == senses[..k];
  }

  lemma {:induction false} GatheredPrefix(senses: seq<Entry<Sense<Out>>>, k: nat)
    requires k <= |senses|
    ensures Gathered(senses).Means? ==>
      Gathered(senses[..k]).Means? && Gathered(senses[..k]).cost <= Gathered(senses).cost
    decreases |senses| - k
  {
    hide Gathered;
    if k == |senses| {
      assert senses[..k] == senses;
    } else {
      GatheredPrefix(senses, k + 1);
      GatheredNext(senses, k);
    }
  }

  /** A loop that stops early was not clean, and would not have been in the end. */
  lemma ListStops(cfg: Config, a: State, ind: nat, b: State, ind1: nat, sn: seq<Sense<Out>>, sh: seq<Sense<Out>>, k: nat)
    requires k <= |sn| == |sh| && Pays(cfg, a, ind, b, ind1, Listed(sn[..k]), Listed(sh[..k])) && !Clean(b)
    ensures Pays(cfg, a, ind, b, ind1, Listed(sn), Listed(sh))
  {
    hide Listed;
    DW.ListedPrefix(sn, k);
    DW.ListedPrefix(sh, k);
  }

  lemma MapStops(cfg: Config, a: State, ind: nat, b: State, ind1: nat,
                 sn: seq<Entry<Sense<Out>>>, sh: seq<Entry<Sense<Out>>>, k: nat)
    requires k <= |sn| == |sh| && Pays(cfg, a, ind, b, ind1, Gathered(sn[..k]), Gathered(sh[..k])) && !Clean(b)
    ensures Pays(cfg, a, ind, b, ind1, Gathered(sn), Gathered(sh))
  {
    hide Gathered;
    GatheredPrefix(sn, k);
    GatheredPrefix(sh, k);
  }

  /** An element appended to the result, as the meaning lists it. */
  lemma CanonListed(senses: seq<Sense<Out>>, k: nat, was: seq<Json>, out: Out)
    requires k < |senses| && SameList(was, Listed(senses[..k])) && SameTree(out, senses[k])
    ensures SameList(was + [if out.Omitted? then Null else out.tree], Listed(senses[..k + 1]))
  {
    hide Listed, Canon;
    DW.ListedNext(senses, k);
    NullCanon();
    var tree := if out.Omitted? then Null else out.tree;
    assert CanonItems(was + [tree]) == CanonItems(was) + [Canon(tree)];
  }

  lemma NullCanon()
    ensures Canon(Null) == Null
  {
  }

  /** A key met for the first time is not held yet. */
  lemma KeyIsNew(senses: seq<Entry<Sense<Out>>>, k: nat)
    requires k < |senses| && DistinctKeys(senses) && Gathered(senses[..k]).Means?
    ensures Get(Gathered(senses[..k]).value, senses[k].key).None?
  {
    hide Gathered;
    var front := senses[..k];
    GatheredLookup(front, senses[k].key);
    LastIsOnly(front, senses[k].key);
    GetNone(front, senses[k].key);
  }

  lemma CanonGathered(senses: seq<Entry<Sense<Out>>>, k: nat, typed: seq<Entry<Json>>, out: Out)
    requires k < |senses| && DistinctKeys(senses)
    requires SameMap(typed, Gathered(senses[..k])) && SameTree(out, senses[k].value)
    ensures SameMap(if out.Kept? then [Entry(senses[k].key, out.tree)] + typed else typed, Gathered(senses[..k + 1]))
  {
    hide Gathered, Canon, Put, Drop;
    GatheredNext(senses, k);
    KeyIsNew(senses, k);
    match out
    case Omitted => DropAbsent(Gathered(senses[..k]).value, senses[k].key);
    case Kept(tree) =>
      var e := Entry(senses[k].key, tree);
      var next := CanonEntries([e] + typed);
      assert next == [Entry(e.key, Canon(tree))] + CanonEntries(typed);
      assert next[1..] == CanonEntries(typed);
  }

  ghost function Farther(r: Landing, hops: nat): Landing {
    match r
    case Looped => Looped
    case Landed(w, s, n) => Landed(w, s, n + hops)
  }

  lemma StackItself(active: set<nat>, stack: seq<nat>)
    requires IsStackOf(active, stack)
    ensures stack[..|stack|] == stack && IsStackOf(active, stack[..|stack|])
  {
    assert stack[..|stack|] == stack;
  }

  lemma Counts(cfg: Config, a: State)
    requires Lawful(cfg, a) && !a.stop && a.nodes + 1 <= cfg.maxNodes
    ensures Advance(cfg, a, a.(nodes := a.nodes + 1)) && Lawful(cfg, a.(nodes := a.nodes + 1))
    ensures forall cycles :: Reports(a.(nodes := a.nodes + 1), cycles) <==> Reports(a, cycles)
  {
  }

  lemma CleanUpTo(cfg: Config, a: State, b: State)
    requires Advance(cfg, a, b) && Clean(b)
    ensures Clean(a)
  {
  }

  /** A cycle stands in the list only if one was met, and if one was met it does, unless the list was full. */
  ghost predicate Reports(st: State, cycles: nat) {
    && (HasCycle(st.errs) ==> cycles > 0)
    && (!st.stop && cycles > 0 ==> HasCycle(st.errs) || |st.errs| >= MAX_ERRORS)
  }

  /** What reports no cycle keeps the reports. */
  lemma StillReports(cfg: Config, a: State, b: State, cycles: nat)
    requires Step(cfg, a, b) && Reports(a, cycles)
    ensures Reports(b, cycles) && Advance(cfg, a, b) && Lawful(cfg, b)
  {
    if !b.stop && HasCycle(a.errs) {
      var e :| e in a.errs && e.code == Cycle;
      assert e in b.errs;
    }
  }

  /** A cycle met is recorded, if there is room. */
  lemma ReportsCycle(cfg: Config, a: State, e: MaskError, cycles: nat)
    requires Lawful(cfg, a) && !a.stop && e.code == Cycle && e.depth <= cfg.maxDepth + 1 && Reports(a, cycles)
    ensures Reports(a.Fail(e), cycles + 1) && Advance(cfg, a, a.Fail(e)) && Lawful(cfg, a.Fail(e))
  {
    if |a.errs| < MAX_ERRORS { assert e in a.Fail(e).errs; }
  }

  lemma RecordsOne(cfg: Config, st: State, e: MaskError)
    ensures st.Fail(e).errs != [] && (st.stop || st.Limit(e).errs != [])
  {
  }

  lemma NotFarther(r: Landing)
    ensures Farther(r, 0) == r
  {
  }

  /** One pointer further on. */
  lemma LandStep(h: Heap, v: Value, seen: set<nat>, hops: nat)
    requires Closed(h) && Fits(h, v) && v.Pointer?
    ensures v.id in h && h[v.id].Target? && Fits(h, h[v.id].value)
    ensures v.id in seen ==> Land(h, v, seen).Looped?
    ensures v.id !in seen ==>
      && |h.Keys - (seen + {v.id})| < |h.Keys - seen|
      && Farther(Land(h, v, seen), hops) == Farther(Land(h, h[v.id].value, seen + {v.id}), hops + 1)
    ensures Land(h, v, seen).Landed? ==> Land(h, v, seen).hops > 0
  {
    PointerFits(h, v);
    if v.id !in seen { FewerLeft(h, seen, v.id); }
  }

  lemma LandEnds(h: Heap, v: Value, seen: set<nat>)
    requires Closed(h) && Fits(h, v) && !v.Pointer?
    ensures Land(h, v, seen) == Landed(v, seen, 0)
  {
  }
}
