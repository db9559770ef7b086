/**
 Masking a Go value: MaskAny gives the masked tree, MaskJSONValue writes its JSON without building it. The two
 agree: the text is the encoding of the tree, whenever the tree is one the encoder takes.
 */
module MaskValue {
  import opened Bytes
  import opened Options
  import opened Settings
  import opened SortedMap
  import opened JsonOut
  import opened MaskSpec
  import opened Meaning
  import opened ValueGraph
  import opened ValueSteps
  import opened EmitSteps
  import opened LimitProtocol
  import opened CleanRuns
  import opened StreamState
  import opened DomMeaning
  import opened MaskJson
  import CP = CyclePaths
  import DW = DomWalker
  import R = Refinement
  import V = ValueWalker
  import E = JsonValue
  import N = JsonNumber
  import T = JsonTree

  function RootValueField(): Field { Field([], ROOT, AnySource, NilKind) }

  ghost function RootMeaning(cfg: Config, mode: Mode, h: Heap, value: Value): Sense<Out>
    requires Closed(h) && Fits(h, value)
  {
    MeanValue(cfg, mode, h, value, RootValueField(), ROOT, 0, {})
  }

  /** The value means something that both limits allow. */
  ghost predicate Allowed(cfg: Config, encodable: bool, h: Heap, value: Value)
    requires Closed(h) && Fits(h, value)
  {
    var mn, mh := RootMeaning(cfg, Mode(encodable, false), h, value), RootMeaning(cfg, Mode(encodable, true), h, value);
    mn.Means? && mh.Means? && mn.cost <= cfg.maxNodes && mh.cost <= cfg.maxNodes
  }

  /** MaskAny: the masked tree, maps in whatever order they were iterated; or errors, and the marker. */
  method MaskAny(cfg: Config, h: Heap, value: Value) returns (tree: Json, errs: seq<MaskError>, ghost walker: V.Walker)
    requires Closed(h) && Fits(h, value)
    ensures errs == [] <==> Allowed(cfg, false, h, value)
    ensures errs == [] ==> Canon(tree) == R.RootTree(RootMeaning(cfg, NODES, h, value).value)
    ensures errs != [] ==> tree == String(cfg.marker)
    ensures fresh(walker) && walker.active == {} && walker.activeStack == []
    ensures !walker.budget.stop ==>
      (walker.cycles > 0 <==> CycleMet(cfg, h, value, RootValueField(), ROOT, 0, {}))
    ensures HasCycle(errs) ==> CycleMet(cfg, h, value, RootValueField(), ROOT, 0, {})
    ensures NoLimit(errs) && |errs| < MAX_ERRORS ==>
      (HasCycle(errs) <==> CycleMet(cfg, h, value, RootValueField(), ROOT, 0, {}))
    ensures forall e :: e in errs ==> Explained(cfg, walker.budget.asked, e)
  {
    hide Closed, Fits, MeanValue, CycleMet, Advance, Lawful, Canon, HasCycle, Explained;
    R.FreshIsLawful(cfg);
    var budget := new Budget(0, []);
    var w := new V.Walker(cfg, h, budget);
    walker := w;
    NothingReported();
    var out := w.Walk(value, RootValueField(), ROOT, 0);
    AdvanceLawful(cfg, FRESH.st, budget.St());
    AllExplained(cfg, budget.St());
    R.StoppedHasErrors(cfg, budget.St());
    StopShows(cfg, budget.St());
    if |budget.errs| > 0 {
      return String(cfg.marker), budget.errs, w;
    }
    CanonRoot(out);
    return R.RootTree(out), [], w;
  }

  /** No limit ended the operation. */
  predicate NoLimit(errs: seq<MaskError>) { forall e :: e in errs ==> !e.IsLimit() }

  lemma AllExplained(cfg: Config, b: State)
    requires Advance(cfg, FRESH.st, b)
    ensures forall e :: e in b.errs ==> Explained(cfg, b.asked, e)
  {
    hide Explained;
  }

  lemma NothingReported()
    ensures Reports(FRESH.st, 0) && !HasCycle([])
  {
  }

  lemma StopShows(cfg: Config, st: State)
    requires Lawful(cfg, st)
    ensures NoLimit(st.errs) ==> !st.stop
  {
    if st.stop { assert st.errs[|st.errs| - 1] in st.errs; }
  }

  lemma CanonRoot(out: Out)
    ensures Canon(R.RootTree(out)) == R.RootTree(CanonOut(out))
  {
  }

  /** MaskJSONValue. */
  method MaskJSONValue(cfg: Config, h: Heap, value: Value) returns (result: Outcome)
    requires Closed(h) && Fits(h, value)
    ensures result.errs == [] <==> Allowed(cfg, true, h, value)
    ensures result.errs == [] ==> result.text == Encode(R.RootTree(RootMeaning(cfg, WRITTEN, h, value).value))
  {
    hide Closed, Fits, MeanValue, Advance, Lawful, Encode;
    R.FreshIsLawful(cfg);
    var budget := new Budget(0, []);
    var w := new V.Walker(cfg, h, budget);
    NothingReported();
    var e := new E.Emitter(w);
    var omitted := e.Emit(value, RootValueField(), ROOT, 0);
    AdvanceLawful(cfg, FRESH.st, budget.St());
    R.StoppedHasErrors(cfg, budget.St());
    if omitted {
      e.buf := T.NULL;
    }
    if |budget.errs| > 0 {
      return Failed(cfg, budget.errs);
    }
    NullText();
    result := Outcome(e.buf, []);
  }

  /* ---------- the twins agree ---------- */

  /** A sense that only takes encodable trees, against one that takes all; alike, if they count the same. */
  ghost predicate Refines(alike: bool, s: Sense<Out>, l: Sense<Out>) {
    && (s.Means? <==> l.Means? && (l.value.Kept? ==> NumbersValid(l.value.tree)))
    && (s.Means? ==> s.value == l.value && (alike ==> s.cost == l.cost))
  }

  lemma {:induction false} EncodableIffNumbers(cfg: Config, strict: bool, lax: bool, h: Heap, v: Value, field: Field, here: bytes,
                                               depth: nat, seen: set<nat>)
    requires Closed(h) && Fits(h, v) && !cfg.preserveSafe
    ensures Refines(strict == lax, MeanValue(cfg, Mode(true, strict), h, v, field, here, depth, seen),
                    MeanValue(cfg, Mode(false, lax), h, v, field, here, depth, seen))
    decreases |h.Keys - seen|, v, 2
  {
    hide Closed, Fits, Entered, MeanValue, MeanValueShape, NumbersValid, Loops, Refines;
    var e := Entered(cfg, h, v, field, here, depth, seen);
    if e.Bad? {
      MeanBad(cfg, Mode(true, strict), h, v, field, here, depth, seen);
      MeanBad(cfg, Mode(false, lax), h, v, field, here, depth, seen);
      FailuresRefine(strict == lax);
    } else if e.Settles? {
      MeanSettled(cfg, Mode(true, strict), h, v, field, here, depth, seen);
      MeanSettled(cfg, Mode(false, lax), h, v, field, here, depth, seen);
      SettlesText(cfg, h, v, field, here, depth, seen);
      TextsRefine(strict == lax, e.out, EnterCost(Mode(true, strict), e.hops), EnterCost(Mode(false, lax), e.hops));
    } else {
      OpenEncodable(cfg, strict, lax, h, v, field, here, depth, seen);
    }
  }

  lemma {:induction false} OpenEncodable(cfg: Config, strict: bool, lax: bool, h: Heap, v: Value, field: Field, here: bytes,
                                         depth: nat, seen: set<nat>)
    requires Closed(h) && Fits(h, v) && !cfg.preserveSafe && Entered(cfg, h, v, field, here, depth, seen).Opens?
    ensures Refines(strict == lax, MeanValue(cfg, Mode(true, strict), h, v, field, here, depth, seen),
                    MeanValue(cfg, Mode(false, lax), h, v, field, here, depth, seen))
    decreases |h.Keys - seen|, v, 1
  {
    hide Closed, Fits, Entered, MeanValue, MeanValueShape, NumbersValid, Loops, Refines;
    var e := Entered(cfg, h, v, field, here, depth, seen);
    MeanOpen(cfg, Mode(true, strict), h, v, field, here, depth, seen);
    MeanOpen(cfg, Mode(false, lax), h, v, field, here, depth, seen);
    OpensFits(cfg, h, v, field, here, depth, seen);
    ShapeEncodable(cfg, strict, lax, h, e.node, e.f, here, depth, e.seen);
    CostsRefine(strict == lax, MeanValueShape(cfg, Mode(true, strict), h, e.node, e.f, here, depth, e.seen),
                MeanValueShape(cfg, Mode(false, lax), h, e.node, e.f, here, depth, e.seen),
                EnterCost(Mode(true, strict), e.hops), EnterCost(Mode(false, lax), e.hops));
  }

  lemma FailuresRefine(alike: bool)
    ensures Refines(alike, Fails, Fails)
  {
  }

  lemma TextsRefine(alike: bool, out: Out, n: nat, m: nat)
    requires (out.Kept? ==> out.tree.String?) && (alike ==> n == m)
    ensures Refines(alike, Means(out, true, n), Means(out, true, m))
  {
    if out.Kept? { TextHasNumbers(out.tree); }
  }

  lemma CostsRefine(alike: bool, s: Sense<Out>, l: Sense<Out>, n: nat, m: nat)
    requires Refines(alike, s, l) && (alike ==> n == m)
    ensures Refines(alike, s.Costing(n), l.Costing(m))
  {
    hide NumbersValid;
  }

  lemma TextHasNumbers(tree: Json)
    requires tree.String?
    ensures NumbersValid(tree)
  {
  }

  lemma {:induction false} ShapeEncodable(cfg: Config, strict: bool, lax: bool, h: Heap, v: Value, f: Field, here: bytes, depth: nat,
                                          seen: set<nat>)
    requires Closed(h) && Fits(h, v) && depth <= cfg.maxDepth && !Loops(v, seen) && !cfg.preserveSafe
    ensures Refines(strict == lax, MeanValueShape(cfg, Mode(true, strict), h, v, f, here, depth, seen),
                    MeanValueShape(cfg, Mode(false, lax), h, v, f, here, depth, seen))
    decreases |h.Keys - seen|, v, 0
  {
    hide Closed, MeanElements, MeanMap, Listed, Gathered, MeanString, NumbersValid, N.Accepts, Refines, MeanValueShape;
    if v.Array? {
      ElementsEncodable(cfg, strict, lax, h, v.items, f, here, depth, seen);
      ShapeOfList(cfg, Mode(true, strict), h, v, f, here, depth, seen);
      ShapeOfList(cfg, Mode(false, lax), h, v, f, here, depth, seen);
    } else if v.Slice? && v.cell.Some? {
      CellDescends(h, v.cell.value, seen);
      ElementsEncodable(cfg, strict, lax, h, h[v.cell.value].items, f, here, depth, seen + {v.cell.value});
      ShapeOfList(cfg, Mode(true, strict), h, v, f, here, depth, seen);
      ShapeOfList(cfg, Mode(false, lax), h, v, f, here, depth, seen);
    } else if v.Map? && v.cell.Some? {
      CellDescends(h, v.cell.value, seen);
      EntriesEncodable(cfg, strict, lax, h, h[v.cell.value].entries, f, here, depth, seen + {v.cell.value});
      ShapeOfMap(cfg, Mode(true, strict), h, v, f, here, depth, seen);
      ShapeOfMap(cfg, Mode(false, lax), h, v, f, here, depth, seen);
    } else {
      ScalarEncodable(cfg, strict, lax, h, v, f, here, depth, seen);
    }
  }

  lemma ShapeOfList(cfg: Config, mode: Mode, h: Heap, v: Value, f: Field, here: bytes, depth: nat, seen: set<nat>)
    requires Closed(h) && Fits(h, v) && depth <= cfg.maxDepth && !Loops(v, seen)
    requires v.Array? || (v.Slice? && v.cell.Some?)
    ensures var items := if v.Array? then v.items else ElementsOf(h, v.cell);
      && (forall k :: 0 <= k < |items| ==> Fits(h, items[k]))
      && MeanValueShape(cfg, mode, h, v, f, here, depth, seen) ==
           ListOut(Listed(MeanElements(cfg, mode, h, items, f, here, depth, WithCell(seen, v))))
  {
    hide Closed, MeanElements, Listed;
    if v.Slice? { CellDescends(h, v.cell.value, seen); }
  }

  lemma ShapeOfMap(cfg: Config, mode: Mode, h: Heap, v: Value, f: Field, here: bytes, depth: nat, seen: set<nat>)
    requires Closed(h) && Fits(h, v) && depth <= cfg.maxDepth && !Loops(v, seen) && v.Map? && v.cell.Some?
    ensures var es := EntriesOf(h, v.cell);
      && (forall k :: 0 <= k < |es| ==> Fits(h, es[k].value))
      && MeanValueShape(cfg, mode, h, v, f, here, depth, seen) ==
           ObjectOut(Gathered(MeanMap(cfg, mode, h, es, f, here, depth, WithCell(seen, v))))
  {
    hide Closed, MeanMap, Gathered;
    CellDescends(h, v.cell.value, seen);
  }

  lemma ScalarEncodable(cfg: Config, strict: bool, lax: bool, h: Heap, v: Value, f: Field, here: bytes, depth: nat, seen: set<nat>)
    requires Closed(h) && Fits(h, v) && depth <= cfg.maxDepth && !cfg.preserveSafe && (IsScalar(v) || v.Pointer?)
    ensures Refines(strict == lax, MeanValueShape(cfg, Mode(true, strict), h, v, f, here, depth, seen),
                    MeanValueShape(cfg, Mode(false, lax), h, v, f, here, depth, seen))
  {
    hide Closed, MeanElements, MeanMap, Listed, Gathered, MeanString, NumbersValid, N.Accepts;
    ScalarNumbers(cfg, v, f, here, depth);
  }

  lemma ScalarNumbers(cfg: Config, v: Value, f: Field, here: bytes, depth: nat)
    requires depth <= cfg.maxDepth && !cfg.preserveSafe
    ensures NumbersValid(Null) && NumbersValid(JsonOut.Json.Array([])) && NumbersValid(Object([]))
    ensures Listed([]) == Means([], false, 0) && Gathered([]) == Means([], false, 0)
    ensures v.Bool? ==> NumbersValid(SafeBool(cfg, v.b))
    ensures v.Integer? ==> NumbersValid(SafeInteger(cfg, v.text))
    ensures v.JsonNumber? ==> (NumbersValid(Number(v.text)) <==> N.Accepts(v.text))
    ensures v.Text? ==> var m := MeanString(cfg, v.text, v.text, Located(f, here), depth);
      m.Means? ==> m.value.Kept? && NumbersValid(m.value.tree)
  {
    hide MeanString, N.Accepts;
    if v.Text? { R.StringMeansString(cfg, v.text, v.text, Located(f, here), depth); }
  }

  lemma {:induction false} ElementsEncodable(cfg: Config, strict: bool, lax: bool, h: Heap, items: seq<Value>, f: Field, here: bytes,
                                             depth: nat, seen: set<nat>)
    requires Closed(h) && (forall k :: 0 <= k < |items| ==> Fits(h, items[k])) && !cfg.preserveSafe
    ensures Refines(strict == lax, ListOut(Listed(MeanElements(cfg, Mode(true, strict), h, items, f, here, depth, seen))),
                    ListOut(Listed(MeanElements(cfg, Mode(false, lax), h, items, f, here, depth, seen))))
    decreases |h.Keys - seen|, items, 3
  {
    hide Closed, Fits, MeanValue, MeanElements, Listed, NumbersValid;
    var a := MeanElements(cfg, Mode(true, strict), h, items, f, here, depth, seen);
    var b := MeanElements(cfg, Mode(false, lax), h, items, f, here, depth, seen);
    forall k | 0 <= k < |items| ensures Refines(strict == lax, a[k], b[k]) {
      ElementSense(cfg, Mode(true, strict), h, items, f, here, depth, seen, k);
      ElementSense(cfg, Mode(false, lax), h, items, f, here, depth, seen, k);
      EncodableIffNumbers(cfg, strict, lax, h, items[k], EntryField(f, []), PathForIndex(here, k), depth + 1, seen);
    }
    ListedEncodable(strict == lax, a, b);
  }

  lemma {:induction false} ListedEncodable(alike: bool, a: seq<Sense<Out>>, b: seq<Sense<Out>>)
    requires |a| == |b| && forall k :: 0 <= k < |a| ==> Refines(alike, a[k], b[k])
    ensures Refines(alike, ListOut(Listed(a)), ListOut(Listed(b)))
    decreases |a|
  {
    hide Listed, NumbersValid;
    if a == [] {
      NothingListed();
      assert a == b;
      NoNumbers();
    } else {
      var k := |a| - 1;
      assert a[..k + 1] == a && b[..k + 1] == b;
      ListedEncodable(alike, a[..k], b[..k]);
      DW.ListedNext(a, k);
      DW.ListedNext(b, k);
      if Listed(b[..k]).Means? && b[k].Means? {
        SnocNumbers(Listed(b[..k]).value, if b[k].value.Omitted? then Null else b[k].value.tree);
      }
    }
  }

  lemma SnocNumbers(items: seq<Json>, x: Json)
    ensures NumbersValid(JsonOut.Json.Array(items + [x])) <==> NumbersValid(JsonOut.Json.Array(items)) && NumbersValid(x)
    ensures NumbersValid(Null)
  {
    hide N.Accepts;
    var all := items + [x];
    assert all[|items|] == x && forall k :: 0 <= k < |items| ==> all[k] == items[k];
    if NumbersValid(JsonOut.Json.Array(all)) {
      forall k | 0 <= k < |items| ensures NumbersValid(items[k]) { assert NumbersValid(all[k]); }
    }
  }

  lemma {:induction false} EntriesEncodable(cfg: Config, strict: bool, lax: bool, h: Heap, es: seq<Entry<Value>>, f: Field, here: bytes,
                                            depth: nat, seen: set<nat>)
    requires Closed(h) && DistinctKeys(es) && (forall k :: 0 <= k < |es| ==> Fits(h, es[k].value)) && !cfg.preserveSafe
    ensures Refines(strict == lax, ObjectOut(Gathered(MeanMap(cfg, Mode(true, strict), h, es, f, here, depth, seen))),
                    ObjectOut(Gathered(MeanMap(cfg, Mode(false, lax), h, es, f, here, depth, seen))))
    decreases |h.Keys - seen|, es, 3
  {
    hide Closed, Fits, MeanValue, MeanMap, Gathered, NumbersValid, DistinctKeys;
    var a := MeanMap(cfg, Mode(true, strict), h, es, f, here, depth, seen);
    var b := MeanMap(cfg, Mode(false, lax), h, es, f, here, depth, seen);
    forall k | 0 <= k < |es| ensures a[k].key == b[k].key && Refines(strict == lax, a[k].value, b[k].value) {
      MapSense(cfg, Mode(true, strict), h, es, f, here, depth, seen, k);
      MapSense(cfg, Mode(false, lax), h, es, f, here, depth, seen, k);
      EncodableIffNumbers(cfg, strict, lax, h, es[k].value, EntryField(f, es[k].key), PathFor(here, es[k].key), depth + 1, seen);
    }
    MapKeys(cfg, Mode(false, lax), h, es, f, here, depth, seen);
    GatheredEncodable(strict == lax, a, b);
  }

  lemma {:induction false} GatheredEncodable(alike: bool, a: seq<Entry<Sense<Out>>>, b: seq<Entry<Sense<Out>>>)
    requires |a| == |b| && DistinctKeys(b)
    requires forall k :: 0 <= k < |a| ==> a[k].key == b[k].key && Refines(alike, a[k].value, b[k].value)
    ensures Refines(alike, ObjectOut(Gathered(a)), ObjectOut(Gathered(b)))
    decreases |a|
  {
    hide Gathered, NumbersValid, Put, Drop, Get, Settle;
    if a == [] {
      NothingListed();
      assert a == b;
      NoNumbers();
    } else {
      var k := |a| - 1;
      assert a[..k + 1] == a && b[..k + 1] == b;
      GatheredEncodable(alike, a[..k], b[..k]);
      GatheredNext(a, k);
      GatheredNext(b, k);
      if Gathered(b[..k]).Means? && b[k].value.Means? {
        KeyIsNew(b, k);
        SettledNumbers(Gathered(b[..k]).value, b[k].key, b[k].value.value);
      }
    }
  }

  lemma NoNumbers()
    ensures NumbersValid(Object([])) && NumbersValid(JsonOut.Json.Array([]))
  {
  }

  /** A new member's numbers join the others. */
  lemma SettledNumbers(outs: seq<Entry<Json>>, key: bytes, out: Out)
    requires Get(outs, key).None?
    ensures NumbersValid(Object(Settle(outs, key, out))) <==>
      NumbersValid(Object(outs)) && (out.Kept? ==> NumbersValid(out.tree))
  {
    match out
    case Omitted => DropAbsent(outs, key);
    case Kept(tree) => PutNumbers(outs, key, tree);
  }

  lemma {:induction false} PutNumbers(outs: seq<Entry<Json>>, key: bytes, tree: Json)
    requires Get(outs, key).None?
    ensures NumbersValid(Object(Put(outs, key, tree))) <==> NumbersValid(Object(outs)) && NumbersValid(tree)
    decreases |outs|
  {
    hide N.Accepts, NumbersValid;
    var e := Entry(key, tree);
    if outs == [] {
      assert [e] + outs == Put(outs, key, tree);
      ConsNumbers(e, outs);
      NoNumbers();
    } else {
      var tail := outs[1..];
      assert outs == [outs[0]] + tail;
      ConsNumbers(outs[0], tail);
      if Less(key, outs[0].key) {
        ConsNumbers(e, outs);
      } else {
        PutNumbers(tail, key, tree);
        ConsNumbers(outs[0], Put(tail, key, tree));
      }
    }
  }

  lemma ConsNumbers(e: Entry<Json>, es: seq<Entry<Json>>)
    ensures NumbersValid(Object([e] + es)) <==> NumbersValid(e.value) && NumbersValid(Object(es))
  {
    hide N.Accepts;
    var all := [e] + es;
    assert all[0] == e && forall k :: 0 <= k < |es| ==> all[k + 1] == es[k];
    if NumbersValid(Object(all)) {
      forall k | 0 <= k < |es| ensures NumbersValid(es[k].value) { assert NumbersValid(all[k + 1].value); }
    }
  }

  /**
   Without preserved safe types, MaskJSONValue succeeds exactly when MaskAny does and its tree can be encoded,
   and then it writes the encoding of that tree.
   */
  lemma TwinsAgree(cfg: Config, h: Heap, value: Value)
    requires Closed(h) && Fits(h, value) && !cfg.preserveSafe
    ensures Allowed(cfg, true, h, value) <==>
      Allowed(cfg, false, h, value) && NumbersValid(R.RootTree(RootMeaning(cfg, NODES, h, value).value))
    ensures Allowed(cfg, true, h, value) ==>
      RootMeaning(cfg, WRITTEN, h, value).value == RootMeaning(cfg, NODES, h, value).value
  {
    hide Closed, Fits, MeanValue, NumbersValid;
    EncodableIffNumbers(cfg, false, false, h, value, RootValueField(), ROOT, 0, {});
    EncodableIffNumbers(cfg, true, true, h, value, RootValueField(), ROOT, 0, {});
    EncodableIffNumbers(cfg, true, false, h, value, RootValueField(), ROOT, 0, {});
    R.NullIsNumberless();
  }
}
