/** A heap without pointers, as encoding/json builds it: following pointers costs nothing there. */
module PointerFree {
  import opened Bytes
  import opened Options
  import opened Settings
  import opened SortedMap
  import opened JsonOut
  import opened MaskSpec
  import opened Meaning
  import opened ValueGraph
  import opened ValueSteps
  import DW = DomWalker
  import MV = MaskValue

  ghost predicate NoTargets(h: Heap) { forall id :: id in h ==> !h[id].Target? }

  /** The same outcome, and no pointer followed for it. */
  predicate Free(hops: Sense<Out>, nodes: Sense<Out>) {
    (hops.Means? <==> nodes.Means?) && (hops.Means? ==> hops.cost == 0 && hops.value == nodes.value)
  }

  lemma NoPointer(h: Heap, v: Value, seen: set<nat>)
    requires Closed(h) && Fits(h, v) && NoTargets(h)
    ensures !v.Pointer? && Land(h, v, seen) == Landed(v, seen, 0)
  {
  }

  lemma NoHops(cfg: Config, h: Heap, v: Value, field: Field, here: bytes, depth: nat, seen: set<nat>)
    requires Closed(h) && Fits(h, v) && NoTargets(h)
    ensures var e := Entered(cfg, h, v, field, here, depth, seen);
      (e.Settles? || e.Opens? ==> e.hops == 0) && (e.Opens? ==> e.node == v && e.seen == seen)
  {
    hide Closed, Fits, NoTargets, Chosen, BadText, Loops, ScalarText;
    NoPointer(h, v, seen);
    hide Land;
  }

  lemma {:induction false} PointersAreFree(cfg: Config, encodable: bool, h: Heap, v: Value, field: Field, here: bytes,
                                           depth: nat, seen: set<nat>)
    requires Closed(h) && Fits(h, v) && NoTargets(h)
    ensures Free(MeanValue(cfg, Mode(encodable, true), h, v, field, here, depth, seen),
                 MeanValue(cfg, Mode(encodable, false), h, v, field, here, depth, seen))
    decreases |h.Keys - seen|, v, 1
  {
    hide Closed, Fits, NoTargets, Entered, MeanValue, MeanValueShape, Loops;
    var e := Entered(cfg, h, v, field, here, depth, seen);
    NoHops(cfg, h, v, field, here, depth, seen);
    if e.Bad? {
      MeanBad(cfg, Mode(encodable, true), h, v, field, here, depth, seen);
      MeanBad(cfg, Mode(encodable, false), h, v, field, here, depth, seen);
    } else if e.Settles? {
      MeanSettled(cfg, Mode(encodable, true), h, v, field, here, depth, seen);
      MeanSettled(cfg, Mode(encodable, false), h, v, field, here, depth, seen);
    } else {
      MeanOpen(cfg, Mode(encodable, true), h, v, field, here, depth, seen);
      MeanOpen(cfg, Mode(encodable, false), h, v, field, here, depth, seen);
      ShapeIsFree(cfg, encodable, h, v, e.f, here, depth, seen);
    }
  }

  lemma {:induction false} ShapeIsFree(cfg: Config, encodable: bool, h: Heap, v: Value, f: Field, here: bytes, depth: nat,
                                       seen: set<nat>)
    requires Closed(h) && Fits(h, v) && NoTargets(h) && depth <= cfg.maxDepth && !Loops(v, seen)
    ensures Free(MeanValueShape(cfg, Mode(encodable, true), h, v, f, here, depth, seen),
                 MeanValueShape(cfg, Mode(encodable, false), h, v, f, here, depth, seen))
    decreases |h.Keys - seen|, v, 0
  {
    hide Closed, NoTargets, MeanElements, MeanMap, Listed, Gathered, MeanString, MeanValueShape;
    if v.Array? {
      ElementsAreFree(cfg, encodable, h, v.items, f, here, depth, seen);
      MV.ShapeOfList(cfg, Mode(encodable, true), h, v, f, here, depth, seen);
      MV.ShapeOfList(cfg, Mode(encodable, false), h, v, f, here, depth, seen);
    } else if v.Slice? && v.cell.Some? {
      CellDescends(h, v.cell.value, seen);
      ElementsAreFree(cfg, encodable, h, h[v.cell.value].items, f, here, depth, seen + {v.cell.value});
      MV.ShapeOfList(cfg, Mode(encodable, true), h, v, f, here, depth, seen);
      MV.ShapeOfList(cfg, Mode(encodable, false), h, v, f, here, depth, seen);
    } else if v.Map? && v.cell.Some? {
      CellDescends(h, v.cell.value, seen);
      EntriesAreFree(cfg, encodable, h, h[v.cell.value].entries, f, here, depth, seen + {v.cell.value});
      MV.ShapeOfMap(cfg, Mode(encodable, true), h, v, f, here, depth, seen);
      MV.ShapeOfMap(cfg, Mode(encodable, false), h, v, f, here, depth, seen);
    } else {
      ScalarIsFree(cfg, encodable, h, v, f, here, depth, seen);
    }
  }

  lemma ScalarIsFree(cfg: Config, encodable: bool, h: Heap, v: Value, f: Field, here: bytes, depth: nat, seen: set<nat>)
    requires Closed(h) && Fits(h, v) && depth <= cfg.maxDepth && !Loops(v, seen) && (IsScalar(v) || v.Pointer?)
    ensures Free(MeanValueShape(cfg, Mode(encodable, true), h, v, f, here, depth, seen),
                 MeanValueShape(cfg, Mode(encodable, false), h, v, f, here, depth, seen))
  {
    hide Closed, MeanElements, MeanMap, Listed, Gathered, MeanString;
    NothingListed();
  }

  lemma {:induction false} ElementsAreFree(cfg: Config, encodable: bool, h: Heap, items: seq<Value>, f: Field, here: bytes,
                                           depth: nat, seen: set<nat>)
    requires Closed(h) && NoTargets(h) && forall k :: 0 <= k < |items| ==> Fits(h, items[k])
    ensures Free(ListOut(Listed(MeanElements(cfg, Mode(encodable, true), h, items, f, here, depth, seen))),
                 ListOut(Listed(MeanElements(cfg, Mode(encodable, false), h, items, f, here, depth, seen))))
    decreases |h.Keys - seen|, items, 3
  {
    hide Closed, Fits, NoTargets, MeanValue, MeanElements, Listed;
    var a := MeanElements(cfg, Mode(encodable, true), h, items, f, here, depth, seen);
    var b := MeanElements(cfg, Mode(encodable, false), h, items, f, here, depth, seen);
    forall k | 0 <= k < |items| ensures Free(a[k], b[k]) {
      ElementSense(cfg, Mode(encodable, true), h, items, f, here, depth, seen, k);
      ElementSense(cfg, Mode(encodable, false), h, items, f, here, depth, seen, k);
      PointersAreFree(cfg, encodable, h, items[k], EntryField(f, []), PathForIndex(here, k), depth + 1, seen);
    }
    ListedFree(a, b);
  }

  lemma {:induction false} ListedFree(a: seq<Sense<Out>>, b: seq<Sense<Out>>)
    requires |a| == |b| && forall k :: 0 <= k < |a| ==> Free(a[k], b[k])
    ensures Free(ListOut(Listed(a)), ListOut(Listed(b)))
    decreases |a|
  {
    hide Listed;
    if a == [] {
      NothingListed();
      assert a == b;
    } else {
      var k := |a| - 1;
      assert a[..k + 1] == a && b[..k + 1] == b;
      ListedFree(a[..k], b[..k]);
      DW.ListedNext(a, k);
      DW.ListedNext(b, k);
    }
  }

  lemma {:induction false} EntriesAreFree(cfg: Config, encodable: bool, h: Heap, es: seq<Entry<Value>>, f: Field, here: bytes,
                                          depth: nat, seen: set<nat>)
    requires Closed(h) && NoTargets(h) && forall k :: 0 <= k < |es| ==> Fits(h, es[k].value)
    ensures Free(ObjectOut(Gathered(MeanMap(cfg, Mode(encodable, true), h, es, f, here, depth, seen))),
                 ObjectOut(Gathered(MeanMap(cfg, Mode(encodable, false), h, es, f, here, depth, seen))))
    decreases |h.Keys - seen|, es, 3
  {
    hide Closed, Fits, NoTargets, MeanValue, MeanMap, Gathered;
    var a := MeanMap(cfg, Mode(encodable, true), h, es, f, here, depth, seen);
    var b := MeanMap(cfg, Mode(encodable, false), h, es, f, here, depth, seen);
    forall k | 0 <= k < |es| ensures a[k].key == b[k].key && Free(a[k].value, b[k].value) {
      MapSense(cfg, Mode(encodable, true), h, es, f, here, depth, seen, k);
      MapSense(cfg, Mode(encodable, false), h, es, f, here, depth, seen, k);
      PointersAreFree(cfg, encodable, h, es[k].value, EntryField(f, es[k].key), PathFor(here, es[k].key), depth + 1, seen);
    }
    GatheredFree(a, b);
  }

  lemma {:induction false} GatheredFree(a: seq<Entry<Sense<Out>>>, b: seq<Entry<Sense<Out>>>)
    requires |a| == |b| && forall k :: 0 <= k < |a| ==> a[k].key == b[k].key && Free(a[k].value, b[k].value)
    ensures Free(ObjectOut(Gathered(a)), ObjectOut(Gathered(b)))
    decreases |a|
  {
    hide Gathered, Settle;
    if a == [] {
      NothingListed();
      assert a == b;
    } else {
      var k := |a| - 1;
      assert a[..k + 1] == a && b[..k + 1] == b;
      GatheredFree(a[..k], b[..k]);
      GatheredNext(a, k);
      GatheredNext(b, k);
    }
  }
}
