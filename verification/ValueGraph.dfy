/**
 Go values as the reflection walker meets them: scalars, inline arrays, and references into a heap, which may
 share cells and form cycles. Here is what masking a value means, and when its graph is cyclic.
 */
module ValueGraph {
  import opened Bytes
  import opened Options
  import opened Settings
  import opened SortedMap
  import opened JsonOut
  import opened MaskSpec
  import opened Meaning
  import T = JsonTree
  import N = JsonNumber
  import Utf8

  /** A value. A nil pointer and a nil interface are Nil; a nil map or slice has no cell. */
  datatype Value =
    | Nil
    | Text(text: bytes)
    | Bool(b: bool)
    | Integer(text: bytes)
    | JsonNumber(text: bytes)
    | Pointer(id: nat)
    | Map(cell: Option<nat>)
    | Slice(cell: Option<nat>)
    | Array(items: seq<Value>)
    | Unsupported

  /** What an identity stands for: the target of a pointer, the entries of a map, the elements of a slice. */
  datatype Cell = Target(value: Value) | Entries(entries: seq<Entry<Value>>) | Elements(items: seq<Value>)

  type Heap = map<nat, Cell>

  ghost predicate Fits(h: Heap, v: Value) {
    match v
    case Pointer(id) => id in h && h[id].Target?
    case Map(Some(id)) => id in h && h[id].Entries?
    case Slice(Some(id)) => id in h && h[id].Elements?
    case Array(items) => forall k :: 0 <= k < |items| ==> Fits(h, items[k])
    case _ => true
  }

  /** References lead to cells of their kind, and a map has one entry for a key. */
  ghost predicate Closed(h: Heap) {
    forall id :: id in h ==>
      match h[id]
      case Target(v) => Fits(h, v)
      case Entries(es) => DistinctKeys(es) && forall k :: 0 <= k < |es| ==> Fits(h, es[k].value)
      case Elements(items) => forall k :: 0 <= k < |items| ==> Fits(h, items[k])
  }

  function EntriesOf(h: Heap, cell: Option<nat>): seq<Entry<Value>>
    requires cell.Some? ==> cell.value in h && h[cell.value].Entries?
  {
    match cell
    case None => []
    case Some(id) => h[id].entries
  }

  function ElementsOf(h: Heap, cell: Option<nat>): seq<Value>
    requires cell.Some? ==> cell.value in h && h[cell.value].Elements?
  {
    match cell
    case None => []
    case Some(id) => h[id].items
  }

  /* ---------- following pointers ---------- */

  /** Where a chain of pointers ends; it may come back to an identity that is being walked. */
  datatype Landing = Looped | Landed(value: Value, seen: set<nat>, hops: nat)

  ghost function Land(h: Heap, v: Value, seen: set<nat>): (r: Landing)
    requires Closed(h) && Fits(h, v)
    ensures r.Landed? ==> !r.value.Pointer? && Fits(h, r.value) && seen <= r.seen <= seen + h.Keys
    decreases |h.Keys - seen|
  {
    if !v.Pointer? then Landed(v, seen, 0)
    else if v.id in seen then Looped
    else
      FewerLeft(h, seen, v.id);
      match Land(h, h[v.id].value, seen + {v.id})
      case Looped => Looped
      case Landed(w, s, n) => Landed(w, s, n + 1)
  }

  lemma FewerLeft(h: Heap, seen: set<nat>, id: nat)
    requires id in h && id !in seen
    ensures |h.Keys - (seen + {id})| < |h.Keys - seen|
  {
    assert h.Keys - seen == (h.Keys - (seen + {id})) + {id};
  }

  /** The identity of a map or slice. */
  function CellOf(v: Value): Option<nat> {
    match v
    case Map(cell) => cell
    case Slice(cell) => cell
    case _ => None
  }

  function WithCell(seen: set<nat>, v: Value): set<nat> {
    if CellOf(v).Some? then seen + {CellOf(v).value} else seen
  }

  predicate Loops(v: Value, seen: set<nat>) { CellOf(v).Some? && CellOf(v).value in seen }

  function KindOfValue(v: Value): Kind {
    match v
    case Nil => NilKind
    case Text(_) => StringKind
    case Bool(_) => BoolKind
    case Integer(_) => NumberKind
    case JsonNumber(_) => NumberKind
    case Map(_) => ObjectKind
    case Slice(_) => ArrayKind
    case Array(_) => ArrayKind
    case _ => InvalidKind
  }

  /** scalarText. */
  function ScalarText(v: Value): bytes {
    match v
    case Text(s) => s
    case Bool(b) => if b then T.TRUE else T.FALSE
    case Integer(t) => t
    case JsonNumber(t) => t
    case _ => []
  }

  /** A string kind whose text is not valid UTF-8. */
  predicate BadText(v: Value) { (v.Text? || v.JsonNumber?) && !Utf8.Valid(v.text) }

  /** The children of a map or slice fit the heap, and tracking its cell uses up an identity. */
  lemma CellDescends(h: Heap, id: nat, seen: set<nat>)
    requires Closed(h) && id in h && id !in seen
    ensures |h.Keys - (seen + {id})| < |h.Keys - seen|
    ensures h[id].Elements? ==> forall k :: 0 <= k < |h[id].items| ==> Fits(h, h[id].items[k])
    ensures h[id].Entries? ==>
      DistinctKeys(h[id].entries) && forall k :: 0 <= k < |h[id].entries| ==> Fits(h, h[id].entries[k].value)
  {
    FewerLeft(h, seen, id);
  }

  /* ---------- what a value means ---------- */

  /**
   What is asked of a meaning: whether the tree must be one the encoder takes, and whether its cost is counted in
   nodes or in pointers followed. Both counts have their limit.
   */
  datatype Mode = Mode(encodable: bool, hops: bool) {
    function Nodes(n: nat): nat { if hops then 0 else n }
    function Hops(n: nat): nat { if hops then n else 0 }
  }

  const NODES := Mode(false, false)
  const HOPS := Mode(false, true)

  /** The field as the policy sees it. */
  function ValueField(cfg: Config, field: Field, v: Value, here: bytes): Field { Seen(cfg, field, KindOfValue(v), here) }

  /** How a value is entered: it fails, the policy settles it, or it is open to be looked into. */
  datatype Entering = Bad(looped: bool) | Settles(out: Out, hops: nat) | Opens(node: Value, f: Field, seen: set<nat>, hops: nat)

  ghost function Entered(cfg: Config, h: Heap, v: Value, field: Field, here: bytes, depth: nat, seen: set<nat>): Entering
    requires Closed(h) && Fits(h, v)
  {
    if !Utf8.Valid(field.key) || depth > cfg.maxDepth then Bad(false)
    else
      match Land(h, v, seen)
      case Looped => Bad(true)
      case Landed(w, s, hops) =>
        if Loops(w, s) then Bad(true)
        else if BadText(w) then Bad(false)
        else
          match Chosen(cfg, ScalarText(w), ValueField(cfg, field, w, here))
          case Refused => Bad(false)
          case Chose(out) => Settles(out, hops)
          case Open => Opens(w, ValueField(cfg, field, w, here), s, hops)
  }

  lemma OpensFits(cfg: Config, h: Heap, v: Value, field: Field, here: bytes, depth: nat, seen: set<nat>)
    requires Closed(h) && Fits(h, v)
    ensures var e := Entered(cfg, h, v, field, here, depth, seen);
      e.Opens? ==>
        && Fits(h, e.node) && !e.node.Pointer? && !Loops(e.node, e.seen) && depth <= cfg.maxDepth && seen <= e.seen
        && (|h.Keys - e.seen| < |h.Keys - seen| || (e.node == v && e.seen == seen))
  {
    hide Land, Fits, Closed, Entered;
    OpensLanded(cfg, h, v, field, here, depth, seen);
    if Land(h, v, seen).Landed? { LandingDescends(h, v, seen); }
  }

  lemma OpensLanded(cfg: Config, h: Heap, v: Value, field: Field, here: bytes, depth: nat, seen: set<nat>)
    requires Closed(h) && Fits(h, v)
    ensures var e := Entered(cfg, h, v, field, here, depth, seen);
      e.Opens? ==> Land(h, v, seen) == Landed(e.node, e.seen, e.hops) && !Loops(e.node, e.seen) && depth <= cfg.maxDepth
  {
    hide Land, Fits, Chosen, Closed, BadText, Loops, ScalarText;
  }

  function EnterCost(mode: Mode, hops: nat): nat { mode.Nodes(1) + mode.Hops(hops) }

  ghost function MeanValue(cfg: Config, mode: Mode, h: Heap, v: Value, field: Field, here: bytes, depth: nat,
                           seen: set<nat>): Sense<Out>
    requires Closed(h) && Fits(h, v)
    decreases |h.Keys - seen|, v, 1
  {
    var e := Entered(cfg, h, v, field, here, depth, seen);
    match e
    case Bad(_) => Fails
    case Settles(out, hops) => Means(out, true, EnterCost(mode, hops))
    case Opens(w, f, s, hops) =>
      OpensFits(cfg, h, v, field, here, depth, seen);
      MeanValueShape(cfg, mode, h, w, f, here, depth, s).Costing(EnterCost(mode, hops))
  }

  /** A chain of pointers uses up identities. */
  lemma LandingDescends(h: Heap, v: Value, seen: set<nat>)
    requires Closed(h) && Fits(h, v) && Land(h, v, seen).Landed?
    ensures var r := Land(h, v, seen);
      |h.Keys - r.seen| < |h.Keys - seen| || (r.value == v && r.seen == seen)
    decreases |h.Keys - seen|
  {
    if v.Pointer? {
      FewerLeft(h, seen, v.id);
      LandingDescends(h, h[v.id].value, seen + {v.id});
    }
  }

  ghost function MeanValueShape(cfg: Config, mode: Mode, h: Heap, v: Value, f: Field, here: bytes, depth: nat,
                                seen: set<nat>): Sense<Out>
    requires Closed(h) && Fits(h, v) && depth <= cfg.maxDepth && !Loops(v, seen)
    decreases |h.Keys - seen|, v, 0
  {
    match v
    case Nil => Means(Kept(Null), false, 0)
    case Text(s) => Weighed(mode, MeanString(cfg, s, s, Located(f, here), depth))
    case Bool(b) => Means(Kept(SafeBool(cfg, b)), false, 0)
    case Integer(t) => Means(Kept(SafeInteger(cfg, t)), false, 0)
    case JsonNumber(t) => if mode.encodable && !N.Accepts(t) then Fails else Means(Kept(Number(t)), false, 0)
    case Array(items) => ListOut(Listed(MeanElements(cfg, mode, h, items, f, here, depth, seen)))
    case Slice(None) => ListOut(Listed([]))
    case Slice(Some(id)) =>
      CellDescends(h, id, seen);
      ListOut(Listed(MeanElements(cfg, mode, h, h[id].items, f, here, depth, seen + {id})))
    case Map(None) => ObjectOut(Gathered([]))
    case Map(Some(id)) =>
      CellDescends(h, id, seen);
      ObjectOut(Gathered(MeanMap(cfg, mode, h, h[id].entries, f, here, depth, seen + {id})))
    case Pointer(_) => Fails
    case Unsupported => Fails
  }

  /** safeScalar. */
  function SafeBool(cfg: Config, b: bool): Json {
    if cfg.preserveSafe then JsonOut.Json.Bool(b) else String(if b then T.TRUE else T.FALSE)
  }

  function SafeInteger(cfg: Config, t: bytes): Json { if cfg.preserveSafe then Number(t) else String(t) }

  /** Inspection follows no pointers. */
  function Weighed(mode: Mode, m: Sense<Out>): Sense<Out> { if m.Fails? then Fails else m.(cost := mode.Nodes(m.cost)) }

  /** The field of a child of a value at field f. */
  function EntryField(f: Field, key: bytes): Field { Field(key, [], f.source, NilKind) }

  ghost function MeanElements(cfg: Config, mode: Mode, h: Heap, items: seq<Value>, f: Field, here: bytes, depth: nat,
                              seen: set<nat>): (r: seq<Sense<Out>>)
    requires Closed(h) && forall k :: 0 <= k < |items| ==> Fits(h, items[k])
    ensures |r| == |items|
    decreases |h.Keys - seen|, items, 2
  {
    seq(|items|, i requires 0 <= i < |items| =>
      MeanValue(cfg, mode, h, items[i], EntryField(f, []), PathForIndex(here, i), depth + 1, seen))
  }

  ghost function MeanMap(cfg: Config, mode: Mode, h: Heap, es: seq<Entry<Value>>, f: Field, here: bytes, depth: nat,
                         seen: set<nat>): (r: seq<Entry<Sense<Out>>>)
    requires Closed(h) && forall k :: 0 <= k < |es| ==> Fits(h, es[k].value)
    ensures |r| == |es|
    decreases |h.Keys - seen|, es, 2
  {
    seq(|es|, i requires 0 <= i < |es| =>
      Entry(es[i].key, MeanValue(cfg, mode, h, es[i].value, EntryField(f, es[i].key), PathFor(here, es[i].key),
                                 depth + 1, seen)))
  }

  lemma MeanBad(cfg: Config, mode: Mode, h: Heap, v: Value, field: Field, here: bytes, depth: nat, seen: set<nat>)
    requires Closed(h) && Fits(h, v) && Entered(cfg, h, v, field, here, depth, seen).Bad?
    ensures MeanValue(cfg, mode, h, v, field, here, depth, seen).Fails?
  {
    hide Entered, MeanValueShape, Closed, Fits;
  }

  lemma MeanSettled(cfg: Config, mode: Mode, h: Heap, v: Value, field: Field, here: bytes, depth: nat, seen: set<nat>)
    requires Closed(h) && Fits(h, v) && Entered(cfg, h, v, field, here, depth, seen).Settles?
    ensures var e := Entered(cfg, h, v, field, here, depth, seen);
      MeanValue(cfg, mode, h, v, field, here, depth, seen) == Means(e.out, true, EnterCost(mode, e.hops))
  {
    hide Entered, MeanValueShape, Closed, Fits;
  }

  lemma MeanOpen(cfg: Config, mode: Mode, h: Heap, v: Value, field: Field, here: bytes, depth: nat, seen: set<nat>)
    requires Closed(h) && Fits(h, v) && Entered(cfg, h, v, field, here, depth, seen).Opens?
    ensures var e := Entered(cfg, h, v, field, here, depth, seen);
      && Fits(h, e.node) && !Loops(e.node, e.seen) && depth <= cfg.maxDepth
      && MeanValue(cfg, mode, h, v, field, here, depth, seen) ==
           MeanValueShape(cfg, mode, h, e.node, e.f, here, depth, e.seen).Costing(EnterCost(mode, e.hops))
  {
    hide Entered, MeanValueShape, Closed, Fits, Loops;
    OpensFits(cfg, h, v, field, here, depth, seen);
  }

  lemma EnteringOutside(cfg: Config, h: Heap, v: Value, field: Field, here: bytes, depth: nat, seen: set<nat>)
    requires Closed(h) && Fits(h, v)
    ensures !Utf8.Valid(field.key) || depth > cfg.maxDepth ==> Entered(cfg, h, v, field, here, depth, seen) == Bad(false)
  {
    hide Closed, Fits, Land, Chosen, Utf8.Valid;
  }

  lemma EnteringReached(cfg: Config, h: Heap, v: Value, field: Field, here: bytes, depth: nat, seen: set<nat>)
    requires Closed(h) && Fits(h, v) && Utf8.Valid(field.key) && depth <= cfg.maxDepth
    ensures var e, r := Entered(cfg, h, v, field, here, depth, seen), Land(h, v, seen);
      if r.Looped? || Loops(r.value, r.seen) then e == Bad(true)
      else if BadText(r.value) then e == Bad(false)
      else
        var f := ValueField(cfg, field, r.value, here);
        match Chosen(cfg, ScalarText(r.value), f)
        case Refused => e == Bad(false)
        case Chose(out) => e == Settles(out, r.hops)
        case Open => e == Opens(r.value, f, r.seen, r.hops)
  {
    hide Closed, Fits, Land, Chosen, Utf8.Valid, BadText, Loops, ScalarText;
  }

  lemma PointerFits(h: Heap, v: Value)
    requires Closed(h) && Fits(h, v) && v.Pointer?
    ensures v.id in h && h[v.id].Target? && Fits(h, h[v.id].value)
  {
  }

  /* ---------- cycles ---------- */

  /** The walk of v comes back to an identity on its way, if it looks into every open value. */
  ghost predicate CycleMet(cfg: Config, h: Heap, v: Value, field: Field, here: bytes, depth: nat, seen: set<nat>)
    requires Closed(h) && Fits(h, v)
    decreases |h.Keys - seen|, v, 1
  {
    match Entered(cfg, h, v, field, here, depth, seen)
    case Bad(looped) => looped
    case Settles(_, _) => false
    case Opens(w, f, s, _) =>
      OpensFits(cfg, h, v, field, here, depth, seen);
      CycleBelow(cfg, h, w, f, here, depth, s)
  }

  ghost predicate CycleBelow(cfg: Config, h: Heap, v: Value, f: Field, here: bytes, depth: nat, seen: set<nat>)
    requires Closed(h) && Fits(h, v) && !Loops(v, seen)
    decreases |h.Keys - seen|, v, 0
  {
    match v
    case Array(items) => CycleInList(cfg, h, items, f, here, depth, seen)
    case Slice(Some(id)) =>
      CellDescends(h, id, seen);
      CycleInList(cfg, h, h[id].items, f, here, depth, seen + {id})
    case Map(Some(id)) =>
      CellDescends(h, id, seen);
      CycleInMap(cfg, h, h[id].entries, f, here, depth, seen + {id})
    case _ => false
  }

  ghost predicate CycleInList(cfg: Config, h: Heap, items: seq<Value>, f: Field, here: bytes, depth: nat, seen: set<nat>)
    requires Closed(h) && forall k :: 0 <= k < |items| ==> Fits(h, items[k])
    decreases |h.Keys - seen|, items, 2
  {
    exists k :: 0 <= k < |items| && CycleMet(cfg, h, items[k], EntryField(f, []), PathForIndex(here, k), depth + 1, seen)
  }

  ghost predicate CycleInMap(cfg: Config, h: Heap, es: seq<Entry<Value>>, f: Field, here: bytes, depth: nat, seen: set<nat>)
    requires Closed(h) && forall k :: 0 <= k < |es| ==> Fits(h, es[k].value)
    decreases |h.Keys - seen|, es, 2
  {
    exists k :: 0 <= k < |es| &&
      CycleMet(cfg, h, es[k].value, EntryField(f, es[k].key), PathFor(here, es[k].key), depth + 1, seen)
  }
}
