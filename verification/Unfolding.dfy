/** A graph that is shared but not cyclic unfolds to a finite tree, and is masked as that tree. */
module Unfolding {
  import opened Bytes
  import opened Options
  import opened Settings
  import opened SortedMap
  import opened JsonOut
  import opened MaskSpec
  import opened Meaning
  import opened ValueGraph
  import N = JsonNumber
  import Utf8

  /** A value without references. */
  datatype Tree =
    | Leaf(scalar: Value)
    | Listing(items: seq<Tree>)
    | Mapping(entries: seq<Entry<Tree>>)

  /** A value whose tree is a leaf. */
  predicate IsLeaf(v: Value) { !v.Pointer? && !v.Array? && !v.Slice? && !v.Map? }

  /** t is what v unfolds to: every reference replaced by what it leads to, as often as it is met. */
  ghost predicate Unfolds(h: Heap, v: Value, t: Tree)
    requires Closed(h) && Fits(h, v)
    decreases t, 1
  {
    Land(h, v, {}).Landed? && ShapeUnfolds(h, Land(h, v, {}).value, t)
  }

  ghost predicate ShapeUnfolds(h: Heap, w: Value, t: Tree)
    requires Closed(h) && Fits(h, w)
    decreases t, 0
  {
    match t
    case Leaf(s) => w == s && IsLeaf(s)
    case Listing(ts) =>
      (w.Array? || w.Slice?) &&
      var items := ListOf(h, w);
      |items| == |ts| && forall k :: 0 <= k < |ts| ==> Fits(h, items[k]) && Unfolds(h, items[k], ts[k])
    case Mapping(ts) =>
      w.Map? &&
      var es := EntriesOf(h, w.cell);
      |es| == |ts| &&
      forall k :: 0 <= k < |ts| ==> es[k].key == ts[k].key && Fits(h, es[k].value) && Unfolds(h, es[k].value, ts[k].value)
  }

  ghost function ListOf(h: Heap, w: Value): seq<Value>
    requires Fits(h, w) && (w.Array? || w.Slice?)
  {
    if w.Array? then w.items else ElementsOf(h, w.cell)
  }

  /* ---------- what a tree means ---------- */

  function TreeKind(t: Tree): Kind {
    match t
    case Leaf(v) => KindOfValue(v)
    case Listing(_) => ArrayKind
    case Mapping(_) => ObjectKind
  }

  function TreeScalar(t: Tree): bytes { if t.Leaf? then ScalarText(t.scalar) else [] }

  predicate BadLeaf(t: Tree) { t.Leaf? && BadText(t.scalar) }

  ghost function MeanUnfolded(cfg: Config, t: Tree, field: Field, here: bytes, depth: nat): Sense<Out>
    decreases t, 1
  {
    if !Utf8.Valid(field.key) || depth > cfg.maxDepth || BadLeaf(t) then Fails
    else
      var f := Seen(cfg, field, TreeKind(t), here);
      match Chosen(cfg, TreeScalar(t), f)
      case Refused => Fails
      case Chose(out) => Means(out, true, 1)
      case Open => MeanUnfoldedShape(cfg, t, f, here, depth).Costing(1)
  }

  ghost function MeanUnfoldedShape(cfg: Config, t: Tree, f: Field, here: bytes, depth: nat): Sense<Out>
    requires depth <= cfg.maxDepth
    decreases t, 0
  {
    match t
    case Leaf(v) => MeanLeaf(cfg, v, f, here, depth)
    case Listing(ts) => ListOut(Listed(seq(|ts|, i requires 0 <= i < |ts| =>
      MeanUnfolded(cfg, ts[i], EntryField(f, []), PathForIndex(here, i), depth + 1))))
    case Mapping(ts) => ObjectOut(Gathered(seq(|ts|, i requires 0 <= i < |ts| =>
      Entry(ts[i].key, MeanUnfolded(cfg, ts[i].value, EntryField(f, ts[i].key), PathFor(here, ts[i].key), depth + 1)))))
  }

  ghost function MeanLeaf(cfg: Config, v: Value, f: Field, here: bytes, depth: nat): Sense<Out>
    requires depth <= cfg.maxDepth
  {
    match v
    case Nil => Means(Kept(Null), false, 0)
    case Text(s) => MeanString(cfg, s, s, Located(f, here), depth)
    case Bool(b) => Means(Kept(SafeBool(cfg, b)), false, 0)
    case Integer(t) => Means(Kept(SafeInteger(cfg, t)), false, 0)
    case JsonNumber(t) => Means(Kept(Number(t)), false, 0)
    case _ => Fails
  }

  /* ---------- ancestors ---------- */

  function Height(t: Tree): nat {
    match t
    case Leaf(_) => 0
    case Listing(ts) => 1 + MaxHeight(ts)
    case Mapping(ts) => 1 + MaxEntryHeight(ts)
  }

  function MaxHeight(ts: seq<Tree>): (n: nat)
    ensures forall k :: 0 <= k < |ts| ==> Height(ts[k]) <= n
  {
    if ts == [] then 0
    else
      var rest := MaxHeight(ts[1..]);
      assert forall k :: 1 <= k < |ts| ==> ts[k] == ts[1..][k - 1];
      if Height(ts[0]) > rest then Height(ts[0]) else rest
  }

  function MaxEntryHeight(ts: seq<Entry<Tree>>): (n: nat)
    ensures forall k :: 0 <= k < |ts| ==> Height(ts[k].value) <= n
  {
    if ts == [] then 0
    else
      var rest := MaxEntryHeight(ts[1..]);
      assert forall k :: 1 <= k < |ts| ==> ts[k] == ts[1..][k - 1];
      if Height(ts[0].value) > rest then Height(ts[0].value) else rest
  }

  /** The value an identity stands for. */
  function ValueOf(h: Heap, id: nat): Value
    requires id in h
  {
    match h[id]
    case Target(_) => Pointer(id)
    case Entries(_) => Map(Some(id))
    case Elements(_) => Slice(Some(id))
  }

  /** Every identity on the way here unfolds to a taller tree, so none of them can be met again. */
  ghost predicate Above(h: Heap, seen: set<nat>, n: nat)
    requires Closed(h)
  {
    forall id :: id in seen ==> id in h && exists t :: Unfolds(h, ValueOf(h, id), t) && Height(t) > n
  }

  /** A value unfolds to one tree. */
  lemma {:induction false} OneUnfolding(h: Heap, v: Value, t: Tree, u: Tree)
    requires Closed(h) && Fits(h, v) && Unfolds(h, v, t) && Unfolds(h, v, u)
    ensures t == u
    decreases t
  {
    hide Closed;
    var w := Land(h, v, {}).value;
    match t
    case Leaf(_) =>
    case Listing(ts) =>
      var items := ListOf(h, w);
      forall k | 0 <= k < |ts| ensures ts[k] == u.items[k] { OneUnfolding(h, items[k], ts[k], u.items[k]); }
    case Mapping(ts) =>
      var es := EntriesOf(h, w.cell);
      forall k | 0 <= k < |ts| ensures ts[k] == u.entries[k] {
        OneUnfolding(h, es[k].value, ts[k].value, u.entries[k].value);
      }
  }

  /** Fewer identities in the way do not change where a chain lands. */
  lemma {:induction false} LandsAlike(h: Heap, v: Value, seen: set<nat>, less: set<nat>)
    requires Closed(h) && Fits(h, v) && less <= seen && Land(h, v, seen).Landed?
    ensures Land(h, v, less).Landed? && Land(h, v, less).value == Land(h, v, seen).value
    decreases |h.Keys - seen|
  {
    hide Closed;
    if v.Pointer? {
      PointerFits(h, v);
      FewerLeft(h, seen, v.id);
      FewerLeft(h, less, v.id);
      LandsAlike(h, h[v.id].value, seen + {v.id}, less + {v.id});
    }
  }

  /** A pointer that lands unfolds as its target does. */
  lemma PointerUnfolds(h: Heap, v: Value, t: Tree)
    requires Closed(h) && Fits(h, v) && v.Pointer? && Unfolds(h, v, t)
    ensures v.id in h && h[v.id].Target? && Fits(h, h[v.id].value) && Unfolds(h, h[v.id].value, t)
  {
    hide Closed;
    PointerFits(h, v);
    FewerLeft(h, {}, v.id);
    LandsAlike(h, h[v.id].value, {} + {v.id}, {});
  }

  /** An identity whose value unfolds to t. */
  ghost predicate Is(h: Heap, id: nat, t: Tree)
    requires Closed(h)
  {
    id in h && Unfolds(h, ValueOf(h, id), t)
  }

  /** The way to where v lands: nothing of it is among the ancestors, and all of it unfolds to t. */
  lemma {:induction false} ChainClear(h: Heap, v: Value, t: Tree, base: set<nat>, anc: set<nat>)
    requires Closed(h) && Fits(h, v) && Unfolds(h, v, t) && Land(h, v, base).Landed?
    requires forall id :: id in anc ==> !Is(h, id, t)
    ensures var r, s := Land(h, v, base + anc), Land(h, v, base);
      && r.Landed? && r.value == s.value && r.seen == s.seen + anc
      && (forall id :: id in s.seen ==> id in base || (Is(h, id, t) && h[id].Target?))
      && Unfolds(h, s.value, t)
    decreases |h.Keys - base|
  {
    hide Closed, Unfolds;
    if v.Pointer? {
      PointerUnfolds(h, v, t);
      assert Is(h, v.id, t);
      FewerLeft(h, base, v.id);
      assert base + anc + {v.id} == base + {v.id} + anc;
      ChainClear(h, h[v.id].value, t, base + {v.id}, anc);
    }
  }

  lemma AncestorsDiffer(h: Heap, seen: set<nat>, t: Tree)
    requires Closed(h) && Above(h, seen, Height(t))
    ensures forall id :: id in seen ==> !Is(h, id, t)
  {
    hide Closed, Unfolds;
    forall id | id in seen ensures !Is(h, id, t) {
      if Is(h, id, t) {
        var u :| Unfolds(h, ValueOf(h, id), u) && Height(u) > Height(t);
        OneUnfolding(h, ValueOf(h, id), t, u);
      }
    }
  }

  /** A value that unfolds to t is entered as t is, and what is below it is shorter than everything on the way. */
  lemma EntersClear(h: Heap, v: Value, t: Tree, seen: set<nat>)
    requires Closed(h) && Fits(h, v) && Unfolds(h, v, t) && Above(h, seen, Height(t))
    ensures var r := Land(h, v, seen);
      && r.Landed? && r.value == Land(h, v, {}).value && !Loops(r.value, r.seen)
      && (forall n: nat :: n < Height(t) ==> Above(h, WithCell(r.seen, r.value), n))
  {
    hide Closed, Unfolds;
    AncestorsDiffer(h, seen, t);
    UnfoldsLands(h, v, t);
    ChainClear(h, v, t, {}, seen);
    assert {} + seen == seen;
    var r := Land(h, v, seen);
    var w := r.value;
    var below := WithCell(r.seen, w);
    if CellOf(w).Some? {
      var id := CellOf(w).value;
      assert id in h && ValueOf(h, id) == w && !h[id].Target?;
      assert Is(h, id, t);
    }
    forall id | id in below ensures id in seen || Is(h, id, t) {
    }
    forall n: nat | n < Height(t) ensures Above(h, below, n) {
      BelowAll(h, seen, below, t, n);
    }
  }

  lemma UnfoldsLands(h: Heap, v: Value, t: Tree)
    requires Closed(h) && Fits(h, v) && Unfolds(h, v, t)
    ensures Land(h, v, {}).Landed?
  {
  }

  lemma BelowAll(h: Heap, seen: set<nat>, below: set<nat>, t: Tree, n: nat)
    requires Closed(h) && Above(h, seen, Height(t)) && n < Height(t)
    requires forall id :: id in below ==> id in seen || Is(h, id, t)
    ensures Above(h, below, n)
  {
    hide Closed, Unfolds;
    forall id | id in below ensures id in h && exists u :: Unfolds(h, ValueOf(h, id), u) && Height(u) > n {
      if id in seen {
        var u :| Unfolds(h, ValueOf(h, id), u) && Height(u) > Height(t);
        assert Height(u) > n;
      } else {
        assert Unfolds(h, ValueOf(h, id), t) && Height(t) > n;
      }
    }
  }

  /* ---------- the theorem ---------- */

  /** Whatever is shared on the way, a value that unfolds to a tree means what the tree means. */
  lemma {:induction false} MeansItsUnfolding(cfg: Config, h: Heap, v: Value, t: Tree, field: Field, here: bytes, depth: nat,
                                             seen: set<nat>)
    requires Closed(h) && Fits(h, v) && Unfolds(h, v, t) && Above(h, seen, Height(t))
    ensures MeanValue(cfg, NODES, h, v, field, here, depth, seen) == MeanUnfolded(cfg, t, field, here, depth)
    decreases t, 1
  {
    hide Closed, Unfolds, Fits, MeanValue, MeanValueShape, MeanUnfoldedShape, Chosen, Utf8.Valid, BadText, BadLeaf, ScalarText,
      TreeScalar, Land, Above, Entered, Loops, WithCell;
    EntersClear(h, v, t, seen);
    SameScalar(h, v, t);
    var e := Entered(cfg, h, v, field, here, depth, seen);
    EnteringOutside(cfg, h, v, field, here, depth, seen);
    if Utf8.Valid(field.key) && depth <= cfg.maxDepth { EnteringReached(cfg, h, v, field, here, depth, seen); }
    if e.Bad? {
      MeanBad(cfg, NODES, h, v, field, here, depth, seen);
    } else if e.Settles? {
      MeanSettled(cfg, NODES, h, v, field, here, depth, seen);
    } else {
      var r := Land(h, v, seen);
      OpensFits(cfg, h, v, field, here, depth, seen);
      MeanOpen(cfg, NODES, h, v, field, here, depth, seen);
      ShapeMeansUnfolding(cfg, h, r.value, t, e.f, here, depth, r.seen);
    }
  }

  lemma SameScalar(h: Heap, v: Value, t: Tree)
    requires Closed(h) && Fits(h, v) && Unfolds(h, v, t)
    ensures var w := Land(h, v, {}).value;
      && Land(h, v, {}).Landed? && KindOfValue(w) == TreeKind(t) && ScalarText(w) == TreeScalar(t)
      && (BadText(w) <==> BadLeaf(t)) && Unfolds(h, w, t)
  {
    hide Closed;
  }

  lemma {:induction false} ShapeMeansUnfolding(cfg: Config, h: Heap, w: Value, t: Tree, f: Field, here: bytes, depth: nat,
                                               seen: set<nat>)
    requires Closed(h) && Fits(h, w) && Unfolds(h, w, t) && !w.Pointer? && !Loops(w, seen) && depth <= cfg.maxDepth
    requires forall n: nat :: n < Height(t) ==> Above(h, WithCell(seen, w), n)
    ensures MeanValueShape(cfg, NODES, h, w, f, here, depth, seen) == MeanUnfoldedShape(cfg, t, f, here, depth)
    decreases t, 0
  {
    hide Closed, MeanValue, MeanUnfolded, Above, MeanString, Listed, Gathered, Height, MeanElements, MeanMap, Unfolds;
    ShapeOf(h, w, t);
    match t
    case Leaf(_) => LeafMeans(cfg, h, w, f, here, depth, seen);
    case Listing(ts) =>
      var items := ListOf(h, w);
      ChildrenShorter(t);
      ItemsMean(cfg, h, items, ts, f, here, depth, WithCell(seen, w));
    case Mapping(ts) =>
      ChildrenShorter(t);
      EntriesMean(cfg, h, EntriesOf(h, w.cell), ts, f, here, depth, WithCell(seen, w));
  }

  lemma ChildrenShorter(t: Tree)
    ensures t.Listing? ==> forall k :: 0 <= k < |t.items| ==> Height(t.items[k]) < Height(t)
    ensures t.Mapping? ==> forall k :: 0 <= k < |t.entries| ==> Height(t.entries[k].value) < Height(t)
  {
  }

  lemma ShapeOf(h: Heap, w: Value, t: Tree)
    requires Closed(h) && Fits(h, w) && Unfolds(h, w, t) && !w.Pointer?
    ensures ShapeUnfolds(h, w, t)
  {
    hide Closed;
  }

  lemma LeafMeans(cfg: Config, h: Heap, w: Value, f: Field, here: bytes, depth: nat, seen: set<nat>)
    requires Closed(h) && Fits(h, w) && IsLeaf(w) && !Loops(w, seen) && depth <= cfg.maxDepth
    ensures MeanValueShape(cfg, NODES, h, w, f, here, depth, seen) == MeanLeaf(cfg, w, f, here, depth)
  {
    hide Closed, MeanString;
  }

  lemma {:induction false} ItemsMean(cfg: Config, h: Heap, items: seq<Value>, ts: seq<Tree>, f: Field, here: bytes,
                                     depth: nat, seen: set<nat>)
    requires Closed(h) && |items| == |ts|
    requires forall k :: 0 <= k < |ts| ==> Fits(h, items[k]) && Unfolds(h, items[k], ts[k]) && Above(h, seen, Height(ts[k]))
    ensures MeanElements(cfg, NODES, h, items, f, here, depth, seen) ==
      seq(|ts|, i requires 0 <= i < |ts| =>
        MeanUnfolded(cfg, ts[i], EntryField(f, []), PathForIndex(here, i), depth + 1))
    decreases ts
  {
    hide Closed, Unfolds, Fits, MeanValue, MeanUnfolded, Above;
    forall k | 0 <= k < |ts|
      ensures MeanValue(cfg, NODES, h, items[k], EntryField(f, []), PathForIndex(here, k), depth + 1, seen) ==
        MeanUnfolded(cfg, ts[k], EntryField(f, []), PathForIndex(here, k), depth + 1)
    {
      MeansItsUnfolding(cfg, h, items[k], ts[k], EntryField(f, []), PathForIndex(here, k), depth + 1, seen);
    }
  }

  lemma {:induction false} EntriesMean(cfg: Config, h: Heap, es: seq<Entry<Value>>, ts: seq<Entry<Tree>>, f: Field,
                                       here: bytes, depth: nat, seen: set<nat>)
    requires Closed(h) && |es| == |ts|
    requires forall k :: 0 <= k < |ts| ==>
      es[k].key == ts[k].key && Fits(h, es[k].value) && Unfolds(h, es[k].value, ts[k].value) &&
      Above(h, seen, Height(ts[k].value))
    ensures MeanMap(cfg, NODES, h, es, f, here, depth, seen) ==
      seq(|ts|, i requires 0 <= i < |ts| =>
        Entry(ts[i].key, MeanUnfolded(cfg, ts[i].value, EntryField(f, ts[i].key), PathFor(here, ts[i].key), depth + 1)))
    decreases ts
  {
    hide Closed, Unfolds, Fits, MeanValue, MeanUnfolded, Above;
    forall k | 0 <= k < |ts|
      ensures MeanValue(cfg, NODES, h, es[k].value, EntryField(f, es[k].key), PathFor(here, es[k].key), depth + 1, seen) ==
        MeanUnfolded(cfg, ts[k].value, EntryField(f, ts[k].key), PathFor(here, ts[k].key), depth + 1)
    {
      MeansItsUnfolding(cfg, h, es[k].value, ts[k].value, EntryField(f, es[k].key), PathFor(here, es[k].key), depth + 1, seen);
    }
  }

  /** From the root: sharing cannot be seen, for two graphs that unfold alike are masked alike. */
  lemma SharingIsInvisible(cfg: Config, h1: Heap, v1: Value, h2: Heap, v2: Value, t: Tree, field: Field, here: bytes, depth: nat)
    requires Closed(h1) && Fits(h1, v1) && Unfolds(h1, v1, t)
    requires Closed(h2) && Fits(h2, v2) && Unfolds(h2, v2, t)
    ensures MeanValue(cfg, NODES, h1, v1, field, here, depth, {}) == MeanUnfolded(cfg, t, field, here, depth)
    ensures MeanValue(cfg, NODES, h1, v1, field, here, depth, {}) == MeanValue(cfg, NODES, h2, v2, field, here, depth, {})
  {
    hide Closed, Unfolds, Fits, MeanValue, MeanUnfolded;
    MeansItsUnfolding(cfg, h1, v1, t, field, here, depth, {});
    MeansItsUnfolding(cfg, h2, v2, t, field, here, depth, {});
  }
}
