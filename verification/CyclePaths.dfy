/**
 What the tracked identities are for: a cycle is met exactly when some way through values the policy leaves open
 comes to one identity twice.
 */
module CyclePaths {
  import opened Bytes
  import opened Options
  import opened Settings
  import opened SortedMap
  import opened JsonOut
  import opened MaskSpec
  import opened Meaning
  import opened ValueGraph
  import Utf8

  /* ---------- ways through a graph ---------- */

  datatype Move = Follow | Child(i: nat)

  /** The identity a value is tracked under. */
  function OwnIds(v: Value): seq<nat> {
    if v.Pointer? then [v.id] else if CellOf(v).Some? then [CellOf(v).value] else []
  }

  /** A value that is no pointer and that the policy leaves open. */
  predicate IsOpen(cfg: Config, v: Value, field: Field, here: bytes) {
    !v.Pointer? && !BadText(v) && Chosen(cfg, ScalarText(v), ValueField(cfg, field, v, here)).Open?
  }

  ghost function ChildCount(h: Heap, v: Value): nat
    requires Fits(h, v)
  {
    match v
    case Array(items) => |items|
    case Slice(cell) => |ElementsOf(h, cell)|
    case Map(cell) => |EntriesOf(h, cell)|
    case _ => 0
  }

  ghost function ChildOf(h: Heap, v: Value, i: nat): (c: Value)
    requires Closed(h) && Fits(h, v) && i < ChildCount(h, v)
    ensures Fits(h, c)
  {
    match v
    case Array(items) => items[i]
    case Slice(cell) => ElementsOf(h, cell)[i]
    case Map(cell) => EntriesOf(h, cell)[i].value
  }

  ghost function ChildField(h: Heap, v: Value, f: Field, i: nat): Field
    requires Fits(h, v) && i < ChildCount(h, v)
  {
    EntryField(f, if v.Map? then EntriesOf(h, v.cell)[i].key else [])
  }

  ghost function ChildPath(h: Heap, v: Value, here: bytes, i: nat): bytes
    requires Fits(h, v) && i < ChildCount(h, v)
  {
    if v.Map? then PathFor(here, EntriesOf(h, v.cell)[i].key) else PathForIndex(here, i)
  }

  /** From v the moves lead through open values, within the depth limit, and pass the identities ids in turn. */
  ghost predicate Trail(cfg: Config, h: Heap, v: Value, field: Field, here: bytes, depth: nat,
                        moves: seq<Move>, ids: seq<nat>)
    requires Closed(h) && Fits(h, v)
    decreases |moves|
  {
    Utf8.Valid(field.key) && depth <= cfg.maxDepth && OwnIds(v) <= ids &&
    if moves == [] then ids == OwnIds(v)
    else
      var rest := ids[|OwnIds(v)|..];
      match moves[0]
      case Follow => v.Pointer? && Trail(cfg, h, h[v.id].value, field, here, depth, moves[1..], rest)
      case Child(i) =>
        (IsOpen(cfg, v, field, here) && i < ChildCount(h, v) &&
         var f := ValueField(cfg, field, v, here);
         Trail(cfg, h, ChildOf(h, v, i), ChildField(h, v, f, i), ChildPath(h, v, here, i), depth + 1, moves[1..], rest))
  }

  /** An identity of ids is in seen, or stands in ids twice. */
  predicate Hits(ids: seq<nat>, seen: set<nat>) {
    exists k :: 0 <= k < |ids| && (ids[k] in seen || ids[k] in ids[..k])
  }

  /** An identity in front of the others: passed before, or seen before. */
  lemma HitsCons(own: seq<nat>, rest: seq<nat>, seen: set<nat>)
    requires |own| <= 1 && (own != [] ==> own[0] !in seen)
    ensures Hits(own + rest, seen) <==> Hits(rest, if own == [] then seen else seen + {own[0]})
  {
    var ids := own + rest;
    if own == [] {
      assert ids == rest;
    } else {
      var more := seen + {own[0]};
      if Hits(ids, seen) {
        var k :| 0 <= k < |ids| && (ids[k] in seen || ids[k] in ids[..k]);
        assert k > 0 && rest[k - 1] == ids[k];
        assert ids[..k] == own + rest[..k - 1];
        assert rest[k - 1] in more || rest[k - 1] in rest[..k - 1];
      }
      if Hits(rest, more) {
        var k :| 0 <= k < |rest| && (rest[k] in more || rest[k] in rest[..k]);
        assert ids[k + 1] == rest[k] && ids[..k + 1] == own + rest[..k];
        assert ids[k + 1] in seen || ids[k + 1] in ids[..k + 1];
      }
    }
  }

  /* ---------- following a pointer ---------- */

  /** A pointer that was not seen meets a cycle exactly if its target does. */
  lemma PointerMeets(cfg: Config, h: Heap, v: Value, field: Field, here: bytes, depth: nat, seen: set<nat>)
    requires Closed(h) && Fits(h, v) && v.Pointer?
    requires Utf8.Valid(field.key) && depth <= cfg.maxDepth
    ensures v.id in seen ==> CycleMet(cfg, h, v, field, here, depth, seen)
    ensures v.id !in seen ==> Fits(h, h[v.id].value)
    ensures v.id !in seen ==>
      CycleMet(cfg, h, v, field, here, depth, seen) == CycleMet(cfg, h, h[v.id].value, field, here, depth, seen + {v.id})
  {
    hide Closed, CycleBelow, Chosen, BadText, Utf8.Valid;
    PointerFits(h, v);
    var r := Land(h, v, seen);
    if v.id !in seen {
      FewerLeft(h, seen, v.id);
      var next := Land(h, h[v.id].value, seen + {v.id});
      assert r.Looped? <==> next.Looped?;
      assert r.Landed? ==> r.value == next.value && r.seen == next.seen;
    }
  }

  /** A value that is no pointer meets a cycle at once, or in a child. */
  lemma ValueMeets(cfg: Config, h: Heap, v: Value, field: Field, here: bytes, depth: nat, seen: set<nat>)
    requires Closed(h) && Fits(h, v) && !v.Pointer?
    requires Utf8.Valid(field.key) && depth <= cfg.maxDepth
    ensures Loops(v, seen) ==> CycleMet(cfg, h, v, field, here, depth, seen)
    ensures !Loops(v, seen) ==>
      (CycleMet(cfg, h, v, field, here, depth, seen) <==>
        IsOpen(cfg, v, field, here) && CycleBelow(cfg, h, v, ValueField(cfg, field, v, here), here, depth, seen))
  {
    hide Closed, CycleBelow, Chosen, BadText, Utf8.Valid, Loops;
    assert Land(h, v, seen) == Landed(v, seen, 0);
  }

  lemma ChildMeets(cfg: Config, h: Heap, v: Value, f: Field, here: bytes, depth: nat, seen: set<nat>)
    requires Closed(h) && Fits(h, v) && !Loops(v, seen)
    ensures CycleBelow(cfg, h, v, f, here, depth, seen) <==>
      exists i :: 0 <= i < ChildCount(h, v) && ChildMet(cfg, h, v, f, here, depth, seen, i)
  {
    hide Closed, CycleMet, CycleInList, CycleInMap, ChildMet;
    match v {
      case Array(items) => ListMeets(cfg, h, v, items, f, here, depth, seen);
      case Slice(Some(id)) =>
        CellDescends(h, id, seen);
        ListMeets(cfg, h, v, h[id].items, f, here, depth, seen);
      case Map(Some(id)) =>
        CellDescends(h, id, seen);
        MapMeets(cfg, h, v, id, f, here, depth, seen);
      case _ =>
    }
  }

  lemma ListMeets(cfg: Config, h: Heap, v: Value, items: seq<Value>, f: Field, here: bytes, depth: nat, seen: set<nat>)
    requires Closed(h) && Fits(h, v) && (forall k :: 0 <= k < |items| ==> Fits(h, items[k]))
    requires (v.Array? && items == v.items) || (v.Slice? && items == ElementsOf(h, v.cell))
    ensures CycleInList(cfg, h, items, f, here, depth, WithCell(seen, v)) <==>
      exists i :: 0 <= i < ChildCount(h, v) && ChildMet(cfg, h, v, f, here, depth, seen, i)
  {
    hide Closed, CycleMet, Fits;
    var below := WithCell(seen, v);
    forall k | 0 <= k < |items|
      ensures ChildMet(cfg, h, v, f, here, depth, seen, k) <==>
        CycleMet(cfg, h, items[k], EntryField(f, []), PathForIndex(here, k), depth + 1, below)
    {
    }
  }

  lemma MapMeets(cfg: Config, h: Heap, v: Value, id: nat, f: Field, here: bytes, depth: nat, seen: set<nat>)
    requires Closed(h) && Fits(h, v) && v == Map(Some(id))
    requires forall k :: 0 <= k < |h[id].entries| ==> Fits(h, h[id].entries[k].value)
    ensures CycleInMap(cfg, h, h[id].entries, f, here, depth, seen + {id}) <==>
      exists i :: 0 <= i < ChildCount(h, v) && ChildMet(cfg, h, v, f, here, depth, seen, i)
  {
    hide Closed, CycleMet;
    var es := h[id].entries;
    forall k | 0 <= k < |es|
      ensures ChildMet(cfg, h, v, f, here, depth, seen, k) <==>
        CycleMet(cfg, h, es[k].value, EntryField(f, es[k].key), PathFor(here, es[k].key), depth + 1, seen + {id})
    {
    }
  }

  ghost predicate ChildMet(cfg: Config, h: Heap, v: Value, f: Field, here: bytes, depth: nat, seen: set<nat>, i: nat)
    requires Closed(h) && Fits(h, v) && i < ChildCount(h, v)
  {
    CycleMet(cfg, h, ChildOf(h, v, i), ChildField(h, v, f, i), ChildPath(h, v, here, i), depth + 1, WithCell(seen, v))
  }

  /* ---------- both directions ---------- */

  lemma {:induction false} TrailMeets(cfg: Config, h: Heap, v: Value, field: Field, here: bytes, depth: nat,
                                      moves: seq<Move>, ids: seq<nat>, seen: set<nat>)
    requires Closed(h) && Fits(h, v) && Trail(cfg, h, v, field, here, depth, moves, ids) && Hits(ids, seen)
    ensures CycleMet(cfg, h, v, field, here, depth, seen)
    decreases |moves|
  {
    hide Closed, CycleMet, Hits, IsOpen, ChildCount, ChildOf, ChildField, ChildPath, CycleBelow, Utf8.Valid;
    var own := OwnIds(v);
    var rest := ids[|own|..];
    assert ids == own + rest;
    if own != [] && own[0] in seen {
      if v.Pointer? {
        PointerMeets(cfg, h, v, field, here, depth, seen);
      } else {
        ValueMeets(cfg, h, v, field, here, depth, seen);
      }
    } else {
      HitsCons(own, rest, seen);
      if moves == [] {
        assert rest == [];
        NothingHits(rest, if own == [] then seen else seen + {own[0]});
      } else if moves[0].Follow? {
        PointerMeets(cfg, h, v, field, here, depth, seen);
        TrailMeets(cfg, h, h[v.id].value, field, here, depth, moves[1..], rest, seen + {v.id});
      } else {
        var f, i := ValueField(cfg, field, v, here), moves[0].i;
        OpenIsNoPointer(cfg, v, field, here);
        ValueMeets(cfg, h, v, field, here, depth, seen);
        TrailMeets(cfg, h, ChildOf(h, v, i), ChildField(h, v, f, i), ChildPath(h, v, here, i), depth + 1, moves[1..], rest,
                   WithCell(seen, v));
        ChildMeets(cfg, h, v, f, here, depth, seen);
        assert ChildMet(cfg, h, v, f, here, depth, seen, i);
      }
    }
  }

  lemma NothingHits(rest: seq<nat>, seen: set<nat>)
    ensures rest == [] ==> !Hits(rest, seen)
  {
  }

  lemma OpenIsNoPointer(cfg: Config, v: Value, field: Field, here: bytes)
    ensures IsOpen(cfg, v, field, here) ==> !v.Pointer?
  {
    hide Chosen, BadText;
  }

  lemma {:induction false} MeetsTrail(cfg: Config, h: Heap, v: Value, field: Field, here: bytes, depth: nat, seen: set<nat>)
    returns (moves: seq<Move>, ids: seq<nat>)
    requires Closed(h) && Fits(h, v) && CycleMet(cfg, h, v, field, here, depth, seen)
    ensures Trail(cfg, h, v, field, here, depth, moves, ids) && Hits(ids, seen)
    decreases |h.Keys - seen|, v
  {
    hide Closed, CycleMet, Hits, IsOpen, ChildCount, ChildOf, ChildField, ChildPath, CycleBelow, Utf8.Valid, Trail;
    MetWithin(cfg, h, v, field, here, depth, seen);
    var own := OwnIds(v);
    if own != [] && own[0] in seen {
      moves, ids := [], own;
      HitsAtOnce(own, seen);
      TrailEnds(cfg, h, v, field, here, depth);
    } else if v.Pointer? {
      PointerMeets(cfg, h, v, field, here, depth, seen);
      PointerFits(h, v);
      FewerLeft(h, seen, v.id);
      var m, rest := MeetsTrail(cfg, h, h[v.id].value, field, here, depth, seen + {v.id});
      moves, ids := [Follow] + m, own + rest;
      HitsCons(own, rest, seen);
      TrailFollows(cfg, h, v, field, here, depth, m, rest);
    } else {
      var f := ValueField(cfg, field, v, here);
      ValueMeets(cfg, h, v, field, here, depth, seen);
      ChildMeets(cfg, h, v, f, here, depth, seen);
      var i :| 0 <= i < ChildCount(h, v) && ChildMet(cfg, h, v, f, here, depth, seen, i);
      ChildDescends(h, v, seen, i);
      var m, rest := MeetsTrail(cfg, h, ChildOf(h, v, i), ChildField(h, v, f, i), ChildPath(h, v, here, i), depth + 1,
                                WithCell(seen, v));
      moves, ids := [Child(i)] + m, own + rest;
      HitsCons(own, rest, seen);
      TrailDescends(cfg, h, v, field, here, depth, i, m, rest);
    }
  }

  lemma MetWithin(cfg: Config, h: Heap, v: Value, field: Field, here: bytes, depth: nat, seen: set<nat>)
    requires Closed(h) && Fits(h, v) && CycleMet(cfg, h, v, field, here, depth, seen)
    ensures Utf8.Valid(field.key) && depth <= cfg.maxDepth
  {
    hide Closed, CycleBelow, Land, Utf8.Valid;
  }

  lemma HitsAtOnce(own: seq<nat>, seen: set<nat>)
    requires |own| == 1 && own[0] in seen
    ensures Hits(own, seen)
  {
  }

  lemma TrailEnds(cfg: Config, h: Heap, v: Value, field: Field, here: bytes, depth: nat)
    requires Closed(h) && Fits(h, v) && Utf8.Valid(field.key) && depth <= cfg.maxDepth
    ensures Trail(cfg, h, v, field, here, depth, [], OwnIds(v))
  {
  }

  lemma TrailFollows(cfg: Config, h: Heap, v: Value, field: Field, here: bytes, depth: nat, m: seq<Move>, rest: seq<nat>)
    requires Closed(h) && Fits(h, v) && v.Pointer? && Fits(h, h[v.id].value)
    requires Utf8.Valid(field.key) && depth <= cfg.maxDepth
    requires Trail(cfg, h, h[v.id].value, field, here, depth, m, rest)
    ensures Trail(cfg, h, v, field, here, depth, [Follow] + m, OwnIds(v) + rest)
  {
    hide Closed, Utf8.Valid;
    assert ([Follow] + m)[1..] == m && (OwnIds(v) + rest)[|OwnIds(v)|..] == rest;
  }

  lemma TrailDescends(cfg: Config, h: Heap, v: Value, field: Field, here: bytes, depth: nat, i: nat,
                      m: seq<Move>, rest: seq<nat>)
    requires Closed(h) && Fits(h, v) && Utf8.Valid(field.key) && depth <= cfg.maxDepth
    requires IsOpen(cfg, v, field, here) && i < ChildCount(h, v)
    requires var f := ValueField(cfg, field, v, here);
      Trail(cfg, h, ChildOf(h, v, i), ChildField(h, v, f, i), ChildPath(h, v, here, i), depth + 1, m, rest)
    ensures Trail(cfg, h, v, field, here, depth, [Child(i)] + m, OwnIds(v) + rest)
  {
    hide Closed, Utf8.Valid, IsOpen, ChildCount, ChildOf, ChildField, ChildPath;
    assert ([Child(i)] + m)[1..] == m && (OwnIds(v) + rest)[|OwnIds(v)|..] == rest;
  }

  /** A child is smaller, or an identity was used up. */
  lemma ChildDescends(h: Heap, v: Value, seen: set<nat>, i: nat)
    requires Closed(h) && Fits(h, v) && !Loops(v, seen) && i < ChildCount(h, v)
    ensures |h.Keys - WithCell(seen, v)| < |h.Keys - seen| || (WithCell(seen, v) == seen && v.Array? && ChildOf(h, v, i) < v)
  {
    hide Closed;
    if CellOf(v).Some? { FewerLeft(h, seen, CellOf(v).value); }
  }

  /**
   With nothing seen yet, a cycle is met exactly when some way through open values passes one identity twice,
   however long the way, and wherever the graph is shared.
   */
  lemma CycleIffRevisited(cfg: Config, h: Heap, v: Value, field: Field, here: bytes, depth: nat)
    requires Closed(h) && Fits(h, v)
    ensures CycleMet(cfg, h, v, field, here, depth, {}) <==>
      exists moves, ids, j, k :: Trail(cfg, h, v, field, here, depth, moves, ids) && 0 <= j < k < |ids| && ids[j] == ids[k]
  {
    hide Closed, CycleMet, Trail;
    if CycleMet(cfg, h, v, field, here, depth, {}) {
      var moves, ids := MeetsTrail(cfg, h, v, field, here, depth, {});
      var k :| 0 <= k < |ids| && ids[k] in ids[..k];
      var j :| 0 <= j < k && ids[..k][j] == ids[k];
      assert ids[j] == ids[k];
    }
    if moves, ids, j, k :| Trail(cfg, h, v, field, here, depth, moves, ids) && 0 <= j < k < |ids| && ids[j] == ids[k] {
      assert ids[..k][j] == ids[k];
      TrailMeets(cfg, h, v, field, here, depth, moves, ids, {});
    }
  }
}
