/**
 The reflection walker: identities on the way to a value are tracked on a stack, so a cycle is met exactly where
 the way comes back to one of them, and a value that is shared but not cyclic is masked once per way to it.
 */
module ValueWalker {
  import opened Bytes
  import opened Options
  import opened Settings
  import opened SortedMap
  import opened JsonOut
  import opened MaskSpec
  import opened Meaning
  import opened ValueGraph
  import opened ValueSteps
  import opened LimitProtocol
  import opened CleanRuns
  import opened StreamState
  import opened TreeDecision
  import opened DomMeaning
  import opened TreeEncoder
  import TI = TextInspector
  import W = StreamWalker
  import T = JsonTree
  import Utf8

  class Walker {
    const cfg: Config
    const h: Heap
    const budget: Budget
    var active: set<nat>
    var activeStack: seq<nat>
    var indirections: nat
    /** How often a cycle was reported. */
    ghost var cycles: nat

    constructor (cfg: Config, h: Heap, budget: Budget)
      requires Closed(h)
      ensures this.cfg == cfg && this.h == h && this.budget == budget
      ensures Valid() && active == {} && activeStack == [] && indirections == 0 && cycles == 0
    {
      this.cfg := cfg;
      this.h := h;
      this.budget := budget;
      active, activeStack, indirections, cycles := {}, [], 0, 0;
    }

    /** The active set is the set of the stacked identities, and they are distinct. */
    ghost predicate Valid()
      reads this
    {
      Closed(h) && IsStackOf(active, activeStack)
    }

    ghost predicate Ready()
      reads this, budget
    {
      Valid() && Lawful(cfg, budget.St()) && (!budget.stop ==> indirections <= cfg.maxNodes) && Reports(budget.St(), cycles)
    }

    /** track: an identity on the way already is a cycle. */
    method Track(id: nat, field: Field, depth: nat) returns (ok: bool)
      requires Valid()
      modifies this`active, this`activeStack, this`cycles, budget
      ensures Valid() && (ok <==> id !in old(active))
      ensures ok ==>
        active == old(active) + {id} && activeStack == old(activeStack) + [id] &&
        cycles == old(cycles) && budget.St() == old(budget.St())
      ensures !ok ==>
        active == old(active) && activeStack == old(activeStack) && cycles == old(cycles) + 1 &&
        budget.St() == old(budget.St()).Fail(FieldError(cfg, Cycle, field, depth))
    {
      if id in active {
        cycles := cycles + 1;
        budget.Fail(FieldError(cfg, Cycle, field, depth));
        return false;
      }
      active := active + {id};
      activeStack := activeStack + [id];
      ok := true;
    }

    /** releaseTracked: the stack and the set are back where they were when it was start long. */
    method ReleaseTracked(start: nat, ghost before: set<nat>)
      requires Valid() && start <= |activeStack| && IsStackOf(before, activeStack[..start])
      modifies this`active, this`activeStack
      ensures Valid() && activeStack == old(activeStack)[..start] && active == before
    {
      ghost var stack := activeStack;
      var index := |activeStack|;
      while index > start
        invariant start <= index <= |stack| && activeStack == stack
        invariant IsStackOf(active, stack[..index])
      {
        index := index - 1;
        assert stack[..index + 1][..index] == stack[..index];
        active := active - {activeStack[index]};
      }
      activeStack := activeStack[..start];
      SameStackSameSet(active, before, activeStack);
    }

    /** dereference: following a pointer costs an indirection. */
    method Dereference(field: Field, depth: nat) returns (ok: bool)
      modifies this`indirections, budget
      ensures indirections == old(indirections) + 1
      ensures ok <==> indirections <= cfg.maxNodes
      ensures budget.St() ==
        if ok then old(budget.St()) else old(budget.St()).Limit(FieldError(cfg, NodeLimit, field, depth))
    {
      indirections := indirections + 1;
      if indirections <= cfg.maxNodes {
        return true;
      }
      budget.Limit(FieldError(cfg, NodeLimit, field, depth));
      ok := false;
    }

    /** One pointer: tracked, then followed. */
    method Follow(id: nat, field: Field, depth: nat) returns (ok: bool)
      requires Ready() && !budget.stop && depth <= cfg.maxDepth
      modifies this, budget
      ensures Ready() && Advance(cfg, old(budget.St()), budget.St()) && old(cycles) <= cycles
      ensures old(activeStack) <= activeStack
      ensures ok ==>
        && id !in old(active) && active == old(active) + {id}
        && budget.St() == old(budget.St()) && cycles == old(cycles)
        && indirections == old(indirections) + 1 <= cfg.maxNodes
      ensures !ok ==> budget.errs != []
      ensures !ok && id !in old(active) ==> old(indirections) + 1 > cfg.maxNodes
      ensures old(cycles) < cycles ==> id in old(active)
      ensures !ok && !budget.stop ==> cycles == old(cycles) + 1
    {
      hide Advance, Step, Lawful, Reports;
      ghost var st := budget.St();
      Stays(cfg, st);
      var tracked := Track(id, field, depth);
      if !tracked {
        ReportsCycle(cfg, st, FieldError(cfg, Cycle, field, depth), old(cycles));
        RecordsOne(cfg, st, FieldError(cfg, Cycle, field, depth));
        return false;
      }
      ok := Dereference(field, depth);
      if !ok {
        Limits(cfg, st, FieldError(cfg, NodeLimit, field, depth));
        StillReports(cfg, st, budget.St(), cycles);
        RecordsOne(cfg, st, FieldError(cfg, NodeLimit, field, depth));
      }
    }

    /** The pointer loop of enter. */
    method FollowPointers(value: Value, field: Field, depth: nat) returns (node: Value, ok: bool, ghost hops: nat)
      requires Ready() && Fits(h, value) && !budget.stop && depth <= cfg.maxDepth
      modifies this, budget
      ensures Ready() && Advance(cfg, old(budget.St()), budget.St()) && old(cycles) <= cycles
      ensures old(activeStack) <= activeStack
      ensures ok ==> Land(h, value, old(active)) == Landed(node, active, hops)
      ensures ok ==> budget.St() == old(budget.St()) && cycles == old(cycles) && indirections == old(indirections) + hops
      ensures ok && hops > 0 ==> indirections <= cfg.maxNodes
      ensures !ok ==> budget.errs != []
      ensures !ok && Land(h, value, old(active)).Landed? ==>
        old(indirections) + Land(h, value, old(active)).hops > cfg.maxNodes
      ensures old(cycles) < cycles ==> !ok && Land(h, value, old(active)).Looped?
      ensures !ok && !budget.stop ==> cycles == old(cycles) + 1
    {
      hide Advance, Step, Lawful, Reports, Fits, Land, Closed, IsStackOf;
      ghost var st, active0 := budget.St(), active;
      Stays(cfg, st);
      node := value;
      hops := 0;
      NotFarther(Land(h, value, active));
      while node.Pointer?
        invariant Ready() && Fits(h, node)
        invariant old(activeStack) <= activeStack
        invariant budget.St() == st && cycles == old(cycles)
        invariant indirections == old(indirections) + hops && (hops > 0 ==> indirections <= cfg.maxNodes)
        invariant Land(h, value, active0) == Farther(Land(h, node, active), hops)
        decreases |h.Keys - active|
      {
        LandStep(h, node, active, hops);
        var followed := Follow(node.id, field, depth);
        if !followed {
          return node, false, hops;
        }
        node := h[node.id].value;
        hops := hops + 1;
      }
      LandEnds(h, node, active);
      ok := true;
    }

    /** The way to a node: pointers followed, and a map or slice tracked. A cycle leaves nothing behind. */
    method Reach(value: Value, field: Field, depth: nat) returns (node: Value, ok: bool, ghost r: Landing)
      requires Ready() && Fits(h, value) && !budget.stop && depth <= cfg.maxDepth
      modifies this, budget
      ensures Ready() && Advance(cfg, old(budget.St()), budget.St()) && old(cycles) <= cycles
      ensures r == Land(h, value, old(active)) && old(activeStack) <= activeStack
      ensures ok ==> budget.St() == old(budget.St()) && cycles == old(cycles)
      ensures ok ==> r.Landed? && node == r.value && !Loops(node, r.seen) && active == WithCell(r.seen, node)
      ensures ok ==> indirections == old(indirections) + r.hops
      ensures !ok ==> active == old(active) && activeStack == old(activeStack) && budget.errs != []
      ensures !ok && r.Landed? && !Loops(r.value, r.seen) ==> old(indirections) + r.hops > cfg.maxNodes
      ensures !ok && !budget.stop ==> cycles == old(cycles) + 1
      ensures old(cycles) < cycles ==> r.Looped? || Loops(r.value, r.seen)
    {
      hide Advance, Step, Lawful, Reports, Land, Closed, Fits, IsStackOf;
      ghost var st := budget.St();
      Stays(cfg, st);
      r := Land(h, value, active);
      var start := |activeStack|;
      StackItself(active, activeStack);
      ghost var before, stack := active, activeStack;
      ghost var hops;
      node, ok, hops := FollowPointers(value, field, depth);
      AdvanceLawful(cfg, st, budget.St());
      if !ok {
        ReleaseTracked(start, before);
        return;
      }
      var cell := CellOf(node);
      if cell.Some? {
        ok := Track(cell.value, field, depth);
        if !ok {
          ReportsCycle(cfg, st, FieldError(cfg, Cycle, field, depth), old(cycles));
          RecordsOne(cfg, st, FieldError(cfg, Cycle, field, depth));
          ReleaseTracked(start, before);
        }
      }
    }

    /** What is recorded about a value that is not even reached: nothing once stopped, else a bad key or the limit passed. */
    static function Outside(cfg: Config, field: Field, here: bytes, depth: nat, st: State): Option<State> {
      var at := Located(field, here);
      if st.stop then Some(st)
      else if !Utf8.Valid(field.key) then Some(st.Fail(FieldError(cfg, InvalidUTF8, at, depth)))
      else if depth > cfg.maxDepth then Some(st.Limit(FieldError(cfg, DepthLimit, at, depth)))
      else if st.nodes + 1 > cfg.maxNodes then
        Some(st.(nodes := st.nodes + 1).Limit(FieldError(cfg, NodeLimit, at, depth)))
      else None
    }

    /** enter: limits, the way to the node, and the decision about it. */
    method Enter(value: Value, field: Field, here: bytes, depth: nat)
      returns (done: bool, result: Out, node: Value, ghost e: Entering)
      requires Ready() && Fits(h, value) && depth <= cfg.maxDepth + 1
      modifies this, budget
      ensures Ready() && Advance(cfg, old(budget.St()), budget.St()) && old(cycles) <= cycles
      ensures Outside(cfg, field, here, depth, old(budget.St())).Some? ==>
        done && budget.St() == Outside(cfg, field, here, depth, old(budget.St())).value
      ensures e == Entered(cfg, h, value, field, here, depth, old(active))
      ensures done ==> active == old(active) && activeStack == old(activeStack)
      ensures old(cycles) < cycles ==> done && e.Bad? && e.looped
      ensures done && !budget.stop ==> !e.Opens? && (e.Bad? && e.looped ==> old(cycles) < cycles)
      ensures done && Clean(old(budget.St())) ==>
        (Clean(budget.St()) <==>
          e.Settles? && old(budget.nodes) + 1 <= cfg.maxNodes && old(indirections) + e.hops <= cfg.maxNodes)
      ensures done && Clean(old(budget.St())) && e.Opens? ==>
        old(budget.nodes) + 1 > cfg.maxNodes || old(indirections) + e.hops > cfg.maxNodes
      ensures done && Clean(old(budget.St())) && Clean(budget.St()) ==>
        result == e.out && budget.nodes == old(budget.nodes) + 1 && indirections == old(indirections) + e.hops
      ensures !done ==> e.Opens? && node == e.node && active == WithCell(e.seen, node) && old(activeStack) <= activeStack
      ensures !done ==> e.f == ValueField(cfg, field, node, here)
      ensures !done ==> !budget.stop && cycles == old(cycles) && budget.nodes == old(budget.nodes) + 1
      ensures !done ==> indirections == old(indirections) + e.hops
      ensures !done && Clean(old(budget.St())) ==> Clean(budget.St())
    {
      hide Advance, Step, Lawful, Reports, Land, Closed, Fits, IsStackOf, Chosen, BadText, Utf8.Valid, Entered;
      e := Entered(cfg, h, value, field, here, depth, active);
      ghost var st := budget.St();
      Stays(cfg, st);
      node := Nil;
      if budget.stop {
        return true, Marker(cfg), node, e;
      }
      EnteringOutside(cfg, h, value, field, here, depth, active);
      if !Utf8.Valid(field.key) {
        Recorded(cfg, st, FieldError(cfg, InvalidUTF8, Located(field, here), depth));
        RecordsOne(cfg, st, FieldError(cfg, InvalidUTF8, Located(field, here), depth));
        budget.Fail(FieldError(cfg, InvalidUTF8, Located(field, here), depth));
        StillReports(cfg, st, budget.St(), cycles);
        return true, Marker(cfg), node, e;
      }
      if depth > cfg.maxDepth {
        Limits(cfg, st, FieldError(cfg, DepthLimit, Located(field, here), depth));
        RecordsOne(cfg, st, FieldError(cfg, DepthLimit, Located(field, here), depth));
        budget.Limit(FieldError(cfg, DepthLimit, Located(field, here), depth));
        StillReports(cfg, st, budget.St(), cycles);
        return true, Marker(cfg), node, e;
      }
      budget.nodes := budget.nodes + 1;
      if budget.nodes > cfg.maxNodes {
        NodesFull(cfg, st);
        Limits(cfg, st, FieldError(cfg, NodeLimit, Located(field, here), depth));
        RecordsOne(cfg, st.(nodes := st.nodes + 1), FieldError(cfg, NodeLimit, Located(field, here), depth));
        budget.Limit(FieldError(cfg, NodeLimit, Located(field, here), depth));
        StillReports(cfg, st, budget.St(), cycles);
        return true, Marker(cfg), node, e;
      }
      Counts(cfg, st);
      done, result, node := EnterNode(value, field, here, depth, st, e);
    }

    /** A node that was counted: reached, and decided. */
    method EnterNode(value: Value, field: Field, here: bytes, depth: nat, ghost st: State, ghost e: Entering)
      returns (done: bool, result: Out, node: Value)
      requires Ready() && Fits(h, value) && !budget.stop && depth <= cfg.maxDepth && Utf8.Valid(field.key)
      requires Lawful(cfg, st) && !st.stop && st.nodes + 1 <= cfg.maxNodes && budget.St() == st.(nodes := st.nodes + 1)
      requires e == Entered(cfg, h, value, field, here, depth, active)
      modifies this, budget
      ensures Ready() && Advance(cfg, st, budget.St()) && old(cycles) <= cycles
      ensures done ==> active == old(active) && activeStack == old(activeStack)
      ensures old(cycles) < cycles ==> done && e.Bad? && e.looped
      ensures done && !budget.stop ==> !e.Opens? && (e.Bad? && e.looped ==> old(cycles) < cycles)
      ensures done && Clean(st) ==> (Clean(budget.St()) <==> e.Settles? && old(indirections) + e.hops <= cfg.maxNodes)
      ensures done && Clean(st) && e.Opens? ==> old(indirections) + e.hops > cfg.maxNodes
      ensures done && Clean(st) && Clean(budget.St()) ==>
        result == e.out && budget.nodes == st.nodes + 1 && indirections == old(indirections) + e.hops
      ensures !done ==> e.Opens? && node == e.node && active == WithCell(e.seen, node) && old(activeStack) <= activeStack
      ensures !done ==> e.f == ValueField(cfg, field, node, here)
      ensures !done ==> !budget.stop && cycles == old(cycles) && budget.nodes == st.nodes + 1
      ensures !done ==> indirections == old(indirections) + e.hops
      ensures !done && Clean(st) ==> Clean(budget.St())
    {
      hide Advance, Step, Lawful, Reports, Land, Closed, Fits, IsStackOf, Chosen, BadText, Utf8.Valid, Entered, ScalarText, Loops, WithCell;
      ghost var counted := budget.St();
      Counts(cfg, st);
      var start := |activeStack|;
      StackItself(active, activeStack);
      ghost var before, stack := active, activeStack;
      var located := Located(field, here);
      var ok;
      ghost var r;
      node, ok, r := Reach(value, located, depth);
      AdvanceThen(cfg, st, counted, budget.St());
      EnteringReached(cfg, h, value, field, here, depth, before);
      if !ok {
        return true, Marker(cfg), node;
      }
      if BadText(node) {
        Recorded(cfg, counted, FieldError(cfg, InvalidUTF8, located, depth));
        RecordsOne(cfg, counted, FieldError(cfg, InvalidUTF8, located, depth));
        StillReports(cfg, counted, counted.Fail(FieldError(cfg, InvalidUTF8, located, depth)), cycles);
        AdvanceThen(cfg, st, counted, counted.Fail(FieldError(cfg, InvalidUTF8, located, depth)));
        budget.Fail(FieldError(cfg, InvalidUTF8, located, depth));
        ReleaseTracked(start, before);
        return true, Marker(cfg), node;
      }
      var f := ValueField(cfg, field, node, here);
      done, result := ApplyFieldDecision(cfg, budget, ScalarText(node), f, Located(f, here), st);
      StillReports(cfg, st, budget.St(), cycles);
      if done {
        ReleaseTracked(start, before);
      }
    }

    /** walk: whatever happens on the way, the identities on the stack are those that were there before. */
    method Walk(value: Value, field: Field, here: bytes, depth: nat) returns (result: Out)
      requires Ready() && Fits(h, value) && depth <= cfg.maxDepth + 1
      modifies this, budget
      ensures Ready() && Advance(cfg, old(budget.St()), budget.St()) && old(cycles) <= cycles
      ensures active == old(active) && activeStack == old(activeStack)
      ensures Clean(old(budget.St())) ==>
        Delivers(cfg, h, value, field, here, depth, old(active), old(budget.St()), old(indirections), budget.St(),
                 indirections, result)
      ensures old(cycles) < cycles ==> CycleMet(cfg, h, value, field, here, depth, old(active))
      ensures !budget.stop && CycleMet(cfg, h, value, field, here, depth, old(active)) ==> old(cycles) < cycles
      decreases |h.Keys - active|, value, 2
    {
      hide Advance, Step, Lawful, Reports, Closed, Fits, IsStackOf, Entered, CanonOut, Loops, WithCell, Delivers, ShapeDelivers, CycleMet,
        CycleBelow, Seen;
      ghost var st, ind := budget.St(), indirections;
      var start := |activeStack|;
      StackItself(active, activeStack);
      ghost var before, stack := active, activeStack;
      var done, node;
      ghost var e;
      done, result, node, e := Enter(value, field, here, depth);
      MetDone(cfg, h, value, field, here, depth, before);
      if done {
        if Clean(st) { DoneDelivers(cfg, h, value, field, here, depth, before, st, ind, budget.St(), indirections, result); }
      } else {
        OpensFits(cfg, h, value, field, here, depth, before);
        result := WalkOpen(value, node, field, here, depth, before, st, ind, e);
        ReleaseTracked(start, before);
      }
    }

    /** The rest of walk, for a value that was entered: it is looked into. */
    method WalkOpen(ghost value: Value, node: Value, field: Field, here: bytes, depth: nat, ghost before: set<nat>,
                    ghost st: State, ghost ind: nat, ghost e: Entering) returns (result: Out)
      requires Ready() && Fits(h, value) && Fits(h, node) && !budget.stop && depth <= cfg.maxDepth
      requires e == Entered(cfg, h, value, field, here, depth, before) && e.Opens? && node == e.node
      requires e.f == ValueField(cfg, field, node, here) && !node.Pointer? && !Loops(node, e.seen)
      requires active == WithCell(e.seen, node) && Advance(cfg, st, budget.St())
      requires Clean(st) ==> Clean(budget.St())
      requires budget.nodes == st.nodes + 1 && indirections == ind + e.hops
      modifies this, budget
      ensures Ready() && Advance(cfg, st, budget.St()) && old(cycles) <= cycles
      ensures active == old(active) && activeStack == old(activeStack)
      ensures Clean(st) ==>
        Delivers(cfg, h, value, field, here, depth, before, st, ind, budget.St(), indirections, result)
      ensures old(cycles) < cycles ==> CycleMet(cfg, h, value, field, here, depth, before)
      ensures !budget.stop && CycleMet(cfg, h, value, field, here, depth, before) ==> old(cycles) < cycles
      decreases |h.Keys - e.seen|, node, 1
    {
      hide Advance, Step, Lawful, Reports, Closed, Fits, IsStackOf, Entered, CanonOut, Loops, WithCell, Delivers, ShapeDelivers, CycleMet,
        CycleBelow, Seen;
      ghost var entered, ind1 := budget.St(), indirections;
      if Clean(entered) { WithinNodes(cfg, entered); }
      MetOpen(cfg, h, value, field, here, depth, before);
      result := WalkShape(node, ValueField(cfg, field, node, here), here, depth, e.seen);
      AdvanceThen(cfg, st, entered, budget.St());
      if Clean(st) {
        OpenDelivers(cfg, h, value, field, here, depth, before, st, ind, entered, ind1, budget.St(), indirections, result);
      }
    }

    /** dispatch. */
    method WalkShape(node: Value, f: Field, here: bytes, depth: nat, ghost seen: set<nat>) returns (result: Out)
      requires Ready() && Fits(h, node) && !budget.stop && depth <= cfg.maxDepth
      requires !node.Pointer? && !Loops(node, seen) && active == WithCell(seen, node)
      modifies this, budget
      ensures Ready() && Advance(cfg, old(budget.St()), budget.St()) && old(cycles) <= cycles
      ensures active == old(active) && activeStack == old(activeStack)
      ensures Clean(old(budget.St())) ==>
        ShapeDelivers(cfg, h, node, f, here, depth, seen, old(budget.St()), old(indirections), budget.St(),
                      indirections, result)
      ensures old(cycles) < cycles ==> CycleBelow(cfg, h, node, f, here, depth, seen)
      ensures !budget.stop && CycleBelow(cfg, h, node, f, here, depth, seen) ==> old(cycles) < cycles
      decreases |h.Keys - seen|, node, 0
    {
      hide Advance, Step, Lawful, Reports, Closed, IsStackOf, MeanValueShape, CycleBelow, CycleInList, CycleInMap, Listed, Gathered, SortEntries,
        ShapeDelivers, Canon, CanonOut, Pays, MeanElements, MeanMap, SameMap, SameList;
      ghost var st, ind := budget.St(), indirections;
      BelowIs(cfg, h, node, f, here, depth, seen);
      if node.Array? || (node.Slice? && node.cell.Some?) {
        if node.Slice? { CellDescends(h, node.cell.value, seen); }
        var values := WalkArray(if node.Array? then node.items else ElementsOf(h, node.cell), f, here, depth);
        result := Kept(JsonOut.Json.Array(values));
        if Clean(st) { ListDelivers(cfg, h, node, f, here, depth, seen, st, ind, budget.St(), indirections, values); }
      } else if node.Map? && node.cell.Some? {
        CellDescends(h, node.cell.value, seen);
        var typed := WalkMap(EntriesOf(h, node.cell), f, here, depth);
        result := Kept(Object(typed));
        if Clean(st) { MapDelivers(cfg, h, node, f, here, depth, seen, st, ind, budget.St(), indirections, typed); }
      } else {
        result := WalkScalar(node, f, here, depth, seen);
      }
    }

    /** A value without children. */
    method WalkScalar(node: Value, f: Field, here: bytes, depth: nat, ghost seen: set<nat>) returns (result: Out)
      requires Ready() && Fits(h, node) && !budget.stop && depth <= cfg.maxDepth && IsScalar(node)
      modifies budget
      ensures Ready() && Advance(cfg, old(budget.St()), budget.St())
      ensures node.Unsupported? ==>
        result == Marker(cfg) && budget.St() == old(budget.St()).Fail(FieldError(cfg, UnsupportedType, Located(f, here), depth))
      ensures !node.Text? && !node.Unsupported? ==> budget.St() == old(budget.St())
      ensures Clean(old(budget.St())) ==>
        ShapeDelivers(cfg, h, node, f, here, depth, seen, old(budget.St()), indirections, budget.St(), indirections, result)
    {
      hide Advance, Step, Lawful, Reports, Closed, Fits, IsStackOf, MeanValueShape, ShapeDelivers, Canon, CanonOut;
      ghost var st := budget.St();
      Stays(cfg, st);
      if node.Text? {
        result := WalkText(node.text, f, here, depth);
        if Clean(st) { TextDelivers(cfg, h, node.text, f, here, depth, seen, st, indirections, budget.St(), result); }
        return;
      }
      if node.Unsupported? {
        var e := FieldError(cfg, UnsupportedType, Located(f, here), depth);
        Recorded(cfg, st, e);
        RecordsOne(cfg, st, e);
        budget.Fail(e);
        StillReports(cfg, st, budget.St(), cycles);
        result := Marker(cfg);
      } else {
        result := Kept(ScalarTree(cfg, node));
      }
      if Clean(st) { ScalarDelivers(cfg, h, node, f, here, depth, seen, st, indirections, budget.St(), result); }
    }

    /** A string: inspected, and left as it is when nothing changes. */
    method WalkText(s: bytes, f: Field, here: bytes, depth: nat) returns (result: Out)
      requires Ready() && !budget.stop && depth <= cfg.maxDepth
      modifies budget
      ensures Ready() && Advance(cfg, old(budget.St()), budget.St())
      ensures Clean(old(budget.St())) ==>
        var m := MeanString(cfg, s, s, Located(f, here), depth);
        Ends(cfg, old(budget.St()), budget.St(), m) && (Clean(budget.St()) ==> SameTree(result, m))
      ensures result.Kept? && result.tree.String?
    {
      hide Advance, Step, Lawful, Reports, Closed, IsStackOf, Inspectable, Inspect, MeanInspect;
      ghost var st := budget.St();
      Stays(cfg, st);
      if Clean(st) { WithinNodes(cfg, st); }
      var inspectable := TI.IsInspectable(cfg, s);
      if inspectable {
        InspectSteps(cfg, s, Located(f, here), depth, st);
        if Clean(st) { InspectMeans(cfg, s, Located(f, here), depth, st); }
        var masked, changed := W.InspectString(cfg, s, Located(f, here), depth, budget);
        StillReports(cfg, st, budget.St(), cycles);
        if changed {
          return Kept(String(masked));
        }
      }
      result := Kept(String(s));
    }

    /** arrayValue. */
    method WalkArray(items: seq<Value>, f: Field, here: bytes, depth: nat) returns (values: seq<Json>)
      requires Ready() && depth <= cfg.maxDepth && forall k :: 0 <= k < |items| ==> Fits(h, items[k])
      modifies this, budget
      ensures Ready() && Advance(cfg, old(budget.St()), budget.St()) && old(cycles) <= cycles
      ensures active == old(active) && activeStack == old(activeStack)
      ensures Clean(old(budget.St())) ==>
        var mn := Listed(MeanElements(cfg, NODES, h, items, f, here, depth, old(active)));
        var mh := Listed(MeanElements(cfg, HOPS, h, items, f, here, depth, old(active)));
        && Pays(cfg, old(budget.St()), old(indirections), budget.St(), indirections, mn, mh)
        && (Clean(budget.St()) ==> SameList(values, mn))
      ensures old(cycles) < cycles ==> CycleInList(cfg, h, items, f, here, depth, old(active))
      ensures !budget.stop && CycleInList(cfg, h, items, f, here, depth, old(active)) ==> old(cycles) < cycles
      decreases |h.Keys - active|, items, 3
    {
      hide Advance, Step, Lawful, Reports, Closed, Fits, IsStackOf, MeanValue, MeanElements, Listed, CycleMet, Canon, Pays, SameList, SameTree,
        CycleInFront, CycleInList;
      ghost var st, ind := budget.St(), indirections;
      ghost var sn := MeanElements(cfg, NODES, h, items, f, here, depth, active);
      ghost var sh := MeanElements(cfg, HOPS, h, items, f, here, depth, active);
      Stays(cfg, st);
      ListPaysNothing(cfg, st, ind, sn, sh);
      FrontAnywhere(cfg, h, items, f, here, depth, active);
      values := [];
      var index := 0;
      while index < |items|
        invariant index <= |items| && Ready() && Advance(cfg, st, budget.St()) && old(cycles) <= cycles
        invariant active == old(active) && activeStack == old(activeStack)
        invariant Clean(st) ==> Pays(cfg, st, ind, budget.St(), indirections, Listed(sn[..index]), Listed(sh[..index]))
        invariant Clean(st) && Clean(budget.St()) ==> SameList(values, Listed(sn[..index]))
        invariant old(cycles) < cycles ==> CycleInFront(cfg, h, items, f, here, depth, active, index)
        invariant !budget.stop && CycleInFront(cfg, h, items, f, here, depth, active, index) ==> old(cycles) < cycles
      {
        ghost var b, ind1, cycles1 := budget.St(), indirections, cycles;
        if budget.stop {
          if Clean(st) { ListStops(cfg, st, ind, b, ind1, sn, sh, index); }
          return;
        }
        var result := Walk(items[index], EntryField(f, []), PathForIndex(here, index), depth + 1);
        AdvanceThen(cfg, st, b, budget.St());
        FrontNext(cfg, h, items, f, here, depth, active, index);
        ElementSense(cfg, NODES, h, items, f, here, depth, active, index);
        ElementSense(cfg, HOPS, h, items, f, here, depth, active, index);
        if Clean(st) { ListPaysNext(cfg, st, ind, b, ind1, budget.St(), indirections, sn, sh, index); }
        ghost var was := values;
        values := values + [if result.Omitted? then Null else result.tree];
        if Clean(st) && Clean(budget.St()) {
          CleanUpTo(cfg, b, budget.St());
          CanonListed(sn, index, was, result);
        }
        index := index + 1;
      }
      assert sn[..index] == sn && sh[..index] == sh;
    }

    /** mapValue, in whatever order the map is iterated; the entries of the result stand in no order. */
    method WalkMap(es: seq<Entry<Value>>, f: Field, here: bytes, depth: nat) returns (typed: seq<Entry<Json>>)
      requires Ready() && depth <= cfg.maxDepth && DistinctKeys(es) && forall k :: 0 <= k < |es| ==> Fits(h, es[k].value)
      modifies this, budget
      ensures Ready() && Advance(cfg, old(budget.St()), budget.St()) && old(cycles) <= cycles
      ensures active == old(active) && activeStack == old(activeStack)
      ensures Clean(old(budget.St())) ==>
        var mn := Gathered(MeanMap(cfg, NODES, h, es, f, here, depth, old(active)));
        var mh := Gathered(MeanMap(cfg, HOPS, h, es, f, here, depth, old(active)));
        && Pays(cfg, old(budget.St()), old(indirections), budget.St(), indirections, mn, mh)
        && (Clean(budget.St()) ==> SameMap(typed, mn))
      ensures old(cycles) < cycles ==> CycleInMap(cfg, h, es, f, here, depth, old(active))
      ensures !budget.stop && CycleInMap(cfg, h, es, f, here, depth, old(active)) ==> old(cycles) < cycles
      decreases |h.Keys - active|, es, 3
    {
      hide Advance, Step, Lawful, Reports, Closed, Fits, IsStackOf, MeanValue, MeanMap, Gathered, CycleMet, Canon, Pays, SameMap, Delivers,
        DistinctKeys, PathFor, CycleBefore, CycleInMap;
      ghost var st, ind := budget.St(), indirections;
      ghost var sn := MeanMap(cfg, NODES, h, es, f, here, depth, active);
      ghost var sh := MeanMap(cfg, HOPS, h, es, f, here, depth, active);
      Stays(cfg, st);
      MapPaysNothing(cfg, st, ind, sn, sh);
      CycleAnywhere(cfg, h, es, f, here, depth, active);
      typed := [];
      var index := 0;
      while index < |es|
        invariant index <= |es| && Ready() && Advance(cfg, st, budget.St()) && old(cycles) <= cycles
        invariant active == old(active) && activeStack == old(activeStack)
        invariant Clean(st) ==> Pays(cfg, st, ind, budget.St(), indirections, Gathered(sn[..index]), Gathered(sh[..index]))
        invariant Clean(st) && Clean(budget.St()) ==> SameMap(typed, Gathered(sn[..index]))
        invariant old(cycles) < cycles ==> CycleBefore(cfg, h, es, f, here, depth, active, index)
        invariant !budget.stop && CycleBefore(cfg, h, es, f, here, depth, active, index) ==> old(cycles) < cycles
      {
        ghost var b, ind1 := budget.St(), indirections;
        if budget.stop {
          if Clean(st) { MapStops(cfg, st, ind, b, ind1, sn, sh, index); }
          return;
        }
        var key := es[index].key;
        var result := Walk(es[index].value, EntryField(f, key), PathFor(here, key), depth + 1);
        AdvanceThen(cfg, st, b, budget.St());
        CycleNext(cfg, h, es, f, here, depth, active, index);
        if Clean(st) {
          MapStep(cfg, h, es, f, here, depth, active, st, ind, b, ind1, budget.St(), indirections, index, typed, result);
        }
        if result.Kept? {
          typed := [Entry(key, result.tree)] + typed;
        }
        index := index + 1;
      }
      assert sn[..index] == sn && sh[..index] == sh;
    }
  }
}
