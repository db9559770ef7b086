/**
 The direct-to-JSON twin of the reflection walker: it enters values as the walker does and writes their text into
 one buffer, so that what an omitted member wrote is cut off again.
 */
module JsonValue {
  import opened Bytes
  import opened Options
  import opened Settings
  import opened SortedMap
  import opened JsonOut
  import opened MaskSpec
  import opened Meaning
  import opened ValueGraph
  import opened ValueSteps
  import opened EmitSteps
  import opened LimitProtocol
  import opened CleanRuns
  import opened StreamState
  import opened DomMeaning
  import DA = DomAgreement
  import DW = DomWalker
  import TE = TreeEncoder
  import V = ValueWalker
  import N = JsonNumber
  import JS = JsonString
  import T = JsonTree

  class Emitter {
    const w: V.Walker
    var buf: bytes

    constructor (w: V.Walker)
      ensures this.w == w && buf == []
    {
      this.w := w;
      buf := [];
    }

    /** emit. */
    method Emit(value: Value, field: Field, here: bytes, depth: nat) returns (omitted: bool)
      requires w.Ready() && Fits(w.h, value) && depth <= w.cfg.maxDepth + 1
      modifies this, w, w.budget
      ensures w.Ready() && Advance(w.cfg, old(w.budget.St()), w.budget.St()) && old(buf) <= buf
      ensures w.active == old(w.active) && w.activeStack == old(w.activeStack)
      ensures Clean(old(w.budget.St())) ==>
        Emits(w.cfg, w.h, value, field, here, depth, old(w.active), old(w.budget.St()), old(w.indirections),
              w.budget.St(), w.indirections, old(buf), buf, omitted)
      decreases |w.h.Keys - w.active|, value, 2
    {
      hide Advance, Step, Lawful, Reports, Closed, Fits, IsStackOf, Entered, Loops, WithCell, Emits, ShapeEmits, Seen, Encode;
      ghost var cfg, h := w.cfg, w.h;
      ghost var st, ind, before := w.budget.St(), w.indirections, w.active;
      var start := |w.activeStack|;
      StackItself(w.active, w.activeStack);
      ghost var stack := w.activeStack;
      var done, result, node;
      ghost var e;
      done, result, node, e := w.Enter(value, field, here, depth);
      if done {
        omitted := EmitDone(value, field, here, depth, before, st, ind, e, result);
        return;
      }
      OpensFits(cfg, h, value, field, here, depth, before);
      EmitOpen(value, node, field, here, depth, start, before, stack, st, ind, e);
      omitted := false;
    }

    /** The rest of emit, for a value that was settled on entry. */
    method EmitDone(ghost value: Value, ghost field: Field, ghost here: bytes, ghost depth: nat, ghost before: set<nat>,
                    ghost st: State, ghost ind: nat, ghost e: Entering, result: Out) returns (omitted: bool)
      requires Closed(w.h) && Fits(w.h, value) && e == Entered(w.cfg, w.h, value, field, here, depth, before)
      requires Clean(st) ==>
        && (Clean(w.budget.St()) <==> e.Settles? && st.nodes + 1 <= w.cfg.maxNodes && ind + e.hops <= w.cfg.maxNodes)
        && (Clean(w.budget.St()) ==> result == e.out && w.budget.nodes == st.nodes + 1 && w.indirections == ind + e.hops)
        && (e.Opens? ==> st.nodes + 1 > w.cfg.maxNodes || ind + e.hops > w.cfg.maxNodes)
      modifies this
      ensures old(buf) <= buf
      ensures Clean(st) ==>
        Emits(w.cfg, w.h, value, field, here, depth, before, st, ind, w.budget.St(), w.indirections, old(buf), buf, omitted)
    {
      hide Closed, Fits, Entered, Emits, OutText;
      ghost var buf0 := buf;
      omitted := AppendResult(result);
      if Clean(st) {
        DoneEmits(w.cfg, w.h, value, field, here, depth, before, st, ind, w.budget.St(), w.indirections, result, buf0, buf,
                  omitted);
      }
    }

    /** The rest of emit, for a value that was entered. */
    method EmitOpen(ghost value: Value, node: Value, field: Field, here: bytes, depth: nat, start: nat,
                    ghost before: set<nat>, ghost stack: seq<nat>, ghost st: State, ghost ind: nat, ghost e: Entering)
      requires w.Ready() && Fits(w.h, value) && Fits(w.h, node) && !w.budget.stop && depth <= w.cfg.maxDepth
      requires e == Entered(w.cfg, w.h, value, field, here, depth, before) && e.Opens? && node == e.node
      requires e.f == ValueField(w.cfg, field, node, here) && !node.Pointer? && !Loops(node, e.seen)
      requires w.active == WithCell(e.seen, node) && Advance(w.cfg, st, w.budget.St())
      requires Clean(st) ==> Clean(w.budget.St())
      requires w.budget.nodes == st.nodes + 1 && w.indirections == ind + e.hops
      requires start == |stack| && stack <= w.activeStack && IsStackOf(before, stack)
      modifies this, w, w.budget
      ensures w.Ready() && Advance(w.cfg, st, w.budget.St()) && old(buf) <= buf
      ensures w.active == before && w.activeStack == stack
      ensures Clean(st) ==>
        Emits(w.cfg, w.h, value, field, here, depth, before, st, ind, w.budget.St(), w.indirections, old(buf), buf, false)
      decreases |w.h.Keys - e.seen|, node, 1
    {
      hide Advance, Step, Lawful, Reports, Closed, Fits, IsStackOf, Entered, Loops, WithCell, Emits, ShapeEmits, Seen, Encode;
      ghost var cfg, h := w.cfg, w.h;
      ghost var entered, ind1, buf0 := w.budget.St(), w.indirections, buf;
      if Clean(entered) { WithinNodes(cfg, entered); }
      EmitShape(node, ValueField(w.cfg, field, node, here), here, depth, e.seen);
      AdvanceThen(cfg, st, entered, w.budget.St());
      if Clean(st) {
        OpenEmits(cfg, h, value, field, here, depth, before, st, ind, entered, ind1, w.budget.St(), w.indirections,
                  buf0, buf);
      }
      assert w.activeStack[..start] == stack;
      w.ReleaseTracked(start, before);
    }

    /** appendResult: a final decision is a text, or takes the node away. */
    method AppendResult(result: Out) returns (omitted: bool)
      modifies this
      ensures omitted == result.Omitted? && old(buf) <= buf
      ensures result.Kept? && result.tree.String? ==> buf == old(buf) + OutText(result)
      ensures result.Omitted? ==> buf == old(buf)
    {
      hide JS.Quoted;
      match result {
        case Omitted => return true;
        case Kept(tree) =>
          if tree.String? {
            buf := JS.AppendJSONString(buf, tree.text);
          } else {
            buf := buf + T.NULL;
          }
          omitted := false;
      }
    }

    /** The shape of an open node. */
    method EmitShape(node: Value, f: Field, here: bytes, depth: nat, ghost seen: set<nat>)
      requires w.Ready() && Fits(w.h, node) && !w.budget.stop && depth <= w.cfg.maxDepth
      requires !node.Pointer? && !Loops(node, seen) && w.active == WithCell(seen, node)
      modifies this, w, w.budget
      ensures w.Ready() && Advance(w.cfg, old(w.budget.St()), w.budget.St()) && old(buf) <= buf
      ensures w.active == old(w.active) && w.activeStack == old(w.activeStack)
      ensures Clean(old(w.budget.St())) ==>
        ShapeEmits(w.cfg, w.h, node, f, here, depth, seen, old(w.budget.St()), old(w.indirections),
                   w.budget.St(), w.indirections, old(buf), buf)
      decreases |w.h.Keys - seen|, node, 0
    {
      hide Advance, Step, Lawful, Reports, Closed, IsStackOf, MeanValueShape, Listed, Gathered, SortEntries, ShapeEmits, Pays, MeanElements,
        MeanMap, Encode, Wrote;
      ghost var st, ind, buf0 := w.budget.St(), w.indirections, buf;
      if node.Array? || (node.Slice? && node.cell.Some?) {
        if node.Slice? { CellDescends(w.h, node.cell.value, seen); }
        EmitArray(if node.Array? then node.items else ElementsOf(w.h, node.cell), f, here, depth);
        if Clean(st) {
          ListEmits(w.cfg, w.h, node, f, here, depth, seen, st, ind, w.budget.St(), w.indirections, buf0, buf);
        }
      } else if node.Map? && node.cell.Some? {
        CellDescends(w.h, node.cell.value, seen);
        EmitMap(EntriesOf(w.h, node.cell), f, here, depth);
        if Clean(st) {
          MapEmits(w.cfg, w.h, node, f, here, depth, seen, st, ind, w.budget.St(), w.indirections, buf0, buf);
        }
      } else {
        EmitScalar(node, f, here, depth, seen);
      }
    }

    /** emitScalar and appendSafeScalar; an unsupported kind fails, and so does a json.Number that is none. */
    method EmitScalar(node: Value, f: Field, here: bytes, depth: nat, ghost seen: set<nat>)
      requires w.Ready() && Fits(w.h, node) && !w.budget.stop && depth <= w.cfg.maxDepth && IsScalar(node)
      modifies this, w.budget
      ensures w.Ready() && Advance(w.cfg, old(w.budget.St()), w.budget.St()) && old(buf) <= buf
      ensures node.Unsupported? ==>
        w.budget.St() == old(w.budget.St()).Fail(FieldError(w.cfg, UnsupportedType, Located(f, here), depth))
      ensures node.JsonNumber? && !N.IsNumber(node.text) ==>
        w.budget.St() == old(w.budget.St()).Fail(FieldError(w.cfg, InvalidJSON, Located(f, here), depth))
      ensures Clean(old(w.budget.St())) ==>
        ShapeEmits(w.cfg, w.h, node, f, here, depth, seen, old(w.budget.St()), w.indirections,
                   w.budget.St(), w.indirections, old(buf), buf)
    {
      hide Advance, Step, Lawful, Reports, Closed, Fits, IsStackOf, MeanValueShape, ShapeEmits, Encode, N.IsNumber, N.Accepts,
        Explained;
      ghost var st, buf0 := w.budget.St(), buf;
      Stays(w.cfg, st);
      if node.Text? {
        var out := w.WalkText(node.text, f, here, depth);
        var omitted := AppendResult(out);
        if Clean(st) {
          TextEmits(w.cfg, w.h, node.text, f, here, depth, seen, st, w.indirections, w.budget.St(), out, buf0, buf);
        }
        return;
      }
      var number := true;
      if node.JsonNumber? {
        N.AcceptsIffNumber(node.text);
        number := N.ValidJSONNumber(node.text);
      }
      if node.Unsupported? || !number {
        Reject(FieldError(w.cfg, if number then UnsupportedType else InvalidJSON, Located(f, here), depth));
        if number {
          buf := JS.AppendJSONString(buf, w.cfg.marker);
        } else {
          buf := buf + T.NULL;
        }
      } else {
        AppendScalar(ScalarTree(w.cfg, node));
      }
      if Clean(st) {
        ScalarEmits(w.cfg, w.h, node, f, here, depth, seen, st, w.indirections, w.budget.St(), buf0, buf);
      }
    }

    /** A scalar that cannot be written is reported. */
    method Reject(e: MaskError)
      requires w.Ready() && !w.budget.stop && (e.code == UnsupportedType || e.code == InvalidJSON) && e.depth <= w.cfg.maxDepth
      modifies w.budget
      ensures w.Ready() && Advance(w.cfg, old(w.budget.St()), w.budget.St()) && w.budget.errs != []
      ensures w.budget.St() == old(w.budget.St()).Fail(e)
    {
      hide Advance, Step, Lawful, Reports, Closed, Fits, IsStackOf, Explained;
      ghost var st := w.budget.St();
      NoCallback(w.cfg, st.asked, e);
      Recorded(w.cfg, st, e);
      RecordsOne(w.cfg, st, e);
      w.budget.Fail(e);
      StillReports(w.cfg, st, w.budget.St(), w.cycles);
    }

    /** The text of a scalar, or of an empty list or map. */
    method AppendScalar(tree: Json)
      requires tree.Array? ==> tree.items == []
      requires tree.Object? ==> tree.members == []
      modifies this
      ensures buf == old(buf) + Encode(tree)
    {
      hide JS.Quoted;
      match tree {
        case Null => buf := buf + T.NULL;
        case Bool(b) => buf := buf + if b then T.TRUE else T.FALSE;
        case Number(t) => buf := buf + t;
        case String(s) => buf := JS.AppendJSONString(buf, s);
        case Array(_) =>
          NoItems();
          buf := buf + [LBRACKET, RBRACKET];
        case Object(_) =>
          NoItems();
          buf := buf + [LBRACE, RBRACE];
      }
    }

    /** emitArray: an omitted member of an array stays null. */
    method EmitArray(items: seq<Value>, f: Field, here: bytes, depth: nat)
      requires w.Ready() && depth <= w.cfg.maxDepth && forall k :: 0 <= k < |items| ==> Fits(w.h, items[k])
      modifies this, w, w.budget
      ensures w.Ready() && Advance(w.cfg, old(w.budget.St()), w.budget.St()) && old(buf) <= buf
      ensures w.active == old(w.active) && w.activeStack == old(w.activeStack)
      ensures Clean(old(w.budget.St())) ==>
        var mn := Listed(MeanElements(w.cfg, WRITTEN, w.h, items, f, here, depth, old(w.active)));
        var mh := Listed(MeanElements(w.cfg, FOLLOWED, w.h, items, f, here, depth, old(w.active)));
        && Pays(w.cfg, old(w.budget.St()), old(w.indirections), w.budget.St(), w.indirections, mn, mh)
        && (Clean(w.budget.St()) ==> mn.Means? && buf == old(buf) + Encode(JsonOut.Json.Array(mn.value)))
      decreases |w.h.Keys - w.active|, items, 3
    {
      hide Advance, Step, Lawful, Reports, Closed, Fits, IsStackOf, MeanValue, MeanElements, Listed, Pays, WroteItems, Emits, Encode;
      ghost var cfg, h, st, ind, buf0 := w.cfg, w.h, w.budget.St(), w.indirections, buf;
      ghost var sn := MeanElements(cfg, WRITTEN, h, items, f, here, depth, w.active);
      ghost var sh := MeanElements(cfg, FOLLOWED, h, items, f, here, depth, w.active);
      Stays(cfg, st);
      ListPaysNothing(cfg, st, ind, sn, sh);
      buf := buf + [LBRACKET];
      NoItemsWritten(sn, buf0);
      var index := 0;
      while index < |items|
        invariant index <= |items| && w.Ready() && Advance(cfg, st, w.budget.St())
        invariant w.active == old(w.active) && w.activeStack == old(w.activeStack) && buf0 <= buf
        invariant Clean(st) ==> Pays(cfg, st, ind, w.budget.St(), w.indirections, Listed(sn[..index]), Listed(sh[..index]))
        invariant Clean(st) && Clean(w.budget.St()) ==> WroteItems(Listed(sn[..index]), buf0, buf)
      {
        ghost var b, ind1, sofar := w.budget.St(), w.indirections, buf;
        if w.budget.stop {
          if Clean(st) { ListStops(cfg, st, ind, b, ind1, sn, sh, index); }
          break;
        }
        if index > 0 {
          buf := buf + [COMMA];
        }
        ghost var mark := buf;
        var omitted := Emit(items[index], EntryField(f, []), PathForIndex(here, index), depth + 1);
        AdvanceThen(cfg, st, b, w.budget.St());
        ghost var after := buf;
        if omitted {
          buf := buf + T.NULL;
        }
        if Clean(st) {
          ItemStep(cfg, h, items, f, here, depth, w.active, st, ind, b, ind1, w.budget.St(), w.indirections, index,
                   buf0, sofar, mark, after, omitted);
        }
        index := index + 1;
      }
      assert index == |items| ==> sn[..index] == sn && sh[..index] == sh;
      ghost var body := buf;
      buf := buf + [RBRACKET];
      if Clean(st) && Clean(w.budget.St()) { ItemsClosed(Listed(sn), buf0, body); }
    }

    /** emitMap: entries in key order; a map too long for the nodes that are left fails before it is sorted. */
    method EmitMap(es: seq<Entry<Value>>, f: Field, here: bytes, depth: nat)
      requires w.Ready() && !w.budget.stop && depth <= w.cfg.maxDepth
      requires DistinctKeys(es) && forall k :: 0 <= k < |es| ==> Fits(w.h, es[k].value)
      modifies this, w, w.budget
      ensures w.Ready() && Advance(w.cfg, old(w.budget.St()), w.budget.St()) && old(buf) <= buf
      ensures w.active == old(w.active) && w.activeStack == old(w.activeStack)
      ensures Clean(old(w.budget.St())) ==>
        var mn := Gathered(MeanMap(w.cfg, WRITTEN, w.h, es, f, here, depth, old(w.active)));
        var mh := Gathered(MeanMap(w.cfg, FOLLOWED, w.h, es, f, here, depth, old(w.active)));
        && Pays(w.cfg, old(w.budget.St()), old(w.indirections), w.budget.St(), w.indirections, mn, mh)
        && (Clean(w.budget.St()) ==> mn.Means? && buf == old(buf) + Encode(Object(mn.value)))
      decreases |w.h.Keys - w.active|, es, 4
    {
      hide Advance, Step, Lawful, Reports, Closed, Fits, IsStackOf, MeanValue, MeanMap, Gathered, Pays, Encode, DistinctKeys, SortEntries;
      ghost var cfg, h, st, ind, buf0 := w.cfg, w.h, w.budget.St(), w.indirections, buf;
      if |es| as int > w.cfg.maxNodes as int - w.budget.nodes as int {
        var e := FieldError(w.cfg, NodeLimit, Located(f, here), depth);
        Limits(w.cfg, st, e);
        RecordsOne(w.cfg, st, e);
        if Clean(st) { MapTooLong(cfg, h, es, f, here, depth, w.active, st, ind, st.Limit(e)); }
        w.budget.Limit(e);
        StillReports(w.cfg, st, w.budget.St(), w.cycles);
        buf := JS.AppendJSONString(buf, w.cfg.marker);
        return;
      }
      SortedFits(h, es);
      var entries := SortEntries(es);
      SameMapSorted(cfg, WRITTEN, h, es, f, here, depth, w.active);
      SameMapSorted(cfg, FOLLOWED, h, es, f, here, depth, w.active);
      EmitSorted(entries, f, here, depth, es);
      if Clean(st) {
        PaysAlike(cfg, st, ind, w.budget.St(), w.indirections,
                  Gathered(MeanMap(cfg, WRITTEN, h, entries, f, here, depth, w.active)),
                  Gathered(MeanMap(cfg, FOLLOWED, h, entries, f, here, depth, w.active)),
                  Gathered(MeanMap(cfg, WRITTEN, h, es, f, here, depth, w.active)),
                  Gathered(MeanMap(cfg, FOLLOWED, h, es, f, here, depth, w.active)));
      }
    }

    /** The loop of emitMap. */
    method EmitSorted(entries: seq<Entry<Value>>, f: Field, here: bytes, depth: nat, ghost es: seq<Entry<Value>>)
      requires w.Ready() && depth <= w.cfg.maxDepth && Ascending(entries)
      requires forall k :: 0 <= k < |entries| ==> Fits(w.h, entries[k].value)
      requires forall k :: 0 <= k < |entries| ==> entries[k] in es
      modifies this, w, w.budget
      ensures w.Ready() && Advance(w.cfg, old(w.budget.St()), w.budget.St()) && old(buf) <= buf
      ensures w.active == old(w.active) && w.activeStack == old(w.activeStack)
      ensures Clean(old(w.budget.St())) ==>
        var mn := Gathered(MeanMap(w.cfg, WRITTEN, w.h, entries, f, here, depth, old(w.active)));
        var mh := Gathered(MeanMap(w.cfg, FOLLOWED, w.h, entries, f, here, depth, old(w.active)));
        && Pays(w.cfg, old(w.budget.St()), old(w.indirections), w.budget.St(), w.indirections, mn, mh)
        && (Clean(w.budget.St()) ==> mn.Means? && buf == old(buf) + Encode(Object(mn.value)))
      decreases |w.h.Keys - w.active|, es, 3
    {
      hide Advance, Step, Lawful, Reports, Closed, Fits, IsStackOf, MeanValue, MeanMap, Gathered, Pays, Encode, WroteMembers, Emits, Ascending;
      ghost var cfg, h, st, ind, buf0 := w.cfg, w.h, w.budget.St(), w.indirections, buf;
      ghost var sn := MeanMap(cfg, WRITTEN, h, entries, f, here, depth, w.active);
      ghost var sh := MeanMap(cfg, FOLLOWED, h, entries, f, here, depth, w.active);
      Stays(cfg, st);
      MapPaysNothing(cfg, st, ind, sn, sh);
      buf := buf + [LBRACE];
      NoMembersWritten(sn, buf0);
      var written, index := false, 0;
      while index < |entries|
        invariant index <= |entries| && w.Ready() && Advance(cfg, st, w.budget.St())
        invariant w.active == old(w.active) && w.activeStack == old(w.activeStack) && buf0 <= buf
        invariant Clean(st) ==>
          Pays(cfg, st, ind, w.budget.St(), w.indirections, Gathered(sn[..index]), Gathered(sh[..index]))
        invariant Clean(st) && Clean(w.budget.St()) ==> WroteMembers(Gathered(sn[..index]), buf0, buf, written)
      {
        ghost var b, ind1, sofar := w.budget.St(), w.indirections, buf;
        if w.budget.stop {
          if Clean(st) { MapStops(cfg, st, ind, b, ind1, sn, sh, index); }
          break;
        }
        ghost var after;
        var omitted;
        omitted, after := EmitEntry(entries[index], f, here, depth, written, es);
        AdvanceThen(cfg, st, b, w.budget.St());
        if Clean(st) {
          EntryStep(cfg, h, entries, f, here, depth, w.active, st, ind, b, ind1, w.budget.St(), w.indirections, index,
                    buf0, sofar, after, omitted, written);
        }
        written := written || !omitted;
        index := index + 1;
      }
      assert index == |entries| ==> sn[..index] == sn && sh[..index] == sh;
      ghost var body := buf;
      buf := buf + [RBRACE];
      if Clean(st) && Clean(w.budget.St()) { MembersClosed(Gathered(sn), buf0, body, written); }
    }

    /** One member: its key and its value, cut off again if the value is omitted. */
    method EmitEntry(entry: Entry<Value>, f: Field, here: bytes, depth: nat, written: bool, ghost es: seq<Entry<Value>>)
      returns (omitted: bool, ghost after: bytes)
      requires w.Ready() && Fits(w.h, entry.value) && depth <= w.cfg.maxDepth && entry in es
      modifies this, w, w.budget
      ensures w.Ready() && Advance(w.cfg, old(w.budget.St()), w.budget.St()) && old(buf) <= buf
      ensures w.active == old(w.active) && w.activeStack == old(w.activeStack)
      ensures buf == if omitted then old(buf) else after
      ensures Clean(old(w.budget.St())) ==>
        Emits(w.cfg, w.h, entry.value, EntryField(f, entry.key), PathFor(here, entry.key), depth + 1, old(w.active),
              old(w.budget.St()), old(w.indirections), w.budget.St(), w.indirections,
              KeyWritten(old(buf), entry.key, written), after, omitted)
      decreases |w.h.Keys - w.active|, es, 2
    {
      hide Advance, Step, Lawful, Reports, Closed, Fits, IsStackOf, Emits, JS.Quoted;
      var mark := |buf|;
      ghost var buf0 := buf;
      if written {
        buf := buf + [COMMA];
      }
      buf := JS.AppendJSONString(buf, entry.key);
      buf := buf + [COLON];
      assert buf == KeyWritten(buf0, entry.key, written);
      ghost var j :| 0 <= j < |es| && es[j] == entry;
      assert es[j].value == entry.value;
      omitted := Emit(entry.value, EntryField(f, entry.key), PathFor(here, entry.key), depth + 1);
      after := buf;
      if omitted {
        buf := buf[..mark];
        assert buf == buf0;
      }
    }
  }
}
