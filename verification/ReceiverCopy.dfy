/**
 The isolated copy of a text-marshaling receiver: its slices are recorded and charged, storage that overlaps is
 rejected by a sorted sweep, and the copy keeps every slice's contents, length, capacity and sharing.
 */
module ReceiverCopy {
  import opened Bytes
  import opened Options

  /* ---------- saturating counts ---------- */

  /** maxInlineNodes, the largest 32-bit integer. */
  const CAP: nat := 0x7FFF_FFFF

  function Min(a: nat, b: nat): nat { if a < b then a else b }

  function SaturatingAdd(left: nat, right: nat): (r: nat)
    requires right <= CAP
    ensures left <= CAP ==> r == Min(left + right, CAP)
  {
    if left > CAP - right then CAP else left + right
  }

  function SaturatingMul(left: nat, right: nat): (r: nat)
    ensures r == Min(left * right, CAP)
  {
    if left == 0 || right == 0 then 0
    else
      CapDivides(left, right);
      if left > CAP / right then CAP else left * right
  }

  /** Dividing the cap tells whether a product exceeds it, without multiplying. */
  lemma CapDivides(left: nat, right: nat)
    requires left > 0 && right > 0
    ensures left > CAP / right <==> left * right > CAP
  {
    var q := CAP / right;
    assert CAP == q * right + CAP % right;
    if left > q {
      assert left * right >= (q + 1) * right by { MulMonotone(left, q + 1, right); }
    } else {
      MulMonotone(q, left, right);
    }
  }

  lemma MulMonotone(a: nat, b: nat, c: nat)
    requires a >= b
    ensures a * c >= b * c
  {
  }

  datatype Type = Basic | ArrayOf(length: nat, elem: Type) | SliceOf(elem: Type) | StructOf(fields: seq<Type>)

  /** countInlineNodes. */
  function CountInlineNodes(t: Type): (n: nat)
    ensures n <= CAP
  {
    match t
    case ArrayOf(length, elem) => SaturatingMul(length, CountInlineNodes(elem))
    case StructOf(fields) => if CountFields(fields) > 1 then CountFields(fields) else 1
    case _ => 1
  }

  function CountFields(fields: seq<Type>): (n: nat)
    ensures n <= CAP
  {
    if fields == [] then 0
    else SaturatingAdd(CountFields(fields[..|fields| - 1]), CountInlineNodes(fields[|fields| - 1]))
  }

  /** The number of nodes a value of a type holds, however large. */
  function InlineNodes(t: Type): nat {
    match t
    case ArrayOf(length, elem) => length * InlineNodes(elem)
    case StructOf(fields) => if FieldNodes(fields) > 1 then FieldNodes(fields) else 1
    case _ => 1
  }

  function FieldNodes(fields: seq<Type>): nat {
    if fields == [] then 0 else FieldNodes(fields[..|fields| - 1]) + InlineNodes(fields[|fields| - 1])
  }

  /** Through any nesting of arrays and structs, the saturating count is the exact one, up to the cap. */
  lemma {:induction false} CountIsExact(t: Type)
    ensures CountInlineNodes(t) == Min(InlineNodes(t), CAP)
    decreases t
  {
    match t
    case ArrayOf(length, elem) =>
      CountIsExact(elem);
      MinMul(length, InlineNodes(elem));
    case StructOf(fields) => CountFieldsExact(fields);
    case _ =>
  }

  lemma {:induction false} CountFieldsExact(fields: seq<Type>)
    ensures CountFields(fields) == Min(FieldNodes(fields), CAP)
    decreases fields
  {
    if fields != [] {
      var k := |fields| - 1;
      CountFieldsExact(fields[..k]);
      CountIsExact(fields[k]);
    }
  }

  lemma MinMul(a: nat, b: nat)
    ensures Min(a * Min(b, CAP), CAP) == Min(a * b, CAP)
  {
    if b > CAP && a > 0 {
      MulMonotone(a, 1, CAP);
      MulMonotone(a, 1, b);
    }
  }

  /** chargeCopy: whether a count fits what is left of the budget. */
  predicate Charges(count: nat, budget: nat) { count <= budget }

  /* ---------- overlapping storage ---------- */

  datatype Range = Range(start: nat, end: nat)

  predicate Meet(a: Range, b: Range) { a.start < b.end && b.start < a.end }

  /** Two of the ranges share storage. */
  predicate Overlap(rs: seq<Range>) {
    exists j, k :: 0 <= j < k < |rs| && Meet(rs[j], rs[k])
  }

  predicate MeetsAny(r: Range, rs: seq<Range>) { exists k :: 0 <= k < |rs| && Meet(r, rs[k]) }

  predicate NotEmpty(rs: seq<Range>) { forall k :: 0 <= k < |rs| ==> rs[k].start < rs[k].end }

  predicate SortedByStart(rs: seq<Range>) { forall j, k :: 0 <= j < k < |rs| ==> rs[j].start <= rs[k].start }

  function InsertRange(r: Range, sorted: seq<Range>): seq<Range> {
    if sorted == [] || r.start <= sorted[0].start then [r] + sorted
    else [sorted[0]] + InsertRange(r, sorted[1..])
  }

  /** The sort by start. */
  function SortRanges(rs: seq<Range>): seq<Range> {
    if rs == [] then [] else InsertRange(rs[0], SortRanges(rs[1..]))
  }

  lemma OverlapCons(r: Range, rs: seq<Range>)
    ensures Overlap([r] + rs) <==> Overlap(rs) || MeetsAny(r, rs)
  {
    var all := [r] + rs;
    if Overlap(all) {
      var j, k :| 0 <= j < k < |all| && Meet(all[j], all[k]);
      if j > 0 {
        assert Meet(rs[j - 1], rs[k - 1]);
      } else {
        assert Meet(r, rs[k - 1]);
      }
    }
    if Overlap(rs) {
      var j, k :| 0 <= j < k < |rs| && Meet(rs[j], rs[k]);
      assert Meet(all[j + 1], all[k + 1]);
    }
    if MeetsAny(r, rs) {
      var k :| 0 <= k < |rs| && Meet(r, rs[k]);
      assert Meet(all[0], all[k + 1]);
    }
  }

  lemma {:induction false} InsertedMeets(r: Range, sorted: seq<Range>, other: Range)
    ensures MeetsAny(other, InsertRange(r, sorted)) <==> Meet(other, r) || MeetsAny(other, sorted)
    decreases |sorted|
  {
    if sorted == [] || r.start <= sorted[0].start {
      MeetsCons(other, r, sorted);
    } else {
      InsertedMeets(r, sorted[1..], other);
      MeetsCons(other, sorted[0], InsertRange(r, sorted[1..]));
      MeetsCons(other, sorted[0], sorted[1..]);
      assert sorted == [sorted[0]] + sorted[1..];
    }
  }

  lemma MeetsCons(other: Range, r: Range, rs: seq<Range>)
    ensures MeetsAny(other, [r] + rs) <==> Meet(other, r) || MeetsAny(other, rs)
  {
    var all := [r] + rs;
    if MeetsAny(other, all) {
      var k :| 0 <= k < |all| && Meet(other, all[k]);
      if k > 0 { assert Meet(other, rs[k - 1]); }
    }
    if Meet(other, r) { assert Meet(other, all[0]); }
    if MeetsAny(other, rs) {
      var k :| 0 <= k < |rs| && Meet(other, rs[k]);
      assert Meet(other, all[k + 1]);
    }
  }

  lemma {:induction false} InsertedSorted(r: Range, sorted: seq<Range>)
    requires SortedByStart(sorted)
    ensures SortedByStart(InsertRange(r, sorted))
    ensures forall x :: x in InsertRange(r, sorted) <==> x == r || x in sorted
    decreases |sorted|
  {
    if sorted != [] && r.start > sorted[0].start {
      var first, tail := sorted[0], sorted[1..];
      assert sorted == [first] + tail;
      InsertedSorted(r, tail);
      var rest := InsertRange(r, tail);
      forall k | 0 <= k < |rest| ensures first.start <= rest[k].start { assert rest[k] in rest; }
    }
  }

  lemma {:induction false} InsertedOverlap(r: Range, sorted: seq<Range>)
    ensures Overlap(InsertRange(r, sorted)) <==> Overlap(sorted) || MeetsAny(r, sorted)
    decreases |sorted|
  {
    hide Overlap, MeetsAny;
    if sorted == [] || r.start <= sorted[0].start {
      OverlapCons(r, sorted);
    } else {
      var first, tail := sorted[0], sorted[1..];
      assert sorted == [first] + tail;
      InsertedOverlap(r, tail);
      OverlapCons(first, InsertRange(r, tail));
      OverlapCons(first, tail);
      InsertedMeets(r, tail, first);
      MeetsCons(r, first, tail);
    }
  }

  /** Sorting the ranges changes neither which of them there are nor whether two meet. */
  lemma {:induction false} SortKeepsOverlap(rs: seq<Range>)
    ensures SortedByStart(SortRanges(rs)) && (Overlap(SortRanges(rs)) <==> Overlap(rs))
    ensures forall x :: x in SortRanges(rs) <==> x in rs
    decreases |rs|
  {
    if rs != [] {
      var tail := rs[1..];
      assert rs == [rs[0]] + tail;
      SortKeepsOverlap(tail);
      InsertedSorted(rs[0], SortRanges(tail));
      InsertedOverlap(rs[0], SortRanges(tail));
      OverlapCons(rs[0], tail);
      SameMeets(rs[0], SortRanges(tail), tail);
    }
  }

  lemma SameMeets(r: Range, a: seq<Range>, b: seq<Range>)
    requires forall x :: x in a <==> x in b
    ensures MeetsAny(r, a) <==> MeetsAny(r, b)
  {
    if MeetsAny(r, a) {
      var k :| 0 <= k < |a| && Meet(r, a[k]);
      assert a[k] in b;
      var j :| 0 <= j < |b| && b[j] == a[k];
    }
    if MeetsAny(r, b) {
      var k :| 0 <= k < |b| && Meet(r, b[k]);
      assert b[k] in a;
      var j :| 0 <= j < |a| && a[j] == b[k];
    }
  }

  /** overlapping: the sweep with the running end reports exactly whether two ranges share storage. */
  method Overlapping(ranges: seq<Range>) returns (found: bool)
    requires NotEmpty(ranges)
    ensures found <==> Overlap(ranges)
  {
    SortKeepsOverlap(ranges);
    var sorted := SortRanges(ranges);
    forall k | 0 <= k < |sorted| ensures sorted[k].start < sorted[k].end { assert sorted[k] in ranges; }
    var end: nat, index: nat := 0, 0;
    ghost var widest: nat := 0;
    while index < |sorted|
      invariant index <= |sorted|
      invariant forall k :: 0 <= k < index ==> sorted[k].end <= end
      invariant if index == 0 then end == 0 else widest < index && sorted[widest].end == end
      invariant forall j, k :: 0 <= j < k < index ==> !Meet(sorted[j], sorted[k])
    {
      var current := sorted[index];
      if index > 0 && current.start < end {
        assert Meet(sorted[widest], sorted[index]);
        return true;
      }
      if end < current.end {
        end := current.end;
        widest := index;
      }
      index := index + 1;
    }
    found := false;
  }

  /* ---------- the copy ---------- */

  /** A slice by what identifies it: its elements' type and size, where it points, its length and its capacity. */
  datatype Key = Key(elem: Type, width: nat, pointer: nat, length: nat, capacity: nat) {
    function Size(): nat { width * capacity }
  }

  /** A receiver: data of a type that holds no reference, slices, and arrays or structs of a type that holds some. */
  datatype Value = Plain(data: bytes) | NilSlice | SliceAt(key: Key) | Group(items: seq<Value>)

  function KeysOf(v: Value): set<Key> {
    match v
    case SliceAt(key) => {key}
    case Group(items) => KeysOfAll(items)
    case _ => {}
  }

  function KeysOfAll(items: seq<Value>): set<Key> {
    if items == [] then {} else KeysOfAll(items[..|items| - 1]) + KeysOf(items[|items| - 1])
  }

  /** Storage is where the value says. */
  predicate Stored(v: Value, memory: bytes) { forall k :: k in KeysOf(v) ==> k.pointer + k.Size() <= |memory| }

  function Contents(memory: bytes, key: Key): bytes
    requires key.pointer + key.Size() <= |memory|
  {
    memory[key.pointer..key.pointer + key.Size()]
  }

  /** The value with every slice moved to its copy. */
  function Moved(v: Value, copies: map<Key, nat>): Value {
    match v
    case SliceAt(key) => if key in copies then SliceAt(key.(pointer := copies[key])) else v
    case Group(items) => Group(MovedAll(items, copies))
    case _ => v
  }

  function MovedAll(items: seq<Value>, copies: map<Key, nat>): seq<Value> {
    if items == [] then [] else MovedAll(items[..|items| - 1], copies) + [Moved(items[|items| - 1], copies)]
  }

  /** The copy of a slice of the input lies beyond the input, with the contents of the original. */
  ghost predicate Copied(key: Key, at: nat, memory: bytes, base: nat) {
    && key.pointer + key.Size() <= base <= at && at + key.Size() <= |memory|
    && memory[at..at + key.Size()] == Contents(memory, key)
  }

  /** Every slice copied so far has storage of its own. */
  ghost predicate Faithful(copies: map<Key, nat>, memory: bytes, base: nat) {
    && base <= |memory|
    && (forall k :: k in copies ==> Copied(k, copies[k], memory, base))
    && (forall j, k :: j in copies && k in copies && j != k ==> !Meet(CopyRange(j, copies[j]), CopyRange(k, copies[k])))
  }

  function CopyRange(k: Key, at: nat): Range { Range(at, at + k.Size()) }

  class Copier {
    var memory: bytes
    var copies: map<Key, nat>

    constructor (memory: bytes)
      ensures this.memory == memory && copies == map[] && Faithful(copies, memory, |memory|)
    {
      this.memory := memory;
      copies := map[];
    }

    /** copy: a slice met before is shared, any other gets new storage of its whole capacity. */
    method Copy(v: Value, ghost base: nat) returns (r: Value)
      requires Faithful(copies, memory, base) && Stored(v, memory[..base])
      modifies this
      ensures Faithful(copies, memory, base) && old(memory) <= memory
      ensures Grown(old(copies), copies, KeysOf(v))
      ensures r == Moved(v, copies)
      decreases v
    {
      match v {
        case SliceAt(key) =>
          if key !in copies {
            MakeSlice(key, base);
          }
          r := SliceAt(key.(pointer := copies[key]));
        case Group(items) =>
          var moved := CopyAll(items, base);
          r := Group(moved);
        case _ => r := v;
      }
    }

    /** New storage at the end of memory, filled from the original up to its capacity. */
    method MakeSlice(key: Key, ghost base: nat)
      requires Faithful(copies, memory, base) && key !in copies && key.pointer + key.Size() <= base
      modifies this
      ensures Faithful(copies, memory, base) && old(memory) <= memory
      ensures Grown(old(copies), copies, {key})
    {
      MadeFaithful(copies, memory, base, key);
      OneGrown(copies, key, |memory|);
      hide Faithful, Grown, Key.Size;
      copies := copies[key := |memory|];
      memory := memory + memory[key.pointer..key.pointer + key.Size()];
    }

    method CopyAll(items: seq<Value>, ghost base: nat) returns (moved: seq<Value>)
      requires Faithful(copies, memory, base) && Stored(Group(items), memory[..base])
      modifies this
      ensures Faithful(copies, memory, base) && old(memory) <= memory
      ensures Grown(old(copies), copies, KeysOfAll(items))
      ensures moved == MovedAll(items, copies)
      decreases items
    {
      NothingMoved(items, copies);
      InBase(copies, memory, base);
      hide Faithful, Stored, KeysOf, KeysOfAll, Moved, MovedAll, Grown;
      ghost var inputs := memory[..base];
      moved := [];
      for index := 0 to |items|
        invariant Faithful(copies, memory, base)
        invariant old(memory) <= memory && base <= |memory| && memory[..base] == inputs
        invariant Grown(old(copies), copies, KeysOfAll(items[..index])) && moved == MovedAll(items[..index], copies)
      {
        ghost var was := copies;
        StoredItem(items, index, inputs);
        var item := Copy(items[index], base);
        ItemMoved(items, index, old(copies), was, copies);
        moved := moved + [item];
      }
      assert items[..|items|] == items;
    }
  }

  /** Copies of some more keys; none of those there were is moved. */
  ghost predicate Grown(was: map<Key, nat>, now: map<Key, nat>, keys: set<Key>) {
    now.Keys == was.Keys + keys && forall k :: k in was ==> now[k] == was[k]
  }

  lemma OneGrown(copies: map<Key, nat>, key: Key, at: nat)
    ensures Grown(copies, copies[key := at], {key}) || key in copies
  {
  }

  lemma NothingMoved(items: seq<Value>, copies: map<Key, nat>)
    ensures Grown(copies, copies, KeysOfAll(items[..0])) && MovedAll(items[..0], copies) == []
  {
  }

  /** One item more. */
  lemma ItemMoved(items: seq<Value>, k: nat, first: map<Key, nat>, was: map<Key, nat>, now: map<Key, nat>)
    requires k < |items| && Grown(first, was, KeysOfAll(items[..k])) && Grown(was, now, KeysOf(items[k]))
    ensures Grown(first, now, KeysOfAll(items[..k + 1]))
    ensures MovedAll(items[..k + 1], now) == MovedAll(items[..k], was) + [Moved(items[k], now)]
  {
    hide KeysOf, Moved;
    assert items[..k + 1][..k] == items[..k];
    MovedStays(items[..k], was, now);
  }

  /** A slice of the same stretch of memory, whatever was appended to it. */
  lemma SliceStays(memory: bytes, more: bytes, from: nat, to: nat)
    requires from <= to <= |memory|
    ensures (memory + more)[from..to] == memory[from..to]
  {
  }

  lemma InBase(copies: map<Key, nat>, memory: bytes, base: nat)
    requires Faithful(copies, memory, base)
    ensures base <= |memory|
  {
  }

  /** One more copy, put behind everything, leaves the copies faithful. */
  lemma MadeFaithful(copies: map<Key, nat>, memory: bytes, base: nat, key: Key)
    requires Faithful(copies, memory, base) && key !in copies && key.pointer + key.Size() <= base
    ensures Faithful(copies[key := |memory|], memory + Contents(memory, key), base)
  {
    var more := Contents(memory, key);
    var now, after := copies[key := |memory|], memory + more;
    forall k | k in now
      ensures Copied(k, now[k], after, base)
    {
      if k == key { NewCopied(key, memory, base); } else { StillCopied(k, copies[k], memory, more, base); }
    }
    forall j, k | j in now && k in now && j != k
      ensures !Meet(CopyRange(j, now[j]), CopyRange(k, now[k]))
    {
      if k == key { assert Copied(j, copies[j], memory, base); } else if j == key { assert Copied(k, copies[k], memory, base); }
    }
  }

  lemma NewCopied(key: Key, memory: bytes, base: nat)
    requires key.pointer + key.Size() <= base <= |memory|
    ensures Copied(key, |memory|, memory + Contents(memory, key), base)
  {
    hide Key.Size;
    var after := memory + Contents(memory, key);
    SliceStays(memory, Contents(memory, key), key.pointer, key.pointer + key.Size());
    assert after[|memory|..|memory| + key.Size()] == Contents(memory, key);
  }

  lemma StillCopied(key: Key, at: nat, memory: bytes, more: bytes, base: nat)
    requires Copied(key, at, memory, base)
    ensures Copied(key, at, memory + more, base)
  {
    hide Key.Size;
    SliceStays(memory, more, key.pointer, key.pointer + key.Size());
    SliceStays(memory, more, at, at + key.Size());
  }

  lemma StoredItem(items: seq<Value>, k: nat, memory: bytes)
    requires k < |items| && Stored(Group(items), memory)
    ensures Stored(items[k], memory)
  {
    KeysOfItem(items, k);
  }

  lemma {:induction false} KeysOfItem(items: seq<Value>, k: nat)
    requires k < |items|
    ensures KeysOf(items[k]) <= KeysOfAll(items)
    decreases |items|
  {
    if k < |items| - 1 { KeysOfItem(items[..|items| - 1], k); }
  }

  /** More copies do not move what was moved. */
  lemma {:induction false} MovedStays(items: seq<Value>, was: map<Key, nat>, now: map<Key, nat>)
    requires KeysOfAll(items) <= was.Keys <= now.Keys && forall k :: k in was ==> now[k] == was[k]
    ensures MovedAll(items, now) == MovedAll(items, was)
    decreases items
  {
    if items != [] {
      var k := |items| - 1;
      MovedStays(items[..k], was, now);
      MovedValueStays(items[k], was, now);
    }
  }

  lemma {:induction false} MovedValueStays(v: Value, was: map<Key, nat>, now: map<Key, nat>)
    requires KeysOf(v) <= was.Keys <= now.Keys && forall k :: k in was ==> now[k] == was[k]
    ensures Moved(v, now) == Moved(v, was)
    decreases v
  {
    if v.Group? { MovedStays(v.items, was, now); }
  }

  /** The storage of the input is left alone. */
  lemma InputStays(memory: bytes, after: bytes, key: Key)
    requires memory <= after && key.pointer + key.Size() <= |memory|
    ensures Contents(after, key) == Contents(memory, key)
  {
  }

  /* ---------- the scan ---------- */

  datatype Limit = DepthReached | NodesReached | Shared

  datatype Scan = Rejected(limit: Limit, depth: nat) | Recorded(keys: seq<Key>)

  /** The nodes of a slice: its capacity times the nodes of an element. */
  function SliceNodes(key: Key): nat { SaturatingMul(key.capacity, CountInlineNodes(key.elem)) }

  /** Up to the cap, a slice is charged for exactly the nodes it holds. */
  lemma SliceNodesExact(key: Key)
    ensures SliceNodes(key) == Min(key.capacity * InlineNodes(key.elem), CAP)
  {
    CountIsExact(key.elem);
    MinMul(key.capacity, InlineNodes(key.elem));
  }

  function TotalNodes(keys: seq<Key>): nat {
    if keys == [] then 0 else TotalNodes(keys[..|keys| - 1]) + SliceNodes(keys[|keys| - 1])
  }

  /** The nodes the slices hold, however many. */
  function ExactTotal(keys: seq<Key>): nat {
    if keys == [] then 0
    else ExactTotal(keys[..|keys| - 1]) + keys[|keys| - 1].capacity * InlineNodes(keys[|keys| - 1].elem)
  }

  /** The elements of slices, up to their capacities. */
  function Elements(keys: seq<Key>): nat {
    if keys == [] then 0 else Elements(keys[..|keys| - 1]) + keys[|keys| - 1].capacity
  }

  /** Slices of plain elements hold one node for each element there is room for. */
  lemma {:induction false} OneNodeEach(keys: seq<Key>)
    requires forall k :: 0 <= k < |keys| ==> keys[k].elem == Basic
    ensures ExactTotal(keys) == Elements(keys)
    decreases |keys|
  {
    if keys != [] { OneNodeEach(keys[..|keys| - 1]); }
  }

  /** A saturated total below the cap is the exact one. */
  lemma {:induction false} TotalIsExact(keys: seq<Key>)
    ensures TotalNodes(keys) <= ExactTotal(keys)
    ensures TotalNodes(keys) < CAP ==> TotalNodes(keys) == ExactTotal(keys)
    decreases |keys|
  {
    if keys != [] {
      TotalIsExact(keys[..|keys| - 1]);
      SliceNodesExact(keys[|keys| - 1]);
    }
  }

  /** Under any budget below the cap, slices are charged as if nothing saturated. */
  lemma ChargesAreExact(t: Type, keys: seq<Key>, budget: nat)
    requires budget < CAP
    ensures CountInlineNodes(t) + TotalNodes(keys) <= budget <==> InlineNodes(t) + ExactTotal(keys) <= budget
    ensures InlineNodes(t) + ExactTotal(keys) <= budget ==>
      CountInlineNodes(t) == InlineNodes(t) && TotalNodes(keys) == ExactTotal(keys)
  {
    hide TotalNodes, ExactTotal, InlineNodes, CountInlineNodes;
    CountIsExact(t);
    TotalIsExact(keys);
  }

  predicate SameDecision(t: Type, keys: seq<Key>, budget: nat) {
    CountInlineNodes(t) + TotalNodes(keys) <= budget <==> InlineNodes(t) + ExactTotal(keys) <= budget
  }

  /** The saturating charge decides every receiver as the exact one would if and only if the budget is below the cap. */
  lemma BudgetsDecidedExactly(budget: nat)
    ensures (forall t, keys :: SameDecision(t, keys, budget)) <==> budget < CAP
  {
    if budget < CAP {
      forall t, keys ensures SameDecision(t, keys, budget) { ChargesAreExact(t, keys, budget); }
    } else {
      var t := ArrayOf(budget + 1, Basic);
      CountIsExact(t);
      assert InlineNodes(t) == (budget + 1) * InlineNodes(Basic) == budget + 1;
      assert !SameDecision(t, [], budget);
    }
  }

  /** scan: the slices of v added to those recorded, each once, while depth and budget allow. */
  function ScanOf(v: Value, depth: nat, maxDepth: nat, budget: nat, keys: seq<Key>): Scan {
    match v
    case Plain(_) => Recorded(keys)
    case NilSlice => if depth > maxDepth then Rejected(DepthReached, depth) else Recorded(keys)
    case SliceAt(key) =>
      if depth > maxDepth then Rejected(DepthReached, depth)
      else if key in keys then Recorded(keys)
      else if TotalNodes(keys) + SliceNodes(key) > budget then Rejected(NodesReached, depth)
      else Recorded(keys + [key])
    case Group(items) =>
      if depth > maxDepth then Rejected(DepthReached, depth) else ScanAll(items, depth + 1, maxDepth, budget, keys)
  }

  function ScanAll(items: seq<Value>, depth: nat, maxDepth: nat, budget: nat, keys: seq<Key>): Scan {
    if items == [] then Recorded(keys)
    else
      match ScanAll(items[..|items| - 1], depth, maxDepth, budget, keys)
      case Rejected(limit, d) => Rejected(limit, d)
      case Recorded(ks) => ScanOf(items[|items| - 1], depth, maxDepth, budget, ks)
  }

  predicate Distinct(keys: seq<Key>) { forall j, k :: 0 <= j < k < |keys| ==> keys[j] != keys[k] }

  function SetOf(keys: seq<Key>): set<Key> { set k | k in keys }

  /** What is recorded is every slice of the value, once, within the budget. */
  lemma {:induction false} ScanRecords(v: Value, depth: nat, maxDepth: nat, budget: nat, keys: seq<Key>)
    requires Distinct(keys) && TotalNodes(keys) <= budget
    ensures var s := ScanOf(v, depth, maxDepth, budget, keys);
      s.Recorded? ==> Distinct(s.keys) && SetOf(s.keys) == SetOf(keys) + KeysOf(v) && TotalNodes(s.keys) <= budget
    decreases v
  {
    match v
    case SliceAt(key) => assert (keys + [key])[..|keys|] == keys;
    case Group(items) => ScanAllRecords(items, depth + 1, maxDepth, budget, keys);
    case _ =>
  }

  lemma {:induction false} ScanAllRecords(items: seq<Value>, depth: nat, maxDepth: nat, budget: nat, keys: seq<Key>)
    requires Distinct(keys) && TotalNodes(keys) <= budget
    ensures var s := ScanAll(items, depth, maxDepth, budget, keys);
      s.Recorded? ==> Distinct(s.keys) && SetOf(s.keys) == SetOf(keys) + KeysOfAll(items) && TotalNodes(s.keys) <= budget
    decreases items
  {
    if items != [] {
      var k := |items| - 1;
      ScanAllRecords(items[..k], depth, maxDepth, budget, keys);
      var s := ScanAll(items[..k], depth, maxDepth, budget, keys);
      if s.Recorded? { ScanRecords(items[k], depth, maxDepth, budget, s.keys); }
    }
  }

  /** Every place that holds a reference is within the depth limit. */
  predicate Reachable(v: Value, depth: nat, maxDepth: nat) {
    match v
    case Plain(_) => true
    case Group(items) => depth <= maxDepth && AllReachable(items, depth + 1, maxDepth)
    case _ => depth <= maxDepth
  }

  predicate AllReachable(items: seq<Value>, depth: nat, maxDepth: nat) {
    items == [] ||
    (AllReachable(items[..|items| - 1], depth, maxDepth) && Reachable(items[|items| - 1], depth, maxDepth))
  }

  /** The slices of v after those listed, in the order they are met, each once. */
  function Listed(v: Value, keys: seq<Key>): seq<Key> {
    match v
    case SliceAt(key) => if key in keys then keys else keys + [key]
    case Group(items) => ListedAll(items, keys)
    case _ => keys
  }

  function ListedAll(items: seq<Value>, keys: seq<Key>): seq<Key> {
    if items == [] then keys else Listed(items[|items| - 1], ListedAll(items[..|items| - 1], keys))
  }

  /** A scan is accepted exactly if no reference is too deep and the slices, each counted once, fit the budget. */
  lemma {:induction false} ScanAcceptsIff(v: Value, depth: nat, maxDepth: nat, budget: nat, keys: seq<Key>)
    requires TotalNodes(keys) <= budget
    ensures var s := ScanOf(v, depth, maxDepth, budget, keys);
      && (s.Recorded? <==> Reachable(v, depth, maxDepth) && TotalNodes(Listed(v, keys)) <= budget)
      && (s.Recorded? ==> s.keys == Listed(v, keys))
    ensures TotalNodes(keys) <= TotalNodes(Listed(v, keys))
    decreases v
  {
    match v
    case SliceAt(key) => assert (keys + [key])[..|keys|] == keys;
    case Group(items) => ScanAllAcceptsIff(items, depth + 1, maxDepth, budget, keys);
    case _ =>
  }

  lemma {:induction false} ScanAllAcceptsIff(items: seq<Value>, depth: nat, maxDepth: nat, budget: nat, keys: seq<Key>)
    requires TotalNodes(keys) <= budget
    ensures var s := ScanAll(items, depth, maxDepth, budget, keys);
      && (s.Recorded? <==>
            AllReachable(items, depth, maxDepth) && TotalNodes(ListedAll(items, keys)) <= budget)
      && (s.Recorded? ==> s.keys == ListedAll(items, keys))
    ensures TotalNodes(keys) <= TotalNodes(ListedAll(items, keys))
    decreases items
  {
    hide Reachable, ScanOf, Listed, TotalNodes;
    if items != [] {
      var n := |items| - 1;
      ScanAllAcceptsIff(items[..n], depth, maxDepth, budget, keys);
      var front := ListedAll(items[..n], keys);
      if TotalNodes(front) <= budget {
        ScanAcceptsIff(items[n], depth, maxDepth, budget, front);
      } else {
        ListingGrows(items[n], front);
      }
    }
  }

  lemma {:induction false} ListingGrows(v: Value, keys: seq<Key>)
    ensures TotalNodes(keys) <= TotalNodes(Listed(v, keys))
    decreases v
  {
    match v
    case SliceAt(key) => assert (keys + [key])[..|keys|] == keys;
    case Group(items) => ListingAllGrows(items, keys);
    case _ =>
  }

  lemma {:induction false} ListingAllGrows(items: seq<Value>, keys: seq<Key>)
    ensures TotalNodes(keys) <= TotalNodes(ListedAll(items, keys))
    decreases items
  {
    if items != [] {
      var n := |items| - 1;
      ListingAllGrows(items[..n], keys);
      ListingGrows(items[n], ListedAll(items[..n], keys));
    }
  }

  function KeyRange(k: Key): Range { Range(k.pointer, k.pointer + k.Size()) }

  /** The storage recorded for slices: a slice without storage leaves none. */
  function RangesOf(keys: seq<Key>): seq<Range> {
    if keys == [] then []
    else
      var k := keys[|keys| - 1];
      RangesOf(keys[..|keys| - 1]) + (if k.Size() > 0 then [KeyRange(k)] else [])
  }

  /** The storage of the receiver itself, if it is addressed. */
  function OwnRanges(own: Option<Range>): seq<Range> {
    if own.Some? && own.value.start < own.value.end then [own.value] else []
  }

  class Scanner {
    const budget: nat
    const maxDepth: nat
    const own: Option<Range>
    var nodes: nat
    var failDepth: nat
    /** The slices met, in the order they were recorded, and their storage. */
    var scanned: seq<Key>
    var ranges: seq<Range>

    constructor (budget: nat, maxDepth: nat, own: Option<Range>)
      ensures this.budget == budget && this.maxDepth == maxDepth && this.own == own
      ensures Valid() && scanned == []
    {
      this.budget := budget;
      this.maxDepth := maxDepth;
      this.own := own;
      nodes, failDepth, scanned, ranges := 0, 0, [], OwnRanges(own);
    }

    ghost predicate Valid()
      reads this
    {
      Distinct(scanned) && nodes == TotalNodes(scanned) <= budget && ranges == OwnRanges(own) + RangesOf(scanned)
    }

    method Scan(v: Value, depth: nat) returns (failed: Option<Limit>)
      requires Valid()
      modifies this
      ensures Valid()
      ensures match ScanOf(v, depth, maxDepth, budget, old(scanned))
        case Rejected(limit, d) => failed == Some(limit) && failDepth == d
        case Recorded(keys) => failed == None && scanned == keys
      decreases v
    {
      if v.Plain? {
        return None;
      }
      if depth > maxDepth {
        failDepth := depth;
        return Some(DepthReached);
      }
      if v.Group? {
        failed := ScanItems(v.items, depth + 1);
      } else if v.SliceAt? && v.key !in scanned {
        var count := SaturatingMul(v.key.capacity, CountInlineNodes(v.key.elem));
        if count > budget - nodes {
          failDepth := depth;
          return Some(NodesReached);
        }
        nodes := nodes + count;
        if v.key.Size() > 0 {
          ranges := ranges + [KeyRange(v.key)];
        }
        assert (scanned + [v.key])[..|scanned|] == scanned;
        assert ranges == OwnRanges(own) + RangesOf(scanned + [v.key]);
        scanned := scanned + [v.key];
        failed := None;
      } else {
        failed := None;
      }
    }

    method ScanItems(items: seq<Value>, depth: nat) returns (failed: Option<Limit>)
      requires Valid()
      modifies this
      ensures Valid()
      ensures match ScanAll(items, depth, maxDepth, budget, old(scanned))
        case Rejected(limit, d) => failed == Some(limit) && failDepth == d
        case Recorded(keys) => failed == None && scanned == keys
      decreases items
    {
      hide Distinct, TotalNodes, RangesOf, OwnRanges, ScanOf;
      ghost var keys := scanned;
      var index := 0;
      assert items[..0] == [];
      while index < |items|
        invariant index <= |items| && Valid()
        invariant ScanAll(items[..index], depth, maxDepth, budget, keys) == Recorded(scanned)
      {
        assert items[..index + 1][..index] == items[..index];
        failed := Scan(items[index], depth);
        if failed.Some? {
          RejectedEarly(items, index + 1, depth, maxDepth, budget, keys);
          return;
        }
        index := index + 1;
      }
      assert items[..index] == items;
      failed := None;
    }
  }

  /** What is rejected among the first items is rejected. */
  lemma {:induction false} RejectedEarly(items: seq<Value>, n: nat, depth: nat, maxDepth: nat, budget: nat, keys: seq<Key>)
    requires n <= |items| && ScanAll(items[..n], depth, maxDepth, budget, keys).Rejected?
    ensures ScanAll(items, depth, maxDepth, budget, keys) == ScanAll(items[..n], depth, maxDepth, budget, keys)
    decreases |items| - n
  {
    hide ScanOf;
    if n == |items| {
      assert items[..n] == items;
    } else {
      assert items[..n + 1][..n] == items[..n];
      RejectedEarly(items, n + 1, depth, maxDepth, budget, keys);
    }
  }

  /** Two slices of a value that are not one slice but share storage. */
  predicate SharesStorage(keys: set<Key>) {
    exists j, k :: j in keys && k in keys && j != k && j.Size() > 0 && k.Size() > 0 && Meet(KeyRange(j), KeyRange(k))
  }

  lemma {:induction false} RangesMeet(keys: seq<Key>, r: Range)
    requires Distinct(keys)
    ensures NotEmpty(RangesOf(keys))
    ensures MeetsAny(r, RangesOf(keys)) <==> exists k :: k in keys && k.Size() > 0 && Meet(r, KeyRange(k))
    decreases |keys|
  {
    if keys != [] {
      var n := |keys| - 1;
      RangesMeet(keys[..n], r);
      var front := RangesOf(keys[..n]);
      MeetsSnoc(r, front, KeyRange(keys[n]));
      assert keys == keys[..n] + [keys[n]];
    }
  }

  lemma MeetsSnoc(r: Range, rs: seq<Range>, last: Range)
    ensures MeetsAny(r, rs + [last]) <==> MeetsAny(r, rs) || Meet(r, last)
  {
    var all := rs + [last];
    if MeetsAny(r, rs) {
      var k :| 0 <= k < |rs| && Meet(r, rs[k]);
      assert Meet(r, all[k]);
    }
    if Meet(r, last) { assert Meet(r, all[|rs|]); }
  }

  lemma OverlapSnoc(rs: seq<Range>, last: Range)
    ensures Overlap(rs + [last]) <==> Overlap(rs) || MeetsAny(last, rs)
  {
    var all := rs + [last];
    if Overlap(all) {
      var j, k :| 0 <= j < k < |all| && Meet(all[j], all[k]);
      if k < |rs| { assert Meet(rs[j], rs[k]); } else { assert Meet(last, rs[j]); }
    }
    if Overlap(rs) {
      var j, k :| 0 <= j < k < |rs| && Meet(rs[j], rs[k]);
      assert Meet(all[j], all[k]);
    }
    if MeetsAny(last, rs) {
      var k :| 0 <= k < |rs| && Meet(last, rs[k]);
      assert Meet(all[k], all[|rs|]);
    }
  }

  /** Recorded ranges overlap exactly if two different slices share storage. */
  lemma {:induction false} OverlapIffShared(keys: seq<Key>)
    requires Distinct(keys)
    ensures NotEmpty(RangesOf(keys)) && (Overlap(RangesOf(keys)) <==> SharesStorage(SetOf(keys)))
    decreases |keys|
  {
    if keys != [] {
      var n := |keys| - 1;
      var front, last := keys[..n], keys[n];
      assert keys == front + [last];
      OverlapIffShared(front);
      RangesMeet(front, KeyRange(last));
      OverlapSnoc(RangesOf(front), KeyRange(last));
      SharesSnoc(front, last);
      if last.Size() == 0 { assert RangesOf(keys) == RangesOf(front); }
    }
  }

  lemma SharesSnoc(front: seq<Key>, last: Key)
    requires Distinct(front + [last])
    ensures SharesStorage(SetOf(front + [last])) <==>
      SharesStorage(SetOf(front)) ||
      (last.Size() > 0 && exists k :: k in front && k.Size() > 0 && Meet(KeyRange(last), KeyRange(k)))
  {
    var all := front + [last];
    assert all[|front|] == last;
    forall k | k in front ensures k != last && k in all {
      var i :| 0 <= i < |front| && front[i] == k;
      assert all[i] == k;
    }
    assert last in SetOf(all);
    if SharesStorage(SetOf(all)) && !SharesStorage(SetOf(front)) {
      var j, k :| j in SetOf(all) && k in SetOf(all) && j != k && j.Size() > 0 && k.Size() > 0 &&
        Meet(KeyRange(j), KeyRange(k));
      assert j == last || k == last;
      if j == last { assert k in front; } else { assert j in front; }
    }
  }

  /** A slice shares storage with another, or with the receiver. */
  predicate SharedWith(own: Option<Range>, keys: set<Key>) {
    || SharesStorage(keys)
    || (own.Some? && own.value.start < own.value.end &&
        exists k :: k in keys && k.Size() > 0 && Meet(own.value, KeyRange(k)))
  }

  /** All recorded ranges, the receiver's among them, overlap exactly if a slice shares storage with what it is not. */
  lemma OverlapIffSharedWith(own: Option<Range>, keys: seq<Key>)
    requires Distinct(keys)
    ensures NotEmpty(OwnRanges(own) + RangesOf(keys))
    ensures Overlap(OwnRanges(own) + RangesOf(keys)) <==> SharedWith(own, SetOf(keys))
  {
    hide SharesStorage, Overlap;
    OverlapIffShared(keys);
    if OwnRanges(own) == [] {
      assert OwnRanges(own) + RangesOf(keys) == RangesOf(keys);
    } else {
      OverlapCons(own.value, RangesOf(keys));
      RangesMeet(keys, own.value);
    }
  }

  datatype Isolation = Refused(limit: Limit, depth: nat) | Isolated(copy: Value, memory: bytes, copies: map<Key, nat>)

  /** The receiver's own nodes are charged, then its slices, each once. */
  function Admitted(t: Type, v: Value, depth: nat, maxDepth: nat, budget: nat): Scan {
    if !Charges(CountInlineNodes(t), budget) then Rejected(NodesReached, depth)
    else ScanOf(v, depth, maxDepth, budget - CountInlineNodes(t), [])
  }

  /** Below the cap a receiver is admitted exactly if it is not too deep and the nodes it holds fit the budget. */
  lemma AdmittedIff(t: Type, v: Value, depth: nat, maxDepth: nat, budget: nat)
    requires budget < CAP
    ensures var s := Admitted(t, v, depth, maxDepth, budget);
      && (s.Recorded? <==>
            Reachable(v, depth, maxDepth) && InlineNodes(t) + ExactTotal(Listed(v, [])) <= budget)
      && (s.Recorded? ==> s.keys == Listed(v, []) && CountInlineNodes(t) + TotalNodes(s.keys) == InlineNodes(t) + ExactTotal(s.keys))
  {
    hide TotalNodes, ExactTotal, InlineNodes, CountInlineNodes, ScanOf, Reachable, Listed;
    ChargesAreExact(t, Listed(v, []), budget);
    CountIsExact(t);
    if Charges(CountInlineNodes(t), budget) {
      NoNodes();
      ScanAcceptsIff(v, depth, maxDepth, budget - CountInlineNodes(t), []);
    }
  }

  lemma NoNodes()
    ensures TotalNodes([]) == 0
  {
  }

  /** What the charge and the scan refuse, and what the sweep does. */
  method Refusal(t: Type, v: Value, own: Option<Range>, depth: nat, maxDepth: nat, budget: nat)
    returns (r: Option<Isolation>, spent: nat)
    ensures match Admitted(t, v, depth, maxDepth, budget)
      case Rejected(limit, d) => r == Some(Refused(limit, d)) && spent <= budget
      case Recorded(keys) =>
        && (r == if SharedWith(own, KeysOf(v)) then Some(Refused(Shared, depth)) else None)
        && spent == CountInlineNodes(t) + TotalNodes(keys) <= budget
  {
    hide KeysOf, ScanOf, SharedWith, Overlap, CountInlineNodes, TotalNodes, SetOf, RangesOf, OwnRanges;
    if !Charges(CountInlineNodes(t), budget) {
      return Some(Refused(NodesReached, depth)), 0;
    }
    spent := CountInlineNodes(t);
    var scanner := new Scanner(budget - spent, maxDepth, own);
    var failed := scanner.Scan(v, depth);
    if failed.Some? {
      return Some(Refused(failed.value, scanner.failDepth)), spent;
    }
    spent := spent + scanner.nodes;
    ScanRecordsAll(v, depth, maxDepth, scanner.budget);
    OverlapIffSharedWith(own, scanner.scanned);
    var shared := Overlapping(scanner.ranges);
    r := if shared then Some(Refused(Shared, depth)) else None;
  }

  lemma ScanRecordsAll(v: Value, depth: nat, maxDepth: nat, budget: nat)
    ensures var s := ScanOf(v, depth, maxDepth, budget, []); s.Recorded? ==> SetOf(s.keys) == KeysOf(v)
  {
    ScanRecords(v, depth, maxDepth, budget, []);
    assert SetOf([]) + KeysOf(v) == KeysOf(v);
  }

  /** Every slice has new storage with the contents of its original, and no two have the same. */
  ghost predicate Independent(v: Value, memory: bytes, r: Isolation) {
    && r.Isolated? && memory <= r.memory && r.copies.Keys == KeysOf(v) && r.copy == Moved(v, r.copies)
    && (forall k :: k in KeysOf(v) ==>
          k.pointer + k.Size() <= |memory| <= r.copies[k] && r.copies[k] + k.Size() <= |r.memory| &&
          r.memory[r.copies[k]..r.copies[k] + k.Size()] == Contents(memory, k))
    && (forall j, k :: j in KeysOf(v) && k in KeysOf(v) && j != k ==>
          !Meet(CopyRange(j, r.copies[j]), CopyRange(k, r.copies[k])))
  }

  /* ---------- byte by byte ---------- */

  /** The addresses of a slice are those of its whole capacity. */
  predicate Holds(k: Key, a: nat) { k.pointer <= a < k.pointer + k.width * k.capacity }

  /** Two different slices have a byte in common, or a slice and the receiver do. */
  ghost predicate SharesByte(own: Option<Range>, keys: set<Key>) {
    || (exists j, k, a :: j in keys && k in keys && j != k && Holds(j, a) && Holds(k, a))
    || (own.Some? && exists k, a: nat :: k in keys && Holds(k, a) && own.value.start <= a < own.value.end)
  }

  predicate Within(r: Range, a: nat) { r.start <= a < r.end }

  /** Ranges meet exactly if a byte is in both. */
  lemma MeetIffByte(a: Range, b: Range)
    requires a.start < a.end && b.start < b.end
    ensures Meet(a, b) <==> exists x: nat :: Within(a, x) && Within(b, x)
  {
    if Meet(a, b) {
      var x := if a.start < b.start then b.start else a.start;
      assert Within(a, x) && Within(b, x);
    }
  }

  lemma HoldsIsRange(k: Key, a: nat)
    ensures Holds(k, a) <==> k.Size() > 0 && Within(KeyRange(k), a)
  {
  }

  /** What the sweep over recorded ranges refuses is exactly a byte in common. */
  lemma SharedIffByte(own: Option<Range>, keys: set<Key>)
    ensures SharedWith(own, keys) <==> SharesByte(own, keys)
  {
    hide Holds, Key.Size, Within;
    forall k, a: nat ensures Holds(k, a) <==> k.Size() > 0 && Within(KeyRange(k), a) { HoldsIsRange(k, a); }
    forall j: Key, k: Key | j.Size() > 0 && k.Size() > 0
      ensures Meet(KeyRange(j), KeyRange(k)) <==> exists a: nat :: Holds(j, a) && Holds(k, a)
    {
      MeetIffByte(KeyRange(j), KeyRange(k));
      if Meet(KeyRange(j), KeyRange(k)) {
        var a: nat :| Within(KeyRange(j), a) && Within(KeyRange(k), a);
        assert Holds(j, a) && Holds(k, a);
      }
    }
    if own.Some? && own.value.start < own.value.end {
      forall k: Key | k.Size() > 0
        ensures Meet(own.value, KeyRange(k)) <==> exists a: nat :: Holds(k, a) && Within(own.value, a)
      {
        MeetIffByte(own.value, KeyRange(k));
        if Meet(own.value, KeyRange(k)) {
          var a: nat :| Within(own.value, a) && Within(KeyRange(k), a);
          assert Holds(k, a);
        }
      }
    }
    if own.Some? { OwnByte(own, keys); }
  }

  lemma OwnByte(own: Option<Range>, keys: set<Key>)
    requires own.Some?
    ensures (exists k, a: nat :: k in keys && Holds(k, a) && own.value.start <= a < own.value.end) <==>
            (exists k, a: nat :: k in keys && Holds(k, a) && Within(own.value, a))
  {
    hide Holds;
  }

  /** The copies, byte by byte: each has storage of its own behind the input, for the whole capacity of its original. */
  ghost predicate OwnStorage(v: Value, memory: bytes, r: Isolation) {
    && r.Isolated? && r.copies.Keys == KeysOf(v)
    && (forall k :: k in KeysOf(v) ==> CopiedBytes(k, r.copies[k], memory, r.memory))
    && (forall j, k, a :: j in KeysOf(v) && k in KeysOf(v) && j != k ==>
          !(Holds(j.(pointer := r.copies[j]), a) && Holds(k.(pointer := r.copies[k]), a)))
  }

  ghost predicate CopiedBytes(k: Key, at: nat, memory: bytes, after: bytes) {
    && |memory| <= at && at + k.width * k.capacity <= |after| && k.pointer + k.width * k.capacity <= |memory|
    && forall a :: at <= a < at + k.width * k.capacity ==> after[a] == memory[k.pointer + (a - at)]
  }

  lemma CopiedByBytes(k: Key, at: nat, memory: bytes, after: bytes)
    requires k.pointer + k.Size() <= |memory| <= at && at + k.Size() <= |after|
    requires after[at..at + k.Size()] == Contents(memory, k)
    ensures CopiedBytes(k, at, memory, after)
  {
    forall a | at <= a < at + k.Size() ensures after[a] == memory[k.pointer + (a - at)] {
      assert after[at..at + k.Size()][a - at] == Contents(memory, k)[a - at];
    }
  }

  lemma IndependentBytes(v: Value, memory: bytes, r: Isolation)
    requires Independent(v, memory, r)
    ensures OwnStorage(v, memory, r)
  {
    hide Holds, Key.Size, CopiedBytes, KeysOf, Moved, Contents;
    forall k | k in KeysOf(v) ensures CopiedBytes(k, r.copies[k], memory, r.memory) {
      CopiedByBytes(k, r.copies[k], memory, r.memory);
    }
    forall j, k, a: nat | j in KeysOf(v) && k in KeysOf(v) && j != k
      ensures !(Holds(j.(pointer := r.copies[j]), a) && Holds(k.(pointer := r.copies[k]), a))
    {
      SameSize(j, r.copies[j]);
      SameSize(k, r.copies[k]);
      HoldsIsRange(j.(pointer := r.copies[j]), a);
      HoldsIsRange(k.(pointer := r.copies[k]), a);
    }
  }

  lemma SameSize(k: Key, at: nat)
    ensures k.(pointer := at).Size() == k.Size()
  {
  }

  /** What can be read through a value: inline data, and for a slice its length, its capacity and all its bytes. */
  datatype Reading =
    | Inline(data: bytes)
    | NoSlice
    | Run(elem: Type, length: nat, capacity: nat, contents: seq<byte>)
    | Several(items: seq<Reading>)

  function Read(v: Value, memory: bytes): Reading {
    match v
    case Plain(data) => Inline(data)
    case NilSlice => NoSlice
    case SliceAt(k) =>
      var n := k.width * k.capacity;
      Run(k.elem, k.length, k.capacity, if k.pointer + n <= |memory| then memory[k.pointer..k.pointer + n] else [])
    case Group(items) => Several(ReadAll(items, memory))
  }

  function ReadAll(items: seq<Value>, memory: bytes): seq<Reading> {
    if items == [] then [] else ReadAll(items[..|items| - 1], memory) + [Read(items[|items| - 1], memory)]
  }

  ghost predicate AllCopied(keys: set<Key>, copies: map<Key, nat>, memory: bytes, after: bytes) {
    forall k :: k in keys ==> k in copies && CopiedBytes(k, copies[k], memory, after)
  }

  /** The copy reads as the original does, through every nesting of arrays and structs. */
  lemma {:induction false} CopyReadsAlike(v: Value, copies: map<Key, nat>, memory: bytes, after: bytes)
    requires AllCopied(KeysOf(v), copies, memory, after)
    ensures Read(Moved(v, copies), after) == Read(v, memory)
    decreases v
  {
    match v
    case SliceAt(k) =>
      var n, at := k.width * k.capacity, copies[k];
      assert CopiedBytes(k, at, memory, after);
      SameStretch(after, at, memory, k.pointer, n);
      assert after[at..at + n] == memory[k.pointer..k.pointer + n];
    case Group(items) => CopiesReadAlike(items, copies, memory, after);
    case _ =>
  }

  lemma SameStretch(a: bytes, i: nat, b: bytes, j: nat, n: nat)
    requires i + n <= |a| && j + n <= |b| && forall x :: i <= x < i + n ==> a[x] == b[j + (x - i)]
    ensures a[i..i + n] == b[j..j + n]
  {
    var x, y := a[i..i + n], b[j..j + n];
    forall k | 0 <= k < n ensures x[k] == y[k] { assert x[k] == a[i + k]; }
  }

  lemma {:induction false} CopiesReadAlike(items: seq<Value>, copies: map<Key, nat>, memory: bytes, after: bytes)
    requires AllCopied(KeysOfAll(items), copies, memory, after)
    ensures ReadAll(MovedAll(items, copies), after) == ReadAll(items, memory)
    decreases items
  {
    hide CopiedBytes, Read, Moved, KeysOf;
    if items != [] {
      var k := |items| - 1;
      CopiesReadAlike(items[..k], copies, memory, after);
      CopyReadsAlike(items[k], copies, memory, after);
      var moved := MovedAll(items[..k], copies);
      assert (moved + [Moved(items[k], copies)])[..|moved|] == moved;
    }
  }

  lemma IsolatedBytes(v: Value, memory: bytes, r: Isolation)
    requires Independent(v, memory, r)
    ensures OwnStorage(v, memory, r) && Read(r.copy, r.memory) == Read(v, memory)
  {
    hide CopiedBytes, KeysOf, Moved, Read, Holds, Key.Size, Contents;
    IndependentBytes(v, memory, r);
    CopyReadsAlike(v, r.copies, memory, r.memory);
  }

  /**
   isolatedReceiver: refused past a limit, or if a slice shares storage with another slice or with the receiver;
   otherwise the input's memory is untouched, every slice lies in new storage with the contents, length and capacity
   of its original, and two slices share storage exactly if they were one slice.
   */
  method IsolatedReceiver(t: Type, v: Value, own: Option<Range>, depth: nat, maxDepth: nat, budget: nat, memory: bytes)
    returns (r: Isolation, spent: nat)
    requires Stored(v, memory)
    ensures match Admitted(t, v, depth, maxDepth, budget)
      case Rejected(limit, d) => r == Refused(limit, d)
      case Recorded(keys) =>
        && (if SharesByte(own, KeysOf(v)) then r == Refused(Shared, depth) else Independent(v, memory, r))
        && spent == CountInlineNodes(t) + TotalNodes(keys)
    ensures r.Isolated? ==> OwnStorage(v, memory, r) && Read(r.copy, r.memory) == Read(v, memory)
    ensures spent <= budget
    ensures budget < CAP ==>
      && (r.Isolated? <==>
            && Reachable(v, depth, maxDepth) && InlineNodes(t) + ExactTotal(Listed(v, [])) <= budget
            && !SharesByte(own, KeysOf(v)))
      && (r.Isolated? ==> spent == InlineNodes(t) + ExactTotal(Listed(v, [])))
  {
    hide SharedWith, SharesByte, OwnStorage, Read, Independent, KeysOf, Admitted, Stored, Reachable, Listed, InlineNodes,
      ExactTotal, CountInlineNodes, TotalNodes;
    SharedIffByte(own, KeysOf(v));
    if budget < CAP { AdmittedIff(t, v, depth, maxDepth, budget); }
    var refused;
    refused, spent := Refusal(t, v, own, depth, maxDepth, budget);
    if refused.Some? {
      return refused.value, spent;
    }
    r := CopyAside(v, memory);
    IsIsolated(v, memory, r);
    IsolatedBytes(v, memory, r);
  }

  lemma IsIsolated(v: Value, memory: bytes, r: Isolation)
    requires Independent(v, memory, r)
    ensures r.Isolated?
  {
  }

  method CopyAside(v: Value, memory: bytes) returns (r: Isolation)
    requires Stored(v, memory)
    ensures Independent(v, memory, r)
  {
    hide Moved, KeysOf;
    var copier := new Copier(memory);
    assert memory[..|memory|] == memory;
    var copy := copier.Copy(v, |memory|);
    forall k | k in KeysOf(v) ensures Contents(copier.memory, k) == Contents(memory, k) {
      InputStays(memory, copier.memory, k);
    }
    r := Isolated(copy, copier.memory, copier.copies);
  }
}
