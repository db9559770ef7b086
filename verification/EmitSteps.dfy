/** The steps of the direct-to-JSON emitter, against the meaning of a value. */
module EmitSteps {
  import opened Bytes
  import opened Options
  import opened Settings
  import opened SortedMap
  import opened JsonOut
  import opened MaskSpec
  import opened Meaning
  import opened ValueGraph
  import opened ValueSteps
  import opened LimitProtocol
  import opened CleanRuns
  import opened DomMeaning
  import DA = DomAgreement
  import DW = DomWalker
  import TE = TreeEncoder
  import N = JsonNumber
  import JS = JsonString
  import T = JsonTree

  const WRITTEN := Mode(true, false)
  const FOLLOWED := Mode(true, true)

  /** What a node adds to the buffer. */
  function OutText(out: Out): bytes {
    match out
    case Omitted => []
    case Kept(tree) => Encode(tree)
  }

  /** From the clean state a to b, the emitter wrote what the value means, if it means something within both limits. */
  ghost predicate Emits(cfg: Config, h: Heap, v: Value, field: Field, here: bytes, depth: nat, seen: set<nat>,
                        a: State, ind: nat, b: State, ind': nat, before: bytes, after: bytes, omitted: bool)
    requires Closed(h) && Fits(h, v)
  {
    var mn := MeanValue(cfg, WRITTEN, h, v, field, here, depth, seen);
    Pays(cfg, a, ind, b, ind', mn, MeanValue(cfg, FOLLOWED, h, v, field, here, depth, seen)) &&
    (Clean(b) ==> Wrote(mn, before, after, omitted))
  }

  predicate Wrote(m: Sense<Out>, before: bytes, after: bytes, omitted: bool) {
    m.Means? && omitted == m.value.Omitted? && after == before + OutText(m.value)
  }

  ghost predicate ShapeEmits(cfg: Config, h: Heap, v: Value, f: Field, here: bytes, depth: nat, seen: set<nat>,
                             a: State, ind: nat, b: State, ind': nat, before: bytes, after: bytes)
    requires Closed(h) && Fits(h, v) && depth <= cfg.maxDepth && !Loops(v, seen)
  {
    var mn := MeanValueShape(cfg, WRITTEN, h, v, f, here, depth, seen);
    Pays(cfg, a, ind, b, ind', mn, MeanValueShape(cfg, FOLLOWED, h, v, f, here, depth, seen)) &&
    (Clean(b) ==> Wrote(mn, before, after, false))
  }

  predicate WroteItems(m: Sense<seq<Json>>, out0: bytes, buf: bytes) {
    m.Means? && buf == out0 + [LBRACKET] + ItemsBody(m.value)
  }

  predicate WroteMembers(m: Sense<seq<Entry<Json>>>, out0: bytes, buf: bytes, written: bool) {
    m.Means? && buf == out0 + [LBRACE] + MembersBody(m.value) && (written <==> m.value != [])
  }

  /** The buffer when a member's key has been written. */
  function KeyWritten(before: bytes, key: bytes, written: bool): bytes {
    (if written then before + [COMMA] else before) + JS.Quoted(key) + [COLON]
  }

  /* ---------- nodes ---------- */

  /** What the policy settles is a text. */
  lemma SettlesText(cfg: Config, h: Heap, v: Value, field: Field, here: bytes, depth: nat, seen: set<nat>)
    requires Closed(h) && Fits(h, v)
    ensures var e := Entered(cfg, h, v, field, here, depth, seen); e.Settles? && e.out.Kept? ==> e.out.tree.String?
  {
    hide Closed, Fits, Land, ApplyRule;
  }

  lemma DoneEmits(cfg: Config, h: Heap, v: Value, field: Field, here: bytes, depth: nat, seen: set<nat>,
                  a: State, ind: nat, b: State, ind': nat, result: Out, before: bytes, after: bytes, omitted: bool)
    requires Closed(h) && Fits(h, v)
    requires var e := Entered(cfg, h, v, field, here, depth, seen);
      && (Clean(b) <==> e.Settles? && a.nodes + 1 <= cfg.maxNodes && ind + e.hops <= cfg.maxNodes)
      && (Clean(b) ==> result == e.out && b.nodes == a.nodes + 1 && ind' == ind + e.hops)
      && (e.Opens? ==> a.nodes + 1 > cfg.maxNodes || ind + e.hops > cfg.maxNodes)
    requires omitted == result.Omitted? && (omitted ==> after == before)
    requires result.Kept? && result.tree.String? ==> after == before + OutText(result)
    ensures Emits(cfg, h, v, field, here, depth, seen, a, ind, b, ind', before, after, omitted)
  {
    hide Entered, MeanValue, Closed, Fits, Encode;
    var e := Entered(cfg, h, v, field, here, depth, seen);
    forall mode: Mode
      ensures var m := MeanValue(cfg, mode, h, v, field, here, depth, seen);
        && (e.Bad? ==> m.Fails?)
        && (e.Settles? ==> m == Means(e.out, true, EnterCost(mode, e.hops)))
        && (e.Opens? && m.Means? ==> m.cost >= EnterCost(mode, e.hops))
    {
      if e.Bad? {
        MeanBad(cfg, mode, h, v, field, here, depth, seen);
      } else if e.Settles? {
        MeanSettled(cfg, mode, h, v, field, here, depth, seen);
      } else {
        MeanOpen(cfg, mode, h, v, field, here, depth, seen);
      }
    }
    SettlesText(cfg, h, v, field, here, depth, seen);
    assert before + [] == before;
  }

  lemma OpenEmits(cfg: Config, h: Heap, v: Value, field: Field, here: bytes, depth: nat, seen: set<nat>,
                  a: State, ind: nat, b: State, ind1: nat, c: State, ind2: nat, before: bytes, after: bytes)
    requires Closed(h) && Fits(h, v) && Clean(b) && a.nodes + 1 <= cfg.maxNodes
    requires var e := Entered(cfg, h, v, field, here, depth, seen);
      && e.Opens? && Fits(h, e.node) && depth <= cfg.maxDepth && !Loops(e.node, e.seen)
      && b.nodes == a.nodes + 1 && ind1 == ind + e.hops
      && ShapeEmits(cfg, h, e.node, e.f, here, depth, e.seen, b, ind1, c, ind2, before, after)
    ensures Emits(cfg, h, v, field, here, depth, seen, a, ind, c, ind2, before, after, false)
  {
    hide Entered, MeanValue, MeanValueShape, Closed, Fits, Loops, Encode;
    MeanOpen(cfg, WRITTEN, h, v, field, here, depth, seen);
    MeanOpen(cfg, FOLLOWED, h, v, field, here, depth, seen);
  }

  lemma TextEmits(cfg: Config, h: Heap, s: bytes, f: Field, here: bytes, depth: nat, seen: set<nat>,
                  a: State, ind: nat, b: State, out: Out, before: bytes, after: bytes)
    requires Closed(h) && depth <= cfg.maxDepth && ind <= cfg.maxNodes
    requires var m := MeanString(cfg, s, s, Located(f, here), depth);
      Ends(cfg, a, b, m) && (Clean(b) ==> SameTree(out, m))
    requires out.Kept? && out.tree.String? && after == before + OutText(out)
    ensures ShapeEmits(cfg, h, Value.Text(s), f, here, depth, seen, a, ind, b, ind, before, after)
  {
    hide MeanString, Encode;
  }

  lemma ScalarEmits(cfg: Config, h: Heap, v: Value, f: Field, here: bytes, depth: nat, seen: set<nat>,
                    a: State, ind: nat, b: State, before: bytes, after: bytes)
    requires Closed(h) && Fits(h, v) && depth <= cfg.maxDepth && IsScalar(v) && !v.Text?
    requires Lawful(cfg, a) && Clean(a) && ind <= cfg.maxNodes
    requires if v.Unsupported? || (v.JsonNumber? && !N.Accepts(v.text)) then b.errs != []
      else b == a && after == before + Encode(ScalarTree(cfg, v))
    ensures ShapeEmits(cfg, h, v, f, here, depth, seen, a, ind, b, ind, before, after)
  {
    hide Closed, Encode, N.Accepts;
    WithinNodes(cfg, a);
    NothingListed();
  }

  lemma ListEmits(cfg: Config, h: Heap, v: Value, f: Field, here: bytes, depth: nat, seen: set<nat>,
                  a: State, ind: nat, b: State, ind': nat, before: bytes, after: bytes)
    requires Closed(h) && Fits(h, v) && depth <= cfg.maxDepth && !Loops(v, seen)
    requires v.Array? || (v.Slice? && v.cell.Some?)
    requires var items := if v.Array? then v.items else ElementsOf(h, v.cell);
      && (forall k :: 0 <= k < |items| ==> Fits(h, items[k]))
      && var mn := Listed(MeanElements(cfg, WRITTEN, h, items, f, here, depth, WithCell(seen, v)));
         var mh := Listed(MeanElements(cfg, FOLLOWED, h, items, f, here, depth, WithCell(seen, v)));
         && Pays(cfg, a, ind, b, ind', mn, mh)
         && (Clean(b) ==> mn.Means? && after == before + Encode(JsonOut.Json.Array(mn.value)))
    ensures ShapeEmits(cfg, h, v, f, here, depth, seen, a, ind, b, ind', before, after)
  {
    hide Listed, MeanElements, Closed, Encode;
  }

  lemma MapEmits(cfg: Config, h: Heap, v: Value, f: Field, here: bytes, depth: nat, seen: set<nat>,
                 a: State, ind: nat, b: State, ind': nat, before: bytes, after: bytes)
    requires Closed(h) && Fits(h, v) && depth <= cfg.maxDepth && !Loops(v, seen) && v.Map? && v.cell.Some?
    requires var es := EntriesOf(h, v.cell);
      && (forall k :: 0 <= k < |es| ==> Fits(h, es[k].value))
      && var mn := Gathered(MeanMap(cfg, WRITTEN, h, es, f, here, depth, WithCell(seen, v)));
         var mh := Gathered(MeanMap(cfg, FOLLOWED, h, es, f, here, depth, WithCell(seen, v)));
         && Pays(cfg, a, ind, b, ind', mn, mh)
         && (Clean(b) ==> mn.Means? && after == before + Encode(Object(mn.value)))
    ensures ShapeEmits(cfg, h, v, f, here, depth, seen, a, ind, b, ind', before, after)
  {
    hide Gathered, MeanMap, Closed, Encode;
  }

  /* ---------- lists ---------- */

  lemma NoItemsWritten(senses: seq<Sense<Out>>, out0: bytes)
    ensures WroteItems(Listed(senses[..0]), out0, out0 + [LBRACKET])
  {
    NoItems();
    assert out0 + [LBRACKET] + [] == out0 + [LBRACKET];
  }

  lemma ItemsClosed(m: Sense<seq<Json>>, out0: bytes, body: bytes)
    requires WroteItems(m, out0, body)
    ensures m.Means? && body + [RBRACKET] == out0 + Encode(JsonOut.Json.Array(m.value))
  {
    hide ItemsBody;
    var b := ItemsBody(m.value);
    assert out0 + [LBRACKET] + b + [RBRACKET] == out0 + ([LBRACKET] + b + [RBRACKET]);
  }

  /** One element written. */
  lemma ItemStep(cfg: Config, h: Heap, items: seq<Value>, f: Field, here: bytes, depth: nat, seen: set<nat>,
                 a: State, ind: nat, b: State, ind1: nat, c: State, ind2: nat, k: nat,
                 out0: bytes, sofar: bytes, mark: bytes, after: bytes, omitted: bool)
    requires Closed(h) && (forall k :: 0 <= k < |items| ==> Fits(h, items[k])) && k < |items|
    requires var sn := MeanElements(cfg, WRITTEN, h, items, f, here, depth, seen);
      var sh := MeanElements(cfg, FOLLOWED, h, items, f, here, depth, seen);
      && Pays(cfg, a, ind, b, ind1, Listed(sn[..k]), Listed(sh[..k]))
      && (Clean(b) ==> WroteItems(Listed(sn[..k]), out0, sofar))
    requires Advance(cfg, b, c) && mark == if k > 0 then sofar + [COMMA] else sofar
    requires Clean(b) ==>
      Emits(cfg, h, items[k], EntryField(f, []), PathForIndex(here, k), depth + 1, seen, b, ind1, c, ind2, mark, after, omitted)
    ensures var sn := MeanElements(cfg, WRITTEN, h, items, f, here, depth, seen);
      var sh := MeanElements(cfg, FOLLOWED, h, items, f, here, depth, seen);
      && Pays(cfg, a, ind, c, ind2, Listed(sn[..k + 1]), Listed(sh[..k + 1]))
      && (Clean(c) ==> WroteItems(Listed(sn[..k + 1]), out0, if omitted then after + T.NULL else after))
  {
    hide Advance, Closed, Fits, MeanValue, MeanElements, Listed, Pays, WroteItems, Wrote;
    var sn := MeanElements(cfg, WRITTEN, h, items, f, here, depth, seen);
    var sh := MeanElements(cfg, FOLLOWED, h, items, f, here, depth, seen);
    ElementSense(cfg, WRITTEN, h, items, f, here, depth, seen, k);
    ElementSense(cfg, FOLLOWED, h, items, f, here, depth, seen, k);
    ListPaysNext(cfg, a, ind, b, ind1, c, ind2, sn, sh, k);
    if Clean(c) {
      CleanBefore(cfg, b, c);
      ItemWrote(sn, k, out0, sofar, mark, after, omitted);
    }
  }

  lemma ItemWrote(senses: seq<Sense<Out>>, k: nat, out0: bytes, sofar: bytes, mark: bytes, after: bytes, omitted: bool)
    requires k < |senses| && WroteItems(Listed(senses[..k]), out0, sofar)
    requires mark == (if k > 0 then sofar + [COMMA] else sofar) && Wrote(senses[k], mark, after, omitted)
    ensures WroteItems(Listed(senses[..k + 1]), out0, if omitted then after + T.NULL else after)
  {
    hide Listed, Encode, ItemsBody;
    DW.ListedNext(senses, k);
    ListedLength(senses[..k]);
    NullText();
    var prev := Listed(senses[..k]).value;
    var out := senses[k].value;
    ItemGrown(sofar, out0, prev, if out.Omitted? then Null else out.tree);
    if omitted { assert after == mark; }
  }

  lemma ItemGrown(sofar: bytes, out0: bytes, prev: seq<Json>, tree: Json)
    requires sofar == out0 + [LBRACKET] + ItemsBody(prev)
    ensures (if |prev| > 0 then sofar + [COMMA] else sofar) + Encode(tree) == out0 + [LBRACKET] + ItemsBody(prev + [tree])
  {
    hide Encode, ItemsBody;
    var items := prev + [tree];
    assert items[..|prev|] == prev && items[..|prev| + 1] == items;
    TE.ItemAppended(sofar, out0, items, |prev|);
  }

  lemma NullText()
    ensures Encode(Null) == T.NULL
  {
  }

  lemma {:induction false} ListedLength(senses: seq<Sense<Out>>)
    ensures Listed(senses).Means? ==> |Listed(senses).value| == |senses|
    decreases |senses|
  {
    if senses != [] { ListedLength(senses[..|senses| - 1]); }
  }

  /* ---------- maps ---------- */

  lemma NoMembersWritten(senses: seq<Entry<Sense<Out>>>, out0: bytes)
    ensures WroteMembers(Gathered(senses[..0]), out0, out0 + [LBRACE], false)
  {
    NoItems();
    assert out0 + [LBRACE] + [] == out0 + [LBRACE];
  }

  lemma MembersClosed(m: Sense<seq<Entry<Json>>>, out0: bytes, body: bytes, written: bool)
    requires WroteMembers(m, out0, body, written)
    ensures m.Means? && body + [RBRACE] == out0 + Encode(Object(m.value))
  {
    hide MembersBody;
    var b := MembersBody(m.value);
    assert out0 + [LBRACE] + b + [RBRACE] == out0 + ([LBRACE] + b + [RBRACE]);
  }

  /** One member written, or cut off. */
  lemma EntryStep(cfg: Config, h: Heap, es: seq<Entry<Value>>, f: Field, here: bytes, depth: nat, seen: set<nat>,
                  a: State, ind: nat, b: State, ind1: nat, c: State, ind2: nat, k: nat,
                  out0: bytes, sofar: bytes, after: bytes, omitted: bool, written: bool)
    requires Closed(h) && (forall k :: 0 <= k < |es| ==> Fits(h, es[k].value)) && Ascending(es) && k < |es|
    requires var sn := MeanMap(cfg, WRITTEN, h, es, f, here, depth, seen);
      var sh := MeanMap(cfg, FOLLOWED, h, es, f, here, depth, seen);
      && Pays(cfg, a, ind, b, ind1, Gathered(sn[..k]), Gathered(sh[..k]))
      && (Clean(b) ==> WroteMembers(Gathered(sn[..k]), out0, sofar, written))
    requires Advance(cfg, b, c)
    requires Clean(b) ==>
      Emits(cfg, h, es[k].value, EntryField(f, es[k].key), PathFor(here, es[k].key), depth + 1, seen, b, ind1, c, ind2,
            KeyWritten(sofar, es[k].key, written), after, omitted)
    ensures var sn := MeanMap(cfg, WRITTEN, h, es, f, here, depth, seen);
      var sh := MeanMap(cfg, FOLLOWED, h, es, f, here, depth, seen);
      && Pays(cfg, a, ind, c, ind2, Gathered(sn[..k + 1]), Gathered(sh[..k + 1]))
      && (Clean(c) ==>
            WroteMembers(Gathered(sn[..k + 1]), out0, if omitted then sofar else after, written || !omitted))
  {
    hide Advance, Closed, Fits, MeanValue, MeanMap, Gathered, Pays, WroteMembers, Wrote, PathFor, KeyWritten, Ascending;
    var sn := MeanMap(cfg, WRITTEN, h, es, f, here, depth, seen);
    var sh := MeanMap(cfg, FOLLOWED, h, es, f, here, depth, seen);
    MapSense(cfg, WRITTEN, h, es, f, here, depth, seen, k);
    MapSense(cfg, FOLLOWED, h, es, f, here, depth, seen, k);
    MapPaysNext(cfg, a, ind, b, ind1, c, ind2, sn, sh, k);
    if Clean(c) {
      CleanBefore(cfg, b, c);
      SensesAscend(cfg, WRITTEN, h, es, f, here, depth, seen);
      EntryWrote(sn, k, out0, sofar, after, omitted, written);
    }
  }

  lemma SensesAscend(cfg: Config, mode: Mode, h: Heap, es: seq<Entry<Value>>, f: Field, here: bytes, depth: nat, seen: set<nat>)
    requires Closed(h) && (forall k :: 0 <= k < |es| ==> Fits(h, es[k].value)) && Ascending(es)
    ensures Ascending(MeanMap(cfg, mode, h, es, f, here, depth, seen))
  {
    hide MeanValue, Closed, Fits;
    var senses := MeanMap(cfg, mode, h, es, f, here, depth, seen);
    forall k | 0 <= k < |es| ensures senses[k].key == es[k].key {}
  }

  lemma EntryWrote(senses: seq<Entry<Sense<Out>>>, k: nat, out0: bytes, sofar: bytes, after: bytes, omitted: bool, written: bool)
    requires k < |senses| && Ascending(senses) && WroteMembers(Gathered(senses[..k]), out0, sofar, written)
    requires Wrote(senses[k].value, KeyWritten(sofar, senses[k].key, written), after, omitted)
    ensures WroteMembers(Gathered(senses[..k + 1]), out0, if omitted then sofar else after, written || !omitted)
  {
    hide Gathered, Encode, MembersBody, JS.Quoted, Put, Drop, Ascending;
    var key, outs := senses[k].key, Gathered(senses[..k]).value;
    GatheredNext(senses, k);
    AscendingIsDistinct(senses);
    KeyIsNew(senses, k);
    match senses[k].value.value
    case Omitted => DropAbsent(outs, key);
    case Kept(tree) =>
      KeysBelow(senses, k);
      PutLast(outs, key, tree);
      var ms := outs + [Entry(key, tree)];
      assert ms[..|outs|] == outs && ms[..|outs| + 1] == ms;
      TE.MemberAppended(sofar, out0 + [LBRACE], ms, |outs|);
  }

  /** Keys held so far are below the next one. */
  lemma KeysBelow(senses: seq<Entry<Sense<Out>>>, k: nat)
    requires k < |senses| && Ascending(senses) && Gathered(senses[..k]).Means?
    ensures var outs := Gathered(senses[..k]).value; forall i :: 0 <= i < |outs| ==> Less(outs[i].key, senses[k].key)
  {
    hide Gathered, Get, LastWith;
    var front := senses[..k];
    var outs := Gathered(front).value;
    forall i | 0 <= i < |outs| ensures Less(outs[i].key, senses[k].key) {
      GatheredLookup(front, outs[i].key);
      GetNone(outs, outs[i].key);
      var j := DA.LastIsMember(front, outs[i].key);
      assert senses[j] == front[j];
    }
  }

  /** Every child costs a node, so a map longer than what is left means more than the limit allows. */
  lemma MapTooLong(cfg: Config, h: Heap, es: seq<Entry<Value>>, f: Field, here: bytes, depth: nat, seen: set<nat>,
                   a: State, ind: nat, b: State)
    requires Closed(h) && (forall k :: 0 <= k < |es| ==> Fits(h, es[k].value))
    requires |es| > cfg.maxNodes - a.nodes && b.errs != []
    ensures Pays(cfg, a, ind, b, ind, Gathered(MeanMap(cfg, WRITTEN, h, es, f, here, depth, seen)),
                 Gathered(MeanMap(cfg, FOLLOWED, h, es, f, here, depth, seen)))
  {
    hide MeanMap, MeanValue, Closed, Fits, Gathered;
    var senses := MeanMap(cfg, WRITTEN, h, es, f, here, depth, seen);
    GatheredLookup(senses, []);
    forall k | 0 <= k < |es| ensures senses[k].value.Means? ==> senses[k].value.cost >= 1 {
      MapSense(cfg, WRITTEN, h, es, f, here, depth, seen, k);
      NodeCosts(cfg, h, es[k].value, EntryField(f, es[k].key), PathFor(here, es[k].key), depth + 1, seen);
    }
    if AllMean(senses) { TotalAtLeast(senses); }
  }

  lemma NodeCosts(cfg: Config, h: Heap, v: Value, field: Field, here: bytes, depth: nat, seen: set<nat>)
    requires Closed(h) && Fits(h, v)
    ensures var m := MeanValue(cfg, WRITTEN, h, v, field, here, depth, seen); m.Means? ==> m.cost >= 1
  {
    hide MeanValue, Closed, Fits, Entered;
    var e := Entered(cfg, h, v, field, here, depth, seen);
    if e.Bad? {
      MeanBad(cfg, WRITTEN, h, v, field, here, depth, seen);
    } else if e.Settles? {
      MeanSettled(cfg, WRITTEN, h, v, field, here, depth, seen);
    } else {
      MeanOpen(cfg, WRITTEN, h, v, field, here, depth, seen);
    }
  }

  lemma {:induction false} TotalAtLeast(senses: seq<Entry<Sense<Out>>>)
    requires forall k :: 0 <= k < |senses| ==> senses[k].value.Means? && senses[k].value.cost >= 1
    ensures TotalCost(senses) >= |senses|
    decreases |senses|
  {
    if senses != [] { TotalAtLeast(senses[..|senses| - 1]); }
  }

  /* ---------- key order ---------- */

  lemma SortedFits(h: Heap, es: seq<Entry<Value>>)
    requires DistinctKeys(es) && forall k :: 0 <= k < |es| ==> Fits(h, es[k].value)
    ensures var sorted := SortEntries(es);
      && Ascending(sorted) && (forall k :: 0 <= k < |sorted| ==> Fits(h, sorted[k].value))
      && (forall k :: 0 <= k < |sorted| ==> sorted[k] in es)
  {
    hide Fits, SortEntries, Ascending, Get;
    var sorted := SortEntries(es);
    SortedLookups(es, []);
    AscendingIsDistinct(sorted);
    forall k | 0 <= k < |sorted| ensures sorted[k] in es && Fits(h, sorted[k].value) {
      SortedLookups(es, sorted[k].key);
      GetIffIn(sorted, sorted[k].key, sorted[k].value);
      assert sorted[k] in sorted && sorted[k] == Entry(sorted[k].key, sorted[k].value);
      GetIffIn(es, sorted[k].key, sorted[k].value);
      var j :| 0 <= j < |es| && es[j] == sorted[k];
    }
  }

  /** The meaning of a map's entries under a key. */
  lemma {:induction false} SenseLookup(cfg: Config, mode: Mode, h: Heap, es: seq<Entry<Value>>, f: Field, here: bytes,
                                       depth: nat, seen: set<nat>, key: bytes)
    requires Closed(h) && forall k :: 0 <= k < |es| ==> Fits(h, es[k].value)
    ensures var g := Get(es, key);
      Get(MeanMap(cfg, mode, h, es, f, here, depth, seen), key) ==
        if g.None? || !Fits(h, g.value) then None
        else Some(MeanValue(cfg, mode, h, g.value, EntryField(f, key), PathFor(here, key), depth + 1, seen))
    decreases |es|
  {
    hide MeanValue, Closed, Fits;
    if es != [] {
      SenseLookup(cfg, mode, h, es[1..], f, here, depth, seen, key);
      assert MeanMap(cfg, mode, h, es, f, here, depth, seen)[1..] == MeanMap(cfg, mode, h, es[1..], f, here, depth, seen);
    }
  }

  /** What pays for one count pays for the same count. */
  lemma PaysAlike<X>(cfg: Config, a: State, ind: nat, b: State, ind': nat, mn: Sense<X>, mh: Sense<X>, kn: Sense<X>, kh: Sense<X>)
    requires Pays(cfg, a, ind, b, ind', mn, mh)
    requires (mn.Means? <==> kn.Means?) && (mn.Means? ==> mn.cost == kn.cost)
    requires (mh.Means? <==> kh.Means?) && (mh.Means? ==> mh.cost == kh.cost)
    ensures Pays(cfg, a, ind, b, ind', kn, kh)
  {
  }

  /** In key order a map means what it means in any order. */
  lemma SameMapSorted(cfg: Config, mode: Mode, h: Heap, es: seq<Entry<Value>>, f: Field, here: bytes, depth: nat, seen: set<nat>)
    requires Closed(h) && DistinctKeys(es) && forall k :: 0 <= k < |es| ==> Fits(h, es[k].value)
    requires forall k :: 0 <= k < |SortEntries(es)| ==> Fits(h, SortEntries(es)[k].value)
    ensures var a := Gathered(MeanMap(cfg, mode, h, es, f, here, depth, seen));
      var b := Gathered(MeanMap(cfg, mode, h, SortEntries(es), f, here, depth, seen));
      && (a.Means? <==> b.Means?)
      && (a.Means? ==> a.value == b.value && a.cost == b.cost)
  {
    hide MeanMap, MeanValue, Closed, Fits, SortEntries, Gathered, Get;
    var sorted := SortEntries(es);
    SortedLookups(es, []);
    AscendingIsDistinct(sorted);
    var a := MeanMap(cfg, mode, h, es, f, here, depth, seen);
    var b := MeanMap(cfg, mode, h, sorted, f, here, depth, seen);
    MapKeys(cfg, mode, h, es, f, here, depth, seen);
    MapKeys(cfg, mode, h, sorted, f, here, depth, seen);
    forall key ensures Get(a, key) == Get(b, key) {
      SortedLookups(es, key);
      SenseLookup(cfg, mode, h, es, f, here, depth, seen, key);
      SenseLookup(cfg, mode, h, sorted, f, here, depth, seen, key);
    }
    GatheredAlike(a, b);
  }

  /** Members that answer every lookup alike are gathered alike. */
  lemma GatheredAlike(a: seq<Entry<Sense<Out>>>, b: seq<Entry<Sense<Out>>>)
    requires DistinctKeys(a) && DistinctKeys(b) && forall key :: Get(a, key) == Get(b, key)
    ensures var x, y := Gathered(a), Gathered(b);
      (x.Means? <==> y.Means?) && (x.Means? ==> x.value == y.value && x.cost == y.cost)
  {
    hide Get, Gathered, LastWith, DistinctKeys;
    forall key ensures LastWith(a, key) == LastWith(b, key) && LastWith(a, key) == Get(b, key) {
      LastIsOnly(a, key);
      LastIsOnly(b, key);
    }
    MutualMembers(a, b);
    GatheredLookup(a, []);
    GatheredLookup(b, []);
    if AllMean(a) {
      DA.SameCost(a, b);
      forall key ensures Get(Gathered(a).value, key) == Get(Gathered(b).value, key) {
        GatheredLookup(a, key);
        GatheredLookup(b, key);
      }
      SameLookups(Gathered(a).value, Gathered(b).value);
    }
  }

  lemma MutualMembers(a: seq<Entry<Sense<Out>>>, b: seq<Entry<Sense<Out>>>)
    requires DistinctKeys(a) && DistinctKeys(b)
    requires forall key :: LastWith(a, key) == LastWith(b, key) && LastWith(a, key) == Get(b, key)
    ensures AllMean(a) <==> AllMean(b)
  {
    hide Get, LastWith;
    forall k | 0 <= k < |b| ensures LastWith(a, b[k].key) == Some(b[k].value) {
      DA.LastOfKey(b, k);
    }
    forall k | 0 <= k < |a| ensures LastWith(b, a[k].key) == Some(a[k].value) {
      DA.LastOfKey(a, k);
    }
    if AllMean(b) {
      forall k | 0 <= k < |a| ensures a[k].value.Means? { var j := DA.LastIsMember(b, a[k].key); }
    }
    if AllMean(a) {
      forall k | 0 <= k < |b| ensures b[k].value.Means? { var j := DA.LastIsMember(a, b[k].key); }
    }
  }
}
