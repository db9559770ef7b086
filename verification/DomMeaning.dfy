/**
 The reference masker works on the tree encoding/json decodes: objects are maps, walked in any order. Here is
 what such a tree means, and the comparison with what the streaming walker makes of the same document.
 */
module DomMeaning {
  import opened Bytes
  import opened Options
  import opened Settings
  import opened SortedMap
  import opened JsonOut
  import opened MaskSpec
  import opened Meaning
  import T = JsonTree
  import N = JsonNumber

  /* ---------- decoded trees ---------- */

  /** The value of the last entry with a key. */
  function LastWith<V>(es: seq<Entry<V>>, key: bytes): Option<V> {
    if es == [] then None
    else
      var k := |es| - 1;
      if es[k].key == key then Some(es[k].value) else LastWith(es[..k], key)
  }

  function AsEntries(ms: seq<T.Member>): (r: seq<Entry<T.Node>>)
    ensures |r| == |ms|
  {
    seq(|ms|, i requires 0 <= i < |ms| => Entry(ms[i].key, ms[i].value))
  }

  /**
   j is what encoding/json decodes from n. The entries of an object of j are its map in the order it happens to
   be iterated; a repeated key has its last value.
   */
  ghost predicate Decodes(n: T.Node, j: Json)
    decreases j
  {
    match (n, j)
    case (Null, Null) => true
    case (Bool(b), Bool(c)) => b == c
    case (Number(t), Number(u)) => t == u
    case (String(token), String(s)) => s == TokenValue(token)
    case (Array(items), Array(js)) => |items| == |js| && forall k :: 0 <= k < |js| ==> Decodes(items[k], js[k])
    case (Object(ms), Object(es)) =>
      && DistinctKeys(es)
      && (forall key :: LastWith(AsEntries(ms), key).Some? <==> Get(es, key).Some?)
      && (forall k :: 0 <= k < |es| ==>
            LastWith(AsEntries(ms), es[k].key).Some? && Decodes(LastWith(AsEntries(ms), es[k].key).value, es[k].value))
    case _ => false
  }

  /** No object of n repeats a key. */
  ghost predicate NoRepeats(n: T.Node) {
    match n
    case Array(items) => forall k :: 0 <= k < |items| ==> NoRepeats(items[k])
    case Object(ms) => DistinctKeys(AsEntries(ms)) && forall k :: 0 <= k < |ms| ==> NoRepeats(ms[k].value)
    case _ => true
  }

  /** Every string token reads the same taken as it lies and decoded, and every number is one. */
  ghost predicate Faithful(n: T.Node) {
    match n
    case Number(t) => N.Accepts(t)
    case String(token) => T.KeyText(token) == TokenValue(token)
    case Array(items) => forall k :: 0 <= k < |items| ==> Faithful(items[k])
    case Object(ms) => forall k :: 0 <= k < |ms| ==> Faithful(ms[k].value)
    case _ => true
  }

  /* ---------- what a tree means ---------- */

  function KindOfTree(j: Json): Kind {
    match j
    case Null => NilKind
    case Bool(_) => BoolKind
    case Number(_) => NumberKind
    case String(_) => StringKind
    case Array(_) => ArrayKind
    case Object(_) => ObjectKind
  }

  /** jsonScalarText. */
  function TreeText(j: Json): bytes {
    match j
    case Bool(b) => if b then T.TRUE else T.FALSE
    case Number(t) => t
    case String(s) => s
    case _ => []
  }

  function TreeField(j: Json, key: bytes, path: bytes): Field { Field(key, path, JSONSource, KindOfTree(j)) }

  ghost function MeanTree(cfg: Config, j: Json, key: bytes, path: bytes, depth: nat): Sense<Out>
    decreases j, 1
  {
    if depth > cfg.maxDepth then Fails
    else
      match Chosen(cfg, TreeText(j), TreeField(j, key, path))
      case Refused => Fails
      case Chose(out) => Means(out, true, 1)
      case Open => MeanTreeShape(cfg, j, TreeField(j, key, path), depth).Costing(1)
  }

  ghost function MeanTreeShape(cfg: Config, j: Json, f: Field, depth: nat): Sense<Out>
    requires depth <= cfg.maxDepth
    decreases j, 0
  {
    match j
    case Null => Means(Kept(Null), false, 0)
    case Bool(b) => Means(Kept(BoolTree(cfg, b)), false, 0)
    case Number(t) => Means(Kept(Number(t)), false, 0)
    case String(s) => MeanString(cfg, s, s, f, depth)
    case Array(items) => ListOut(Listed(MeanTrees(cfg, items, f.path, depth)))
    case Object(es) => ObjectOut(Collected(MeanEntries(cfg, es, f.path, depth)))
  }

  ghost function MeanTrees(cfg: Config, items: seq<Json>, path: bytes, depth: nat): (r: seq<Sense<Out>>)
    ensures |r| == |items|
    decreases items
  {
    seq(|items|, i requires 0 <= i < |items| => MeanTree(cfg, items[i], [], PathForIndex(path, i), depth + 1))
  }

  ghost function MeanEntries(cfg: Config, es: seq<Entry<Json>>, path: bytes, depth: nat): (r: seq<Entry<Sense<Out>>>)
    ensures |r| == |es|
    decreases es
  {
    seq(|es|, i requires 0 <= i < |es| =>
      Entry(es[i].key, MeanTree(cfg, es[i].value, es[i].key, PathFor(path, es[i].key), depth + 1)))
  }

  /** The entries of a map that are kept, in the order they were walked. */
  function Collected(senses: seq<Entry<Sense<Out>>>): Sense<seq<Entry<Json>>> {
    if senses == [] then Means([], false, 0)
    else
      var k := |senses| - 1;
      match (Collected(senses[..k]), senses[k].value)
      case (Means(outs, c, n), Means(out, changed, cost)) =>
        Means(outs + KeptEntry(senses[k].key, out), c || changed, n + cost)
      case _ => Fails
  }

  function KeptEntry(key: bytes, out: Out): seq<Entry<Json>> {
    match out
    case Omitted => []
    case Kept(tree) => [Entry(key, tree)]
  }

  /* ---------- sorted trees ---------- */

  /** The tree with the entries of every object ascending in the key, as the encoder writes them. */
  function Canon(j: Json): Json {
    match j
    case Array(items) => Array(seq(|items|, i requires 0 <= i < |items| => Canon(items[i])))
    case Object(es) => Object(SortEntries(CanonEntries(es)))
    case _ => j
  }

  function CanonEntries(es: seq<Entry<Json>>): (r: seq<Entry<Json>>)
    ensures |r| == |es|
  {
    seq(|es|, i requires 0 <= i < |es| => Entry(es[i].key, Canon(es[i].value)))
  }

  function CanonOut(out: Out): Out {
    match out
    case Omitted => Omitted
    case Kept(tree) => Kept(Canon(tree))
  }

  function CanonTree(v: Option<Json>): Option<Json> { if v.None? then None else Some(Canon(v.value)) }

  lemma {:induction false} CanonLookup(es: seq<Entry<Json>>, key: bytes)
    ensures Get(CanonEntries(es), key) == CanonTree(Get(es, key))
    decreases |es|
  {
    hide Canon;
    if es != [] {
      CanonLookup(es[1..], key);
      assert CanonEntries(es)[1..] == CanonEntries(es[1..]);
    }
  }

  /* ---------- members against entries ---------- */

  /** What a keyed sense leaves under its key. */
  function TreeOf(s: Option<Sense<Out>>): Option<Json> {
    match s
    case Some(Means(Kept(tree), _, _)) => Some(tree)
    case _ => None
  }

  predicate AllMean(senses: seq<Entry<Sense<Out>>>) { forall k :: 0 <= k < |senses| ==> senses[k].value.Means? }

  function TotalCost(senses: seq<Entry<Sense<Out>>>): nat {
    if senses == [] then 0
    else
      var k := |senses| - 1;
      TotalCost(senses[..k]) + (if senses[k].value.Means? then senses[k].value.cost else 0)
  }

  /** Members settled in turn: each key ends with what its last member left. */
  lemma {:induction false} GatheredLookup(senses: seq<Entry<Sense<Out>>>, key: bytes)
    ensures Gathered(senses).Means? <==> AllMean(senses)
    ensures Gathered(senses).Means? ==>
      && Gathered(senses).cost == TotalCost(senses) && Ascending(Gathered(senses).value)
      && Get(Gathered(senses).value, key) == TreeOf(LastWith(senses, key))
    decreases |senses|
  {
    hide Get, Put, Drop, Ascending;
    if senses == [] {
      NoEntries(key);
    } else {
      var k := |senses| - 1;
      GatheredLookup(senses[..k], key);
      assert senses == senses[..k] + [senses[k]];
      assert AllMean(senses) <==> AllMean(senses[..k]) && senses[k].value.Means?;
      if AllMean(senses) {
        var outs := Gathered(senses[..k]).value;
        match senses[k].value.value
        case Omitted =>
          DropAscends(outs, senses[k].key);
          GetDrop(outs, senses[k].key, key);
        case Kept(tree) =>
          PutAscends(outs, senses[k].key, tree);
          GetPut(outs, senses[k].key, tree, key);
      }
    }
  }

  lemma NoEntries(key: bytes)
    ensures Ascending<Json>([]) && Get<Json>([], key) == None
  {
  }

  lemma {:induction false} GetAppend<V>(a: seq<Entry<V>>, b: seq<Entry<V>>, key: bytes)
    ensures Get(a + b, key) == if Get(a, key).Some? then Get(a, key) else Get(b, key)
    decreases |a|
  {
    if a == [] {
      assert a + b == b;
    } else {
      assert (a + b)[1..] == a[1..] + b;
      GetAppend(a[1..], b, key);
    }
  }

  /** With distinct keys, first and last are the same. */
  lemma {:induction false} LastIsOnly<V>(es: seq<Entry<V>>, key: bytes)
    requires DistinctKeys(es)
    ensures LastWith(es, key) == Get(es, key)
    decreases |es|
  {
    if es != [] {
      var k := |es| - 1;
      LastIsOnly(es[..k], key);
      assert es == es[..k] + [es[k]];
      GetAppend(es[..k], [es[k]], key);
      GetNone(es[..k], key);
    }
  }

  lemma {:induction false} CollectedLookup(senses: seq<Entry<Sense<Out>>>, key: bytes)
    requires DistinctKeys(senses)
    ensures Collected(senses).Means? <==> AllMean(senses)
    ensures Collected(senses).Means? ==>
      && Collected(senses).cost == TotalCost(senses)
      && Get(Collected(senses).value, key) == TreeOf(LastWith(senses, key))
    decreases |senses|
  {
    hide Get;
    if senses == [] {
      NoEntries(key);
    } else {
      var k := |senses| - 1;
      CollectedLookup(senses[..k], key);
      assert senses == senses[..k] + [senses[k]];
      assert AllMean(senses) <==> AllMean(senses[..k]) && senses[k].value.Means?;
      if AllMean(senses) {
        var entry := KeptEntry(senses[k].key, senses[k].value.value);
        GetAppend(Collected(senses[..k]).value, entry, key);
        OneEntry(senses[k].key, senses[k].value.value, key);
        if senses[k].key == key {
          NotBefore(senses, key);
        }
      }
    }
  }

  lemma NotBefore(senses: seq<Entry<Sense<Out>>>, key: bytes)
    requires DistinctKeys(senses) && senses != [] && senses[|senses| - 1].key == key
    ensures LastWith(senses[..|senses| - 1], key) == None
  {
    LastIsOnly(senses[..|senses| - 1], key);
    GetNone(senses[..|senses| - 1], key);
  }

  lemma OneEntry(k: bytes, out: Out, key: bytes)
    ensures Get(KeptEntry(k, out), key) == if k == key && out.Kept? then Some(out.tree) else None
  {
  }

  /* ---------- costs ---------- */

  function Without(senses: seq<Entry<Sense<Out>>>, key: bytes): seq<Entry<Sense<Out>>> {
    if senses == [] then []
    else
      var k := |senses| - 1;
      Without(senses[..k], key) + (if senses[k].key == key then [] else [senses[k]])
  }

  /** Without a key, every other key keeps its last member. */
  lemma {:induction false} WithoutKey(senses: seq<Entry<Sense<Out>>>, key: bytes, other: bytes)
    requires AllMean(senses)
    ensures AllMean(Without(senses, key))
    ensures LastWith(Without(senses, key), other) == if other == key then None else LastWith(senses, other)
    decreases |senses|
  {
    if senses != [] {
      var k := |senses| - 1;
      WithoutKey(senses[..k], key, other);
      var rest := Without(senses[..k], key);
      if senses[k].key != key {
        assert (rest + [senses[k]])[..|rest|] == rest;
      } else {
        assert rest + [] == rest;
      }
    }
  }

  /** Without a key, the cost falls by at least that key's last member. */
  lemma {:induction false} WithoutCosts(senses: seq<Entry<Sense<Out>>>, key: bytes)
    requires AllMean(senses)
    ensures TotalCost(Without(senses, key)) <= TotalCost(senses)
    ensures LastWith(senses, key).Some? ==>
      LastWith(senses, key).value.Means? &&
      TotalCost(Without(senses, key)) + LastWith(senses, key).value.cost <= TotalCost(senses)
    decreases |senses|
  {
    if senses != [] {
      var k := |senses| - 1;
      WithoutCosts(senses[..k], key);
      var rest := Without(senses[..k], key);
      if senses[k].key != key {
        assert (rest + [senses[k]])[..|rest|] == rest;
      } else {
        assert rest + [] == rest;
      }
    }
  }

  /** A key that stands once costs exactly its member. */
  lemma {:induction false} WithoutOnly(senses: seq<Entry<Sense<Out>>>, key: bytes)
    requires AllMean(senses) && DistinctKeys(senses) && LastWith(senses, key).Some?
    ensures DistinctKeys(Without(senses, key)) && (forall e :: e in Without(senses, key) ==> e in senses)
    ensures LastWith(senses, key).value.Means?
    ensures TotalCost(Without(senses, key)) + LastWith(senses, key).value.cost == TotalCost(senses)
    decreases |senses|
  {
    var k := |senses| - 1;
    assert senses == senses[..k] + [senses[k]];
    var rest := Without(senses[..k], key);
    if senses[k].key == key {
      NotBefore(senses, key);
      WithoutNothing(senses[..k], key);
      assert rest + [] == rest;
    } else {
      WithoutOnly(senses[..k], key);
      assert (rest + [senses[k]])[..|rest|] == rest;
      forall i | 0 <= i < |rest| ensures rest[i].key != senses[k].key {
        assert rest[i] in senses[..k];
      }
    }
  }

  lemma {:induction false} WithoutNothing(senses: seq<Entry<Sense<Out>>>, key: bytes)
    requires LastWith(senses, key).None?
    ensures Without(senses, key) == senses
    decreases |senses|
  {
    if senses != [] {
      var k := |senses| - 1;
      WithoutNothing(senses[..k], key);
      assert senses == senses[..k] + [senses[k]];
    }
  }
}
