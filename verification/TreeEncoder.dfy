/**
 The encoder of decoded trees. The keys of an object are sorted in a scratch array that belongs to its depth and
 is reused; nested objects write to deeper arrays while it is read.
 */
module TreeEncoder {
  import opened Bytes
  import opened Options
  import opened SortedMap
  import opened JsonOut
  import opened DomMeaning
  import N = JsonNumber
  import JS = JsonString
  import T = JsonTree

  const INLINE_DEPTHS := 8

  /** A map has one entry for a key. */
  ghost predicate IsMapTree(j: Json) {
    match j
    case Array(items) => forall k :: 0 <= k < |items| ==> IsMapTree(items[k])
    case Object(es) => DistinctKeys(es) && forall k :: 0 <= k < |es| ==> IsMapTree(es[k].value)
    case _ => true
  }

  /* ---------- sort.Strings ---------- */

  function InsertKey(key: bytes, sorted: seq<bytes>): seq<bytes> {
    if sorted == [] || !Less(sorted[0], key) then [key] + sorted else [sorted[0]] + InsertKey(key, sorted[1..])
  }

  function SortKeys(keys: seq<bytes>): (r: seq<bytes>) {
    if keys == [] then [] else InsertKey(keys[0], SortKeys(keys[1..]))
  }

  function KeysOf(es: seq<Entry<Json>>): (r: seq<bytes>)
    ensures |r| == |es|
  {
    seq(|es|, i requires 0 <= i < |es| => es[i].key)
  }

  lemma KeysOfCons(e: Entry<Json>, es: seq<Entry<Json>>)
    ensures KeysOf([e] + es) == [e.key] + KeysOf(es)
  {
  }

  lemma {:induction false} InsertIsPut(es: seq<Entry<Json>>, key: bytes, value: Json)
    requires forall k :: 0 <= k < |es| ==> es[k].key != key
    ensures KeysOf(Put(es, key, value)) == InsertKey(key, KeysOf(es))
    decreases |es|
  {
    hide KeysOf;
    var e := Entry(key, value);
    KeysOfCons(e, es);
    if es == [] {
      assert [e] + es == [e];
    } else {
      var first, tail := es[0], es[1..];
      assert es == [first] + tail;
      KeysOfCons(first, tail);
      LessTrichotomy(key, first.key);
      if !Less(key, first.key) {
        InsertIsPut(tail, key, value);
        KeysOfCons(first, Put(tail, key, value));
        assert KeysOf(es)[1..] == KeysOf(tail);
      }
    }
  }

  /** The sorted keys of a map are the keys of its sorted entries. */
  lemma {:induction false} SortedKeys(es: seq<Entry<Json>>)
    requires DistinctKeys(es)
    ensures KeysOf(SortEntries(es)) == SortKeys(KeysOf(es))
    decreases |es|
  {
    if es != [] {
      var tail := es[1..];
      SortedKeys(tail);
      assert KeysOf(es)[1..] == KeysOf(tail);
      assert forall k :: 0 <= k < |tail| ==> tail[k] == es[k + 1];
      GetNone(tail, es[0].key);
      SortedLookups(tail, es[0].key);
      GetNone(SortEntries(tail), es[0].key);
      InsertIsPut(SortEntries(tail), es[0].key, es[0].value);
    }
  }

  ghost predicate Ordered(keys: seq<bytes>) { forall j, k :: 0 <= j < k < |keys| ==> !Less(keys[k], keys[j]) }

  lemma {:induction false} InsertKeySorts(key: bytes, sorted: seq<bytes>)
    requires Ordered(sorted)
    ensures Ordered(InsertKey(key, sorted)) && multiset(InsertKey(key, sorted)) == multiset{key} + multiset(sorted)
    decreases |sorted|
  {
    hide Less;
    if sorted != [] {
      var first, tail := sorted[0], sorted[1..];
      assert sorted == [first] + tail;
      if Less(first, key) {
        InsertKeySorts(key, tail);
        LessTrichotomy(first, key);
        OrderedCons(first, InsertKey(key, tail), multiset{key} + multiset(tail));
      } else {
        forall k | 0 < k < |sorted| ensures !Less(sorted[k], key) { NotLessChain(key, first, sorted[k]); }
      }
    }
  }

  lemma OrderedCons(first: bytes, rest: seq<bytes>, all: multiset<bytes>)
    requires Ordered(rest) && multiset(rest) == all && forall key :: key in all ==> !Less(key, first)
    ensures Ordered([first] + rest)
  {
    hide Less;
    forall k | 0 <= k < |rest| ensures !Less(rest[k], first) { assert rest[k] in multiset(rest); }
  }

  /** What is not below the first is not below what the first is not below. */
  lemma NotLessChain(a: bytes, b: bytes, c: bytes)
    requires !Less(b, a) && !Less(c, b)
    ensures !Less(c, a)
  {
    if Less(c, a) {
      LessTrichotomy(b, c);
      if b != c { LessTransitive(b, c, a); }
    }
  }

  /** The sorted strings ascend, and are those there were. */
  lemma {:induction false} SortKeysSorts(keys: seq<bytes>)
    ensures Ordered(SortKeys(keys)) && multiset(SortKeys(keys)) == multiset(keys)
    decreases |keys|
  {
    if keys != [] {
      assert keys == [keys[0]] + keys[1..];
      SortKeysSorts(keys[1..]);
      InsertKeySorts(keys[0], SortKeys(keys[1..]));
    }
  }

  lemma SortKeepsLength(keys: seq<bytes>)
    ensures |SortKeys(keys)| == |keys|
  {
    SortKeysSorts(keys);
    assert |multiset(SortKeys(keys))| == |SortKeys(keys)|;
  }

  /** Sort the first n strings of an array in place. */
  method SortStrings(a: array<bytes>, n: nat)
    requires n <= a.Length
    modifies a
    ensures a[..n] == SortKeys(old(a[..n]))
  {
    var sorted := SortKeys(a[..n]);
    SortKeepsLength(a[..n]);
    var i := 0;
    while i < n
      invariant i <= n && a[..i] == sorted[..i]
    {
      a[i] := sorted[i];
      i := i + 1;
    }
  }

  /* ---------- the encoder ---------- */

  class Encoder {
    var buf: bytes
    var keys: seq<array<bytes>>
    var deepKeys: seq<array<bytes>>

    constructor ()
      ensures Valid() && buf == [] && fresh(ArraysFrom(0))
    {
      buf, keys, deepKeys := [], [], [];
      new;
      while |keys| < INLINE_DEPTHS
        invariant |keys| <= INLINE_DEPTHS && deepKeys == [] && buf == []
        invariant forall k :: 0 <= k < |keys| ==> fresh(keys[k])
        invariant forall j, k :: 0 <= j < k < |keys| ==> keys[j] != keys[k]
      {
        var empty := new bytes[0];
        keys := keys + [empty];
      }
    }

    ghost function Depths(): nat
      reads this`keys, this`deepKeys
    {
      |keys| + |deepKeys|
    }

    /** The scratch array of a depth: an inline one, or a deep one. */
    ghost function Slot(depth: nat): array<bytes>
      requires depth < Depths()
      reads this`keys, this`deepKeys
    {
      if depth < |keys| then keys[depth] else deepKeys[depth - |keys|]
    }

    ghost function ArraysFrom(depth: nat): set<array<bytes>>
      reads this`keys, this`deepKeys
    {
      set k | depth <= k < Depths() :: Slot(k)
    }

    /** No two depths share an array. */
    ghost predicate Valid()
      reads this`keys, this`deepKeys
    {
      && |keys| == INLINE_DEPTHS
      && (forall j, k :: 0 <= j < k < |keys| ==> keys[j] != keys[k])
      && (forall j, k :: 0 <= j < k < |deepKeys| ==> deepKeys[j] != deepKeys[k])
      && (forall j, k :: 0 <= j < |keys| && 0 <= k < |deepKeys| ==> keys[j] != deepKeys[k])
    }

    /** The array of a depth belongs to no deeper one. */
    lemma OwnArray(depth: nat)
      requires Valid()
      ensures ArraysFrom(depth + 1) <= ArraysFrom(depth)
      ensures depth < Depths() ==>
        Slot(depth) !in ArraysFrom(depth + 1) && ArraysFrom(depth) == {Slot(depth)} + ArraysFrom(depth + 1)
    {
      forall a | a in ArraysFrom(depth + 1) ensures a in ArraysFrom(depth) && (depth < Depths() ==> a != Slot(depth)) {
        var k :| depth + 1 <= k < Depths() && Slot(k) == a;
      }
    }

    /** objectKeys: the array of a depth, with room for size keys; no other depth's array changes. */
    method ObjectKeys(depth: nat, size: nat) returns (a: array<bytes>)
      requires Valid()
      modifies this`keys, this`deepKeys
      ensures Valid() && depth < Depths() && Slot(depth) == a && a.Length >= size
      ensures old(Depths()) <= Depths()
      ensures forall k :: 0 <= k < old(Depths()) && k != depth ==> Slot(k) == old(Slot(k))
      ensures forall k :: old(Depths()) <= k < Depths() ==> fresh(Slot(k))
      ensures fresh(a) || (depth < old(Depths()) && a == old(Slot(depth)))
    {
      if depth < |keys| {
        if keys[depth].Length < size {
          a := new bytes[size];
          keys := keys[depth := a];
        } else {
          a := keys[depth];
        }
        return;
      }
      var deep := depth - |keys|;
      GrowDeepKeys(deep);
      if deepKeys[deep].Length < size {
        a := new bytes[size];
        deepKeys := deepKeys[deep := a];
      } else {
        a := deepKeys[deep];
      }
    }

    /** Deeper objects than ever before: the table grows, by empty arrays. */
    method GrowDeepKeys(deep: nat)
      requires Valid()
      modifies this`deepKeys
      ensures Valid() && deep < |deepKeys| && |old(deepKeys)| <= |deepKeys|
      ensures forall k :: 0 <= k < |old(deepKeys)| ==> deepKeys[k] == old(deepKeys)[k]
      ensures forall k :: |old(deepKeys)| <= k < |deepKeys| ==> fresh(deepKeys[k])
    {
      while deep >= |deepKeys|
        invariant Valid() && |old(deepKeys)| <= |deepKeys|
        invariant forall k :: 0 <= k < |old(deepKeys)| ==> deepKeys[k] == old(deepKeys)[k]
        invariant forall k :: |old(deepKeys)| <= k < |deepKeys| ==> fresh(deepKeys[k])
        decreases deep - |deepKeys|
      {
        var empty := new bytes[0];
        deepKeys := deepKeys + [empty];
      }
    }

    /** appendValue: what a depth's object is reading is never written below it. */
    method AppendValue(value: Json, depth: nat) returns (ok: bool)
      requires Valid() && IsMapTree(value)
      modifies this, ArraysFrom(depth)
      ensures Valid() && old(Depths()) <= Depths()
      ensures forall k :: 0 <= k < depth && k < old(Depths()) ==> Slot(k) == old(Slot(k))
      ensures fresh(ArraysFrom(depth) - old(ArraysFrom(depth)))
      ensures ok <==> NumbersValid(value)
      ensures ok ==> buf == old(buf) + Encode(Canon(value))
      decreases value, 1
    {
      hide JS.Quoted, ItemsBody, MembersBody, SortEntries, N.Accepts, N.IsNumber;
      match value {
        case Null =>
          buf := buf + T.NULL;
          ok := true;
        case Bool(b) =>
          buf := buf + if b then T.TRUE else T.FALSE;
          ok := true;
        case String(s) =>
          buf := JS.AppendJSONString(buf, s);
          ok := true;
        case Number(t) =>
          ok := N.ValidJSONNumber(t);
          N.AcceptsIffNumber(t);
          if ok {
            buf := buf + t;
          }
        case Array(items) =>
          ok := AppendItems(items, depth);
        case Object(es) =>
          ok := AppendEntries(es, depth);
      }
    }

    method AppendItems(items: seq<Json>, depth: nat) returns (ok: bool)
      requires Valid() && forall k :: 0 <= k < |items| ==> IsMapTree(items[k])
      modifies this, ArraysFrom(depth)
      ensures Valid() && old(Depths()) <= Depths()
      ensures forall k :: 0 <= k < depth && k < old(Depths()) ==> Slot(k) == old(Slot(k))
      ensures fresh(ArraysFrom(depth) - old(ArraysFrom(depth)))
      ensures ok <==> forall k :: 0 <= k < |items| ==> NumbersValid(items[k])
      ensures ok ==> buf == old(buf) + Encode(Canon(Array(items)))
      decreases items, 0
    {
      hide Encode, Canon, NumbersValid, IsMapTree, ItemsBody;
      ghost var out0 := buf;
      buf := buf + [LBRACKET];
      NoItems();
      var index := 0;
      while index < |items|
        invariant index <= |items| && Valid() && old(Depths()) <= Depths()
        invariant forall k :: 0 <= k < depth && k < old(Depths()) ==> Slot(k) == old(Slot(k))
        invariant fresh(ArraysFrom(depth) - old(ArraysFrom(depth)))
        invariant forall k :: 0 <= k < index ==> NumbersValid(items[k])
        invariant buf == out0 + [LBRACKET] + ItemsBody(CanonItems(items)[..index])
      {
        ghost var sofar := buf;
        if index > 0 {
          buf := buf + [COMMA];
        }
        ok := AppendValue(items[index], depth);
        if !ok {
          return;
        }
        ItemAppended(sofar, out0, CanonItems(items), index);
        index := index + 1;
      }
      assert CanonItems(items)[..index] == CanonItems(items);
      buf := buf + [RBRACKET];
      CanonArray(out0, items);
      ok := true;
    }

    /** The keys of an object, sorted in the array of its depth. */
    method SortedKeysAt(es: seq<Entry<Json>>, depth: nat) returns (names: array<bytes>)
      requires Valid() && DistinctKeys(es)
      modifies this`keys, this`deepKeys, ArraysFrom(depth)
      ensures Valid() && old(Depths()) <= Depths() && depth < Depths() && Slot(depth) == names
      ensures forall k :: 0 <= k < depth && k < old(Depths()) ==> Slot(k) == old(Slot(k))
      ensures fresh(ArraysFrom(depth) - old(ArraysFrom(depth)))
      ensures |es| <= names.Length && |SortEntries(CanonEntries(es))| == |es|
      ensures names[..|es|] == KeysOf(SortEntries(CanonEntries(es)))
    {
      hide Canon, SortEntries, SortKeys;
      var n := |es|;
      names := ObjectKeys(depth, n);
      forall a | a in ArraysFrom(depth) && a !in old(ArraysFrom(depth)) ensures fresh(a) {
        var k :| depth <= k < Depths() && Slot(k) == a;
        if k < old(Depths()) { assert old(Slot(k)) in old(ArraysFrom(depth)); }
      }
      var index := 0;
      while index < n
        invariant index <= n && names[..index] == KeysOf(es)[..index]
        modifies names
      {
        names[index] := es[index].key;
        index := index + 1;
      }
      assert names[..n] == KeysOf(es);
      SortStrings(names, n);
      SortedNames(es);
    }

    method AppendEntries(es: seq<Entry<Json>>, depth: nat) returns (ok: bool)
      requires Valid() && DistinctKeys(es) && forall k :: 0 <= k < |es| ==> IsMapTree(es[k].value)
      modifies this, ArraysFrom(depth)
      ensures Valid() && old(Depths()) <= Depths()
      ensures forall k :: 0 <= k < depth && k < old(Depths()) ==> Slot(k) == old(Slot(k))
      ensures fresh(ArraysFrom(depth) - old(ArraysFrom(depth)))
      ensures ok <==> NumbersIn(es)
      ensures ok ==> buf == old(buf) + Encode(Canon(Object(es)))
      decreases es, 0, 2
    {
      hide Encode, Canon, NumbersIn, IsMapTree, MembersBody, SortEntries, CanonEntries, KeysOf, DistinctKeys;
      ghost var out0 := buf;
      var names := SortedKeysAt(es, depth);
      buf := buf + [LBRACE];
      OwnArray(depth);
      ok := AppendSorted(es, names, depth);
      OwnArray(depth);
      if ok {
        buf := buf + [RBRACE];
        CanonObject(out0, es);
      }
    }

    /** The entries in the order of their sorted keys: nested objects leave the keys as they are. */
    method AppendSorted(es: seq<Entry<Json>>, names: array<bytes>, depth: nat) returns (ok: bool)
      requires Valid() && DistinctKeys(es) && forall k :: 0 <= k < |es| ==> IsMapTree(es[k].value)
      requires depth < Depths() && Slot(depth) == names && |es| <= names.Length
      requires |SortEntries(CanonEntries(es))| == |es| && names[..|es|] == KeysOf(SortEntries(CanonEntries(es)))
      modifies this, ArraysFrom(depth + 1)
      ensures Valid() && old(Depths()) <= Depths()
      ensures forall k :: 0 <= k < depth + 1 && k < old(Depths()) ==> Slot(k) == old(Slot(k))
      ensures fresh(ArraysFrom(depth + 1) - old(ArraysFrom(depth + 1)))
      ensures ok <==> NumbersIn(es)
      ensures ok ==> buf == old(buf) + MembersBody(SortEntries(CanonEntries(es)))
      decreases es, 0, 1
    {
      hide Encode, Canon, NumbersIn, IsMapTree, MembersBody, SortEntries, CanonEntries, JS.Quoted, NumbersAt, KeysOf;
      ghost var sorted, keys := SortEntries(CanonEntries(es)), names[..|es|];
      ghost var out0 := buf;
      NoItems();
      OwnArray(depth);
      var index := 0;
      while index < |es|
        invariant index <= |es| && Valid() && old(Depths()) <= Depths()
        invariant names[..|es|] == keys
        invariant forall k :: 0 <= k < depth + 1 && k < old(Depths()) ==> Slot(k) == old(Slot(k))
        invariant fresh(ArraysFrom(depth + 1) - old(ArraysFrom(depth + 1)))
        invariant forall i :: 0 <= i < index ==> NumbersAt(es, keys[i])
        invariant buf == out0 + MembersBody(sorted[..index])
      {
        ghost var sofar := buf;
        NameAt(sorted, index);
        assert names[index] == keys[index];
        OwnArray(depth);
        ok := AppendEntry(es, names[index], index, depth);
        if !ok {
          BadNumber(es, keys[index]);
          return;
        }
        MemberAppended(sofar, out0, sorted, index);
        index := index + 1;
      }
      assert sorted[..index] == sorted;
      AllNumbers(es, keys);
      ok := true;
    }

    /** One entry of an object, with the comma before it. */
    method AppendEntry(es: seq<Entry<Json>>, key: bytes, index: nat, depth: nat) returns (ok: bool)
      requires Valid() && DistinctKeys(es) && (forall k :: 0 <= k < |es| ==> IsMapTree(es[k].value))
      requires index < |SortEntries(CanonEntries(es))| && SortEntries(CanonEntries(es))[index].key == key
      modifies this, ArraysFrom(depth + 1)
      ensures Valid() && old(Depths()) <= Depths()
      ensures forall k :: 0 <= k < depth + 1 && k < old(Depths()) ==> Slot(k) == old(Slot(k))
      ensures fresh(ArraysFrom(depth + 1) - old(ArraysFrom(depth + 1)))
      ensures ok <==> NumbersAt(es, key)
      ensures ok ==>
        buf == (if index > 0 then old(buf) + [COMMA] else old(buf)) + JS.Quoted(key) + [COLON]
               + Encode(SortEntries(CanonEntries(es))[index].value)
      decreases es, 0, 0
    {
      hide Encode, Canon, NumbersValid, IsMapTree, SortEntries, CanonEntries, JS.Quoted, NumbersAt;
      if index > 0 {
        buf := buf + [COMMA];
      }
      var at := FindEntry(es, key, index);
      buf := JS.AppendJSONString(buf, key);
      buf := buf + [COLON];
      ok := AppendValue(es[at].value, depth + 1);
    }
  }

  function CanonItems(items: seq<Json>): (r: seq<Json>)
    ensures |r| == |items|
  {
    seq(|items|, i requires 0 <= i < |items| => Canon(items[i]))
  }

  lemma Joined(a: bytes, b: bytes, c: bytes, d: bytes)
    ensures a + b + c + d == a + (b + c + d)
  {
  }

  lemma ItemAppended(sofar: bytes, out0: bytes, items: seq<Json>, k: nat)
    requires k < |items| && sofar == out0 + [LBRACKET] + ItemsBody(items[..k])
    ensures sofar + (if k == 0 then [] else [COMMA]) + Encode(items[k]) == out0 + [LBRACKET] + ItemsBody(items[..k + 1])
    ensures k == 0 ==> sofar + Encode(items[k]) == out0 + [LBRACKET] + ItemsBody(items[..k + 1])
  {
    hide Encode, ItemsBody;
    ItemsLast(items[..k + 1]);
    assert items[..k + 1][..k] == items[..k];
    Joined(out0 + [LBRACKET], ItemsBody(items[..k]), if k == 0 then [] else [COMMA], Encode(items[k]));
    assert sofar + [] == sofar;
  }

  lemma CanonArray(out0: bytes, items: seq<Json>)
    ensures out0 + [LBRACKET] + ItemsBody(CanonItems(items)) + [RBRACKET] == out0 + Encode(Canon(Array(items)))
  {
    hide ItemsBody;
    var b := ItemsBody(CanonItems(items));
    assert Canon(Array(items)).items == CanonItems(items);
    assert out0 + [LBRACKET] + b + [RBRACKET] == out0 + ([LBRACKET] + b + [RBRACKET]);
  }

  lemma CanonObject(out0: bytes, es: seq<Entry<Json>>)
    ensures out0 + [LBRACE] + MembersBody(SortEntries(CanonEntries(es))) + [RBRACE]
         == out0 + Encode(Canon(Object(es)))
  {
    hide MembersBody, SortEntries;
    var b := MembersBody(SortEntries(CanonEntries(es)));
    assert out0 + [LBRACE] + b + [RBRACE] == out0 + ([LBRACE] + b + [RBRACE]);
  }

  lemma MemberAppended(sofar: bytes, out0: bytes, ms: seq<Entry<Json>>, k: nat)
    requires k < |ms| && sofar == out0 + MembersBody(ms[..k])
    ensures (if k > 0 then sofar + [COMMA] else sofar) + JS.Quoted(ms[k].key) + [COLON] + Encode(ms[k].value)
         == out0 + MembersBody(ms[..k + 1])
  {
    hide Encode, MembersBody, JS.Quoted;
    MembersLast(ms[..k + 1]);
    assert ms[..k + 1][..k] == ms[..k];
    var comma := if k == 0 then [] else [COMMA];
    var q, v := JS.Quoted(ms[k].key), Encode(ms[k].value);
    assert sofar + comma == if k > 0 then sofar + [COMMA] else sofar;
    Joined(out0, MembersBody(ms[..k]), comma, q + [COLON] + v);
    assert sofar + comma + (q + [COLON] + v) == sofar + comma + q + [COLON] + v;
  }

  /** The sorted names are the keys of the sorted entries. */
  lemma SortedNames(es: seq<Entry<Json>>)
    requires DistinctKeys(es)
    ensures SortKeys(KeysOf(es)) == KeysOf(SortEntries(CanonEntries(es)))
    ensures |SortEntries(CanonEntries(es))| == |es|
  {
    hide Canon, SortEntries;
    assert KeysOf(CanonEntries(es)) == KeysOf(es);
    assert DistinctKeys(CanonEntries(es));
    SortedKeys(CanonEntries(es));
    SortKeepsLength(KeysOf(es));
  }

  ghost predicate NumbersAt(es: seq<Entry<Json>>, key: bytes) {
    forall k :: 0 <= k < |es| && es[k].key == key ==> NumbersValid(es[k].value)
  }

  ghost predicate NumbersIn(es: seq<Entry<Json>>) { forall k :: 0 <= k < |es| ==> NumbersValid(es[k].value) }

  lemma BadNumber(es: seq<Entry<Json>>, key: bytes)
    requires !NumbersAt(es, key)
    ensures !NumbersIn(es)
  {
  }

  lemma NameAt(es: seq<Entry<Json>>, i: nat)
    requires i < |es|
    ensures KeysOf(es)[i] == es[i].key
  {
  }

  lemma AllNumbers(es: seq<Entry<Json>>, names: seq<bytes>)
    requires DistinctKeys(es) && names == KeysOf(SortEntries(CanonEntries(es)))
    requires forall i :: 0 <= i < |names| ==> NumbersAt(es, names[i])
    ensures NumbersIn(es)
  {
    hide NumbersValid, Canon, SortEntries;
    forall k | 0 <= k < |es| ensures NumbersValid(es[k].value) {
      var key, sorted := es[k].key, SortEntries(CanonEntries(es));
      SortedLookups(CanonEntries(es), key);
      CanonLookup(es, key);
      GetIffIn(es, key, es[k].value);
      GetNone(sorted, key);
      var i :| 0 <= i < |sorted| && sorted[i].key == key;
      assert names[i] == key;
    }
  }

  /** typed[key]: the entry a sorted name stands for. */
  method FindEntry(es: seq<Entry<Json>>, key: bytes, ghost i: nat) returns (at: nat)
    requires DistinctKeys(es)
    requires var sorted := SortEntries(CanonEntries(es)); i < |sorted| && sorted[i].key == key
    ensures at < |es| && es[at].key == key
    ensures SortEntries(CanonEntries(es))[i].value == Canon(es[at].value)
    ensures NumbersAt(es, key) <==> NumbersValid(es[at].value)
  {
    hide NumbersValid, Canon, SortEntries;
    EntryBehind(es, i);
    at := 0;
    while es[at].key != key
      invariant at < |es| && forall k :: 0 <= k < at ==> es[k].key != key
      decreases |es| - at
    {
      at := at + 1;
    }
  }

  lemma EntryBehind(es: seq<Entry<Json>>, i: nat)
    requires DistinctKeys(es) && i < |SortEntries(CanonEntries(es))|
    ensures var e := SortEntries(CanonEntries(es))[i];
      && (exists k :: 0 <= k < |es| && es[k].key == e.key)
      && forall k :: 0 <= k < |es| && es[k].key == e.key ==> e.value == Canon(es[k].value)
  {
    hide Canon, SortEntries;
    var sorted := SortEntries(CanonEntries(es));
    var e := sorted[i];
    SortedLookups(CanonEntries(es), e.key);
    CanonLookup(es, e.key);
    AscendingIsDistinct(sorted);
    GetIffIn(sorted, e.key, e.value);
    assert sorted[i] in sorted;
    GetNone(es, e.key);
    forall k | 0 <= k < |es| && es[k].key == e.key ensures e.value == Canon(es[k].value) {
      GetIffIn(es, e.key, es[k].value);
      assert es[k] in es;
    }
  }

  /** encodeJSONTree. */
  method EncodeJSONTree(value: Json) returns (text: bytes, ok: bool)
    requires IsMapTree(value)
    ensures ok <==> NumbersValid(value)
    ensures ok ==> text == Encode(Canon(value))
  {
    hide Encode, Canon, NumbersValid, IsMapTree;
    var e := new Encoder();
    ok := e.AppendValue(value, 0);
    text := e.buf;
  }
}
