/** Finite maps from keys to values as lists strictly ascending in the key: what an encoded object is. */
module SortedMap {
  import opened Bytes
  import opened Options

  datatype Entry<+V> = Entry(key: bytes, value: V)

  predicate Ascending<V>(es: seq<Entry<V>>) {
    forall j, k :: 0 <= j < k < |es| ==> Less(es[j].key, es[k].key)
  }

  predicate DistinctKeys<V>(es: seq<Entry<V>>) {
    forall j, k :: 0 <= j < k < |es| ==> es[j].key != es[k].key
  }

  /** The value of the first entry with a key. */
  function Get<V>(es: seq<Entry<V>>, key: bytes): Option<V> {
    if es == [] then None
    else if es[0].key == key then Some(es[0].value)
    else Get(es[1..], key)
  }

  function Put<V>(es: seq<Entry<V>>, key: bytes, value: V): seq<Entry<V>> {
    if es == [] then [Entry(key, value)]
    else if es[0].key == key then [Entry(key, value)] + es[1..]
    else if Less(key, es[0].key) then [Entry(key, value)] + es
    else [es[0]] + Put(es[1..], key, value)
  }

  function Drop<V>(es: seq<Entry<V>>, key: bytes): seq<Entry<V>> {
    if es == [] then []
    else if es[0].key == key then es[1..]
    else [es[0]] + Drop(es[1..], key)
  }

  lemma AscendingIsDistinct<V>(es: seq<Entry<V>>)
    requires Ascending(es)
    ensures DistinctKeys(es)
  {
    forall j, k | 0 <= j < k < |es| ensures es[j].key != es[k].key {
      LessTrichotomy(es[j].key, es[k].key);
    }
  }

  /** With distinct keys, lookup finds exactly the entries. */
  lemma {:induction false} GetIffIn<V>(es: seq<Entry<V>>, key: bytes, value: V)
    requires DistinctKeys(es)
    ensures Get(es, key) == Some(value) <==> Entry(key, value) in es
    decreases |es|
  {
    if es != [] {
      assert es == [es[0]] + es[1..];
      GetIffIn(es[1..], key, value);
      forall k | 0 <= k < |es[1..]| ensures es[1..][k].key != es[0].key {
        assert es[1..][k] == es[k + 1];
      }
    }
  }

  lemma {:induction false} GetNone<V>(es: seq<Entry<V>>, key: bytes)
    ensures Get(es, key).None? <==> forall k :: 0 <= k < |es| ==> es[k].key != key
    decreases |es|
  {
    if es != [] {
      GetNone(es[1..], key);
      assert forall k :: 0 <= k < |es[1..]| ==> es[1..][k] == es[k + 1];
      if forall k :: 0 <= k < |es| ==> es[k].key != key {
        assert forall k :: 0 <= k < |es[1..]| ==> es[1..][k].key != key;
      }
    }
  }

  /** A key below every key of an ascending list is in none of its entries. */
  lemma BelowAll<V>(es: seq<Entry<V>>, key: bytes)
    requires Ascending(es) && es != [] && Less(key, es[0].key)
    ensures Get(es, key).None? && forall k :: 0 <= k < |es| ==> Less(key, es[k].key)
  {
    forall k | 0 <= k < |es| ensures Less(key, es[k].key) && es[k].key != key {
      if k > 0 { LessTransitive(key, es[0].key, es[k].key); }
      LessTrichotomy(key, es[k].key);
    }
    GetNone(es, key);
  }

  /** The head of an ascending list is below its tail, so the tail does not hold its key. */
  lemma HeadOnlyOnce<V>(es: seq<Entry<V>>)
    requires Ascending(es) && es != []
    ensures Ascending(es[1..]) && Get(es[1..], es[0].key).None?
  {
    forall k | 0 <= k < |es[1..]| ensures es[1..][k].key != es[0].key {
      assert es[1..][k] == es[k + 1];
      LessTrichotomy(es[0].key, es[k + 1].key);
    }
    GetNone(es[1..], es[0].key);
  }

  lemma {:induction false} PutAscends<V>(es: seq<Entry<V>>, key: bytes, value: V)
    requires Ascending(es)
    ensures Ascending(Put(es, key, value))
    ensures forall e :: e in Put(es, key, value) ==> e.key == key || e in es
    decreases |es|
  {
    if es != [] {
      assert es == [es[0]] + es[1..];
      LessTrichotomy(key, es[0].key);
      if es[0].key == key {
      } else if Less(key, es[0].key) {
        BelowAll(es, key);
      } else {
        PutAscends(es[1..], key, value);
        var rest := Put(es[1..], key, value);
        forall k | 0 <= k < |rest| ensures Less(es[0].key, rest[k].key) {
          assert rest[k] in rest;
          if rest[k].key != key {
            var j :| 0 <= j < |es[1..]| && es[1..][j] == rest[k];
            assert es[j + 1] == rest[k];
          }
        }
      }
    }
  }

  lemma {:induction false} GetPut<V>(es: seq<Entry<V>>, key: bytes, value: V, k: bytes)
    requires Ascending(es)
    ensures Get(Put(es, key, value), k) == if k == key then Some(value) else Get(es, k)
    decreases |es|
  {
    if es != [] {
      HeadOnlyOnce(es);
      if es[0].key == key {
        assert ([Entry(key, value)] + es[1..])[1..] == es[1..];
      } else if Less(key, es[0].key) {
        assert ([Entry(key, value)] + es)[1..] == es;
      } else {
        GetPut(es[1..], key, value, k);
        assert ([es[0]] + Put(es[1..], key, value))[1..] == Put(es[1..], key, value);
      }
    }
  }

  lemma {:induction false} DropAscends<V>(es: seq<Entry<V>>, key: bytes)
    requires Ascending(es)
    ensures Ascending(Drop(es, key)) && (forall e :: e in Drop(es, key) ==> e in es)
    decreases |es|
  {
    if es != [] {
      assert es == [es[0]] + es[1..];
      if es[0].key != key {
        DropAscends(es[1..], key);
        var rest := Drop(es[1..], key);
        forall k | 0 <= k < |rest| ensures Less(es[0].key, rest[k].key) {
          assert rest[k] in es[1..];
          var j :| 0 <= j < |es[1..]| && es[1..][j] == rest[k];
          assert es[j + 1] == rest[k];
        }
      }
    }
  }

  lemma {:induction false} GetDrop<V>(es: seq<Entry<V>>, key: bytes, k: bytes)
    requires Ascending(es)
    ensures Get(Drop(es, key), k) == if k == key then None else Get(es, k)
    decreases |es|
  {
    if es != [] {
      HeadOnlyOnce(es);
      if es[0].key != key {
        GetDrop(es[1..], key, k);
        assert ([es[0]] + Drop(es[1..], key))[1..] == Drop(es[1..], key);
      }
    }
  }

  lemma SomeLookup<V>(es: seq<Entry<V>>)
    requires es != []
    ensures exists k :: Get(es, k).Some?
  {
    assert Get(es, es[0].key).Some?;
  }

  /** Ascending lists that answer every lookup alike are the same list. */
  lemma {:induction false} SameLookups<V>(a: seq<Entry<V>>, b: seq<Entry<V>>)
    requires Ascending(a) && Ascending(b)
    requires forall k :: Get(a, k) == Get(b, k)
    ensures a == b
    decreases |a|
  {
    if a == [] {
      if b != [] { SomeLookup(b); }
    } else {
      if b == [] {
        SomeLookup(a);
      } else {
        assert Get(a, a[0].key) == Some(a[0].value);
        assert Get(b, b[0].key) == Some(b[0].value);
        LessTrichotomy(a[0].key, b[0].key);
        if Less(a[0].key, b[0].key) { BelowAll(b, a[0].key); }
        if Less(b[0].key, a[0].key) { BelowAll(a, b[0].key); }
        HeadOnlyOnce(a);
        HeadOnlyOnce(b);
        forall k ensures Get(a[1..], k) == Get(b[1..], k) {
          assert Get(a, k) == Get(b, k);
        }
        SameLookups(a[1..], b[1..]);
        assert a == [a[0]] + a[1..] && b == [b[0]] + b[1..];
      }
    }
  }

  /** The entries of a map in key order. */
  function SortEntries<V>(es: seq<Entry<V>>): seq<Entry<V>> {
    if es == [] then [] else Put(SortEntries(es[1..]), es[0].key, es[0].value)
  }

  lemma {:induction false} SortedLookups<V>(es: seq<Entry<V>>, key: bytes)
    ensures Ascending(SortEntries(es)) && Get(SortEntries(es), key) == Get(es, key)
    decreases |es|
  {
    if es != [] {
      SortedLookups(es[1..], key);
      PutAscends(SortEntries(es[1..]), es[0].key, es[0].value);
      GetPut(SortEntries(es[1..]), es[0].key, es[0].value, key);
    }
  }

  /** A key above every key goes last. */
  lemma {:induction false} PutLast<V>(es: seq<Entry<V>>, key: bytes, value: V)
    requires forall k :: 0 <= k < |es| ==> Less(es[k].key, key)
    ensures Put(es, key, value) == es + [Entry(key, value)]
    decreases |es|
  {
    if es != [] {
      LessTrichotomy(es[0].key, key);
      PutLast(es[1..], key, value);
      assert es == [es[0]] + es[1..];
    }
  }

  lemma {:induction false} DropAbsent<V>(es: seq<Entry<V>>, key: bytes)
    requires Get(es, key).None?
    ensures Drop(es, key) == es
    decreases |es|
  {
    if es != [] {
      DropAbsent(es[1..], key);
      assert es == [es[0]] + es[1..];
    }
  }
}
