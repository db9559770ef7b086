/**
 The key cache of the streaming walker: the first few distinct keys of a document inline, then a map from
 buckets to short chains. Entries are offsets into the document, so a hit costs no decoding.
 */
module KeyCache {
  import opened Bytes
  import opened Options
  import opened JsonString
  import opened JsonLex
  import opened JsonTree
  import JsonSkip

  const SMALL_CACHE := 16
  const MAX_ENTRIES := 4096
  const MAX_CHAIN := 8

  datatype Key = Key(key: bytes, start: nat, end: nat)

  datatype SmallKey = SmallKey(bucket: nat, entry: Key)

  /** An entry tells the truth about the document: its bytes, quoted, decode to its key. */
  predicate Truthful(d: bytes, k: Key) {
    k.start <= k.end <= |d| && TokenText([QUOTE] + d[k.start..k.end] + [QUOTE]) == Some(k.key)
  }

  class Cache {
    const hash: bytes -> nat
    /** The map, once the inline slots have spilled into it. */
    var keys: Option<map<nat, seq<Key>>>
    var entries: nat
    var smallKeys: seq<SmallKey>
    /** Every entry that is cached, inline or in the map, with its bucket. */
    ghost var held: seq<SmallKey>

    constructor (hash: bytes -> nat)
      ensures this.hash == hash
      ensures smallKeys == [] && entries == 0 && keys == None && held == []
    {
      this.hash := hash;
      keys := None;
      entries := 0;
      smallKeys, held := [], [];
    }

    /** The cache belongs to document d: truthful, and within its bounds. */
    ghost predicate Valid(d: bytes)
      reads this
    {
      && |smallKeys| <= SMALL_CACHE
      && (forall k :: 0 <= k < |smallKeys| ==> Truthful(d, smallKeys[k].entry))
      && |held| <= entries <= MAX_ENTRIES
      && (keys.None? ==> entries == |smallKeys| && held == smallKeys)
      && (keys.Some? ==> Chained(d, keys.value) && HoldsAll(keys.value, held))
    }

    /** The hash of a key's bytes picks its bucket. */
    function Bucket(raw: bytes): nat { hash(raw) }

    method Find(d: bytes, start: nat, end: nat, bucket: nat) returns (key: Option<bytes>)
      requires Valid(d) && start <= end <= |d|
      ensures key.Some? ==> TokenText([QUOTE] + d[start..end] + [QUOTE]) == key
    {
      if keys.None? {
        var index := 0;
        while index < |smallKeys| {
          var cached := smallKeys[index].entry;
          if smallKeys[index].bucket == bucket && cached.end - cached.start == end - start &&
             d[cached.start..cached.end] == d[start..end] {
            return Some(cached.key);
          }
          index := index + 1;
        }
      } else if bucket in keys.value {
        var chain := keys.value[bucket];
        var index := 0;
        while index < |chain| {
          var cached := chain[index];
          if cached.end - cached.start == end - start && d[cached.start..cached.end] == d[start..end] {
            return Some(cached.key);
          }
          index := index + 1;
        }
      }
      return None;
    }

    /** Remember an entry, if there is room for it. */
    method Store(d: bytes, entry: Key, bucket: nat)
      requires Valid(d) && Truthful(d, entry)
      modifies this
      ensures Valid(d)
    {
      hide HoldsAll, Chained, Truthful;
      if keys.None? {
        if |smallKeys| < SMALL_CACHE {
          smallKeys := smallKeys + [SmallKey(bucket, entry)];
          held := smallKeys;
          entries := entries + 1;
          return;
        }
        Spill(d);
      }
      var m := keys.value;
      var chain := if bucket in m then m[bucket] else [];
      if entries >= MAX_ENTRIES || |chain| >= MAX_CHAIN {
        return;
      }
      HoldsOneMore(m, held, SmallKey(bucket, entry));
      ChainedOneMore(d, m, SmallKey(bucket, entry));
      keys := Some(m[bucket := chain + [entry]]);
      held := held + [SmallKey(bucket, entry)];
      entries := entries + 1;
    }

    /** The inline slots are full: move them into the map, which bounds every chain. */
    method Spill(d: bytes)
      requires Valid(d) && keys.None?
      modifies this
      ensures Valid(d) && keys.Some? && entries == old(entries) && smallKeys == old(smallKeys)
    {
      var m: map<nat, seq<Key>> := map[];
      ghost var moved: seq<SmallKey> := [];
      var index := 0;
      while index < |smallKeys|
        modifies {}
        invariant index <= |smallKeys| && Chained(d, m) && HoldsAll(m, moved) && |moved| <= index
      {
        var cached := smallKeys[index];
        var chain := if cached.bucket in m then m[cached.bucket] else [];
        if |chain| < MAX_CHAIN {
          HoldsOneMore(m, moved, cached);
          ChainedOneMore(d, m, cached);
          m := m[cached.bucket := chain + [cached.entry]];
          moved := moved + [cached];
        }
        index := index + 1;
      }
      keys := Some(m);
      held := moved;
    }

    /**
     streamObjectKey: the key of the token that scanJSONString ended at end. Whatever the hash and whatever
     was cached before, it is what decoding the token gives.
     */
    method StreamObjectKey(d: bytes, start: nat, end: nat) returns (key: bytes, ok: bool)
      requires Valid(d) && start < |d| && d[start] == QUOTE && end == StringEnd(d, start)
      modifies this
      ensures Valid(d)
      ensures end < |d| ==> (ok <==> TokenText(d[start..end]).Some?)
      ensures end < |d| && ok ==> TokenText(d[start..end]) == Some(key)
    {
      hide TokenText, Unmarshal, StringEnd;
      if end - start < 2 {
        ShortHasNoText(d, start, end);
        return [], false;
      }
      var keyStart, keyEnd := start + 1, end - 1;
      var escaped := false;
      var index := keyStart;
      while index < keyEnd
        invariant keyStart <= index <= keyEnd
        invariant escaped <==> exists k :: keyStart <= k < index && d[k] == BACKSLASH
        invariant forall k :: keyStart <= k < index ==> d[k] >= 0x20
      {
        if d[index] < 0x20 {
          ControlHasNoText(d, start, end, index);
          return [], false;
        }
        if d[index] == BACKSLASH {
          escaped := true;
        }
        index := index + 1;
      }
      TokenIsQuoted(d, start, end);
      var bucket := Bucket(d[keyStart..keyEnd]);
      var cached := Find(d, keyStart, keyEnd, bucket);
      if cached.Some? {
        return cached.value, true;
      }
      if escaped {
        var decoded := Unmarshal(d[start..end]);
        EscapedText(d, start, end);
        if decoded.None? {
          return [], false;
        }
        key := decoded.value;
      } else {
        key := d[keyStart..keyEnd];
        PlainText(d, start, end);
      }
      Store(d, Key(key, keyStart, keyEnd), bucket);
      ok := true;
    }
  }

  ghost predicate Chained(d: bytes, m: map<nat, seq<Key>>) {
    forall b :: b in m ==> |m[b]| <= MAX_CHAIN && forall k :: 0 <= k < |m[b]| ==> Truthful(d, m[b][k])
  }

  /** The entries of one bucket, in order. */
  ghost function ChainOf(held: seq<SmallKey>, bucket: nat): seq<Key> {
    if held == [] then []
    else
      var last := held[|held| - 1];
      ChainOf(held[..|held| - 1], bucket) + (if last.bucket == bucket then [last.entry] else [])
  }

  /** The chains of the map are what is held in each bucket, and nothing else. */
  ghost predicate HoldsAll(m: map<nat, seq<Key>>, held: seq<SmallKey>) {
    forall b: nat :: (if b in m then m[b] else []) == ChainOf(held, b)
  }

  lemma ChainedOneMore(d: bytes, m: map<nat, seq<Key>>, k: SmallKey)
    requires Chained(d, m) && Truthful(d, k.entry)
    ensures var chain := if k.bucket in m then m[k.bucket] else [];
      |chain| < MAX_CHAIN ==> Chained(d, m[k.bucket := chain + [k.entry]])
  {
  }

  lemma HoldsOneMore(m: map<nat, seq<Key>>, held: seq<SmallKey>, k: SmallKey)
    requires HoldsAll(m, held)
    ensures HoldsAll(m[k.bucket := (if k.bucket in m then m[k.bucket] else []) + [k.entry]], held + [k])
  {
    assert (held + [k])[..|held|] == held;
  }

  /** A token that ends before the document does is delimited, so it is its body in quotes. */
  lemma TokenIsQuoted(d: bytes, start: nat, end: nat)
    requires start < |d| && d[start] == QUOTE && end == StringEnd(d, start) && end - start >= 2
    ensures end < |d| ==> d[end - 1] == QUOTE
    ensures d[end - 1] == QUOTE ==> d[start..end] == [QUOTE] + d[start + 1..end - 1] + [QUOTE]
  {
    if end < |d| {
      BodyEndQuoted(d, start + 1);
    }
  }

  lemma ShortHasNoText(d: bytes, start: nat, end: nat)
    requires start <= end <= |d| && end - start < 2
    ensures TokenText(d[start..end]).None?
  {
  }

  lemma ControlHasNoText(d: bytes, start: nat, end: nat, k: nat)
    requires start < k < end - 1 && end <= |d| && d[k] < 0x20
    ensures TokenText(d[start..end]).None?
  {
    var token := d[start..end];
    if IsDelimited(token) {
      assert token[k - start] == d[k] && Body(token)[k - start - 1] == token[k - start];
      JsonSkip.ControlNeverReads(Body(token), k - start - 1);
    }
  }

  /** An escaped key decodes only as a delimited token. */
  lemma EscapedText(d: bytes, start: nat, end: nat)
    requires start < |d| && d[start] == QUOTE && end == StringEnd(d, start) && end - start >= 2
    requires exists k :: start + 1 <= k < end - 1 && d[k] == BACKSLASH
    ensures var token := [QUOTE] + d[start + 1..end - 1] + [QUOTE];
      && (d[end - 1] == QUOTE ==> TokenText(d[start..end]) == Unmarshal(d[start..end]))
      && (Unmarshal(d[start..end]).Some? ==> TokenText(token) == Unmarshal(d[start..end]))
  {
    TokenIsQuoted(d, start, end);
    var token := d[start..end];
    if d[end - 1] == QUOTE {
      var k :| start + 1 <= k < end - 1 && d[k] == BACKSLASH;
      assert Body(token)[k - start - 1] == BACKSLASH;
      assert NeedsUnmarshal(Body(token));
    }
  }

  /** A key without escapes and control bytes is its own text. */
  lemma PlainText(d: bytes, start: nat, end: nat)
    requires start < |d| && d[start] == QUOTE && end == StringEnd(d, start) && end - start >= 2
    requires forall k :: start + 1 <= k < end - 1 ==> d[k] >= 0x20 && d[k] != BACKSLASH
    ensures var raw := d[start + 1..end - 1]; TokenText([QUOTE] + raw + [QUOTE]) == Some(raw)
  {
    var raw := d[start + 1..end - 1];
    assert Body([QUOTE] + raw + [QUOTE]) == raw;
    assert forall k :: 0 <= k < |raw| ==> raw[k] == d[start + 1 + k];
    assert !NeedsUnmarshal(raw);
  }
}
