/**
 The members of an object while it is streamed: a list of byte ranges in a scratch buffer, looked up by a
 scan and, from 32 members on, through an index. It is a faithful map from keys to their last output.
 */
module StreamMembers {
  import opened Bytes
  import opened Options
  import opened SortedMap

  const INDEX_CUTOFF := 32

  datatype Range = Range(key: bytes, start: nat, end: nat)

  /** The entries the ranges stand for. */
  function Entries(ms: seq<Range>, scratch: bytes): seq<Entry<bytes>>
    requires Within(ms, scratch)
  {
    seq(|ms|, i requires 0 <= i < |ms| => Entry(ms[i].key, scratch[ms[i].start..ms[i].end]))
  }

  predicate Within(ms: seq<Range>, scratch: bytes) {
    forall k :: 0 <= k < |ms| ==> ms[k].start <= ms[k].end <= |scratch|
  }

  predicate Distinct(ms: seq<Range>) {
    forall j, k :: 0 <= j < k < |ms| ==> ms[j].key != ms[k].key
  }

  /** The position of each key, and of nothing else. */
  predicate Indexes(index: map<bytes, nat>, ms: seq<Range>) {
    (forall k :: 0 <= k < |ms| ==> ms[k].key in index && index[ms[k].key] == k) &&
    (forall key :: key in index ==> index[key] < |ms| && ms[index[key]].key == key)
  }

  class Members {
    var members: seq<Range>
    var index: Option<map<bytes, nat>>

    constructor ()
      ensures Valid() && members == []
    {
      members := [];
      index := None;
    }

    /** Keys are distinct, and from the 32nd member on an index has the position of each. */
    ghost predicate Valid()
      reads this
    {
      && Distinct(members)
      && (index.None? ==> |members| < INDEX_CUTOFF)
      && (index.Some? ==> Indexes(index.value, members))
    }

    method Locate(key: bytes) returns (at: int)
      requires Valid()
      ensures at >= 0 ==> at < |members| && members[at].key == key
      ensures at < 0 ==> forall k :: 0 <= k < |members| ==> members[k].key != key
    {
      if index.Some? {
        return if key in index.value then index.value[key] else -1;
      }
      at := 0;
      while at < |members|
        invariant 0 <= at <= |members|
        invariant forall k :: 0 <= k < at ==> members[k].key != key
      {
        if members[at].key == key {
          return;
        }
        at := at + 1;
      }
      return -1;
    }

    /** upsertStreamMember: the last range of a key replaces the one before it, in its place. */
    method Upsert(key: bytes, start: nat, end: nat)
      requires Valid()
      modifies this
      ensures Valid()
      ensures members == Replaced(old(members), Range(key, start, end))
    {
      var at := Locate(key);
      ReplacedAt(members, Range(key, start, end), at);
      if at >= 0 {
        members := members[at := Range(key, start, end)];
        return;
      }
      members := members + [Range(key, start, end)];
      if index.Some? {
        index := Some(index.value[key := |members| - 1]);
      } else if |members| >= INDEX_CUTOFF {
        var built := Reindex(members, map[], 0);
        index := Some(built);
      }
    }

    /** removeStreamMember: the members after the removed one move down, and the index with them. */
    method Remove(key: bytes)
      requires Valid()
      modifies this
      ensures Valid()
      ensures members == Removed(old(members), key)
    {
      var at := Locate(key);
      RemovedAt(members, key, at);
      if at < 0 {
        return;
      }
      ghost var before := members;
      members := members[..at] + members[at + 1..];
      if index.Some? {
        RestIndexed(before, at, index.value);
        var rest := Reindex(members, index.value - {key}, at);
        index := Some(rest);
      }
    }
  }

  /** Every key but the removed one is still held, and those before it where they were. */
  lemma RestIndexed(before: seq<Range>, at: nat, index: map<bytes, nat>)
    requires at < |before| && Distinct(before) && Indexes(index, before)
    ensures var ms, m := before[..at] + before[at + 1..], index - {before[at].key};
      && Distinct(ms)
      && (forall j :: 0 <= j < at ==> ms[j].key in m && m[ms[j].key] == j)
      && (forall x :: x in m ==> HoldsKey(ms, x))
  {
    var ms, m := before[..at] + before[at + 1..], index - {before[at].key};
    assert forall j :: 0 <= j < |ms| ==> ms[j] == before[if j < at then j else j + 1];
    forall x | x in m ensures HoldsKey(ms, x) {
      var i := index[x];
      assert i != at;
      assert ms[if i < at then i else i - 1].key == x;
    }
  }

  predicate HoldsKey(ms: seq<Range>, key: bytes) { exists j :: 0 <= j < |ms| && ms[j].key == key }

  /** Write the position of every member from a position on into an index right up to it. */
  method Reindex(ms: seq<Range>, m0: map<bytes, nat>, from: nat) returns (m: map<bytes, nat>)
    requires Distinct(ms) && from <= |ms|
    requires forall j :: 0 <= j < from ==> ms[j].key in m0 && m0[ms[j].key] == j
    requires forall x :: x in m0 ==> HoldsKey(ms, x)
    ensures Indexes(m, ms)
  {
    m := m0;
    var k := from;
    while k < |ms|
      invariant from <= k <= |ms|
      invariant forall j :: 0 <= j < k ==> ms[j].key in m && m[ms[j].key] == j
      invariant forall x :: x in m ==> HoldsKey(ms, x)
    {
      assert HoldsKey(ms, ms[k].key);
      m := m[ms[k].key := k];
      k := k + 1;
    }
    forall x | x in m ensures m[x] < |ms| && ms[m[x]].key == x {
      var j :| 0 <= j < |ms| && ms[j].key == x;
    }
  }

  /** The list after an upsert, and after a removal. */
  function Replaced(ms: seq<Range>, r: Range): seq<Range> {
    if ms == [] then [r]
    else if ms[0].key == r.key then [r] + ms[1..]
    else [ms[0]] + Replaced(ms[1..], r)
  }

  function Removed(ms: seq<Range>, key: bytes): seq<Range> {
    if ms == [] then []
    else if ms[0].key == key then ms[1..]
    else [ms[0]] + Removed(ms[1..], key)
  }

  lemma {:induction false} ReplacedAt(ms: seq<Range>, r: Range, at: int)
    requires Distinct(ms) && at < |ms|
    requires at >= 0 ==> ms[at].key == r.key
    requires at < 0 ==> forall k :: 0 <= k < |ms| ==> ms[k].key != r.key
    ensures Replaced(ms, r) == if at >= 0 then ms[at := r] else ms + [r]
    decreases |ms|
  {
    if ms != [] && ms[0].key != r.key {
      var tail := ms[1..];
      assert forall k :: 0 <= k < |tail| ==> tail[k] == ms[k + 1];
      ReplacedAt(tail, r, if at >= 0 then at - 1 else -1);
    } else if ms != [] {
      assert ms[0 := r] == [r] + ms[1..];
    }
  }

  lemma {:induction false} RemovedAt(ms: seq<Range>, key: bytes, at: int)
    requires Distinct(ms) && at < |ms|
    requires at >= 0 ==> ms[at].key == key
    requires at < 0 ==> forall k :: 0 <= k < |ms| ==> ms[k].key != key
    ensures Removed(ms, key) == if at >= 0 then ms[..at] + ms[at + 1..] else ms
    decreases |ms|
  {
    if ms != [] && ms[0].key != key {
      var tail := ms[1..];
      assert forall k :: 0 <= k < |tail| ==> tail[k] == ms[k + 1];
      RemovedAt(tail, key, if at >= 0 then at - 1 else -1);
      assert ms == [ms[0]] + tail;
      if at > 0 {
        assert ms[..at] == [ms[0]] + tail[..at - 1];
        assert ms[at + 1..] == tail[at..];
      }
    }
  }

  /* ---------- the members are a map ---------- */

  lemma EntriesDistinct(ms: seq<Range>, scratch: bytes)
    requires Within(ms, scratch) && Distinct(ms)
    ensures DistinctKeys(Entries(ms, scratch))
  {
  }

  /** Growing the scratch buffer leaves every range as it was. */
  lemma EntriesGrow(ms: seq<Range>, scratch: bytes, more: bytes)
    requires Within(ms, scratch)
    ensures Within(ms, scratch + more) && Entries(ms, scratch + more) == Entries(ms, scratch)
  {
    forall k | 0 <= k < |ms|
      ensures (scratch + more)[ms[k].start..ms[k].end] == scratch[ms[k].start..ms[k].end]
    {
    }
  }

  /** After an upsert a key has the output of that range, and every other key what it had. */
  lemma {:induction false} UpsertLookup(ms: seq<Range>, r: Range, scratch: bytes, key: bytes)
    requires Within(ms, scratch) && r.start <= r.end <= |scratch|
    ensures Within(Replaced(ms, r), scratch)
    ensures Get(Entries(Replaced(ms, r), scratch), key) ==
      if key == r.key then Some(scratch[r.start..r.end]) else Get(Entries(ms, scratch), key)
    decreases |ms|
  {
    if ms == [] {
    } else {
      var tail := ms[1..];
      assert Entries(ms, scratch)[1..] == Entries(tail, scratch);
      if ms[0].key == r.key {
        var next := [r] + tail;
        assert Entries(next, scratch)[1..] == Entries(tail, scratch);
      } else {
        UpsertLookup(tail, r, scratch, key);
        var rest := Replaced(tail, r);
        var next := [ms[0]] + rest;
        assert Entries(next, scratch)[1..] == Entries(rest, scratch);
      }
    }
  }

  /** After a removal the key is absent, and every other key has what it had. */
  lemma {:induction false} RemoveLookup(ms: seq<Range>, gone: bytes, scratch: bytes, key: bytes)
    requires Within(ms, scratch) && Distinct(ms)
    ensures Within(Removed(ms, gone), scratch)
    ensures Get(Entries(Removed(ms, gone), scratch), key) ==
      if key == gone then None else Get(Entries(ms, scratch), key)
    decreases |ms|
  {
    if ms != [] {
      var tail := ms[1..];
      assert Entries(ms, scratch)[1..] == Entries(tail, scratch);
      if ms[0].key == gone {
        if key == gone {
          var es := Entries(tail, scratch);
          assert forall k :: 0 <= k < |es| ==> es[k].key == ms[k + 1].key;
          GetNone(es, gone);
        }
      } else {
        RemoveLookup(tail, gone, scratch, key);
        var rest := Removed(tail, gone);
        var next := [ms[0]] + rest;
        assert Entries(next, scratch)[1..] == Entries(rest, scratch);
      }
    }
  }

  lemma {:induction false} RemovedDistinct(ms: seq<Range>, key: bytes)
    requires Distinct(ms)
    ensures Distinct(Removed(ms, key)) && forall r :: r in Removed(ms, key) ==> r in ms
    decreases |ms|
  {
    if ms != [] && ms[0].key != key {
      RemovedDistinct(ms[1..], key);
      var rest := Removed(ms[1..], key);
      forall k | 0 <= k < |rest| ensures rest[k].key != ms[0].key {
        assert rest[k] in ms[1..];
      }
    }
  }

  /* ---------- whole runs ---------- */

  /** What appendObject does to its members: a member was written to the scratch buffer, or omitted. */
  datatype Op = Write(key: bytes, text: bytes) | Omit(key: bytes)

  datatype Store = Store(members: seq<Range>, scratch: bytes)

  function RunOps(ops: seq<Op>): Store {
    if ops == [] then Store([], [])
    else
      var s := RunOps(ops[..|ops| - 1]);
      match ops[|ops| - 1]
      case Write(key, text) =>
        Store(Replaced(s.members, Range(key, |s.scratch|, |s.scratch| + |text|)), s.scratch + text)
      case Omit(key) => Store(Removed(s.members, key), s.scratch)
  }

  /** The last thing that happened to a key. */
  function LastOutput(ops: seq<Op>, key: bytes): Option<bytes> {
    if ops == [] then None
    else
      match ops[|ops| - 1]
      case Write(k, text) => if k == key then Some(text) else LastOutput(ops[..|ops| - 1], key)
      case Omit(k) => if k == key then None else LastOutput(ops[..|ops| - 1], key)
  }

  lemma {:induction false} ReplacedDistinct(ms: seq<Range>, r: Range)
    requires Distinct(ms)
    ensures Distinct(Replaced(ms, r)) && forall x :: x in Replaced(ms, r) ==> x == r || x in ms
    decreases |ms|
  {
    if ms != [] {
      var tail := ms[1..];
      assert forall k :: 0 <= k < |tail| ==> tail[k] == ms[k + 1];
      if ms[0].key != r.key {
        ReplacedDistinct(tail, r);
        var rest := Replaced(tail, r);
        forall k | 0 <= k < |rest| ensures rest[k].key != ms[0].key {
          assert rest[k] in rest;
          if rest[k] != r { assert rest[k] in tail; }
        }
      }
    }
  }

  /**
   After any run of writes and omissions the keys are distinct, a key has exactly its last output, and a key
   omitted last is absent.
   */
  lemma {:induction false} MembersAreFaithful(ops: seq<Op>, key: bytes)
    ensures var s := RunOps(ops);
      Distinct(s.members) && Within(s.members, s.scratch) &&
      Get(Entries(s.members, s.scratch), key) == LastOutput(ops, key)
    decreases |ops|
  {
    hide Distinct, Within, Replaced, Removed, Entries, Get;
    if ops == [] {
      NoMembers(key);
    } else {
      var s := RunOps(ops[..|ops| - 1]);
      MembersAreFaithful(ops[..|ops| - 1], key);
      match ops[|ops| - 1]
      case Write(k, text) =>
        var r := Range(k, |s.scratch|, |s.scratch| + |text|);
        ReplacedDistinct(s.members, r);
        EntriesGrow(s.members, s.scratch, text);
        UpsertLookup(s.members, r, s.scratch + text, key);
        assert (s.scratch + text)[r.start..r.end] == text;
      case Omit(k) =>
        RemovedDistinct(s.members, k);
        RemoveLookup(s.members, k, s.scratch, key);
    }
  }

  lemma NoMembers(key: bytes)
    ensures Distinct([]) && Within([], []) && Get(Entries([], []), key) == None
  {
  }

  /* ---------- sorting ---------- */

  predicate SortedRanges(ms: seq<Range>) {
    forall j, k :: 0 <= j < k < |ms| ==> Less(ms[j].key, ms[k].key)
  }

  function InsertRange(r: Range, sorted: seq<Range>): seq<Range> {
    if sorted == [] || Less(r.key, sorted[0].key) then [r] + sorted
    else [sorted[0]] + InsertRange(r, sorted[1..])
  }

  /** sortStreamMembers: with distinct keys there is one sorted order. */
  function SortRanges(ms: seq<Range>): seq<Range> {
    if ms == [] then [] else InsertRange(ms[0], SortRanges(ms[1..]))
  }

  lemma {:induction false} InsertRangeSorts(r: Range, sorted: seq<Range>)
    requires SortedRanges(sorted) && forall k :: 0 <= k < |sorted| ==> sorted[k].key != r.key
    ensures SortedRanges(InsertRange(r, sorted))
    ensures forall x :: x in InsertRange(r, sorted) <==> x == r || x in sorted
    decreases |sorted|
  {
    if sorted != [] {
      var first, tail := sorted[0], sorted[1..];
      assert sorted == [first] + tail;
      if Less(r.key, first.key) {
        forall k | 0 <= k < |sorted| ensures Less(r.key, sorted[k].key) {
          if k > 0 { LessTransitive(r.key, first.key, sorted[k].key); }
        }
      } else {
        LessTrichotomy(r.key, first.key);
        InsertRangeSorts(r, tail);
        var rest := InsertRange(r, tail);
        forall k | 0 <= k < |rest| ensures Less(first.key, rest[k].key) {
          assert rest[k] in rest;
        }
      }
    }
  }

  lemma {:induction false} SortRangesSorts(ms: seq<Range>)
    requires Distinct(ms)
    ensures SortedRanges(SortRanges(ms))
    ensures forall x :: x in SortRanges(ms) <==> x in ms
    decreases |ms|
  {
    if ms != [] {
      var tail := ms[1..];
      assert ms == [ms[0]] + tail;
      SortRangesSorts(tail);
      var sorted := SortRanges(tail);
      forall k | 0 <= k < |sorted| ensures sorted[k].key != ms[0].key {
        assert sorted[k] in tail;
        var j :| 0 <= j < |tail| && tail[j] == sorted[k];
        assert ms[j + 1] == sorted[k];
      }
      InsertRangeSorts(ms[0], sorted);
    }
  }

  /** The sorted ranges answer every lookup as the members do. */
  lemma SortedEntries(ms: seq<Range>, scratch: bytes)
    requires Within(ms, scratch) && Distinct(ms)
    ensures Within(SortRanges(ms), scratch) && Ascending(Entries(SortRanges(ms), scratch))
    ensures forall key :: Get(Entries(SortRanges(ms), scratch), key) == Get(Entries(ms, scratch), key)
  {
    SortRangesSorts(ms);
    var sorted := SortRanges(ms);
    forall k | 0 <= k < |sorted| ensures sorted[k].start <= sorted[k].end <= |scratch| {
      assert sorted[k] in ms;
    }
    var a, b := Entries(sorted, scratch), Entries(ms, scratch);
    AscendingIsDistinct(a);
    EntriesDistinct(ms, scratch);
    forall key ensures Get(a, key) == Get(b, key) {
      SameEntries(sorted, ms, scratch);
      if Get(a, key).Some? {
        GetIffIn(a, key, Get(a, key).value);
        GetIffIn(b, key, Get(a, key).value);
      } else if Get(b, key).Some? {
        GetIffIn(b, key, Get(b, key).value);
        GetIffIn(a, key, Get(b, key).value);
      }
    }
  }

  lemma SameEntries(a: seq<Range>, b: seq<Range>, scratch: bytes)
    requires Within(a, scratch) && Within(b, scratch) && forall x :: x in a <==> x in b
    ensures forall e :: e in Entries(a, scratch) <==> e in Entries(b, scratch)
  {
    forall e | e in Entries(a, scratch) ensures e in Entries(b, scratch) { EntryMoves(a, b, scratch, e); }
    forall e | e in Entries(b, scratch) ensures e in Entries(a, scratch) { EntryMoves(b, a, scratch, e); }
  }

  lemma EntryMoves(a: seq<Range>, b: seq<Range>, scratch: bytes, e: Entry<bytes>)
    requires Within(a, scratch) && Within(b, scratch) && (forall x :: x in a ==> x in b)
    requires e in Entries(a, scratch)
    ensures e in Entries(b, scratch)
  {
    var k :| 0 <= k < |a| && Entries(a, scratch)[k] == e;
    assert a[k] in b;
    var j :| 0 <= j < |b| && b[j] == a[k];
    assert Entries(b, scratch)[j] == e;
  }
}
