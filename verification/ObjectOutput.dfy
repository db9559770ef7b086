/** The members of a streamed object against the masked object they stand for. */
module ObjectOutput {
  import opened Bytes
  import opened Options
  import opened SortedMap
  import opened JsonOut
  import opened StreamMembers
  import opened MaskSpec
  import opened JsonString

  function EncodedValue(v: Option<Json>): Option<bytes> {
    match v
    case None => None
    case Some(j) => Some(Encode(j))
  }

  /** Every key has the encoding of its masked value, and nothing else has one. */
  ghost predicate Represents(ms: seq<Range>, scratch: bytes, outs: seq<Entry<Json>>) {
    Distinct(ms) && Within(ms, scratch) && Ascending(outs) &&
    forall key :: Get(Entries(ms, scratch), key) == EncodedValue(Get(outs, key))
  }

  lemma NothingRepresented()
    ensures Represents([], [], [])
  {
  }

  /** A member written to the end of the scratch buffer. */
  lemma Written(ms: seq<Range>, scratch: bytes, outs: seq<Entry<Json>>, key: bytes, tree: Json)
    requires Represents(ms, scratch, outs)
    ensures var grown := scratch + Encode(tree);
      Represents(Replaced(ms, Range(key, |scratch|, |grown|)), grown, Put(outs, key, tree))
  {
    hide Encode, Entries, Get, Put, Replaced;
    var text := Encode(tree);
    var grown := scratch + text;
    var r := Range(key, |scratch|, |grown|);
    EntriesGrow(ms, scratch, text);
    ReplacedDistinct(ms, r);
    PutAscends(outs, key, tree);
    assert grown[r.start..r.end] == text;
    UpsertLookup(ms, r, grown, key);
    forall k ensures Get(Entries(Replaced(ms, r), grown), k) == EncodedValue(Get(Put(outs, key, tree), k)) {
      UpsertLookup(ms, r, grown, k);
      GetPut(outs, key, tree, k);
    }
  }

  lemma TakenAway(ms: seq<Range>, scratch: bytes, outs: seq<Entry<Json>>, key: bytes)
    requires Represents(ms, scratch, outs)
    ensures Represents(Removed(ms, key), scratch, Drop(outs, key))
  {
    hide Encode, Entries, Get, Drop, Removed;
    RemovedDistinct(ms, key);
    DropAscends(outs, key);
    RemoveLookup(ms, key, scratch, key);
    forall k ensures Get(Entries(Removed(ms, key), scratch), k) == EncodedValue(Get(Drop(outs, key), k)) {
      RemoveLookup(ms, key, scratch, k);
      GetDrop(outs, key, k);
    }
  }

  /** One member settled: omitted, or written after what the buffer held. */
  lemma Settled(ms: seq<Range>, scratch: bytes, outs: seq<Entry<Json>>, key: bytes, out: Out)
    requires Represents(ms, scratch, outs)
    ensures out.Omitted? ==> Represents(Removed(ms, key), scratch, Settle(outs, key, out))
    ensures out.Kept? ==>
      var grown := scratch + Encode(out.tree);
      Represents(Replaced(ms, Range(key, |scratch|, |grown|)), grown, Settle(outs, key, out))
  {
    hide Encode, Represents;
    match out
    case Omitted => TakenAway(ms, scratch, outs, key);
    case Kept(tree) => Written(ms, scratch, outs, key, tree);
  }

  function EncodedEntries(outs: seq<Entry<Json>>): seq<Entry<bytes>> {
    seq(|outs|, i requires 0 <= i < |outs| => Entry(outs[i].key, Encode(outs[i].value)))
  }

  lemma {:induction false} EncodedLookup(outs: seq<Entry<Json>>, key: bytes)
    ensures Get(EncodedEntries(outs), key) == EncodedValue(Get(outs, key))
    decreases |outs|
  {
    hide Encode;
    if outs != [] {
      EncodedLookup(outs[1..], key);
      assert EncodedEntries(outs)[1..] == EncodedEntries(outs[1..]);
    }
  }

  /** The body of an object, from the texts of its members. */
  function BodyOf(es: seq<Entry<bytes>>): bytes {
    if es == [] then []
    else
      var n := |es| - 1;
      BodyOf(es[..n]) + (if n == 0 then [] else [COMMA]) + MemberText(es[n].key, es[n].value)
  }

  lemma {:induction false} BodyOfEncoded(outs: seq<Entry<Json>>)
    ensures BodyOf(EncodedEntries(outs)) == MembersBody(outs)
    decreases |outs|
  {
    hide Encode, MemberText;
    if outs != [] {
      var n := |outs| - 1;
      BodyOfEncoded(outs[..n]);
      assert EncodedEntries(outs)[..n] == EncodedEntries(outs[..n]);
    }
  }

  /** Emitted in key order, the members are the encoded object. */
  lemma SortedIsEncoded(ms: seq<Range>, scratch: bytes, outs: seq<Entry<Json>>)
    requires Represents(ms, scratch, outs)
    ensures Within(SortRanges(ms), scratch)
    ensures BodyOf(Entries(SortRanges(ms), scratch)) == MembersBody(outs)
  {
    hide Encode, Entries, Get, SortRanges, BodyOf, MembersBody;
    SortedEntries(ms, scratch);
    EncodedAscending(outs);
    forall key ensures Get(Entries(SortRanges(ms), scratch), key) == Get(EncodedEntries(outs), key) {
      EncodedLookup(outs, key);
    }
    SameLookups(Entries(SortRanges(ms), scratch), EncodedEntries(outs));
    BodyOfEncoded(outs);
  }

  lemma EncodedAscending(outs: seq<Entry<Json>>)
    requires Ascending(outs)
    ensures Ascending(EncodedEntries(outs))
  {
    hide Encode;
  }

  /** The emit loop of appendObject over sorted members. */
  method EmitMembers(dst: bytes, sorted: seq<Range>, scratch: bytes) returns (out: bytes)
    requires Within(sorted, scratch)
    ensures out == dst + [LBRACE] + BodyOf(Entries(sorted, scratch)) + [RBRACE]
  {
    hide Quoted;
    out := dst + [LBRACE];
    ghost var es := Entries(sorted, scratch);
    var index := 0;
    while index < |sorted|
      invariant index <= |sorted|
      invariant out == dst + [LBRACE] + BodyOf(es[..index])
    {
      ghost var sofar := out;
      if index > 0 {
        out := out + [COMMA];
      }
      var member := sorted[index];
      out := AppendJSONString(out, member.key);
      out := out + [COLON];
      out := out + scratch[member.start..member.end];
      EmitStep(sofar, dst, es, index);
      index := index + 1;
    }
    assert es[..index] == es;
    out := out + [RBRACE];
  }

  lemma EmitStep(sofar: bytes, dst: bytes, es: seq<Entry<bytes>>, index: nat)
    requires index < |es| && sofar == dst + [LBRACE] + BodyOf(es[..index])
    ensures (if index > 0 then sofar + [COMMA] else sofar) + Quoted(es[index].key) + [COLON] + es[index].value
         == dst + [LBRACE] + BodyOf(es[..index + 1])
  {
    hide Quoted;
    assert es[..index + 1][..index] == es[..index];
    var b := BodyOf(es[..index]);
    var c := if index > 0 then [COMMA] else [];
    var q, v := Quoted(es[index].key), es[index].value;
    assert BodyOf(es[..index + 1]) == b + c + (q + [COLON] + v);
    assert (dst + [LBRACE]) + (b + c + (q + [COLON] + v)) == (((dst + [LBRACE] + b) + c) + q) + [COLON] + v;
  }
}
