/**
 The compiled key policy: lowercase buckets with an ASCII path before them and an ordered scan behind them, against
 one scan of the bindings.
 */
module KeyLookup {
  import opened Bytes
  import opened Options

  /** A rule, and whether two values holding it can be compared. */
  datatype Rule = Rule(id: nat, comparable: bool)

  /** sameRule, for rules that are not nil. */
  predicate SameRule(a: Rule, b: Rule) { a.comparable && b.comparable && a == b }

  /** Keys and their rule; a nil rule is None. */
  datatype Binding = Binding(keys: seq<bytes>, rule: Option<Rule>)

  datatype Entry = Entry(key: bytes, rule: Rule)

  predicate IsASCII(s: bytes) { forall k :: 0 <= k < |s| ==> s[k] < 0x80 }

  function LowerByte(b: byte): byte { if 0x41 <= b <= 0x5A then b + 0x20 else b }

  function AsciiLower(s: bytes): (r: bytes) {
    if s == [] then [] else AsciiLower(s[..|s| - 1]) + [LowerByte(s[|s| - 1])]
  }

  predicate IsSeparator(b: byte) { b == 0x5F || b == 0x2D || b == 0x2E }

  /** A key without its separators. */
  function Strip(s: bytes): bytes {
    if s == [] then []
    else Strip(s[..|s| - 1]) + (if IsSeparator(s[|s| - 1]) then [] else [s[|s| - 1]])
  }

  /** strings.EqualFold and strings.ToLower. */
  datatype Folding = Folding(equal: (bytes, bytes) -> bool, lower: bytes -> bytes)

  /** Folding is an equivalence, and on ASCII text both functions go by the lowercase letters. */
  ghost predicate Lawful(f: Folding) {
    && (forall a :: f.equal(a, a))
    && (forall a, b :: f.equal(a, b) ==> f.equal(b, a))
    && (forall a, b, c :: f.equal(a, b) && f.equal(b, c) ==> f.equal(a, c))
    && (forall a :: IsASCII(a) ==> f.lower(a) == AsciiLower(a))
    && (forall a, b :: IsASCII(a) && IsASCII(b) ==> (f.equal(a, b) <==> AsciiLower(a) == AsciiLower(b)))
    && (forall a :: f.equal(a, []) ==> a == [])
  }

  /* ---------- the reference: one scan ---------- */

  function KeyEntries(keys: seq<bytes>, rule: Rule): seq<Entry> {
    if keys == [] then [] else KeyEntries(keys[..|keys| - 1], rule) + [Entry(Strip(keys[|keys| - 1]), rule)]
  }

  /** Every bound key, stripped, with its rule, in the order of declaration. */
  function EntriesOf(bindings: seq<Binding>): seq<Entry> {
    if bindings == [] then []
    else
      var last := bindings[|bindings| - 1];
      EntriesOf(bindings[..|bindings| - 1]) + (if last.rule.Some? then KeyEntries(last.keys, last.rule.value) else [])
  }

  /** The rule of the first entry whose key folds to a stripped key. */
  function FirstMatch(f: Folding, entries: seq<Entry>, stripped: bytes): Option<Rule> {
    if entries == [] then None
    else if f.equal(entries[0].key, stripped) then Some(entries[0].rule)
    else FirstMatch(f, entries[1..], stripped)
  }

  /** Keys that fold together have one comparable rule. */
  ghost predicate Unambiguous(f: Folding, entries: seq<Entry>) {
    forall j, k :: 0 <= j < k < |entries| && f.equal(entries[j].key, entries[k].key) ==>
      SameRule(entries[j].rule, entries[k].rule)
  }

  ghost predicate NoEmptyKey(entries: seq<Entry>) { forall k :: 0 <= k < |entries| ==> entries[k].key != [] }

  ghost predicate NoNilRule(bindings: seq<Binding>) { forall k :: 0 <= k < |bindings| ==> bindings[k].rule.Some? }

  /** The bindings a policy can be compiled from. */
  ghost predicate Compiles(f: Folding, bindings: seq<Binding>) {
    NoNilRule(bindings) && NoEmptyKey(EntriesOf(bindings)) && Unambiguous(f, EntriesOf(bindings))
  }

  lemma {:induction false} FirstMatchFinds(f: Folding, entries: seq<Entry>, stripped: bytes)
    ensures match FirstMatch(f, entries, stripped)
      case None => forall k :: 0 <= k < |entries| ==> !f.equal(entries[k].key, stripped)
      case Some(rule) => exists k :: 0 <= k < |entries| && f.equal(entries[k].key, stripped) && entries[k].rule == rule
    decreases |entries|
  {
    if entries != [] && !f.equal(entries[0].key, stripped) {
      FirstMatchFinds(f, entries[1..], stripped);
      if FirstMatch(f, entries, stripped).Some? {
        var k :| 0 <= k < |entries[1..]| && f.equal(entries[1..][k].key, stripped) &&
          entries[1..][k].rule == FirstMatch(f, entries, stripped).value;
        assert entries[k + 1] == entries[1..][k];
      } else {
        forall k | 0 <= k < |entries| ensures !f.equal(entries[k].key, stripped) {
          if k > 0 { assert entries[k] == entries[1..][k - 1]; }
        }
      }
    }
  }

  /** Any entry whose key folds to the stripped key has the rule of the first. */
  lemma MatchIsUnique(f: Folding, entries: seq<Entry>, stripped: bytes, k: nat)
    requires Lawful(f) && Unambiguous(f, entries) && k < |entries| && f.equal(entries[k].key, stripped)
    ensures FirstMatch(f, entries, stripped) == Some(entries[k].rule)
  {
    FirstMatchFinds(f, entries, stripped);
    var rule := FirstMatch(f, entries, stripped).value;
    var j :| 0 <= j < |entries| && f.equal(entries[j].key, stripped) && entries[j].rule == rule;
    assert f.equal(entries[j].key, entries[k].key) && f.equal(entries[k].key, entries[j].key);
  }

  /** Keys that differ only by separators and by what folds together get the same rule. */
  lemma {:induction false} SpellingIsFree(f: Folding, entries: seq<Entry>, a: bytes, b: bytes)
    requires Lawful(f) && f.equal(Strip(a), Strip(b))
    ensures FirstMatch(f, entries, Strip(a)) == FirstMatch(f, entries, Strip(b))
    decreases |entries|
  {
    if entries != [] {
      assert f.equal(entries[0].key, Strip(a)) <==> f.equal(entries[0].key, Strip(b));
      SpellingIsFree(f, entries[1..], a, b);
    }
  }

  lemma {:induction false} StripAppend(a: bytes, b: bytes)
    ensures Strip(a + b) == Strip(a) + Strip(b)
    decreases |b|
  {
    if b == [] {
      assert a + b == a;
    } else {
      var n := |b| - 1;
      assert (a + b)[..|a + b| - 1] == a + b[..n];
      StripAppend(a, b[..n]);
    }
  }

  /** '_', '-' and '.' make no difference anywhere in a key; every other byte is kept where it stands. */
  lemma SeparatorsAreFree(f: Folding, entries: seq<Entry>, a: bytes, c: byte, b: bytes)
    ensures c in {0x5F, 0x2D, 0x2E} ==>
      FirstMatch(f, entries, Strip(a + [c] + b)) == FirstMatch(f, entries, Strip(a + b))
    ensures c !in {0x5F, 0x2D, 0x2E} ==> Strip(a + [c] + b) == Strip(a) + [c] + Strip(b)
  {
    StripAppend(a + [c], b);
    StripAppend(a, [c]);
    StripAppend(a, b);
    assert [c][..0] == [];
    assert Strip([c]) == if c in {0x5F, 0x2D, 0x2E} then [] else [c];
    assert Strip(a) + [] == Strip(a);
  }

  lemma {:induction false} LowerAppend(a: bytes, b: bytes)
    ensures AsciiLower(a + b) == AsciiLower(a) + AsciiLower(b)
    decreases |b|
  {
    if b == [] {
      assert a + b == a;
    } else {
      var n := |b| - 1;
      assert (a + b)[..|a + b| - 1] == a + b[..n];
      LowerAppend(a, b[..n]);
    }
  }

  lemma OneLower(c: byte)
    requires 65 <= c <= 90
    ensures AsciiLower([c]) == [c + 32] == AsciiLower([c + 32])
  {
    assert [c][..0] == [];
    assert [c + 32][..0] == [];
  }

  /** A capital letter between texts lowers to the small letter, 32 bytes further on. */
  lemma CapitalLowers(a: bytes, c: byte, b: bytes)
    requires 65 <= c <= 90
    ensures AsciiLower(a + [c] + b) == AsciiLower(a + [c + 32] + b)
  {
    hide AsciiLower;
    OneLower(c);
    LowerAppend(a + [c], b);
    LowerAppend(a, [c]);
    LowerAppend(a + [c + 32], b);
    LowerAppend(a, [c + 32]);
  }

  lemma AsciiAround(a: bytes, c: byte, b: bytes)
    requires IsASCII(a) && IsASCII(b) && c < 0x80
    ensures IsASCII(Strip(a) + [c] + Strip(b))
  {
    StripKeepsASCII(a);
    StripKeepsASCII(b);
    hide Strip;
  }

  /** In an ASCII key a capital letter is decided as the small letter. */
  lemma CaseIsFree(f: Folding, entries: seq<Entry>, a: bytes, c: byte, b: bytes)
    requires Lawful(f) && IsASCII(a) && IsASCII(b) && 65 <= c <= 90
    ensures FirstMatch(f, entries, Strip(a + [c] + b)) == FirstMatch(f, entries, Strip(a + [c + 32] + b))
  {
    hide Lawful, IsASCII, FirstMatch, AsciiLower, Strip;
    SeparatorsAreFree(f, entries, a, c, b);
    SeparatorsAreFree(f, entries, a, c + 32, b);
    AsciiAround(a, c, b);
    AsciiAround(a, c + 32, b);
    CapitalLowers(Strip(a), c, Strip(b));
    FoldTogether(f, Strip(a + [c] + b), Strip(a + [c + 32] + b));
    SpellingIsFree(f, entries, a + [c] + b, a + [c + 32] + b);
  }

  lemma FoldTogether(f: Folding, a: bytes, b: bytes)
    requires Lawful(f) && IsASCII(a) && IsASCII(b) && AsciiLower(a) == AsciiLower(b)
    ensures f.equal(a, b)
  {
  }

  /** Every spelling of a bound key gets the rule it is bound to. */
  lemma BoundKeyFindsItsRule(f: Folding, bindings: seq<Binding>, b: nat, k: nat, key: bytes)
    requires Lawful(f) && Compiles(f, bindings)
    requires b < |bindings| && k < |bindings[b].keys| && f.equal(Strip(bindings[b].keys[k]), Strip(key))
    ensures FirstMatch(f, EntriesOf(bindings), Strip(key)) == bindings[b].rule
  {
    var at := EntryIndex(bindings, b, k);
    MatchIsUnique(f, EntriesOf(bindings), Strip(key), at);
  }

  /** Two bindings of keys that fold together compile exactly if the keys hold more than separators and the rules are one comparable rule. */
  lemma TwoBindings(f: Folding, a: bytes, b: bytes, r: Rule, q: Rule)
    requires Lawful(f) && f.equal(Strip(a), Strip(b))
    ensures Compiles(f, [Binding([a], Some(r)), Binding([b], Some(q))]) <==>
      Strip(a) != [] && Strip(b) != [] && r.comparable && q.comparable && r.id == q.id
  {
    hide Strip, Lawful;
    var bindings := [Binding([a], Some(r)), Binding([b], Some(q))];
    OneEntry(a, r);
    OneEntry(b, q);
    assert bindings[..1] == [Binding([a], Some(r))] && bindings[..1][..0] == [];
    assert EntriesOf(bindings[..1][..0]) == [];
    assert EntriesOf(bindings[..1]) == [Entry(Strip(a), r)];
    assert EntriesOf(bindings) == [Entry(Strip(a), r), Entry(Strip(b), q)];
    if Compiles(f, bindings) {
      assert SameRule(EntriesOf(bindings)[0].rule, EntriesOf(bindings)[1].rule);
      assert EntriesOf(bindings)[0].key != [] && EntriesOf(bindings)[1].key != [];
    }
  }

  lemma OneEntry(key: bytes, rule: Rule)
    ensures KeyEntries([key], rule) == [Entry(Strip(key), rule)]
  {
    hide Strip;
    assert [key][..0] == [];
  }

  lemma {:induction false} EntryIndex(bindings: seq<Binding>, b: nat, k: nat) returns (at: nat)
    requires NoNilRule(bindings) && b < |bindings| && k < |bindings[b].keys|
    ensures at < |EntriesOf(bindings)|
    ensures EntriesOf(bindings)[at] == Entry(Strip(bindings[b].keys[k]), bindings[b].rule.value)
    decreases |bindings|
  {
    var n := |bindings| - 1;
    var front := bindings[..n];
    if b == n {
      KeyEntryAt(bindings[n].keys, bindings[n].rule.value, k);
      at := |EntriesOf(front)| + k;
    } else {
      at := EntryIndex(front, b, k);
    }
  }

  lemma {:induction false} KeyEntryAt(keys: seq<bytes>, rule: Rule, k: nat)
    requires k < |keys|
    ensures |KeyEntries(keys, rule)| == |keys| && KeyEntries(keys, rule)[k] == Entry(Strip(keys[k]), rule)
    decreases |keys|
  {
    var n := |keys| - 1;
    if k < n {
      KeyEntryAt(keys[..n], rule, k);
    } else if n > 0 {
      KeyEntryAt(keys[..n], rule, 0);
    }
  }

  /* ---------- ASCII ---------- */

  lemma ASCIIAppended(front: bytes, back: bytes)
    ensures IsASCII(front + back) <==> IsASCII(front) && IsASCII(back)
  {
    var all := front + back;
    if IsASCII(all) {
      forall k | 0 <= k < |front| ensures front[k] < 0x80 { assert all[k] == front[k]; }
      forall k | 0 <= k < |back| ensures back[k] < 0x80 { assert all[|front| + k] == back[k]; }
    }
  }

  lemma {:induction false} StripKeepsASCII(s: bytes)
    ensures IsASCII(Strip(s)) <==> IsASCII(s)
    decreases |s|
  {
    if s != [] {
      var n := |s| - 1;
      StripKeepsASCII(s[..n]);
      LastStripped(s[n]);
      ASCIIAppended(s[..n], [s[n]]);
      ASCIIAppended(Strip(s[..n]), if IsSeparator(s[n]) then [] else [s[n]]);
      hide IsASCII;
      assert s == s[..n] + [s[n]];
    }
  }

  lemma LastStripped(b: byte)
    ensures IsASCII([b]) <==> IsASCII(if IsSeparator(b) then [] else [b])
  {
    if IsASCII(if IsSeparator(b) then [] else [b]) && !IsSeparator(b) { assert [b][0] < 0x80; }
  }

  /** Stripping and lowering a key byte by byte is stripping it and then lowering it. */
  lemma {:induction false} StrippedLower(s: bytes, n: nat)
    requires n < |s|
    ensures AsciiLower(Strip(s[..n + 1])) ==
      AsciiLower(Strip(s[..n])) + if IsSeparator(s[n]) then [] else [LowerByte(s[n])]
  {
    assert s[..n + 1][..n] == s[..n];
    var front := Strip(s[..n]);
    assert (front + [s[n]])[..|front|] == front;
    assert front + [] == front;
  }

  lemma {:induction false} StripNothing(s: bytes)
    requires forall k :: 0 <= k < |s| ==> !IsSeparator(s[k])
    ensures Strip(s) == s
    decreases |s|
  {
    if s != [] { StripNothing(s[..|s| - 1]); }
  }

  /** stripKeySeparators: a key without separators is returned as it is. */
  method StripKeySeparators(key: bytes) returns (stripped: bytes)
    ensures stripped == Strip(key)
  {
    if forall k :: 0 <= k < |key| ==> !IsSeparator(key[k]) {
      StripNothing(key);
      return key;
    }
    stripped := [];
    for index := 0 to |key|
      invariant stripped == Strip(key[..index])
    {
      assert key[..index + 1][..index] == key[..index];
      if !IsSeparator(key[index]) {
        stripped := stripped + [key[index]];
      }
    }
    assert key[..|key|] == key;
  }

  /** isASCII. */
  method CheckASCII(s: bytes) returns (ascii: bool)
    ensures ascii <==> IsASCII(s)
  {
    for index := 0 to |s|
      invariant forall k :: 0 <= k < index ==> s[k] < 0x80
    {
      if s[index] >= 0x80 {
        return false;
      }
    }
    return true;
  }

  /* ---------- the compiled policy ---------- */

  /** The entries whose lowercase key is that of the bucket, in order. */
  function Bucket(f: Folding, entries: seq<Entry>, lowered: bytes): seq<Entry> {
    if entries == [] then []
    else
      var last := entries[|entries| - 1];
      Bucket(f, entries[..|entries| - 1], lowered) + (if f.lower(last.key) == lowered then [last] else [])
  }

  lemma {:induction false} BucketHolds(f: Folding, entries: seq<Entry>, lowered: bytes)
    ensures forall e :: e in Bucket(f, entries, lowered) <==> e in entries && f.lower(e.key) == lowered
    decreases |entries|
  {
    if entries != [] {
      var n := |entries| - 1;
      BucketHolds(f, entries[..n], lowered);
      assert entries == entries[..n] + [entries[n]];
    }
  }

  ghost predicate Indexes(f: Folding, entries: seq<Entry>, buckets: map<bytes, seq<Entry>>) {
    forall lowered :: (if lowered in buckets then buckets[lowered] else []) == Bucket(f, entries, lowered)
  }

  /** Appending an entry to its bucket keeps the index. */
  lemma IndexesSnoc(f: Folding, entries: seq<Entry>, buckets: map<bytes, seq<Entry>>, e: Entry)
    requires Indexes(f, entries, buckets)
    ensures var at := f.lower(e.key);
      Indexes(f, entries + [e], buckets[at := (if at in buckets then buckets[at] else []) + [e]])
  {
    assert (entries + [e])[..|entries|] == entries;
  }

  lemma {:induction false} AgreesWithFirst(f: Folding, entries: seq<Entry>, stripped: bytes, e: Entry)
    requires Lawful(f) && Unambiguous(f, entries) && e in entries && f.equal(e.key, stripped)
    ensures FirstMatch(f, entries, stripped) == Some(e.rule)
  {
    var k :| 0 <= k < |entries| && entries[k] == e;
    MatchIsUnique(f, entries, stripped, k);
  }

  /** Among ASCII keys a bucket is a fold class: its first entry is the match, and no entry is outside it. */
  lemma AsciiBucketDecides(f: Folding, entries: seq<Entry>, stripped: bytes)
    requires Lawful(f) && Unambiguous(f, entries) && IsASCII(stripped)
    requires forall k :: 0 <= k < |entries| ==> IsASCII(entries[k].key)
    ensures var bucket := Bucket(f, entries, AsciiLower(stripped));
      FirstMatch(f, entries, stripped) == if bucket == [] then None else Some(bucket[0].rule)
  {
    var bucket := Bucket(f, entries, AsciiLower(stripped));
    BucketHolds(f, entries, AsciiLower(stripped));
    FirstMatchFinds(f, entries, stripped);
    if bucket != [] {
      assert bucket[0] in bucket;
      AgreesWithFirst(f, entries, stripped, bucket[0]);
    } else {
      forall k | 0 <= k < |entries| ensures !f.equal(entries[k].key, stripped) {
        assert entries[k] !in bucket;
      }
    }
  }

  const ASCII_BUFFER: nat := 64

  class KeyPolicy {
    const folding: Folding
    const ordered: seq<Entry>
    const entries: map<bytes, seq<Entry>>
    const asciiOnly: bool

    constructor (folding: Folding, ordered: seq<Entry>, entries: map<bytes, seq<Entry>>, asciiOnly: bool)
      ensures this.folding == folding && this.ordered == ordered && this.entries == entries && this.asciiOnly == asciiOnly
    {
      this.folding, this.ordered, this.entries, this.asciiOnly := folding, ordered, entries, asciiOnly;
    }

    ghost predicate Valid() {
      && Lawful(folding) && Unambiguous(folding, ordered) && NoEmptyKey(ordered) && Indexes(folding, ordered, entries)
      && (asciiOnly <==> forall k :: 0 <= k < |ordered| ==> IsASCII(ordered[k].key))
    }

    /** Decide: whichever tier answers, the answer is that of one scan of the bindings. */
    method Decide(key: bytes) returns (rule: Option<Rule>)
      requires Valid()
      ensures rule == FirstMatch(folding, ordered, Strip(key))
    {
      hide Lawful, Unambiguous, Indexes, NoEmptyKey, FirstMatch, Strip;
      if key == [] {
        StripNothing(key);
        NothingMatchesEmpty(key);
        return None;
      }
      if asciiOnly {
        var answered;
        rule, answered := DecideASCII(key);
        if answered {
          return;
        }
      }
      var stripped := StripKeySeparators(key);
      if stripped == [] {
        NothingMatchesEmpty(key);
        return None;
      }
      rule := InBucket(stripped);
      if rule == None {
        rule := Scan(stripped);
      }
    }

    lemma NothingMatchesEmpty(key: bytes)
      requires Valid() && Strip(key) == []
      ensures FirstMatch(folding, ordered, Strip(key)) == None
    {
      FirstMatchFinds(folding, ordered, []);
    }

    /** The lowercase bucket, checked entry by entry. */
    method InBucket(stripped: bytes) returns (rule: Option<Rule>)
      requires Valid()
      ensures rule.Some? ==> rule == FirstMatch(folding, ordered, stripped)
    {
      var lowered := folding.lower(stripped);
      var bucket := if lowered in entries then entries[lowered] else [];
      BucketHolds(folding, ordered, lowered);
      for index := 0 to |bucket| {
        if folding.equal(bucket[index].key, stripped) {
          assert bucket[index] in bucket;
          AgreesWithFirst(folding, ordered, stripped, bucket[index]);
          return Some(bucket[index].rule);
        }
      }
      return None;
    }

    /** The ordered scan. */
    method Scan(stripped: bytes) returns (rule: Option<Rule>)
      ensures rule == FirstMatch(folding, ordered, stripped)
    {
      assert ordered[0..] == ordered;
      for index := 0 to |ordered|
        invariant FirstMatch(folding, ordered, stripped) == FirstMatch(folding, ordered[index..], stripped)
      {
        if folding.equal(ordered[index].key, stripped) {
          return Some(ordered[index].rule);
        }
        assert ordered[index..][1..] == ordered[index + 1..];
      }
      return None;
    }

    /** decideASCII: it answers every ASCII key, and no other. */
    method DecideASCII(key: bytes) returns (rule: Option<Rule>, answered: bool)
      requires Valid() && asciiOnly
      ensures answered <==> IsASCII(key)
      ensures answered ==> rule == FirstMatch(folding, ordered, Strip(key))
    {
      hide FirstMatch, Unambiguous, Bucket, Strip, AsciiLower;
      var lowered;
      if |key| <= ASCII_BUFFER {
        lowered, answered := Normalize(key);
        if !answered {
          return None, false;
        }
      } else {
        answered := CheckASCII(key);
        if !answered {
          return None, false;
        }
        var stripped := StripKeySeparators(key);
        lowered := folding.lower(stripped);
      }
      StripKeepsASCII(key);
      AsciiBucketDecides(folding, ordered, Strip(key));
      var bucket := if lowered in entries then entries[lowered] else [];
      rule := if |bucket| == 0 then None else Some(bucket[0].rule);
    }
  }

  /** One pass over a short key: checked, lowered and stripped into a fixed buffer. */
  method Normalize(key: bytes) returns (lowered: bytes, ascii: bool)
    requires |key| <= ASCII_BUFFER
    ensures ascii <==> IsASCII(key)
    ensures ascii ==> lowered == AsciiLower(Strip(key))
  {
    hide AsciiLower, Strip;
    var buffer := new byte[ASCII_BUFFER];
    var size: nat := 0;
    NormalizedNothing(key);
    for index := 0 to |key|
      invariant forall k :: 0 <= k < index ==> key[k] < 0x80
      invariant size <= index && buffer[..size] == AsciiLower(Strip(key[..index]))
    {
      var letter := key[index];
      if letter >= 0x80 {
        return [], false;
      }
      StrippedLower(key, index);
      if !IsSeparator(letter) {
        buffer[size] := LowerByte(letter);
        size := size + 1;
      }
    }
    assert key[..|key|] == key;
    return buffer[..size], true;
  }

  lemma NormalizedNothing(key: bytes)
    ensures AsciiLower(Strip(key[..0])) == []
  {
  }

  /** Whether a key can join the accepted ones. */
  method Conflicts(f: Folding, accepted: seq<Entry>, e: Entry) returns (conflict: bool)
    ensures conflict <==> exists k :: 0 <= k < |accepted| && f.equal(accepted[k].key, e.key) && !SameRule(accepted[k].rule, e.rule)
  {
    for index := 0 to |accepted|
      invariant forall k :: 0 <= k < index ==> !f.equal(accepted[k].key, e.key) || SameRule(accepted[k].rule, e.rule)
    {
      if f.equal(accepted[index].key, e.key) && !SameRule(accepted[index].rule, e.rule) {
        return true;
      }
    }
    return false;
  }

  /** The entries of the bindings before the i-th and of the first j keys of the i-th. */
  function Taken(bindings: seq<Binding>, i: nat, j: nat): seq<Entry>
    requires i < |bindings| && bindings[i].rule.Some? && j <= |bindings[i].keys|
  {
    EntriesOf(bindings[..i]) + KeyEntries(bindings[i].keys[..j], bindings[i].rule.value)
  }

  lemma TakenNext(bindings: seq<Binding>, i: nat, j: nat)
    requires i < |bindings| && bindings[i].rule.Some? && j < |bindings[i].keys|
    ensures Taken(bindings, i, j + 1) ==
      Taken(bindings, i, j) + [Entry(Strip(bindings[i].keys[j]), bindings[i].rule.value)]
  {
    assert bindings[i].keys[..j + 1][..j] == bindings[i].keys[..j];
  }

  lemma TakenAll(bindings: seq<Binding>, i: nat)
    requires i < |bindings| && bindings[i].rule.Some?
    ensures Taken(bindings, i, 0) == EntriesOf(bindings[..i])
    ensures Taken(bindings, i, |bindings[i].keys|) == EntriesOf(bindings[..i + 1])
  {
    assert bindings[i].keys[..|bindings[i].keys|] == bindings[i].keys;
    assert bindings[..i + 1][..i] == bindings[..i];
  }

  lemma {:induction false} TakenIsPrefix(bindings: seq<Binding>, i: nat, j: nat)
    requires i < |bindings| && bindings[i].rule.Some? && j <= |bindings[i].keys|
    ensures Taken(bindings, i, j) <= EntriesOf(bindings)
    decreases |bindings| - i, |bindings[i].keys| - j
  {
    if j < |bindings[i].keys| {
      TakenNext(bindings, i, j);
      TakenIsPrefix(bindings, i, j + 1);
    } else {
      TakenAll(bindings, i);
      EntriesPrefix(bindings, i + 1);
    }
  }

  lemma {:induction false} EntriesPrefix(bindings: seq<Binding>, n: nat)
    requires n <= |bindings|
    ensures EntriesOf(bindings[..n]) <= EntriesOf(bindings)
    decreases |bindings|
  {
    if n == |bindings| {
      assert bindings[..n] == bindings;
    } else {
      var front := bindings[..|bindings| - 1];
      EntriesPrefix(front, n);
      assert front[..n] == bindings[..n];
    }
  }

  lemma NilRefused(f: Folding, bindings: seq<Binding>, i: nat)
    requires i < |bindings| && bindings[i].rule.None?
    ensures !Compiles(f, bindings)
  {
  }

  /** A key that is empty or conflicts with an earlier one makes the bindings refused. */
  lemma KeyRefused(f: Folding, bindings: seq<Binding>, i: nat, j: nat, e: Entry)
    requires i < |bindings| && bindings[i].rule.Some? && j < |bindings[i].keys|
    requires e == Entry(Strip(bindings[i].keys[j]), bindings[i].rule.value)
    requires var taken := Taken(bindings, i, j);
      e.key == [] || exists k :: 0 <= k < |taken| && f.equal(taken[k].key, e.key) && !SameRule(taken[k].rule, e.rule)
    ensures !Compiles(f, bindings)
  {
    hide Taken, EntriesOf;
    var taken := Taken(bindings, i, j);
    var all := EntriesOf(bindings);
    TakenNext(bindings, i, j);
    TakenIsPrefix(bindings, i, j + 1);
    assert taken + [e] <= all;
    assert all[|taken|] == e;
    if e.key != [] {
      var k :| 0 <= k < |taken| && f.equal(taken[k].key, e.key) && !SameRule(taken[k].rule, e.rule);
      assert all[k] == taken[k];
    }
  }

  lemma UnambiguousSnoc(f: Folding, entries: seq<Entry>, e: Entry)
    requires Unambiguous(f, entries) && NoEmptyKey(entries) && e.key != []
    requires forall k :: 0 <= k < |entries| && f.equal(entries[k].key, e.key) ==> SameRule(entries[k].rule, e.rule)
    ensures Unambiguous(f, entries + [e]) && NoEmptyKey(entries + [e])
  {
  }

  ghost predicate AllASCII(entries: seq<Entry>) { forall k :: 0 <= k < |entries| ==> IsASCII(entries[k].key) }

  lemma AllASCIISnoc(entries: seq<Entry>, key: bytes, rule: Rule)
    ensures AllASCII(entries + [Entry(Strip(key), rule)]) <==> AllASCII(entries) && IsASCII(key)
  {
    StripKeepsASCII(key);
    var all := entries + [Entry(Strip(key), rule)];
    if AllASCII(all) {
      assert IsASCII(all[|entries|].key);
      forall k | 0 <= k < |entries| ensures IsASCII(entries[k].key) { assert all[k] == entries[k]; }
    }
  }

  /** The validation: the bindings are accepted exactly if they compile. */
  method Accept(f: Folding, bindings: seq<Binding>) returns (ok: bool, asciiOnly: bool)
    ensures ok <==> Compiles(f, bindings)
    ensures ok ==> (asciiOnly <==> AllASCII(EntriesOf(bindings)))
  {
    hide Unambiguous, NoEmptyKey, EntriesOf, AllASCII, Strip, Taken;
    var accepted: seq<Entry> := [];
    asciiOnly := true;
    NothingAccepted(f, bindings);
    for i := 0 to |bindings|
      invariant NoNilRule(bindings[..i]) && accepted == EntriesOf(bindings[..i])
      invariant Unambiguous(f, accepted) && NoEmptyKey(accepted) && (asciiOnly <==> AllASCII(accepted))
    {
      if bindings[i].rule.None? {
        NilRefused(f, bindings, i);
        return false, asciiOnly;
      }
      var keys, rule := bindings[i].keys, bindings[i].rule.value;
      TakenAll(bindings, i);
      for j := 0 to |keys|
        invariant accepted == Taken(bindings, i, j)
        invariant Unambiguous(f, accepted) && NoEmptyKey(accepted) && (asciiOnly <==> AllASCII(accepted))
      {
        var stripped := StripKeySeparators(keys[j]);
        if stripped == [] {
          KeyRefused(f, bindings, i, j, Entry(stripped, rule));
          return false, asciiOnly;
        }
        var ascii := CheckASCII(keys[j]);
        if !ascii {
          asciiOnly := false;
        }
        var conflict := Conflicts(f, accepted, Entry(stripped, rule));
        if conflict {
          KeyRefused(f, bindings, i, j, Entry(stripped, rule));
          return false, asciiOnly;
        }
        UnambiguousSnoc(f, accepted, Entry(stripped, rule));
        AllASCIISnoc(accepted, keys[j], rule);
        TakenNext(bindings, i, j);
        accepted := accepted + [Entry(stripped, rule)];
      }
    }
    assert bindings[..|bindings|] == bindings;
    ok := true;
  }

  lemma NothingAccepted(f: Folding, bindings: seq<Binding>)
    ensures EntriesOf(bindings[..0]) == [] && AllASCII([]) && NoEmptyKey([]) && Unambiguous(f, [])
    ensures Indexes(f, [], map[])
  {
  }

  /** The buckets and the ordered list, built from the accepted bindings. */
  method Build(f: Folding, bindings: seq<Binding>) returns (ordered: seq<Entry>, entries: map<bytes, seq<Entry>>)
    requires NoNilRule(bindings)
    ensures ordered == EntriesOf(bindings) && Indexes(f, ordered, entries)
  {
    hide EntriesOf, Strip, Taken, Indexes;
    entries := map[];
    ordered := [];
    NothingAccepted(f, bindings);
    for i := 0 to |bindings|
      invariant ordered == EntriesOf(bindings[..i]) && Indexes(f, ordered, entries)
    {
      var keys, rule := bindings[i].keys, bindings[i].rule.value;
      TakenAll(bindings, i);
      for j := 0 to |keys|
        invariant ordered == Taken(bindings, i, j) && Indexes(f, ordered, entries)
      {
        var stripped := StripKeySeparators(keys[j]);
        var entry := Entry(stripped, rule);
        var lowered := f.lower(stripped);
        IndexesSnoc(f, ordered, entries, entry);
        TakenNext(bindings, i, j);
        entries := entries[lowered := (if lowered in entries then entries[lowered] else []) + [entry]];
        ordered := ordered + [entry];
      }
    }
    assert bindings[..|bindings|] == bindings;
  }

  /** NewKeyPolicy: bindings compile unless a rule is nil, a key is empty once stripped, or keys that fold together disagree. */
  method NewKeyPolicy(f: Folding, bindings: seq<Binding>) returns (policy: Option<KeyPolicy>)
    requires Lawful(f)
    ensures policy.Some? <==> Compiles(f, bindings)
    ensures policy.Some? ==>
      policy.value.Valid() && policy.value.folding == f && policy.value.ordered == EntriesOf(bindings)
  {
    hide Lawful, Unambiguous, NoEmptyKey, EntriesOf, Indexes;
    var ok, asciiOnly := Accept(f, bindings);
    if !ok {
      return None;
    }
    var ordered, entries := Build(f, bindings);
    var compiled := new KeyPolicy(f, ordered, entries, asciiOnly);
    policy := Some(compiled);
  }
}
