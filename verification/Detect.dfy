/**
 The single forward pass of internal/detect/detect.go, and the naive pass it must agree with: run every
 detector at every position, measuring every value afresh.
 */
module Detect {
  import opened Bytes
  import opened Options
  import opened DetectText
  import opened DetectPatterns

  /** The detector a byte selects, and its match at i. */
  function MatchSpan(s: bytes, i: nat, set_: Detectors): (r: Option<Span>)
    requires i < |s|
    ensures r.Some? ==> i <= r.value.start < r.value.end <= |s|
  {
    if s[i] == MINUS then MatchPEM(s, i)
    else if IsDigit(s[i]) then if set_.cards then MatchCard(s, i) else None
    else if !IsLetter(s[i]) then None
    else if MatchBearer(s, i).Some? then MatchBearer(s, i)
    else if MatchJWT(s, i).Some? then MatchJWT(s, i)
    else if MatchProviderToken(s, i).Some? then MatchProviderToken(s, i)
    else if set_.awsKeyIDs && MatchAWSKeyID(s, i).Some? then MatchAWSKeyID(s, i)
    else MatchURLUserinfo(s, i)
  }

  datatype Findings = Findings(spans: seq<Span>, pairs: seq<Pair>) {
    predicate Any() { spans != [] || pairs != [] }
  }

  /** The naive pass from position i. */
  function Naive(s: bytes, i: nat, set_: Detectors): Findings
    decreases |s| - i
  {
    if i >= |s| then Findings([], [])
    else match MatchSpan(s, i, set_)
      case Some(span) =>
        var rest := Naive(s, span.end, set_);
        rest.(spans := [span] + rest.spans)
      case None =>
        match MatchPair(s, i)
        case Some(pair) =>
          var rest := Naive(s, pair.valueStart, set_);
          rest.(pairs := [pair] + rest.pairs)
        case None => Naive(s, i + 1, set_)
  }

  lemma NaiveStep(s: bytes, i: nat, set_: Detectors)
    requires i < |s|
    ensures MatchSpan(s, i, set_).Some? ==>
      var span := MatchSpan(s, i, set_).value;
      var rest := Naive(s, span.end, set_);
      Naive(s, i, set_) == Findings([span] + rest.spans, rest.pairs)
    ensures MatchSpan(s, i, set_).None? && MatchPair(s, i).Some? ==>
      var pair := MatchPair(s, i).value;
      var rest := Naive(s, pair.valueStart, set_);
      Naive(s, i, set_) == Findings(rest.spans, [pair] + rest.pairs)
    ensures MatchSpan(s, i, set_).None? && MatchPair(s, i).None? ==>
      Naive(s, i, set_) == Naive(s, i + 1, set_)
  {
    hide MatchSpan, MatchPair;
  }

  lemma NaiveEnds(s: bytes, i: nat, set_: Detectors)
    requires i >= |s|
    ensures Naive(s, i, set_) == Findings([], [])
  {
  }

  /** What the detectors find in a text. */
  function Found(s: bytes, set_: Detectors): Findings { Naive(s, 0, set_) }

  /** Inside a word no detector matches: each needs a boundary before a letter. */
  lemma WordInterior(s: bytes, i: nat, set_: Detectors)
    requires 0 < i < |s| && IsLetter(s[i]) && IsAlnum(s[i - 1])
    ensures MatchSpan(s, i, set_).None? && MatchPair(s, i).None?
  {
    hide RunEnd, HasPrefixAt, SchemeLen, FirstProviderEnd, SegmentEnd, KeyRunEnd, ValueStart;
  }

  method FindSpan(s: bytes, index: nat, set_: Detectors) returns (r: Option<Span>)
    requires index < |s|
    ensures r == MatchSpan(s, index, set_)
  {
    hide MatchPEM, MatchCard, MatchBearer, MatchJWT, MatchProviderToken, MatchAWSKeyID, MatchURLUserinfo;
    var c := s[index];
    if c == MINUS {
      r := FindPEM(s, index);
      return;
    }
    if IsDigit(c) {
      if set_.cards {
        r := FindCard(s, index);
        return;
      }
      return None;
    }
    if !IsLetter(c) {
      return None;
    }
    r := FindBearer(s, index);
    if r.Some? {
      return;
    }
    r := FindJWT(s, index);
    if r.Some? {
      return;
    }
    r := FindProviderToken(s, index);
    if r.Some? {
      return;
    }
    if set_.awsKeyIDs {
      r := FindAWSKeyID(s, index);
      if r.Some? {
        return;
      }
    }
    r := FindURLUserinfo(s, index);
  }

  /**
   scan: one pass that skips the insides of words, reuses the last value run it measured, and with first
   set stops at the first hit. It finds exactly what the naive pass finds.
   */
  method Scan(s: bytes, set_: Detectors, first: bool) returns (findings: Findings, found: bool)
    ensures found == Found(s, set_).Any()
    ensures findings == if first then Findings([], []) else Found(s, set_)
  {
    hide MatchSpan, MatchPair, Naive;
    var run := new RunCache();
    var spans: seq<Span>, pairs: seq<Pair> := [], [];
    found := false;
    var index := 0;
    ghost var rest := Naive(s, 0, set_);
    while index < |s|
      invariant run.Measured(s) && fresh(run)
      invariant rest == Naive(s, index, set_)
      invariant Found(s, set_) == Findings(spans + rest.spans, pairs + rest.pairs)
      invariant found == (spans != [] || pairs != [])
      invariant first ==> !found
      decreases |s| - index
    {
      NaiveStep(s, index, set_);
      if index > 0 && IsLetter(s[index]) && IsAlnum(s[index - 1]) {
        WordInterior(s, index, set_);
        index := index + 1;
        continue;
      }
      var span := FindSpan(s, index, set_);
      if span.Some? {
        if first {
          return Findings([], []), true;
        }
        rest := Naive(s, span.value.end, set_);
        assert spans + ([span.value] + rest.spans) == (spans + [span.value]) + rest.spans;
        spans := spans + [span.value];
        found := true;
        index := if span.value.end > index + 1 then span.value.end else index + 1;
        continue;
      }
      var pair := FindPair(s, index, run);
      if pair.Some? {
        if first {
          return Findings([], []), true;
        }
        rest := Naive(s, pair.value.valueStart, set_);
        assert pairs + ([pair.value] + rest.pairs) == (pairs + [pair.value]) + rest.pairs;
        pairs := pairs + [pair.value];
        found := true;
        index := pair.value.valueStart;
        continue;
      }
      index := index + 1;
    }
    findings := Findings(spans, pairs);
    NaiveEnds(s, index, set_);
    assert spans + [] == spans && pairs + [] == pairs;
  }

  /** Find. */
  method Find(s: bytes, set_: Detectors) returns (findings: Findings)
    ensures findings == Found(s, set_)
  {
    var found;
    findings, found := Scan(s, set_, false);
  }

  /** Candidate: exact, not a prefilter. */
  method Candidate(s: bytes, set_: Detectors) returns (found: bool)
    ensures found == Found(s, set_).Any()
  {
    var findings;
    findings, found := Scan(s, set_, true);
  }

  /* ---------- what every finding looks like ---------- */

  /** Spans from position i on: not empty, inside the text, ascending and disjoint. */
  predicate Ascending(spans: seq<Span>, i: nat, n: nat) {
    (forall k :: 0 <= k < |spans| ==> i <= spans[k].start < spans[k].end <= n) &&
    (forall j, k :: 0 <= j < k < |spans| ==> spans[j].end <= spans[k].start)
  }

  predicate WellShaped(p: Pair, n: nat) {
    p.keyStart < p.keyEnd <= p.valueStart < p.valueEnd <= n
  }

  /** Pairs from position i on: well shaped, each starting at or after the value of the one before it. */
  predicate Orderly(pairs: seq<Pair>, i: nat, n: nat) {
    (forall k :: 0 <= k < |pairs| ==> i <= pairs[k].keyStart && WellShaped(pairs[k], n)) &&
    (forall j, k :: 0 <= j < k < |pairs| ==> pairs[j].keyStart < pairs[j].valueStart <= pairs[k].keyStart)
  }

  lemma {:induction false} FindingsInOrder(s: bytes, i: nat, set_: Detectors)
    ensures Ascending(Naive(s, i, set_).spans, i, |s|)
    ensures Orderly(Naive(s, i, set_).pairs, i, |s|)
    decreases |s| - i
  {
    hide MatchSpan, MatchPair, Naive;
    if i >= |s| {
      NaiveEnds(s, i, set_);
    } else {
      NaiveStep(s, i, set_);
      match MatchSpan(s, i, set_)
      case Some(span) => FindingsInOrder(s, span.end, set_);
      case None =>
        match MatchPair(s, i)
        case Some(pair) => FindingsInOrder(s, pair.valueStart, set_);
        case None => FindingsInOrder(s, i + 1, set_);
    }
  }

  /** No span found lies inside, or overlaps, another; no key is found twice. */
  lemma FoundInOrder(s: bytes, set_: Detectors)
    ensures Ascending(Found(s, set_).spans, 0, |s|)
    ensures Orderly(Found(s, set_).pairs, 0, |s|)
  {
    FindingsInOrder(s, 0, set_);
  }
}
