/**
 What the detectors find in a text, without the pass: every finding is described by the grammars of DetectGrammar,
 DetectSpans and CardNumbers, and whatever they describe at a position is found, unless an earlier finding covers it.
 */
module DetectPass {
  import opened Bytes
  import opened Options
  import opened DetectPatterns
  import opened DetectGrammar
  import opened DetectSpans
  import opened CardNumbers
  import opened Detect

  ghost predicate BearerAt(s: bytes, i: nat, m: Span) {
    m.kind == Bearer && exists w, b :: BearerVia(s, i, w, b, m.start, m.end)
  }

  ghost predicate PemAt(s: bytes, i: nat, m: Span) { m.kind == PEM && exists to :: PemVia(s, i, to, m.start, m.end) }

  ghost predicate JwtAt(s: bytes, i: nat, m: Span) {
    m.kind == JWT && m.start == i && exists h, p :: JwtVia(s, i, h, p, m.end)
  }

  ghost predicate ProviderAt(s: bytes, i: nat, m: Span) {
    m.kind == ProviderToken && m.start == i && exists k :: IssuedVia(s, i, k, m.end)
  }

  ghost predicate UserinfoAt(s: bytes, i: nat, m: Span) {
    m.kind == URLUserinfo && m.start >= 3 && UserinfoVia(s, i, m.start - 3, m.end)
  }

  /** What starts with a letter: the first of five forms that stands there. */
  ghost predicate WordSpanAt(s: bytes, i: nat, set_: Detectors, m: Span) {
    if exists x :: BearerAt(s, i, x) then BearerAt(s, i, m)
    else if exists x :: JwtAt(s, i, x) then JwtAt(s, i, m)
    else if exists x :: ProviderAt(s, i, x) then ProviderAt(s, i, m)
    else if set_.awsKeyIDs && AwsAt(s, i) then m == Span(i, i + 20, AWSKeyID)
    else UserinfoAt(s, i, m)
  }

  ghost predicate SpanAt(s: bytes, i: nat, set_: Detectors, m: Span)
    requires i < |s|
  {
    if Is(s[i], '-') then PemAt(s, i, m)
    else if Digit(s[i]) then set_.cards && m.kind == Card && m.start == i && CardTo(s, i, m.end)
    else Letter(s[i]) && WordSpanAt(s, i, set_, m)
  }

  lemma WordSpanIff(s: bytes, i: nat, set_: Detectors, m: Span)
    requires i < |s| && Letter(s[i])
    ensures MatchSpan(s, i, set_) == Some(m) <==> WordSpanAt(s, i, set_, m)
  {
    hide MatchPEM, MatchCard, MatchBearer, MatchJWT, MatchProviderToken, MatchAWSKeyID, MatchURLUserinfo, BearerVia, JwtVia,
      IssuedVia, UserinfoVia, AwsAt;
    ClassesAre(s[i]);
    forall x: Span ensures MatchBearer(s, i) == Some(x) <==> BearerAt(s, i, x) { BearerIff(s, i, x.start, x.end); }
    forall x: Span ensures MatchJWT(s, i) == Some(x) <==> JwtAt(s, i, x) { JwtIff(s, i, x.end); }
    forall x: Span ensures MatchProviderToken(s, i) == Some(x) <==> ProviderAt(s, i, x) { ProviderIff(s, i, x.end); }
    AwsIff(s, i);
    forall x: Span ensures MatchURLUserinfo(s, i) == Some(x) <==> UserinfoAt(s, i, x) { UserinfoIff(s, i, x.start, x.end); }
    hide BearerAt, JwtAt, ProviderAt, UserinfoAt;
    if MatchBearer(s, i).Some? { assert BearerAt(s, i, MatchBearer(s, i).value); }
    if MatchJWT(s, i).Some? { assert JwtAt(s, i, MatchJWT(s, i).value); }
    if MatchProviderToken(s, i).Some? { assert ProviderAt(s, i, MatchProviderToken(s, i).value); }
  }

  /** A span is matched at a position exactly if it is described there. */
  lemma SpanIff(s: bytes, i: nat, set_: Detectors, m: Span)
    requires i < |s|
    ensures MatchSpan(s, i, set_) == Some(m) <==> SpanAt(s, i, set_, m)
  {
    hide MatchPEM, MatchCard, MatchBearer, MatchJWT, MatchProviderToken, MatchAWSKeyID, MatchURLUserinfo, PemVia, CardTo,
      WordSpanAt;
    ClassesAre(s[i]);
    PemIff(s, i, m.start, m.end);
    if IsDigit(s[i]) { CardIff(s, i, m.end); }
    if Letter(s[i]) { WordSpanIff(s, i, set_, m); }
  }

  /* ---------- the pass ---------- */

  /** A finding that was matched before position i reaches past it: a span to its end, a pair to the start of its value. */
  ghost predicate Covered(s: bytes, set_: Detectors, f: Findings, i: nat) {
    || (exists j, m: Span :: 0 <= j < i < m.end && j < |s| && MatchSpan(s, j, set_) == Some(m) && m in f.spans)
    || (exists j, p: Pair :: 0 <= j < i < p.valueStart && j < |s| && MatchPair(s, j) == Some(p) && p in f.pairs)
  }

  ghost predicate Reported(s: bytes, set_: Detectors, f: Findings, i: nat)
    requires i < |s|
  {
    match MatchSpan(s, i, set_)
    case Some(m) => m in f.spans
    case None =>
      match MatchPair(s, i)
      case Some(p) => p in f.pairs
      case None => true
  }

  lemma {:induction false} PassFrom(s: bytes, n: nat, set_: Detectors, i: nat)
    requires n <= i < |s|
    ensures Reported(s, set_, Naive(s, n, set_), i) || Covered(s, set_, Naive(s, n, set_), i)
    decreases |s| - n
  {
    hide MatchSpan, MatchPair, Naive;
    NaiveStep(s, n, set_);
    var next := match MatchSpan(s, n, set_)
      case Some(m) => m.end
      case None => match MatchPair(s, n) case Some(p) => p.valueStart case None => n + 1;
    if n < i && next <= i {
      PassFrom(s, next, set_, i);
      Wider(s, set_, Naive(s, next, set_), Naive(s, n, set_), i);
    }
  }

  lemma Wider(s: bytes, set_: Detectors, f: Findings, g: Findings, i: nat)
    requires i < |s| && (forall m :: m in f.spans ==> m in g.spans) && (forall p :: p in f.pairs ==> p in g.pairs)
    ensures Reported(s, set_, f, i) ==> Reported(s, set_, g, i)
    ensures Covered(s, set_, f, i) ==> Covered(s, set_, g, i)
  {
    hide MatchSpan, MatchPair;
  }

  /** Nothing is missed: what matches at a position is found, unless a finding from before it covers the position. */
  lemma NothingMissed(s: bytes, set_: Detectors, i: nat)
    requires i < |s|
    ensures Reported(s, set_, Found(s, set_), i) || Covered(s, set_, Found(s, set_), i)
  {
    PassFrom(s, 0, set_, i);
  }

  lemma {:induction false} OnlyFrom(s: bytes, n: nat, set_: Detectors)
    ensures forall m :: m in Naive(s, n, set_).spans ==> exists i :: n <= i < |s| && MatchSpan(s, i, set_) == Some(m)
    ensures forall p :: p in Naive(s, n, set_).pairs ==> exists i :: n <= i < |s| && MatchPair(s, i) == Some(p)
    decreases |s| - n
  {
    hide MatchSpan, MatchPair, Naive;
    if n >= |s| {
      NaiveEnds(s, n, set_);
    } else {
      NaiveStep(s, n, set_);
      match MatchSpan(s, n, set_)
      case Some(span) => OnlyFrom(s, span.end, set_);
      case None =>
        match MatchPair(s, n)
        case Some(pair) => OnlyFrom(s, pair.valueStart, set_);
        case None => OnlyFrom(s, n + 1, set_);
    }
  }

  /** Nothing is made up: whatever is found is described by a grammar at some position. */
  lemma NothingInvented(s: bytes, set_: Detectors)
    ensures forall m :: m in Found(s, set_).spans ==> exists i :: 0 <= i < |s| && SpanAt(s, i, set_, m)
    ensures forall p :: p in Found(s, set_).pairs ==>
      exists i, after, c, v :: 0 <= i < |s| && PairVia(s, i, p, after, c, v)
  {
    hide MatchSpan, MatchPair, Naive, SpanAt, PairVia;
    OnlyFrom(s, 0, set_);
    forall m | m in Found(s, set_).spans ensures exists i :: 0 <= i < |s| && SpanAt(s, i, set_, m) {
      var i :| 0 <= i < |s| && MatchSpan(s, i, set_) == Some(m);
      SpanIff(s, i, set_, m);
    }
    forall p | p in Found(s, set_).pairs ensures exists i, after, c, v :: 0 <= i < |s| && PairVia(s, i, p, after, c, v) {
      var i :| 0 <= i < |s| && MatchPair(s, i) == Some(p);
      PairIff(s, i, p);
    }
  }
}
