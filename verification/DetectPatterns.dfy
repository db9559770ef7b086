/**
 The matchers of internal/detect/patterns.go. Each is specified by a function of the text and a position;
 the loops that compute them are in the methods below the functions.
 */
module DetectPatterns {
  import opened Bytes
  import opened Options
  import opened DetectText

  const BEARER: bytes := [0x62, 0x65, 0x61, 0x72, 0x65, 0x72]  // bearer
  const BASIC: bytes := [0x62, 0x61, 0x73, 0x69, 0x63]  // basic
  const TOKEN: bytes := [0x74, 0x6F, 0x6B, 0x65, 0x6E]  // token
  const PEM_BEGIN: bytes := [0x2D, 0x2D, 0x2D, 0x2D, 0x2D, 0x42, 0x45, 0x47, 0x49, 0x4E, 0x20]  // -----BEGIN 
  const PEM_END: bytes := [0x2D, 0x2D, 0x2D, 0x2D, 0x2D, 0x45, 0x4E, 0x44, 0x20]  // -----END 
  const DASHES: bytes := [0x2D, 0x2D, 0x2D, 0x2D, 0x2D]  // -----
  const PRIVATE_KEY: bytes := [0x50, 0x52, 0x49, 0x56, 0x41, 0x54, 0x45, 0x20, 0x4B, 0x45, 0x59]  // PRIVATE KEY
  const EYJ: bytes := [0x65, 0x79, 0x4A]  // eyJ
  const COLON_SLASHES: bytes := [0x3A, 0x2F, 0x2F]  // ://
  const SLASHES: bytes := [0x2F, 0x2F]  // //
  const AKIA: bytes := [0x41, 0x4B, 0x49, 0x41]  // AKIA
  const ASIA: bytes := [0x41, 0x53, 0x49, 0x41]  // ASIA
  const ABIA: bytes := [0x41, 0x42, 0x49, 0x41]  // ABIA
  const ACCA: bytes := [0x41, 0x43, 0x43, 0x41]  // ACCA

  datatype Kind = Bearer | PEM | JWT | ProviderToken | URLUserinfo | Card | AWSKeyID

  datatype Span = Span(start: nat, end: nat, kind: Kind)

  datatype Pair = Pair(keyStart: nat, keyEnd: nat, valueStart: nat, valueEnd: nat)

  datatype Detectors = Detectors(cards: bool, awsKeyIDs: bool)

  const MIN_LOWER_TOKEN := 20
  const MAX_KEY_LEN := 64

  /* ---------- Bearer and Basic ---------- */

  /** The length of the authentication scheme word at i, or 0. */
  function SchemeLen(s: bytes, i: nat): (n: nat)
    ensures i + n <= |s| || n == 0
  {
    if HasFoldPrefixAt(s, i, BEARER) then |BEARER|
    else if HasFoldPrefixAt(s, i, BASIC) then |BASIC|
    else 0
  }

  function CredentialEnd(s: bytes, start: nat): (e: nat)
    requires start <= |s|
    ensures start <= e <= |s|
  {
    RunEnd(s, RunEnd(s, start, IsToken68), IsEquals)
  }

  function MatchBearer(s: bytes, i: nat): (r: Option<Span>)
    requires i < |s|
    ensures r.Some? ==> i < r.value.start < r.value.end <= |s|
  {
    var n := SchemeLen(s, i);
    if !BoundedBefore(s, i, IsWord) || n == 0 then None
    else
      var start := SkipBlanks(s, i + n);
      var end := CredentialEnd(s, start);
      if start == i + n || end - start < 8 then None
      // A short token of lowercase letters only is prose.
      else if end - start < MIN_LOWER_TOKEN && forall k :: start <= k < end ==> IsLower(s[k]) then None
      else Some(Span(start, end, Bearer))
  }

  method FindScheme(s: bytes, index: nat) returns (word: nat)
    ensures word == SchemeLen(s, index)
  {
    var bearer := CheckFoldPrefixAt(s, index, BEARER);
    if bearer {
      return |BEARER|;
    }
    var basic := CheckFoldPrefixAt(s, index, BASIC);
    return if basic then |BASIC| else 0;
  }

  method FindBearer(s: bytes, index: nat) returns (r: Option<Span>)
    requires index < |s|
    ensures r == MatchBearer(s, index)
  {
    hide RunEnd, SchemeLen;
    if !BoundedBefore(s, index, IsWord) {
      return None;
    }
    var word := FindScheme(s, index);
    if word == 0 {
      return None;
    }
    var start := FindRunEnd(s, index + word, IsBlank);
    if start == index + word {
      return None;
    }
    var end := FindRunEnd(s, start, IsToken68);
    end := FindRunEnd(s, end, IsEquals);
    if end - start < 8 {
      return None;
    }
    if end - start >= MIN_LOWER_TOKEN {
      return Some(Span(start, end, Bearer));
    }
    var prose := AllLower(s, start, end);
    return if prose then None else Some(Span(start, end, Bearer));
  }

  method AllLower(s: bytes, start: nat, end: nat) returns (ok: bool)
    requires start <= end <= |s|
    ensures ok <==> forall k :: start <= k < end ==> IsLower(s[k])
  {
    var offset := start;
    while offset < end
      invariant start <= offset <= end
      invariant forall k :: start <= k < offset ==> IsLower(s[k])
    {
      if !IsLower(s[offset]) {
        return false;
      }
      offset := offset + 1;
    }
    return true;
  }

  /* ---------- PEM private keys ---------- */

  /** The end of the label that starts at start, from position at on; none if the line ends first. */
  function LabelEnd(s: bytes, start: nat, at: nat): (r: Option<nat>)
    requires start <= at <= |s|
    ensures r.Some? ==> at <= r.value <= |s|
    decreases |s| - at
  {
    if at < |s| && at - start <= 64 && !HasPrefixAt(s, at, DASHES) then
      if s[at] == LF then None else LabelEnd(s, start, at + 1)
    else Some(at)
  }

  predicate ContainsBetween(s: bytes, start: nat, end: nat, needle: bytes) {
    exists k :: start <= k <= end - |needle| && HasPrefixAt(s, k, needle)
  }

  /** The END line of the block labelled s[from..to] starts at footer. */
  predicate IsFooter(s: bytes, footer: nat, from: nat, to: nat)
    requires from <= to <= |s|
  {
    HasPrefixAt(s, footer, PEM_END) &&
    HasPrefixAt(s, footer + |PEM_END|, s[from..to]) &&
    HasPrefixAt(s, footer + |PEM_END| + (to - from), DASHES)
  }

  /** Where the body from at on ends: at the END line, or with the text. */
  function BodyEnd(s: bytes, at: nat, from: nat, to: nat): (e: nat)
    requires from <= to <= |s| && at <= |s|
    ensures at <= e <= |s|
    decreases |s| - at
  {
    if at < |s| && !IsFooter(s, at, from, to) then BodyEnd(s, at + 1, from, to) else at
  }

  function MatchPEM(s: bytes, i: nat): (r: Option<Span>)
    requires i < |s|
    ensures r.Some? ==> i < r.value.start < r.value.end <= |s|
  {
    if !HasPrefixAt(s, i, PEM_BEGIN) then None
    else
      var from := i + |PEM_BEGIN|;
      match LabelEnd(s, from, from)
      case None => None
      case Some(to) =>
        if !HasPrefixAt(s, to, DASHES) || !ContainsBetween(s, from, to, PRIVATE_KEY) then None
        else
          var start := to + |DASHES|;
          var end := BodyEnd(s, start, from, to);
          if end == start then None else Some(Span(start, end, PEM))
  }

  method FindPEM(s: bytes, index: nat) returns (r: Option<Span>)
    requires index < |s|
    ensures r == MatchPEM(s, index)
  {
    hide HasPrefixAt, LabelEnd, BodyEnd, ContainsBetween;
    var begins := CheckPrefixAt(s, index, PEM_BEGIN);
    if !begins {
      return None;
    }
    PrefixFits(s, index, PEM_BEGIN);
    var labelStart := index + |PEM_BEGIN|;
    var end := FindLabelEnd(s, labelStart);
    if end.None? {
      return None;
    }
    var labelEnd := end.value;
    var closed := CheckPrefixAt(s, labelEnd, DASHES);
    if !closed {
      return None;
    }
    PrefixFits(s, labelEnd, DASHES);
    var private_ := ContainsAt(s, labelStart, labelEnd, PRIVATE_KEY);
    if !private_ {
      return None;
    }
    var bodyStart := labelEnd + |DASHES|;
    var bodyEnd := FindBodyEnd(s, bodyStart, labelStart, labelEnd);
    if bodyEnd == bodyStart {
      return None;
    }
    return Some(Span(bodyStart, bodyEnd, PEM));
  }

  lemma PrefixFits(s: bytes, i: nat, prefix: bytes)
    requires HasPrefixAt(s, i, prefix)
    ensures i + |prefix| <= |s|
  {
  }

  /** The label loop: it stops at dashes, past 64 bytes, or with the text, and fails with the line. */
  method FindLabelEnd(s: bytes, labelStart: nat) returns (r: Option<nat>)
    requires labelStart <= |s|
    ensures r == LabelEnd(s, labelStart, labelStart)
  {
    hide HasPrefixAt;
    var labelEnd := labelStart;
    var closed := CheckPrefixAt(s, labelEnd, DASHES);
    while labelEnd < |s| && labelEnd - labelStart <= 64 && !closed
      invariant labelStart <= labelEnd <= |s|
      invariant closed == HasPrefixAt(s, labelEnd, DASHES)
      invariant LabelEnd(s, labelStart, labelEnd) == LabelEnd(s, labelStart, labelStart)
    {
      if s[labelEnd] == LF {
        return None;
      }
      labelEnd := labelEnd + 1;
      closed := CheckPrefixAt(s, labelEnd, DASHES);
    }
    return Some(labelEnd);
  }

  /** The footer loop. */
  method FindBodyEnd(s: bytes, bodyStart: nat, from: nat, to: nat) returns (footer: nat)
    requires from <= to <= |s| && bodyStart <= |s|
    ensures footer == BodyEnd(s, bodyStart, from, to)
  {
    hide IsFooter;
    footer := bodyStart;
    while footer < |s|
      invariant bodyStart <= footer <= |s|
      invariant BodyEnd(s, footer, from, to) == BodyEnd(s, bodyStart, from, to)
    {
      var found := CheckFooter(s, footer, from, to);
      if found {
        return;
      }
      footer := footer + 1;
    }
  }

  method CheckFooter(s: bytes, footer: nat, from: nat, to: nat) returns (ok: bool)
    requires from <= to <= |s|
    ensures ok == IsFooter(s, footer, from, to)
  {
    ok := CheckPrefixAt(s, footer, PEM_END);
    if !ok {
      return;
    }
    var labelAt := footer + |PEM_END|;
    ok := SameBytes(s, labelAt, from, to - from);
    if !ok {
      return;
    }
    ok := CheckPrefixAt(s, labelAt + (to - from), DASHES);
  }

  /** sameBytes: s[at:at+n] equals s[from:from+n]. */
  method SameBytes(s: bytes, at: nat, from: nat, n: nat) returns (ok: bool)
    requires from + n <= |s|
    ensures ok == HasPrefixAt(s, at, s[from..from + n])
  {
    if at + n > |s| {
      return false;
    }
    var offset := 0;
    while offset < n
      invariant offset <= n
      invariant s[at..at + offset] == s[from..from + offset]
    {
      if s[at + offset] != s[from + offset] {
        assert s[at..at + n][offset] != s[from..from + n][offset];
        return false;
      }
      assert s[at..at + offset + 1] == s[at..at + offset] + [s[at + offset]];
      assert s[from..from + offset + 1] == s[from..from + offset] + [s[from + offset]];
      offset := offset + 1;
    }
    return true;
  }

  method ContainsAt(s: bytes, start: nat, end: nat, needle: bytes) returns (ok: bool)
    ensures ok == ContainsBetween(s, start, end, needle)
  {
    var index := start;
    while index + |needle| <= end
      invariant start <= index
      invariant forall k :: start <= k < index ==> !HasPrefixAt(s, k, needle)
      decreases end - index
    {
      var here := CheckPrefixAt(s, index, needle);
      if here {
        return true;
      }
      index := index + 1;
    }
    return false;
  }

  /* ---------- JSON Web Tokens ---------- */

  /** The end of a base64url segment at i that begins with "eyJ", is ten bytes long and ends at a dot. */
  function SegmentEnd(s: bytes, i: nat): (r: Option<nat>)
    requires i <= |s|
    ensures r.Some? ==> i + 10 <= r.value < |s|
  {
    var e := RunEnd(s, i, IsBase64URL);
    if HasPrefixAt(s, i, EYJ) && e - i >= 10 && e < |s| && s[e] == DOT then Some(e) else None
  }

  function MatchJWT(s: bytes, i: nat): (r: Option<Span>)
    requires i < |s|
    ensures r.Some? ==> i == r.value.start < r.value.end <= |s|
  {
    if !BoundedBefore(s, i, IsJWTChar) then None
    else match SegmentEnd(s, i)
      case None => None
      case Some(header) =>
        match SegmentEnd(s, header + 1)
        case None => None
        case Some(payload) => Some(Span(i, RunEnd(s, payload + 1, IsBase64URL), JWT))
  }

  method FindJWT(s: bytes, index: nat) returns (r: Option<Span>)
    requires index < |s|
    ensures r == MatchJWT(s, index)
  {
    hide RunEnd, HasPrefixAt;
    if !BoundedBefore(s, index, IsJWTChar) {
      return None;
    }
    var begins := CheckPrefixAt(s, index, EYJ);
    if !begins {
      return None;
    }
    var headerEnd := FindRunEnd(s, index, IsBase64URL);
    if headerEnd - index < 10 || headerEnd >= |s| || s[headerEnd] != DOT {
      return None;
    }
    var payload := headerEnd + 1;
    begins := CheckPrefixAt(s, payload, EYJ);
    if !begins {
      return None;
    }
    var payloadEnd := FindRunEnd(s, payload, IsBase64URL);
    if payloadEnd - payload < 10 || payloadEnd >= |s| || s[payloadEnd] != DOT {
      return None;
    }
    var end := FindRunEnd(s, payloadEnd + 1, IsBase64URL);
    return Some(Span(index, end, JWT));
  }

  /* ---------- provider tokens ---------- */

  datatype Provider = Provider(prefix: bytes, class_: byte -> bool, min: nat, exact: bool)

  const PROVIDERS: seq<Provider> := [
    Provider([0x67, 0x68, 0x70, 0x5F], IsAlnum, 36, false),  // ghp_
    Provider([0x67, 0x68, 0x6F, 0x5F], IsAlnum, 36, false),  // gho_
    Provider([0x67, 0x68, 0x75, 0x5F], IsAlnum, 36, false),  // ghu_
    Provider([0x67, 0x68, 0x73, 0x5F], IsAlnum, 36, false),  // ghs_
    Provider([0x67, 0x68, 0x72, 0x5F], IsAlnum, 36, false),  // ghr_
    Provider([0x67, 0x69, 0x74, 0x68, 0x75, 0x62, 0x5F, 0x70, 0x61, 0x74, 0x5F], IsWord, 22, false),  // github_pat_
    Provider([0x67, 0x6C, 0x70, 0x61, 0x74, 0x2D], IsBase64URL, 20, false),  // glpat-
    Provider([0x78, 0x6F, 0x78, 0x62, 0x2D], IsAlnumDash, 10, false),  // xoxb-
    Provider([0x78, 0x6F, 0x78, 0x70, 0x2D], IsAlnumDash, 10, false),  // xoxp-
    Provider([0x78, 0x6F, 0x78, 0x61, 0x2D], IsAlnumDash, 10, false),  // xoxa-
    Provider([0x78, 0x6F, 0x78, 0x72, 0x2D], IsAlnumDash, 10, false),  // xoxr-
    Provider([0x78, 0x6F, 0x78, 0x73, 0x2D], IsAlnumDash, 10, false),  // xoxs-
    Provider([0x78, 0x6F, 0x78, 0x65, 0x2D], IsAlnumDash, 10, false),  // xoxe-
    Provider([0x73, 0x6B, 0x5F, 0x6C, 0x69, 0x76, 0x65, 0x5F], IsAlnum, 16, false),  // sk_live_
    Provider([0x72, 0x6B, 0x5F, 0x6C, 0x69, 0x76, 0x65, 0x5F], IsAlnum, 16, false),  // rk_live_
    Provider([0x73, 0x6B, 0x5F, 0x74, 0x65, 0x73, 0x74, 0x5F], IsAlnum, 16, false),  // sk_test_
    Provider([0x72, 0x6B, 0x5F, 0x74, 0x65, 0x73, 0x74, 0x5F], IsAlnum, 16, false),  // rk_test_
    Provider([0x41, 0x49, 0x7A, 0x61], IsBase64URL, 35, true),  // AIza
    Provider([0x6E, 0x70, 0x6D, 0x5F], IsAlnum, 36, false)  // npm_
  ]

  /** The end of the token of one provider at i. */
  function ProviderEnd(s: bytes, i: nat, p: Provider): (r: Option<nat>)
    ensures r.Some? ==> i + |p.prefix| <= r.value <= |s|
  {
    if !HasPrefixAt(s, i, p.prefix) then None
    else
      var start := i + |p.prefix|;
      var end := RunEnd(s, start, p.class_);
      var n := end - start;
      if n < p.min || (p.exact && n != p.min) then None else Some(end)
  }

  /** The end of the token of the first provider, from the k-th on, that has one at i. */
  function FirstProviderEnd(s: bytes, i: nat, k: nat): (r: Option<nat>)
    ensures r.Some? ==> i < r.value <= |s|
    decreases |PROVIDERS| - k
  {
    if k >= |PROVIDERS| then None
    else if ProviderEnd(s, i, PROVIDERS[k]).Some? then ProviderEnd(s, i, PROVIDERS[k])
    else FirstProviderEnd(s, i, k + 1)
  }

  function MatchProviderToken(s: bytes, i: nat): (r: Option<Span>)
    requires i < |s|
    ensures r.Some? ==> i == r.value.start < r.value.end <= |s|
  {
    if !BoundedBefore(s, i, IsWord) || FirstProviderEnd(s, i, 0).None? then None
    else Some(Span(i, FirstProviderEnd(s, i, 0).value, ProviderToken))
  }

  method FindProviderToken(s: bytes, index: nat) returns (r: Option<Span>)
    requires index < |s|
    ensures r == MatchProviderToken(s, index)
  {
    hide RunEnd, HasPrefixAt;
    if !BoundedBefore(s, index, IsWord) {
      return None;
    }
    var k := 0;
    while k < |PROVIDERS|
      invariant k <= |PROVIDERS|
      invariant FirstProviderEnd(s, index, k) == FirstProviderEnd(s, index, 0)
    {
      var provider := PROVIDERS[k];
      k := k + 1;
      var here := CheckPrefixAt(s, index, provider.prefix);
      if !here {
        continue;
      }
      var start := index + |provider.prefix|;
      var end := FindRunEnd(s, start, provider.class_);
      var n := end - start;
      if n < provider.min || (provider.exact && n != provider.min) {
        continue;
      }
      return Some(Span(index, end, ProviderToken));
    }
    return None;
  }

  /* ---------- AWS access key ids ---------- */

  function MatchAWSKeyID(s: bytes, i: nat): (r: Option<Span>)
    requires i < |s|
    ensures r.Some? ==> i == r.value.start < r.value.end <= |s|
  {
    if !BoundedBefore(s, i, IsAlnum) then None
    else if !HasPrefixAt(s, i, AKIA) && !HasPrefixAt(s, i, ASIA) && !HasPrefixAt(s, i, ABIA) &&
            !HasPrefixAt(s, i, ACCA) then None
    else if i + 20 > |s| || (i + 20 < |s| && IsAlnum(s[i + 20])) then None
    else if forall k :: i + 4 <= k < i + 20 ==> IsUpperOrDigit(s[k]) then Some(Span(i, i + 20, AWSKeyID))
    else None
  }

  method FindAWSKeyID(s: bytes, index: nat) returns (r: Option<Span>)
    requires index < |s|
    ensures r == MatchAWSKeyID(s, index)
  {
    if !BoundedBefore(s, index, IsAlnum) {
      return None;
    }
    var a := CheckPrefixAt(s, index, AKIA);
    var b := CheckPrefixAt(s, index, ASIA);
    var c := CheckPrefixAt(s, index, ABIA);
    var d := CheckPrefixAt(s, index, ACCA);
    if !a && !b && !c && !d {
      return None;
    }
    var end := index + 20;
    if end > |s| || (end < |s| && IsAlnum(s[end])) {
      return None;
    }
    var offset := index + 4;
    while offset < end
      invariant index + 4 <= offset <= end
      invariant forall k :: index + 4 <= k < offset ==> IsUpperOrDigit(s[k])
    {
      if !IsUpperOrDigit(s[offset]) {
        return None;
      }
      offset := offset + 1;
    }
    return Some(Span(index, end, AWSKeyID));
  }

  /* ---------- userinfo of a URL in text ---------- */

  function MatchURLUserinfo(s: bytes, i: nat): (r: Option<Span>)
    requires i < |s|
    ensures r.Some? ==> i < r.value.start < r.value.end <= |s|
  {
    var schemeEnd := RunEnd(s, i, IsSchemeChar);
    if !BoundedBefore(s, i, IsSchemeChar) || !HasPrefixAt(s, schemeEnd, COLON_SLASHES) then None
    else
      var start := schemeEnd + |COLON_SLASHES|;
      var end := RunEnd(s, start, IsAuthorityChar);
      if end == start || end == |s| || s[end] != 0x40 then None else Some(Span(start, end, URLUserinfo))
  }

  method FindURLUserinfo(s: bytes, index: nat) returns (r: Option<Span>)
    requires index < |s|
    ensures r == MatchURLUserinfo(s, index)
  {
    hide RunEnd;
    if !BoundedBefore(s, index, IsSchemeChar) {
      return None;
    }
    var schemeEnd := FindRunEnd(s, index, IsSchemeChar);
    var here := CheckPrefixAt(s, schemeEnd, COLON_SLASHES);
    if !here {
      return None;
    }
    var start := schemeEnd + |COLON_SLASHES|;
    var end := FindRunEnd(s, start, IsAuthorityChar);
    if end == start || end == |s| || s[end] != 0x40 {
      return None;
    }
    return Some(Span(start, end, URLUserinfo));
  }

  /* ---------- payment card numbers ---------- */

  datatype CardRun = CardRun(end: nat, digits: nat)

  /** Digits, grouped by single spaces or dashes, from end on, at most one past the longest number. */
  function CardRunFrom(s: bytes, end: nat, digits: nat): (r: CardRun)
    requires 0 < end <= |s|
    ensures end <= r.end <= |s|
    decreases |s| - end
  {
    if end == |s| || digits > 19 then CardRun(end, digits)
    else if IsDigit(s[end]) then CardRunFrom(s, end + 1, digits + 1)
    else if (s[end] == SPACE || s[end] == MINUS) && end + 1 < |s| && IsDigit(s[end + 1]) && IsDigit(s[end - 1]) then
      CardRunFrom(s, end + 1, digits)
    else CardRun(end, digits)
  }

  function Doubled(digit: nat): nat { if 2 * digit > 9 then 2 * digit - 9 else 2 * digit }

  /** The Luhn sum of the digits of s[start..end], the last digit doubled if asked. */
  function LuhnSum(s: bytes, start: nat, end: nat, double: bool): nat
    requires start <= end <= |s|
    decreases end - start
  {
    if start == end then 0
    else if !IsDigit(s[end - 1]) then LuhnSum(s, start, end - 1, double)
    else
      var digit: nat := s[end - 1] as int - 0x30;
      (if double then Doubled(digit) else digit) + LuhnSum(s, start, end - 1, !double)
  }

  function MatchCard(s: bytes, i: nat): (r: Option<Span>)
    requires i < |s| && IsDigit(s[i])
    ensures r.Some? ==> i == r.value.start < r.value.end <= |s|
  {
    var run := CardRunFrom(s, i + 1, 1);
    if !BoundedBefore(s, i, IsAlnum) then None
    else if run.digits < 13 || run.digits > 19 || (run.end < |s| && IsLetter(s[run.end])) then None
    else if LuhnSum(s, i, run.end, false) % 10 != 0 then None
    else Some(Span(i, run.end, Card))
  }

  method FindCard(s: bytes, index: nat) returns (r: Option<Span>)
    requires index < |s| && IsDigit(s[index])
    ensures r == MatchCard(s, index)
  {
    if !BoundedBefore(s, index, IsAlnum) {
      return None;
    }
    var end, digits := index, 0;
    ghost var want := CardRunFrom(s, index + 1, 1);
    while end < |s| && digits <= 19
      invariant index <= end <= |s|
      invariant end == index ==> digits == 0
      invariant end > index ==> CardRunFrom(s, end, digits) == want
    {
      if IsDigit(s[end]) {
        digits := digits + 1;
        end := end + 1;
        continue;
      }
      if (s[end] == SPACE || s[end] == MINUS) && end + 1 < |s| && IsDigit(s[end + 1]) && IsDigit(s[end - 1]) {
        end := end + 1;
        continue;
      }
      break;
    }
    assert want == CardRun(end, digits);
    if digits < 13 || digits > 19 || (end < |s| && IsLetter(s[end])) {
      return None;
    }
    var valid := Luhn(s, index, end);
    if !valid {
      return None;
    }
    return Some(Span(index, end, Card));
  }

  method Luhn(s: bytes, start: nat, end: nat) returns (ok: bool)
    requires start <= end <= |s|
    ensures ok == (LuhnSum(s, start, end, false) % 10 == 0)
  {
    var sum, double := 0, false;
    var index: int := end - 1;
    while index >= start
      invariant start - 1 <= index < end
      invariant sum + LuhnSum(s, start, index + 1, double) == LuhnSum(s, start, end, false)
    {
      if IsDigit(s[index]) {
        var digit: nat := s[index] as int - 0x30;
        if double {
          digit := digit * 2;
          if digit > 9 {
            digit := digit - 9;
          }
        }
        sum := sum + digit;
        double := !double;
      }
      index := index - 1;
    }
    return sum % 10 == 0;
  }

  /* ---------- key=value pairs ---------- */

  /** The end of a key from i, stopping one byte past the longest key. */
  function KeyRunEnd(s: bytes, start: nat, at: nat): (e: nat)
    requires start <= at <= |s|
    ensures at <= e <= |s|
    ensures e > at ==> IsKeyChar(s[at])
    decreases |s| - at
  {
    if at < |s| && at - start <= MAX_KEY_LEN && IsKeyChar(s[at]) then KeyRunEnd(s, start, at + 1) else at
  }

  predicate HasLetter(s: bytes, start: nat, end: nat)
    requires end <= |s|
  {
    exists k :: start <= k < end && IsLetter(s[k])
  }

  /** Whether the byte after a separator carries the value on. */
  predicate SeparatorContinues(s: bytes, i: nat) {
    if i >= |s| || (!IsValueChar(s[i]) && !IsSeparator(s[i])) then false
    else if !IsKeyStart(s[i]) then true
    else
      var keyEnd := KeyRunEnd(s, i, i);
      keyEnd - i > MAX_KEY_LEN || keyEnd >= |s| || s[keyEnd] != 0x3D
  }

  /** The end of an unquoted value from i. */
  function ValueRunEnd(s: bytes, i: nat): (e: nat)
    requires i <= |s|
    ensures i <= e <= |s|
    decreases |s| - i
  {
    var e := RunEnd(s, i, IsValueChar);
    if e >= |s| || !IsSeparator(s[e]) || !SeparatorContinues(s, e + 1) then e else ValueRunEnd(s, e + 1)
  }

  /** The end of a quoted value from i: its quote, the line, or the text. */
  function QuotedEnd(s: bytes, i: nat, quote: byte): (e: nat)
    requires i <= |s|
    ensures i <= e <= |s|
    decreases |s| - i
  {
    if i >= |s| || s[i] == LF || s[i] == quote then i
    else if s[i] == BACKSLASH && i + 1 < |s| && s[i + 1] != LF then QuotedEnd(s, i + 2, quote)
    else QuotedEnd(s, i + 1, quote)
  }

  predicate IsSchemeWord(s: bytes, start: nat, end: nat)
    requires start <= end
  {
    if end - start == |BEARER| then HasFoldPrefixAt(s, start, BEARER)
    else end - start == |BASIC| && (HasFoldPrefixAt(s, start, BASIC) || HasFoldPrefixAt(s, start, TOKEN))
  }

  predicate IsAnyQuote(c: byte) { c == QUOTE || c == 0x27 }

  datatype KeyAt = KeyAt(start: nat, end: nat, after: nat)

  /** The key at i and where the text after it, and after its closing quote, goes on. */
  function MatchKey(s: bytes, i: nat): (r: Option<KeyAt>)
    requires i < |s|
    ensures r.Some? ==> i <= r.value.start < r.value.end <= r.value.after <= |s| && r.value.start <= i + 1
  {
    if IsAnyQuote(s[i]) then
      if i + 1 >= |s| || !IsKeyStart(s[i + 1]) then None
      else
        var end := KeyRunEnd(s, i + 1, i + 1);
        if end >= |s| || s[end] != s[i] || !KeyFits(s, i + 1, end) then None
        else Some(KeyAt(i + 1, end, end + 1))
    else if !IsKeyStart(s[i]) || (i > 0 && (IsKeyChar(s[i - 1]) || s[i - 1] == 0x2F)) then None
    else
      var end := KeyRunEnd(s, i, i);
      if KeyFits(s, i, end) then Some(KeyAt(i, end, end)) else None
  }

  predicate KeyFits(s: bytes, start: nat, end: nat)
    requires start <= end <= |s|
  {
    end - start <= MAX_KEY_LEN && HasLetter(s, start, end)
  }

  /** Where the value of a key that ended before after may start. */
  function ValueStart(s: bytes, after: nat): (r: Option<nat>)
    requires after <= |s|
    ensures r.Some? ==> after < r.value < |s|
  {
    var a := SkipBlanks(s, after);
    if a >= |s| || (s[a] != 0x3D && s[a] != COLON) then None
    else if s[a] == COLON && HasPrefixAt(s, a + 1, SLASHES) then None
    else
      var v := SkipBlanks(s, a + 1);
      if v >= |s| then None else Some(v)
  }

  /** An authentication scheme word takes the credential after it into the value. */
  function WithCredential(s: bytes, start: nat, end: nat): (e: nat)
    requires start <= end <= |s|
    ensures end <= e <= |s|
  {
    if !IsSchemeWord(s, start, end) then end
    else
      var credential := SkipBlanks(s, end);
      if credential > end && ValueRunEnd(s, credential) > credential then ValueRunEnd(s, credential) else end
  }

  function MatchPair(s: bytes, i: nat): (r: Option<Pair>)
    requires i < |s|
    ensures r.Some? ==> i <= r.value.keyStart < r.value.keyEnd <= r.value.valueStart < r.value.valueEnd <= |s|
    ensures r.Some? ==> i < r.value.valueStart
  {
    match MatchKey(s, i)
    case None => None
    case Some(key) =>
      match ValueStart(s, key.after)
      case None => None
      case Some(v) =>
        if IsAnyQuote(s[v]) then
          var end := QuotedEnd(s, v + 1, s[v]);
          if end == v + 1 then None else Some(Pair(key.start, key.end, v + 1, end))
        else if ValueRunEnd(s, v) == v then None
        else Some(Pair(key.start, key.end, v, WithCredential(s, v, ValueRunEnd(s, v))))
  }

  /** The run of value bytes measured last, s[start:end]. */
  class RunCache {
    var start: nat
    var end: nat

    constructor ()
      ensures start == 0 && end == 0
    {
      start, end := 0, 0;
    }

    /** Whatever is cached is what measuring it again would give. */
    ghost predicate Measured(s: bytes)
      reads this
    {
      end <= |s| && (start < end ==> ValueRunEnd(s, start) == end)
    }
  }

  /** A value run has the same end from every position inside it. */
  lemma {:induction false} RunIsShared(s: bytes, i: nat, x: nat)
    requires i <= |s| && i <= x < ValueRunEnd(s, i)
    ensures ValueRunEnd(s, x) == ValueRunEnd(s, i)
    decreases |s| - i
  {
    var e := RunEnd(s, i, IsValueChar);
    if x < e {
      RunEndIs(s, x, e, IsValueChar);
    } else if x == e {
      RunEndIs(s, e, e, IsValueChar);
    } else {
      RunIsShared(s, e + 1, x);
    }
  }

  method FindKeyRunEnd(s: bytes, index: nat) returns (end: nat)
    requires index <= |s|
    ensures end == KeyRunEnd(s, index, index)
  {
    end := index;
    while end < |s| && end - index <= MAX_KEY_LEN && IsKeyChar(s[end])
      invariant index <= end <= |s|
      invariant KeyRunEnd(s, index, end) == KeyRunEnd(s, index, index)
    {
      end := end + 1;
    }
  }

  method FindLetter(s: bytes, start: nat, end: nat) returns (ok: bool)
    requires end <= |s|
    ensures ok == HasLetter(s, start, end)
  {
    var index := start;
    while index < end
      invariant start <= index
      invariant forall k :: start <= k < index && k < end ==> !IsLetter(s[k])
    {
      if IsLetter(s[index]) {
        return true;
      }
      index := index + 1;
    }
    return false;
  }

  method CheckSeparatorContinues(s: bytes, index: nat) returns (ok: bool)
    ensures ok == SeparatorContinues(s, index)
  {
    if index >= |s| || (!IsValueChar(s[index]) && !IsSeparator(s[index])) {
      return false;
    }
    if !IsKeyStart(s[index]) {
      return true;
    }
    var keyEnd := FindKeyRunEnd(s, index);
    return keyEnd - index > MAX_KEY_LEN || keyEnd >= |s| || s[keyEnd] != 0x3D;
  }

  method FindValueRunEnd(s: bytes, start: nat) returns (index: nat)
    requires start <= |s|
    ensures index == ValueRunEnd(s, start)
  {
    hide SeparatorContinues;
    index := start;
    while true
      invariant start <= index <= |s|
      invariant ValueRunEnd(s, index) == ValueRunEnd(s, start)
      decreases |s| - index
    {
      index := FindRunEnd(s, index, IsValueChar);
      if index >= |s| || !IsSeparator(s[index]) {
        return;
      }
      var continues := CheckSeparatorContinues(s, index + 1);
      if !continues {
        return;
      }
      index := index + 1;
    }
  }

  method FindQuotedEnd(s: bytes, start: nat, quote: byte) returns (valueEnd: nat)
    requires start <= |s|
    ensures valueEnd == QuotedEnd(s, start, quote)
  {
    valueEnd := start;
    while valueEnd < |s| && s[valueEnd] != LF && s[valueEnd] != quote
      invariant start <= valueEnd <= |s|
      invariant QuotedEnd(s, valueEnd, quote) == QuotedEnd(s, start, quote)
    {
      if s[valueEnd] == BACKSLASH && valueEnd + 1 < |s| && s[valueEnd + 1] != LF {
        valueEnd := valueEnd + 1;
      }
      valueEnd := valueEnd + 1;
    }
  }

  method CheckSchemeWord(s: bytes, start: nat, end: nat) returns (ok: bool)
    requires start <= end
    ensures ok == IsSchemeWord(s, start, end)
  {
    if end - start == |BEARER| {
      ok := CheckFoldPrefixAt(s, start, BEARER);
    } else if end - start == |BASIC| {
      ok := CheckFoldPrefixAt(s, start, BASIC);
      if !ok {
        ok := CheckFoldPrefixAt(s, start, TOKEN);
      }
    } else {
      ok := false;
    }
  }

  method FindValueStart(s: bytes, from: nat) returns (r: Option<nat>)
    requires from <= |s|
    ensures r == ValueStart(s, from)
  {
    hide RunEnd;
    var after := FindRunEnd(s, from, IsBlank);
    if after >= |s| || (s[after] != 0x3D && s[after] != COLON) {
      return None;
    }
    var slashes := CheckPrefixAt(s, after + 1, SLASHES);
    if s[after] == COLON && slashes {
      return None;
    }
    var valueStart := FindRunEnd(s, after + 1, IsBlank);
    if valueStart >= |s| {
      return None;
    }
    return Some(valueStart);
  }

  method FindCredential(s: bytes, valueStart: nat, end: nat) returns (valueEnd: nat)
    requires valueStart <= end <= |s|
    ensures valueEnd == WithCredential(s, valueStart, end)
  {
    hide RunEnd, ValueRunEnd, IsSchemeWord;
    valueEnd := end;
    var scheme := CheckSchemeWord(s, valueStart, valueEnd);
    if scheme {
      var credential := FindRunEnd(s, valueEnd, IsBlank);
      if credential > valueEnd {
        var credentialEnd := FindValueRunEnd(s, credential);
        if credentialEnd > credential {
          valueEnd := credentialEnd;
        }
      }
    }
  }

  method FindKey(s: bytes, index: nat) returns (r: Option<KeyAt>)
    requires index < |s|
    ensures r == MatchKey(s, index)
  {
    var keyStart, keyEnd, after := index, index, index;
    if IsAnyQuote(s[index]) {
      keyStart := index + 1;
      if keyStart >= |s| || !IsKeyStart(s[keyStart]) {
        return None;
      }
      keyEnd := FindKeyRunEnd(s, keyStart);
      if keyEnd >= |s| || s[keyEnd] != s[index] {
        return None;
      }
      after := keyEnd + 1;
    } else {
      if !IsKeyStart(s[index]) || (index > 0 && (IsKeyChar(s[index - 1]) || s[index - 1] == 0x2F)) {
        return None;
      }
      keyEnd := FindKeyRunEnd(s, keyStart);
      after := keyEnd;
    }
    var letter := FindLetter(s, keyStart, keyEnd);
    if keyEnd - keyStart > MAX_KEY_LEN || !letter {
      return None;
    }
    return Some(KeyAt(keyStart, keyEnd, after));
  }

  /** matchPair: the cached run changes how often a value is measured, never what is found. */
  method FindPair(s: bytes, index: nat, run: RunCache) returns (r: Option<Pair>)
    requires index < |s| && run.Measured(s)
    modifies run
    ensures run.Measured(s)
    ensures r == MatchPair(s, index)
  {
    hide MatchKey, ValueStart, QuotedEnd, ValueRunEnd, WithCredential;
    var key := FindKey(s, index);
    if key.None? {
      return None;
    }
    var value := FindValueStart(s, key.value.after);
    if value.None? {
      return None;
    }
    var valueStart := value.value;
    if IsAnyQuote(s[valueStart]) {
      var end := FindQuotedEnd(s, valueStart + 1, s[valueStart]);
      if end == valueStart + 1 {
        return None;
      }
      return Some(Pair(key.value.start, key.value.end, valueStart + 1, end));
    }
    var valueEnd := run.end;
    if valueStart < run.start || valueStart >= run.end {
      valueEnd := FindValueRunEnd(s, valueStart);
      run.start, run.end := valueStart, valueEnd;
    } else {
      RunIsShared(s, run.start, valueStart);
    }
    if valueEnd == valueStart {
      return None;
    }
    valueEnd := FindCredential(s, valueStart, valueEnd);
    return Some(Pair(key.value.start, key.value.end, valueStart, valueEnd));
  }
}
