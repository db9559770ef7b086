/**
 The spans the detectors take, described as DetectGrammar describes pairs, and what the single pass makes of them:
 nothing that matches at a position is missed unless the pass has already taken that position in.
 */
module DetectSpans {
  import opened Bytes
  import opened Options
  import opened DetectText
  import opened DetectPatterns
  import opened DetectGrammar
  import opened Detect

  datatype Class = TokenBytes | EqualsSigns | Base64Bytes | SchemeBytes | AuthorityBytes | AlnumBytes | WordBytes | AlnumDashes

  ghost predicate In(c: Class, b: byte) {
    match c
    case TokenBytes => Token68(b)
    case EqualsSigns => Is(b, '=')
    case Base64Bytes => Base64URL(b)
    case SchemeBytes => SchemeByte(b)
    case AuthorityBytes => AuthorityByte(b)
    case AlnumBytes => Alnum(b)
    case WordBytes => Word(b)
    case AlnumDashes => Alnum(b) || Is(b, '-')
  }

  /** A run of bytes of one class, as long as it can be. */
  ghost predicate Longest(s: bytes, a: nat, b: nat, c: Class) {
    a <= b <= |s| && (forall k :: a <= k < b ==> In(c, s[k])) && (b == |s| || !In(c, s[b]))
  }

  lemma LongestIff(s: bytes, a: nat, b: nat, class_: byte -> bool, c: Class)
    requires a <= |s| && forall x: byte :: class_(x) == In(c, x)
    ensures RunEnd(s, a, class_) == b <==> Longest(s, a, b, c)
  {
    var e := RunEnd(s, a, class_);
    if Longest(s, a, b, c) { RunEndIs(s, a, b, class_); }
  }

  lemma SameClasses()
    ensures forall x: byte :: IsToken68(x) == In(TokenBytes, x)
    ensures forall x: byte :: IsEquals(x) == In(EqualsSigns, x)
    ensures forall x: byte :: IsBase64URL(x) == In(Base64Bytes, x)
    ensures forall x: byte :: IsSchemeChar(x) == In(SchemeBytes, x)
    ensures forall x: byte :: IsAuthorityChar(x) == In(AuthorityBytes, x)
    ensures forall x: byte :: IsAlnum(x) == In(AlnumBytes, x)
    ensures forall x: byte :: IsWord(x) == In(WordBytes, x)
    ensures forall x: byte :: IsAlnumDash(x) == In(AlnumDashes, x)
  {
    forall x: byte ensures IsToken68(x) == In(TokenBytes, x) { ClassesAre(x); }
    forall x: byte ensures IsEquals(x) == In(EqualsSigns, x) { ClassesAre(x); }
    forall x: byte ensures IsBase64URL(x) == In(Base64Bytes, x) { ClassesAre(x); }
    forall x: byte ensures IsSchemeChar(x) == In(SchemeBytes, x) { ClassesAre(x); }
    forall x: byte ensures IsAuthorityChar(x) == In(AuthorityBytes, x) { ClassesAre(x); }
    forall x: byte ensures IsAlnum(x) == In(AlnumBytes, x) { ClassesAre(x); }
    forall x: byte ensures IsWord(x) == In(WordBytes, x) { ClassesAre(x); }
    forall x: byte ensures IsAlnumDash(x) == In(AlnumDashes, x) { ClassesAre(x); }
  }

  /* ---------- Bearer and Basic ---------- */

  ghost predicate BearerVia(s: bytes, i: nat, w: nat, b: nat, a: nat, e: nat) {
    && i < |s| && (i == 0 || !Word(s[i - 1]))
    && ((w == 6 && FoldsAt(s, i, "bearer")) || (w == 5 && FoldsAt(s, i, "basic")))
    && i + w < a && Blanks(s, i + w, a)
    && Longest(s, a, b, TokenBytes) && Longest(s, b, e, EqualsSigns)
    && e - a >= 8 && (e - a >= 20 || exists k :: a <= k < e && !Between(s[k], 'a', 'z'))
  }

  lemma SchemeIs(s: bytes, i: nat)
    ensures SchemeLen(s, i) == if FoldsAt(s, i, "bearer") then 6 else if FoldsAt(s, i, "basic") then 5 else 0
    ensures !(FoldsAt(s, i, "bearer") && FoldsAt(s, i, "basic"))
  {
    TextsSpelled();
    PrefixIs(s, i, BEARER, "bearer");
    PrefixIs(s, i, BASIC, "basic");
    assert "bearer"[1] == 'e' && "basic"[1] == 'a';
  }

  lemma CredentialRun(s: bytes, a: nat, e: nat)
    requires a <= |s|
    ensures CredentialEnd(s, a) == e <==> exists b: nat :: Longest(s, a, b, TokenBytes) && Longest(s, b, e, EqualsSigns)
  {
    hide In;
    SameClasses();
    var m := RunEnd(s, a, IsToken68);
    LongestIff(s, a, m, IsToken68, TokenBytes);
    LongestIff(s, m, e, IsEquals, EqualsSigns);
    forall b: nat | Longest(s, a, b, TokenBytes) ensures b == m {
      LongestIff(s, a, b, IsToken68, TokenBytes);
    }
    hide RunEnd, Longest;
  }

  /** A credential is found exactly behind the word Bearer or Basic, long enough, and not one short lowercase word. */
  lemma BearerIff(s: bytes, i: nat, a: nat, e: nat)
    requires i < |s|
    ensures MatchBearer(s, i) == Some(Span(a, e, Bearer)) <==> exists w, b :: BearerVia(s, i, w, b, a, e)
    ensures MatchBearer(s, i).Some? ==> MatchBearer(s, i).value.kind == Bearer
  {
    hide RunEnd, FoldsAt, CredentialEnd, Longest, SchemeLen;
    SchemeIs(s, i);
    if i > 0 { ClassesAre(s[i - 1]); }
    var n := SchemeLen(s, i);
    if n > 0 {
      var start := SkipBlanks(s, i + n);
      SkipIs(s, i + n, start);
      var end := CredentialEnd(s, start);
      CredentialRun(s, start, end);
      forall k | start <= k < end ensures IsLower(s[k]) == Between(s[k], 'a', 'z') { ClassesAre(s[k]); }
      if MatchBearer(s, i) == Some(Span(a, e, Bearer)) {
        var b: nat :| Longest(s, start, b, TokenBytes) && Longest(s, b, end, EqualsSigns);
        assert BearerVia(s, i, n, b, a, e);
      }
      forall w, b | BearerVia(s, i, w, b, a, e) ensures a == start && e == end {
        NoBlankHere(s, a, b, e);
        SkipIs(s, i + n, a);
        CredentialRun(s, a, e);
      }
    }
  }

  lemma NoBlankHere(s: bytes, a: nat, b: nat, e: nat)
    requires Longest(s, a, b, TokenBytes) && Longest(s, b, e, EqualsSigns) && a < e
    ensures a < |s| && !Blank(s[a])
  {
  }

  /* ---------- PEM private keys ---------- */

  /** The END line of the label s[from..to] stands at k. */
  ghost predicate FooterAt(s: bytes, k: nat, from: nat, to: nat)
    requires from <= to <= |s|
  {
    At(s, k, "-----END ") && k + 9 + (to - from) <= |s| &&
    s[k + 9..k + 9 + (to - from)] == s[from..to] && At(s, k + 9 + (to - from), "-----")
  }

  /** A BEGIN line whose label s[i+11..to] is at most 65 bytes long, on one line, and names a private key. */
  ghost predicate HeaderTo(s: bytes, i: nat, to: nat) {
    && At(s, i, "-----BEGIN ") && i + 11 <= to <= |s| && to - (i + 11) <= 65 && At(s, to, "-----")
    && (forall k :: i + 11 <= k < to ==> !At(s, k, "-----") && !Is(s[k], '\n'))
    && exists k :: i + 11 <= k && k + 11 <= to && At(s, k, "PRIVATE KEY")
  }

  ghost predicate BodyTo(s: bytes, a: nat, e: nat, from: nat, to: nat)
    requires from <= to <= |s|
  {
    a <= e <= |s| && (e == |s| || FooterAt(s, e, from, to)) && forall k :: a <= k < e ==> !FooterAt(s, k, from, to)
  }

  ghost predicate PemVia(s: bytes, i: nat, to: nat, a: nat, e: nat) {
    HeaderTo(s, i, to) && a == to + 5 && a < e && BodyTo(s, a, e, i + 11, to)
  }

  lemma {:induction false} LabelIs(s: bytes, start: nat, at: nat)
    requires start <= at <= |s| && at - start <= 65
    requires forall k :: start <= k < at ==> !HasPrefixAt(s, k, DASHES) && s[k] != LF
    ensures match LabelEnd(s, start, at)
      case None => exists k :: start <= k < |s| && s[k] == LF && k - start <= 64 &&
                     forall j :: start <= j <= k ==> !HasPrefixAt(s, j, DASHES)
      case Some(e) =>
        && e - start <= 65 && (forall k :: start <= k < e ==> !HasPrefixAt(s, k, DASHES) && s[k] != LF)
        && (e == |s| || e - start == 65 || HasPrefixAt(s, e, DASHES))
    decreases |s| - at
  {
    hide HasPrefixAt;
    if at < |s| && at - start <= 64 && !HasPrefixAt(s, at, DASHES) {
      if s[at] == LF {
        assert LabelEnd(s, start, at) == None;
      } else {
        LabelIs(s, start, at + 1);
      }
    }
  }

  lemma DashesIff(s: bytes)
    ensures forall k: nat :: HasPrefixAt(s, k, DASHES) <==> At(s, k, "-----")
    ensures forall k: nat :: HasPrefixAt(s, k, PRIVATE_KEY) <==> At(s, k, "PRIVATE KEY")
    ensures forall k: nat :: HasPrefixAt(s, k, PEM_END) <==> At(s, k, "-----END ")
    ensures forall k: nat :: HasPrefixAt(s, k, PEM_BEGIN) <==> At(s, k, "-----BEGIN ")
  {
    TextsSpelled();
    forall k: nat ensures HasPrefixAt(s, k, DASHES) <==> At(s, k, "-----") { PrefixIs(s, k, DASHES, "-----"); }
    forall k: nat ensures HasPrefixAt(s, k, PRIVATE_KEY) <==> At(s, k, "PRIVATE KEY") {
      PrefixIs(s, k, PRIVATE_KEY, "PRIVATE KEY");
    }
    forall k: nat ensures HasPrefixAt(s, k, PEM_END) <==> At(s, k, "-----END ") { PrefixIs(s, k, PEM_END, "-----END "); }
    forall k: nat ensures HasPrefixAt(s, k, PEM_BEGIN) <==> At(s, k, "-----BEGIN ") {
      PrefixIs(s, k, PEM_BEGIN, "-----BEGIN ");
    }
  }

  lemma FooterIff(s: bytes, k: nat, from: nat, to: nat)
    requires from <= to <= |s|
    ensures IsFooter(s, k, from, to) <==> FooterAt(s, k, from, to)
  {
    DashesIff(s);
    hide At;
  }

  lemma {:induction false} BodyFrom(s: bytes, a: nat, from: nat, to: nat)
    requires from <= to <= |s| && a <= |s|
    ensures BodyTo(s, a, BodyEnd(s, a, from, to), from, to)
    decreases |s| - a
  {
    hide IsFooter, FooterAt;
    FooterIff(s, a, from, to);
    if a < |s| && !IsFooter(s, a, from, to) { BodyFrom(s, a + 1, from, to); }
  }

  lemma HeaderIff(s: bytes, i: nat, to: nat)
    requires i < |s|
    ensures HeaderTo(s, i, to) <==>
      && HasPrefixAt(s, i, PEM_BEGIN) && i + 11 <= |s| && LabelEnd(s, i + 11, i + 11) == Some(to) && HasPrefixAt(s, to, DASHES)
      && ContainsBetween(s, i + 11, to, PRIVATE_KEY)
  {
    hide At, LabelEnd;
    DashesIff(s);
    if HasPrefixAt(s, i, PEM_BEGIN) {
      LabelIs(s, i + 11, i + 11);
      hide HasPrefixAt;
    }
  }

  /** The body of a private key is found exactly behind its BEGIN line, up to the END line of its label or the end. */
  lemma PemIff(s: bytes, i: nat, a: nat, e: nat)
    requires i < |s|
    ensures MatchPEM(s, i) == Some(Span(a, e, PEM)) <==> exists to :: PemVia(s, i, to, a, e)
    ensures MatchPEM(s, i).Some? ==> MatchPEM(s, i).value.kind == PEM
  {
    hide LabelEnd, ContainsBetween, HasPrefixAt, HeaderTo, BodyEnd, FooterAt, BodyTo;
    var from := i + 11;
    forall to: nat | HeaderTo(s, i, to) ensures to + 5 <= |s| { DashesFit(s, i, to); }
    forall to: nat ensures HeaderTo(s, i, to) <==>
      && HasPrefixAt(s, i, PEM_BEGIN) && i + 11 <= |s| && LabelEnd(s, i + 11, i + 11) == Some(to) && HasPrefixAt(s, to, DASHES)
      && ContainsBetween(s, i + 11, to, PRIVATE_KEY)
    {
      if HasPrefixAt(s, i, PEM_BEGIN) { PrefixFits(s, i, PEM_BEGIN); }
      HeaderIff(s, i, to);
    }
    if MatchPEM(s, i).Some? {
      var to := LabelEnd(s, from, from).value;
      assert HeaderTo(s, i, to);
      BodyFrom(s, to + 5, from, to);
      var m := MatchPEM(s, i).value;
      assert PemVia(s, i, to, m.start, m.end);
    }
    forall to | PemVia(s, i, to, a, e) ensures MatchPEM(s, i) == Some(Span(a, e, PEM)) {
      BodyFrom(s, a, from, to);
      OneBody(s, a, e, BodyEnd(s, a, from, to), from, to);
    }
  }

  lemma DashesFit(s: bytes, i: nat, to: nat)
    requires HeaderTo(s, i, to)
    ensures to + 5 <= |s|
  {
  }

  lemma OneBody(s: bytes, a: nat, e: nat, f: nat, from: nat, to: nat)
    requires from <= to <= |s| && BodyTo(s, a, e, from, to) && BodyTo(s, a, f, from, to)
    ensures e == f
  {
    hide FooterAt;
  }

  /* ---------- JSON Web Tokens ---------- */

  /** A base64url segment from a to a dot at b, at least ten bytes long, that begins with "eyJ". */
  ghost predicate SegmentTo(s: bytes, a: nat, b: nat) {
    At(s, a, "eyJ") && Longest(s, a, b, Base64Bytes) && b - a >= 10 && b < |s| && Is(s[b], '.')
  }

  ghost predicate JwtVia(s: bytes, i: nat, header: nat, payload: nat, e: nat) {
    && i < |s| && (i == 0 || (!Base64URL(s[i - 1]) && !Is(s[i - 1], '.')))
    && SegmentTo(s, i, header) && SegmentTo(s, header + 1, payload) && Longest(s, payload + 1, e, Base64Bytes)
  }

  lemma SegmentIff(s: bytes, a: nat, b: nat)
    requires a <= |s|
    ensures SegmentEnd(s, a) == Some(b) <==> SegmentTo(s, a, b)
  {
    TextsSpelled();
    PrefixIs(s, a, EYJ, "eyJ");
    SameClasses();
    LongestIff(s, a, b, IsBase64URL, Base64Bytes);
    LongestIff(s, a, RunEnd(s, a, IsBase64URL), IsBase64URL, Base64Bytes);
    hide RunEnd, Longest, At, HasPrefixAt;
  }

  /** A token is found exactly where two such segments and a signature, which may be empty, stand apart. */
  lemma JwtIff(s: bytes, i: nat, e: nat)
    requires i < |s|
    ensures MatchJWT(s, i) == Some(Span(i, e, JWT)) <==> exists h, p :: JwtVia(s, i, h, p, e)
    ensures MatchJWT(s, i).Some? ==> MatchJWT(s, i).value.kind == JWT
  {
    hide RunEnd, SegmentEnd, SegmentTo, Longest, In;
    if i > 0 { ClassesAre(s[i - 1]); }
    SameClasses();
    if MatchJWT(s, i) == Some(Span(i, e, JWT)) {
      var h := SegmentEnd(s, i).value;
      var p := SegmentEnd(s, h + 1).value;
      SegmentIff(s, i, h);
      SegmentIff(s, h + 1, p);
      LongestIff(s, p + 1, e, IsBase64URL, Base64Bytes);
      assert JwtVia(s, i, h, p, e);
    }
    forall h: nat, p: nat | JwtVia(s, i, h, p, e) ensures MatchJWT(s, i) == Some(Span(i, e, JWT)) {
      SegmentIff(s, i, h);
      SegmentFits(s, i, h);
      SegmentIff(s, h + 1, p);
      SegmentFits(s, h + 1, p);
      LongestIff(s, p + 1, e, IsBase64URL, Base64Bytes);
    }
  }

  lemma SegmentFits(s: bytes, a: nat, b: nat)
    requires SegmentTo(s, a, b)
    ensures b < |s|
  {
  }

  /* ---------- provider tokens ---------- */

  /** A prefix that names its issuer, and the bytes after it: their class, how many at least, and whether exactly that many. */
  datatype Issuer = Issuer(prefix: string, class_: Class, min: nat, exact: bool)

  const ISSUERS: seq<Issuer> := [
    Issuer("ghp_", AlnumBytes, 36, false), Issuer("gho_", AlnumBytes, 36, false), Issuer("ghu_", AlnumBytes, 36, false),
    Issuer("ghs_", AlnumBytes, 36, false), Issuer("ghr_", AlnumBytes, 36, false),
    Issuer("github_pat_", WordBytes, 22, false), Issuer("glpat-", Base64Bytes, 20, false),
    Issuer("xoxb-", AlnumDashes, 10, false), Issuer("xoxp-", AlnumDashes, 10, false), Issuer("xoxa-", AlnumDashes, 10, false),
    Issuer("xoxr-", AlnumDashes, 10, false), Issuer("xoxs-", AlnumDashes, 10, false), Issuer("xoxe-", AlnumDashes, 10, false),
    Issuer("sk_live_", AlnumBytes, 16, false), Issuer("rk_live_", AlnumBytes, 16, false),
    Issuer("sk_test_", AlnumBytes, 16, false), Issuer("rk_test_", AlnumBytes, 16, false),
    Issuer("AIza", Base64Bytes, 35, true), Issuer("npm_", AlnumBytes, 36, false)]

  ghost predicate TokenTo(s: bytes, i: nat, k: nat, e: nat)
    requires k < |ISSUERS|
  {
    var r := ISSUERS[k];
    At(s, i, r.prefix) && Longest(s, i + |r.prefix|, e, r.class_) &&
    var n := e - (i + |r.prefix|);
    n >= r.min && (r.exact ==> n == r.min)
  }

  /** The first issuer of the list that has a token at i is the k-th, and the token ends at e. */
  ghost predicate IssuedVia(s: bytes, i: nat, k: nat, e: nat) {
    && i < |s| && (i == 0 || !Word(s[i - 1])) && k < |ISSUERS| && TokenTo(s, i, k, e)
    && forall j, f :: 0 <= j < k ==> !TokenTo(s, i, j, f)
  }

  ghost predicate SameIssuer(p: Provider, r: Issuer) {
    Spells(p.prefix, r.prefix) && (forall x: byte :: p.class_(x) == In(r.class_, x)) && p.min == r.min && p.exact == r.exact
  }

  lemma ListsAgree()
    ensures |PROVIDERS| == |ISSUERS|
    ensures forall k :: 0 <= k < |ISSUERS| ==> SameIssuer(PROVIDERS[k], ISSUERS[k])
  {
    SameClasses();
    hide In;
    forall k | 0 <= k < |ISSUERS| ensures SameIssuer(PROVIDERS[k], ISSUERS[k]) {
      if k < 5 { FirstIssuers(k); } else if k < 13 { MiddleIssuers(k); } else { LastIssuers(k); }
    }
  }

  lemma FirstIssuers(k: nat)
    requires k < 5
    ensures SameIssuer(PROVIDERS[k], ISSUERS[k])
  {
    SameClasses();
    hide In;
  }

  lemma MiddleIssuers(k: nat)
    requires 5 <= k < 13
    ensures SameIssuer(PROVIDERS[k], ISSUERS[k])
  {
    SameClasses();
    hide In;
  }

  lemma LastIssuers(k: nat)
    requires 13 <= k < 19
    ensures SameIssuer(PROVIDERS[k], ISSUERS[k])
  {
    SameClasses();
    hide In;
  }

  lemma TokenIff(s: bytes, i: nat, p: Provider, k: nat, e: nat)
    requires k < |ISSUERS| && SameIssuer(p, ISSUERS[k])
    ensures ProviderEnd(s, i, p) == Some(e) <==> TokenTo(s, i, k, e)
  {
    var r := ISSUERS[k];
    PrefixIs(s, i, p.prefix, r.prefix);
    if HasPrefixAt(s, i, p.prefix) {
      LongestIff(s, i + |p.prefix|, e, p.class_, r.class_);
      LongestIff(s, i + |p.prefix|, RunEnd(s, i + |p.prefix|, p.class_), p.class_, r.class_);
    }
    hide ISSUERS, RunEnd, Longest, HasPrefixAt, At;
  }

  /** A provider token is found exactly where the first issuer with a token there has one. */
  lemma {:induction false} IssuerFrom(s: bytes, i: nat, k: nat, e: nat)
    requires k <= |ISSUERS| && forall j, f :: 0 <= j < k ==> !TokenTo(s, i, j, f)
    ensures FirstProviderEnd(s, i, k) == Some(e) <==>
      exists m :: k <= m < |ISSUERS| && TokenTo(s, i, m, e) && forall j, f :: 0 <= j < m ==> !TokenTo(s, i, j, f)
    decreases |ISSUERS| - k
  {
    hide ISSUERS, PROVIDERS, TokenTo, ProviderEnd;
    ListsAgree();
    if k < |ISSUERS| {
      forall f: nat ensures ProviderEnd(s, i, PROVIDERS[k]) == Some(f) <==> TokenTo(s, i, k, f) {
        TokenIff(s, i, PROVIDERS[k], k, f);
      }
      if ProviderEnd(s, i, PROVIDERS[k]).None? {
        IssuerFrom(s, i, k + 1, e);
      } else {
        var f := ProviderEnd(s, i, PROVIDERS[k]).value;
        assert TokenTo(s, i, k, f);
      }
    }
  }

  lemma ProviderIff(s: bytes, i: nat, e: nat)
    requires i < |s|
    ensures MatchProviderToken(s, i) == Some(Span(i, e, ProviderToken)) <==> exists k :: IssuedVia(s, i, k, e)
    ensures MatchProviderToken(s, i).Some? ==> MatchProviderToken(s, i).value.kind == ProviderToken
  {
    hide ISSUERS, FirstProviderEnd, TokenTo;
    if i > 0 { ClassesAre(s[i - 1]); }
    IssuerFrom(s, i, 0, e);
    if MatchProviderToken(s, i) == Some(Span(i, e, ProviderToken)) {
      var m :| 0 <= m < |ISSUERS| && TokenTo(s, i, m, e) && forall j, f :: 0 <= j < m ==> !TokenTo(s, i, j, f);
      assert IssuedVia(s, i, m, e);
    }
  }

  /* ---------- AWS access key ids ---------- */

  ghost predicate AwsAt(s: bytes, i: nat) {
    && i + 20 <= |s| && (i == 0 || !Alnum(s[i - 1])) && (i + 20 == |s| || !Alnum(s[i + 20]))
    && (At(s, i, "AKIA") || At(s, i, "ASIA") || At(s, i, "ABIA") || At(s, i, "ACCA"))
    && forall k :: i + 4 <= k < i + 20 ==> Between(s[k], 'A', 'Z') || Digit(s[k])
  }

  /** A key id is one of four prefixes and sixteen capital letters or digits, apart from other letters and digits. */
  lemma AwsIff(s: bytes, i: nat)
    requires i < |s|
    ensures MatchAWSKeyID(s, i) == if AwsAt(s, i) then Some(Span(i, i + 20, AWSKeyID)) else None
  {
    TextsSpelled();
    PrefixIs(s, i, AKIA, "AKIA");
    PrefixIs(s, i, ASIA, "ASIA");
    PrefixIs(s, i, ABIA, "ABIA");
    PrefixIs(s, i, ACCA, "ACCA");
    hide At, HasPrefixAt;
    if i > 0 { ClassesAre(s[i - 1]); }
    if i + 20 < |s| { ClassesAre(s[i + 20]); }
    if i + 20 <= |s| {
      forall k | i + 4 <= k < i + 20 ensures IsUpperOrDigit(s[k]) == (Between(s[k], 'A', 'Z') || Digit(s[k])) { ClassesAre(s[k]); }
    }
  }

  /* ---------- userinfo of a URL in text ---------- */

  ghost predicate UserinfoVia(s: bytes, i: nat, c: nat, e: nat) {
    && i < |s| && (i == 0 || !SchemeByte(s[i - 1])) && Longest(s, i, c, SchemeBytes) && At(s, c, "://")
    && Longest(s, c + 3, e, AuthorityBytes) && c + 3 < e < |s| && Is(s[e], '@')
  }

  /** Userinfo is found exactly between "scheme://" and the "@" that ends it before any slash, query or white space. */
  lemma UserinfoIff(s: bytes, i: nat, a: nat, e: nat)
    requires i < |s|
    ensures MatchURLUserinfo(s, i) == Some(Span(a, e, URLUserinfo)) <==> a >= 3 && UserinfoVia(s, i, a - 3, e)
    ensures MatchURLUserinfo(s, i).Some? ==> MatchURLUserinfo(s, i).value.kind == URLUserinfo
  {
    hide RunEnd, In, HasPrefixAt, At, Longest;
    if i > 0 { ClassesAre(s[i - 1]); }
    TextsSpelled();
    SameClasses();
    var c := RunEnd(s, i, IsSchemeChar);
    LongestIff(s, i, c, IsSchemeChar, SchemeBytes);
    PrefixIs(s, c, COLON_SLASHES, "://");
    if a >= 3 { LongestIff(s, i, a - 3, IsSchemeChar, SchemeBytes); }
    if At(s, c, "://") {
      PrefixFits(s, c, COLON_SLASHES);
      var f := RunEnd(s, c + 3, IsAuthorityChar);
      LongestIff(s, c + 3, f, IsAuthorityChar, AuthorityBytes);
      LongestIff(s, c + 3, e, IsAuthorityChar, AuthorityBytes);
    }
  }
}
