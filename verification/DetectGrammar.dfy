/**
 What the detectors take, written down once more: as literal texts, classes of characters and maximal runs between
 positions, without the functions of DetectPatterns. Each matcher is proved to find exactly what is described here.
 */
module DetectGrammar {
  import opened Bytes
  import opened Options
  import opened DetectText
  import opened DetectPatterns

  /* ---------- characters ---------- */

  ghost predicate Is(b: byte, c: char) { b as int == c as int }

  ghost predicate Between(b: byte, lo: char, hi: char) { lo as int <= b as int <= hi as int }

  ghost predicate Letter(b: byte) { Between(b, 'a', 'z') || Between(b, 'A', 'Z') }

  ghost predicate Digit(b: byte) { Between(b, '0', '9') }

  ghost predicate Alnum(b: byte) { Letter(b) || Digit(b) }

  ghost predicate Word(b: byte) { Alnum(b) || Is(b, '_') }

  ghost predicate Base64URL(b: byte) { Word(b) || Is(b, '-') }

  ghost predicate Token68(b: byte) {
    Alnum(b) || Is(b, '-') || Is(b, '.') || Is(b, '_') || Is(b, '~') || Is(b, '+') || Is(b, '/')
  }

  ghost predicate KeyByte(b: byte) { Word(b) || Is(b, '.') || Is(b, '-') }

  ghost predicate KeyFirst(b: byte) { Letter(b) || Is(b, '_') || Is(b, '-') || Is(b, '.') }

  ghost predicate SchemeByte(b: byte) { Alnum(b) || Is(b, '+') || Is(b, '-') || Is(b, '.') }

  ghost predicate Blank(b: byte) { Is(b, ' ') || Is(b, '\t') }

  /** White space and every control character. */
  ghost predicate Spacing(b: byte) { b as int <= ' ' as int || b == 127 }

  ghost predicate Separator(b: byte) { Is(b, ',') || Is(b, ';') || Is(b, '&') }

  ghost predicate Closing(b: byte) {
    Is(b, ')') || Is(b, ']') || Is(b, '}') || Is(b, '>') || Is(b, '"') || Is(b, '\'')
  }

  ghost predicate ValueByte(b: byte) { !Separator(b) && !Closing(b) && !Spacing(b) }

  ghost predicate AuthorityByte(b: byte) { !Is(b, '/') && !Is(b, '?') && !Is(b, '#') && !Is(b, '@') && !Spacing(b) }

  lemma ClassesAre(b: byte)
    ensures IsLetter(b) == Letter(b) && IsDigit(b) == Digit(b) && IsAlnum(b) == Alnum(b) && IsWord(b) == Word(b)
    ensures IsBase64URL(b) == Base64URL(b) && IsJWTChar(b) == (Base64URL(b) || Is(b, '.'))
    ensures IsAlnumDash(b) == (Alnum(b) || Is(b, '-')) && IsToken68(b) == Token68(b)
    ensures IsKeyChar(b) == KeyByte(b) && IsKeyStart(b) == KeyFirst(b) && IsSchemeChar(b) == SchemeByte(b)
    ensures IsBlank(b) == Blank(b) && IsEquals(b) == Is(b, '=') && IsSeparator(b) == Separator(b)
    ensures IsValueChar(b) == ValueByte(b) && IsAuthorityChar(b) == AuthorityByte(b)
    ensures IsLower(b) == Between(b, 'a', 'z') && IsUpperOrDigit(b) == (Between(b, 'A', 'Z') || Digit(b))
  {
  }

  /* ---------- literal texts ---------- */

  /** The text t stands in s at position i. */
  ghost predicate At(s: bytes, i: nat, t: string) {
    i + |t| <= |s| && forall k :: 0 <= k < |t| ==> Is(s[i + k], t[k])
  }

  /** The text t stands there, but for the case of its letters. */
  ghost predicate FoldsAt(s: bytes, i: nat, t: string) {
    i + |t| <= |s| && forall k :: 0 <= k < |t| ==>
      Is(s[i + k], t[k]) || (Between(s[i + k], 'A', 'Z') && s[i + k] as int + 32 == t[k] as int)
  }

  ghost predicate Spells(p: bytes, t: string) { |p| == |t| && forall k :: 0 <= k < |t| ==> Is(p[k], t[k]) }

  ghost predicate IsSmall(t: string) { forall k :: 0 <= k < |t| ==> 'a' <= t[k] <= 'z' }

  lemma PrefixIs(s: bytes, i: nat, p: bytes, t: string)
    requires Spells(p, t)
    ensures HasPrefixAt(s, i, p) <==> At(s, i, t)
    ensures IsSmall(t) ==> (HasFoldPrefixAt(s, i, p) <==> FoldsAt(s, i, t))
  {
    if i + |p| <= |s| {
      var part := s[i..i + |p|];
      assert forall k :: 0 <= k < |p| ==> part[k] == s[i + k];
      if At(s, i, t) { assert forall k :: 0 <= k < |p| ==> part[k] == p[k]; }
      if part == p { assert forall k :: 0 <= k < |p| ==> s[i + k] == p[k]; }
    }
  }

  lemma TextsSpelled()
    ensures Spells(BEARER, "bearer") && Spells(BASIC, "basic") && Spells(TOKEN, "token")
    ensures Spells(PEM_BEGIN, "-----BEGIN ") && Spells(PEM_END, "-----END ") && Spells(DASHES, "-----")
    ensures Spells(PRIVATE_KEY, "PRIVATE KEY") && Spells(EYJ, "eyJ") && Spells(COLON_SLASHES, "://") && Spells(SLASHES, "//")
    ensures Spells(AKIA, "AKIA") && Spells(ASIA, "ASIA") && Spells(ABIA, "ABIA") && Spells(ACCA, "ACCA")
    ensures IsSmall("bearer") && IsSmall("basic") && IsSmall("token")
  {
  }

  /* ---------- quoted values ---------- */

  /** How many backslashes stand in a row before position k, counted no further back than from. */
  ghost function Backslashes(s: bytes, from: nat, k: nat): nat
    requires from <= k <= |s|
  {
    if k > from && Is(s[k - 1], '\\') then 1 + Backslashes(s, from, k - 1) else 0
  }

  /** A quoted value that began at from may end at k: with the text, with the line, or at a quote no backslash escapes. */
  ghost predicate Closes(s: bytes, from: nat, k: nat, quote: byte)
    requires from <= k <= |s|
  {
    k == |s| || Is(s[k], '\n') || (s[k] == quote && Backslashes(s, from, k) % 2 == 0)
  }

  ghost predicate ClosesFirst(s: bytes, from: nat, e: nat, quote: byte)
    requires from <= e <= |s|
  {
    Closes(s, from, e, quote) && forall k :: from <= k < e ==> !Closes(s, from, k, quote)
  }

  lemma {:induction false} QuotedFrom(s: bytes, from: nat, i: nat, quote: byte)
    requires from <= i <= |s| && quote != BACKSLASH && quote != LF
    requires Backslashes(s, from, i) % 2 == 0
    requires forall k :: from <= k < i ==> !Closes(s, from, k, quote)
    ensures ClosesFirst(s, from, QuotedEnd(s, i, quote), quote)
    decreases |s| - i
  {
    if i >= |s| || s[i] == LF || s[i] == quote {
    } else if s[i] == BACKSLASH && i + 1 < |s| && s[i + 1] != LF {
      assert Backslashes(s, from, i + 1) == Backslashes(s, from, i) + 1;
      assert !Closes(s, from, i + 1, quote);
      QuotedFrom(s, from, i + 2, quote);
    } else if s[i] == BACKSLASH {
      assert QuotedEnd(s, i, quote) == i + 1;
    } else {
      QuotedFrom(s, from, i + 1, quote);
    }
  }

  /** A quoted value ends exactly at the first line feed, the first quote behind an even number of backslashes, or the end. */
  lemma QuotedEndIff(s: bytes, from: nat, e: nat, quote: byte)
    requires from <= e <= |s| && IsAnyQuote(quote)
    ensures QuotedEnd(s, from, quote) == e <==> ClosesFirst(s, from, e, quote)
  {
    hide QuotedEnd;
    QuotedFrom(s, from, from, quote);
  }

  /** t with a backslash before each backslash and each quote. */
  ghost function Escaped(t: bytes, quote: byte): bytes {
    if t == [] then []
    else (if Is(t[0], '\\') || t[0] == quote then [BACKSLASH, t[0]] else [t[0]]) + Escaped(t[1..], quote)
  }

  /** Whatever is written escaped is read to its end: the value of a quoted text is the whole of it. */
  lemma {:induction false} EscapedIsWhole(before: bytes, t: bytes, quote: byte, rest: bytes)
    requires IsAnyQuote(quote) && LF !in t
    ensures QuotedEnd(before + Escaped(t, quote) + [quote] + rest, |before|, quote) == |before| + |Escaped(t, quote)|
    decreases |t|
  {
    var s := before + Escaped(t, quote) + [quote] + rest;
    if t == [] {
      assert s[|before|] == quote;
    } else {
      var unit := if Is(t[0], '\\') || t[0] == quote then [BACKSLASH, t[0]] else [t[0]];
      assert t[0] in t;
      EscapedIsWhole(before + unit, t[1..], quote, rest);
      assert s == (before + unit) + Escaped(t[1..], quote) + [quote] + rest;
      assert s[|before|] == unit[0];
      if |unit| == 2 { assert s[|before| + 1] == t[0]; }
    }
  }

  /* ---------- unquoted values ---------- */

  /** s[a..b] is a key: at most 64 bytes, one of them a letter, none but letters, digits and _ . - */
  ghost predicate KeySpan(s: bytes, a: nat, b: nat) {
    a < b <= |s| && b - a <= 64 && KeyFirst(s[a]) && (forall k :: a <= k < b ==> KeyByte(s[k])) &&
    exists k :: a <= k < b && Letter(s[k])
  }

  /** A run of key bytes from k on, not too long for a key, and an equals sign. */
  ghost predicate PairFollows(s: bytes, k: nat, n: nat) {
    1 <= n <= 64 && k + n < |s| && KeyFirst(s[k]) && (forall j :: k <= j < k + n ==> KeyByte(s[j])) && Is(s[k + n], '=')
  }

  ghost predicate StartsPair(s: bytes, k: nat) { exists n :: PairFollows(s, k, n) }

  /** A separator before k belongs to the value: what follows could be more of it, and is no pair of its own. */
  ghost predicate CarriesOn(s: bytes, k: nat) { k < |s| && !Closing(s[k]) && !Spacing(s[k]) && !StartsPair(s, k) }

  ghost predicate Stops(s: bytes, k: nat) {
    k >= |s| || Closing(s[k]) || Spacing(s[k]) || (Separator(s[k]) && !CarriesOn(s, k + 1))
  }

  ghost predicate StopsFirst(s: bytes, i: nat, e: nat) { i <= e <= |s| && Stops(s, e) && forall k :: i <= k < e ==> !Stops(s, k) }

  lemma {:induction false} KeyRunIs(s: bytes, start: nat, at: nat)
    requires start <= at <= |s| && at - start <= 65
    ensures var e := KeyRunEnd(s, start, at);
      && e - start <= 65 && (forall k :: at <= k < e ==> KeyByte(s[k]))
      && (e == |s| || e - start == 65 || !KeyByte(s[e]))
    decreases |s| - at
  {
    if at < |s| && at - start <= MAX_KEY_LEN && IsKeyChar(s[at]) { KeyRunIs(s, start, at + 1); }
  }

  lemma CarriesOnIff(s: bytes, k: nat)
    ensures SeparatorContinues(s, k) <==> CarriesOn(s, k)
  {
    hide KeyRunEnd;
    if k < |s| {
      ClassesAre(s[k]);
      KeyRunIs(s, k, k);
      var e := KeyRunEnd(s, k, k);
      if KeyFirst(s[k]) && e - k <= 64 && e < |s| && Is(s[e], '=') {
        assert PairFollows(s, k, e - k);
      }
      forall n | PairFollows(s, k, n) ensures e == k + n {
        assert !KeyByte(s[k + n]);
      }
    }
  }

  /** An unquoted value ends exactly where it first may. */
  lemma {:induction false} ValueEndIff(s: bytes, i: nat, e: nat)
    requires i <= |s|
    ensures ValueRunEnd(s, i) == e <==> StopsFirst(s, i, e)
  {
    ValueFrom(s, i);
  }

  lemma {:induction false} ValueFrom(s: bytes, i: nat)
    requires i <= |s|
    ensures StopsFirst(s, i, ValueRunEnd(s, i))
    decreases |s| - i
  {
    hide SeparatorContinues, CarriesOn;
    var e := RunEnd(s, i, IsValueChar);
    forall k | i <= k < e ensures !Stops(s, k) { ClassesAre(s[k]); }
    CarriesOnIff(s, e + 1);
    if e < |s| {
      ClassesAre(s[e]);
      if IsSeparator(s[e]) && SeparatorContinues(s, e + 1) {
        assert !Stops(s, e);
        ValueFrom(s, e + 1);
      }
    }
  }

  /* ---------- pairs ---------- */

  ghost predicate Blanks(s: bytes, a: nat, b: nat) { a <= b <= |s| && forall k :: a <= k < b ==> Blank(s[k]) }

  /** The value s[v..m] is the name of an authentication scheme. */
  ghost predicate SchemeName(s: bytes, v: nat, m: nat) {
    (m == v + 6 && FoldsAt(s, v, "bearer")) || (m == v + 5 && (FoldsAt(s, v, "basic") || FoldsAt(s, v, "token")))
  }

  ghost predicate CredentialVia(s: bytes, m: nat, c: nat, e: nat) { m < c < e && Blanks(s, m, c) && StopsFirst(s, c, e) }

  ghost predicate CredentialTo(s: bytes, m: nat, e: nat) { exists c :: CredentialVia(s, m, c, e) }

  /** The unquoted value at v ends at e: it takes a credential in if it is the name of a scheme. */
  ghost predicate ValueTo(s: bytes, v: nat, m: nat, e: nat) {
    v < m && StopsFirst(s, v, m) &&
    ((SchemeName(s, v, m) && CredentialTo(s, m, e)) ||
     (e == m && !(SchemeName(s, v, m) && exists x :: CredentialTo(s, m, x))))
  }

  /** A key that starts at i, quoted or not, is s[a..b] and is over at after. */
  ghost predicate KeyFrom(s: bytes, i: nat, a: nat, b: nat, after: nat) {
    i < |s| && KeySpan(s, a, b) &&
    if Is(s[i], '"') || Is(s[i], '\'') then a == i + 1 && b < |s| && s[b] == s[i] && after == b + 1
    else
      && a == i && after == b && (b == |s| || !KeyByte(s[b]))
      && (i == 0 || (!KeyByte(s[i - 1]) && !Is(s[i - 1], '/')))
  }

  /** After a key, an equals sign or a colon at c, blanks around it, and a value that may start at v; "://" is no colon. */
  ghost predicate SignAt(s: bytes, after: nat, c: nat, v: nat) {
    && Blanks(s, after, c) && c < |s| && (Is(s[c], '=') || (Is(s[c], ':') && !At(s, c + 1, "//")))
    && Blanks(s, c + 1, v) && v < |s| && !Blank(s[v])
  }

  ghost predicate ValueFromTo(s: bytes, v: nat, from: nat, to: nat) {
    v < |s| &&
    if Is(s[v], '"') || Is(s[v], '\'') then from == v + 1 && from < to <= |s| && ClosesFirst(s, from, to, s[v])
    else from == v && exists m :: ValueTo(s, v, m, to)
  }

  ghost predicate PairVia(s: bytes, i: nat, p: Pair, after: nat, c: nat, v: nat) {
    KeyFrom(s, i, p.keyStart, p.keyEnd, after) && SignAt(s, after, c, v) && ValueFromTo(s, v, p.valueStart, p.valueEnd)
  }

  lemma SkipIs(s: bytes, a: nat, b: nat)
    requires a <= |s|
    ensures SkipBlanks(s, a) == b <==> Blanks(s, a, b) && (b == |s| || !Blank(s[b]))
  {
    var e := SkipBlanks(s, a);
    forall k | a <= k < e ensures Blank(s[k]) { ClassesAre(s[k]); }
    if e < |s| { ClassesAre(s[e]); }
  }

  lemma KeyIff(s: bytes, i: nat, key: KeyAt)
    requires i < |s|
    ensures MatchKey(s, i) == Some(key) <==> KeyFrom(s, i, key.start, key.end, key.after)
  {
    hide KeyRunEnd;
    forall b: byte ensures IsKeyChar(b) == KeyByte(b) && IsKeyStart(b) == KeyFirst(b) && IsLetter(b) == Letter(b) {
      ClassesAre(b);
    }
    var a := if IsAnyQuote(s[i]) then i + 1 else i;
    if a < |s| {
      KeyRunIs(s, a, a);
      if KeyFrom(s, i, key.start, key.end, key.after) {
        KeyEndIs(s, a, key.end);
      }
    }
  }

  lemma KeyEndIs(s: bytes, a: nat, b: nat)
    requires KeySpan(s, a, b) && (b == |s| || !KeyByte(s[b]))
    ensures KeyRunEnd(s, a, a) == b
  {
    hide KeyRunEnd;
    KeyRunIs(s, a, a);
  }

  lemma SignIff(s: bytes, after: nat, v: nat)
    requires after <= |s|
    ensures ValueStart(s, after) == Some(v) <==> exists c :: SignAt(s, after, c, v)
  {
    hide RunEnd;
    TextsSpelled();
    var a := SkipBlanks(s, after);
    SkipIs(s, after, a);
    if a < |s| {
      PrefixIs(s, a + 1, SLASHES, "//");
      SkipIs(s, a + 1, v);
      if ValueStart(s, after) == Some(v) { assert SignAt(s, after, a, v); }
    }
    forall c | SignAt(s, after, c, v) ensures a == c { SkipIs(s, after, c); }
  }

  lemma WordIff(s: bytes, v: nat, m: nat)
    requires v <= m
    ensures IsSchemeWord(s, v, m) <==> SchemeName(s, v, m)
  {
    TextsSpelled();
    PrefixIs(s, v, BEARER, "bearer");
    PrefixIs(s, v, BASIC, "basic");
    PrefixIs(s, v, TOKEN, "token");
    hide FoldsAt, HasFoldPrefixAt;
  }

  lemma CredentialIff(s: bytes, v: nat, m: nat, e: nat)
    requires v < m <= |s| && StopsFirst(s, v, m)
    ensures WithCredential(s, v, m) == e <==> ValueTo(s, v, m, e)
  {
    hide ValueRunEnd, SkipBlanks, IsSchemeWord, SchemeName, StopsFirst;
    WordIff(s, v, m);
    var c := SkipBlanks(s, m);
    SkipIs(s, m, c);
    var x := ValueRunEnd(s, c);
    ValueEndIff(s, c, x);
    if c > m && x > c {
      assert CredentialVia(s, m, c, x);
      assert CredentialTo(s, m, x);
    }
    forall d, y | CredentialVia(s, m, d, y) ensures d == c && y == x {
      FirstIsNoBlank(s, d, y);
      SkipIs(s, m, d);
      ValueEndIff(s, c, y);
    }
    forall y | CredentialTo(s, m, y) ensures c > m && x > c && y == x {
      var d :| CredentialVia(s, m, d, y);
    }
    hide CredentialTo;
    if IsSchemeWord(s, v, m) && c > m && x > c {
      assert WithCredential(s, v, m) == x;
    } else {
      assert WithCredential(s, v, m) == m;
    }
  }

  lemma FirstIsNoBlank(s: bytes, c: nat, e: nat)
    requires StopsFirst(s, c, e) && c < e
    ensures c < |s| && !Blank(s[c])
  {
    assert !Stops(s, c);
  }

  lemma ValueIff(s: bytes, v: nat, e: nat)
    requires v < |s| && !IsAnyQuote(s[v])
    ensures ValueRunEnd(s, v) > v && WithCredential(s, v, ValueRunEnd(s, v)) == e <==> ValueFromTo(s, v, v, e)
  {
    hide ValueRunEnd, WithCredential, StopsFirst;
    var m := ValueRunEnd(s, v);
    ValueEndIff(s, v, m);
    if m > v { CredentialIff(s, v, m, e); }
    forall n | ValueTo(s, v, n, e) ensures n == m { ValueEndIff(s, v, n); }
  }

  /** A pair is found at i exactly if a key, a sign and a value stand there, and then it is theirs. */
  lemma PairIff(s: bytes, i: nat, p: Pair)
    requires i < |s|
    ensures MatchPair(s, i) == Some(p) <==> exists after, c, v :: PairVia(s, i, p, after, c, v)
  {
    hide MatchKey, ValueStart, ValueRunEnd, WithCredential, QuotedEnd, KeyFrom, SignAt, ValueFromTo, ClosesFirst;
    forall after, c, v | PairVia(s, i, p, after, c, v) ensures MatchPair(s, i) == Some(p) {
      KeyIff(s, i, KeyAt(p.keyStart, p.keyEnd, after));
      SignIff(s, after, v);
      ValueFound(s, v, p.valueStart, p.valueEnd);
    }
    if MatchPair(s, i) == Some(p) {
      var key := MatchKey(s, i).value;
      KeyIff(s, i, key);
      var v := ValueStart(s, key.after).value;
      SignIff(s, key.after, v);
      var c :| SignAt(s, key.after, c, v);
      ValueFound(s, v, p.valueStart, p.valueEnd);
      assert PairVia(s, i, p, key.after, c, v);
    }
  }

  /** What MatchPair takes for a value that may start at v. */
  lemma ValueFound(s: bytes, v: nat, from: nat, to: nat)
    requires v < |s|
    ensures ValueFromTo(s, v, from, to) <==>
      if IsAnyQuote(s[v]) then from == v + 1 && to > from && QuotedEnd(s, from, s[v]) == to
      else from == v && ValueRunEnd(s, v) > v && WithCredential(s, v, ValueRunEnd(s, v)) == to
  {
    hide ValueRunEnd, WithCredential, QuotedEnd, ClosesFirst, ValueTo;
    if IsAnyQuote(s[v]) {
      if from == v + 1 && from < to <= |s| { QuotedEndIff(s, from, to, s[v]); }
    } else {
      ValueIff(s, v, to);
    }
  }

  /* ---------- secrets in text ---------- */

  /** key + sign in front of a value, and text before it that does not run into the key. */
  ghost predicate KeyStands(before: bytes, key: bytes, sign: byte) {
    && KeySpan(key, 0, |key|) && (Is(sign, '=') || Is(sign, ':'))
    && (before == [] || (!KeyByte(before[|before| - 1]) && !Is(before[|before| - 1], '/')))
  }

  lemma KeyStandsAt(before: bytes, key: bytes, sign: byte, value: bytes)
    requires KeyStands(before, key, sign) && value != [] && !Blank(value[0]) && !Is(value[0], '/')
    ensures var s := before + key + [sign] + value;
      var i, b := |before|, |before| + |key|;
      KeyFrom(s, i, i, b, b) && SignAt(s, b, b, b + 1)
  {
    var s := before + key + [sign] + value;
    var i, b := |before|, |before| + |key|;
    assert forall k :: i <= k < b ==> s[k] == key[k - i];
    assert s[b] == sign && s[b + 1] == value[0];
    if i > 0 { assert s[i - 1] == before[i - 1]; }
    var letter :| 0 <= letter < |key| && Letter(key[letter]);
    assert s[i + letter] == key[letter];
    assert s[i] == key[0];
    assert "//"[0] == '/';
  }

  /** A quoted value is found whole, whatever it holds, when its quotes and backslashes are escaped. */
  lemma EscapedPair(before: bytes, key: bytes, sign: byte, quote: byte, t: bytes, rest: bytes)
    requires KeyStands(before, key, sign) && IsAnyQuote(quote) && t != [] && LF !in t
    ensures var e := Escaped(t, quote);
      var s := before + key + [sign] + ([quote] + e + [quote] + rest);
      var i, v := |before|, |before| + |key| + 2;
      MatchPair(s, i) == Some(Pair(i, i + |key|, v, v + |e|)) && s[v..v + |e|] == e
  {
    hide QuotedEnd, MatchPair, Escaped, KeyFrom, SignAt, ClosesFirst, KeyStands;
    var e := Escaped(t, quote);
    var value := [quote] + e + [quote] + rest;
    var s := before + key + [sign] + value;
    var i, b := |before|, |before| + |key|;
    KeyStandsAt(before, key, sign, value);
    var front := before + key + [sign] + [quote];
    assert s == front + e + [quote] + rest;
    EscapedIsWhole(front, t, quote, rest);
    NotEmptied(t, quote);
    QuotedEndIff(s, b + 2, b + 2 + |e|, quote);
    assert s[b + 1] == quote;
    var p := Pair(i, b, b + 2, b + 2 + |e|);
    assert ValueFromTo(s, b + 1, p.valueStart, p.valueEnd);
    assert PairVia(s, i, p, b, b, b + 1);
    PairIff(s, i, p);
  }

  lemma NotEmptied(t: bytes, quote: byte)
    requires t != []
    ensures Escaped(t, quote) != []
  {
  }

  /**
   An unquoted value is found whole, separators and all: one that closes nothing, holds no white space and no equals
   sign, and does not end in a separator, up to the end of the text or to white space.
   */
  lemma UnquotedPair(before: bytes, key: bytes, sign: byte, value: bytes, rest: bytes)
    requires KeyStands(before, key, sign) && value != [] && (rest == [] || Spacing(rest[0]))
    requires forall k :: 0 <= k < |value| ==> !Closing(value[k]) && !Spacing(value[k]) && !Is(value[k], '=')
    requires !Separator(value[|value| - 1]) && !Is(value[0], '/')
    requires !SchemeName(value, 0, |value|)
    ensures var s := before + key + [sign] + (value + rest);
      var i, v := |before|, |before| + |key| + 1;
      MatchPair(s, i) == Some(Pair(i, i + |key|, v, v + |value|)) && s[v..v + |value|] == value
  {
    hide MatchPair, KeyFrom, SignAt, KeyStands;
    var s := before + key + [sign] + (value + rest);
    var i, b, v := |before|, |before| + |key|, |before| + |key| + 1;
    var e := v + |value|;
    KeyStandsAt(before, key, sign, value + rest);
    assert forall k :: v <= k < e ==> s[k] == value[k - v];
    if rest != [] { assert s[e] == rest[0]; }
    assert Stops(s, e);
    forall k | v <= k < e ensures !Stops(s, k) {
      if k + 1 < e { NoSignNoPair(s, k + 1, e); }
    }
    assert StopsFirst(s, v, e);
    NoSchemeName(s, v, e, value);
    assert ValueTo(s, v, e, e);
    var p := Pair(i, b, v, e);
    assert ValueFromTo(s, v, v, e);
    assert PairVia(s, i, p, b, b, v);
    PairIff(s, i, p);
  }

  /** Without an equals sign up to e, and no key byte there, no pair starts at k. */
  lemma NoSignNoPair(s: bytes, k: nat, e: nat)
    requires k <= e <= |s| && (forall j :: k <= j < e ==> !Is(s[j], '='))
    requires e < |s| ==> !KeyByte(s[e]) && !Is(s[e], '=')
    ensures !StartsPair(s, k)
  {
  }

  lemma FoldsMoves(s: bytes, v: nat, value: bytes, t: string)
    requires v + |value| <= |s| && value == s[v..v + |value|] && |t| == |value|
    ensures FoldsAt(s, v, t) <==> FoldsAt(value, 0, t)
  {
    assert forall k :: 0 <= k < |value| ==> value[k] == s[v + k];
  }

  lemma NoSchemeName(s: bytes, v: nat, e: nat, value: bytes)
    requires v <= e <= |s| && value == s[v..e] && !SchemeName(value, 0, |value|)
    ensures !SchemeName(s, v, e)
  {
    hide FoldsAt;
    if |value| == 6 { FoldsMoves(s, v, value, "bearer"); }
    if |value| == 5 {
      FoldsMoves(s, v, value, "basic");
      FoldsMoves(s, v, value, "token");
    }
  }
}
