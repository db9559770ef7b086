/** What a string may hold: the prefilters and grammars of embedded.go, each with the loop that computes it. */
module Embedded {
  import opened Bytes
  import opened Options
  import opened JsonLex
  import opened UrlQuery
  import D = DetectText

  const SCHEME_MARK: bytes := [0x3A, 0x2F, 0x2F]

  /* ---------- embeddedCandidate ---------- */

  predicate Contains(s: bytes, needle: bytes) {
    exists k :: 0 <= k <= |s| - |needle| && D.HasPrefixAt(s, k, needle)
  }

  /** A string that may be a document: its first byte past the white space decides how it is looked at. */
  predicate IsCandidate(s: bytes) {
    var first := SpaceEnd(s, 0);
    first < |s| &&
    (s[first] == LBRACE || s[first] == LBRACKET || Contains(s, SCHEME_MARK) || EQUALS in s)
  }

  method EmbeddedCandidate(s: bytes) returns (ok: bool)
    ensures ok == IsCandidate(s)
  {
    var index := 0;
    while index < |s|
      invariant index <= |s|
      invariant SpaceEnd(s, index) == SpaceEnd(s, 0)
    {
      if !IsSpace(s[index]) {
        if s[index] == LBRACE || s[index] == LBRACKET {
          return true;
        }
        return Contains(s, SCHEME_MARK) || EQUALS in s;
      }
      index := index + 1;
    }
    return false;
  }

  /* ---------- a JSON document ---------- */

  /** The text is in braces or in brackets, white space aside. */
  predicate IsBracketed(s: bytes) {
    exists first, last :: 0 <= first <= last < |s| && SpansText(s, first, last) &&
      ((s[first] == LBRACE && s[last] == RBRACE) || (s[first] == LBRACKET && s[last] == RBRACKET))
  }

  /** s[first..last] inclusive is s without the white space around it. */
  predicate SpansText(s: bytes, first: int, last: int)
    requires 0 <= first <= last < |s|
  {
    !IsSpace(s[first]) && !IsSpace(s[last]) &&
    (forall k :: 0 <= k < first ==> IsSpace(s[k])) && (forall k :: last < k < |s| ==> IsSpace(s[k]))
  }

  method CheckBracketed(s: bytes) returns (ok: bool)
    ensures ok == IsBracketed(s)
  {
    var first, last := -1, -1;
    var index := 0;
    while index < |s|
      invariant index <= |s|
      invariant first < 0 ==> forall k :: 0 <= k < index ==> IsSpace(s[k])
      invariant first >= 0 ==> first <= last < index && !IsSpace(s[first]) && !IsSpace(s[last])
      invariant first >= 0 ==> (forall k :: 0 <= k < first ==> IsSpace(s[k]))
      invariant first >= 0 ==> (forall k :: last < k < index ==> IsSpace(s[k]))
    {
      if !IsSpace(s[index]) {
        if first < 0 {
          first := index;
        }
        last := index;
      }
      index := index + 1;
    }
    if first < 0 {
      return false;
    }
    assert SpansText(s, first, last);
    return (s[first] == LBRACE && s[last] == RBRACE) || (s[first] == LBRACKET && s[last] == RBRACKET);
  }

  /** A bracketed text starts, past its white space, with a bracket: it is no lone quote. */
  lemma BracketedStart(s: bytes)
    requires IsBracketed(s)
    ensures SpaceEnd(s, 0) < |s| && s[SpaceEnd(s, 0)] != QUOTE
  {
    var first, last :| 0 <= first <= last < |s| && SpansText(s, first, last) &&
      ((s[first] == LBRACE && s[last] == RBRACE) || (s[first] == LBRACKET && s[last] == RBRACKET));
    SpaceEndIs(s, 0, first);
  }

  /* ---------- a URL ---------- */

  predicate IsSchemeByte(c: byte) { IsLetter(c) || IsDigit(c) || c == PLUS || c == MINUS || c == DOT }

  /** A leading "scheme://". */
  predicate HasScheme(s: bytes) {
    s != [] && IsLetter(s[0]) && D.HasPrefixAt(s, D.RunEnd(s, 1, IsSchemeByte), SCHEME_MARK)
  }

  method EmbeddedSchemeEnd(s: bytes) returns (end: int)
    ensures end >= 0 <==> HasScheme(s)
  {
    if s == [] || !IsLetter(s[0]) {
      return -1;
    }
    var index := 1;
    while index < |s| && IsSchemeByte(s[index])
      invariant 1 <= index <= |s|
      invariant D.RunEnd(s, index, IsSchemeByte) == D.RunEnd(s, 1, IsSchemeByte)
    {
      index := index + 1;
    }
    if index + 3 <= |s| {
      assert s[index..index + 3] == [s[index], s[index + 1], s[index + 2]];
    }
    if index + 2 < |s| && s[index] == COLON && s[index + 1] == 0x2F && s[index + 2] == 0x2F {
      return index;
    }
    return -1;
  }

  /** No byte splits s into words. */
  predicate IsOneWord(s: bytes) { forall k :: 0 <= k < |s| ==> s[k] > SPACE && s[k] != 0x7F }

  method CheckOneWord(s: bytes) returns (ok: bool)
    ensures ok == IsOneWord(s)
  {
    var index := 0;
    while index < |s|
      invariant index <= |s|
      invariant forall k :: 0 <= k < index ==> s[k] > SPACE && s[k] != 0x7F
    {
      if s[index] <= SPACE || s[index] == 0x7F {
        return false;
      }
      index := index + 1;
    }
    return true;
  }

  /* ---------- a form ---------- */

  /** Letters, digits and _ - . [ ] % + ~ * */
  predicate IsFormKeyByte(c: byte) {
    IsLetter(c) || IsDigit(c) || c == 0x5F || c == MINUS || c == DOT || c == LBRACKET || c == RBRACKET ||
    c == PERCENT || c == PLUS || c == 0x7E || c == 0x2A
  }

  predicate IsFormKey(key: bytes) { forall k :: 0 <= k < |key| ==> IsFormKeyByte(key[k]) }

  method FormKey(key: bytes) returns (ok: bool)
    ensures ok == IsFormKey(key)
  {
    var index := 0;
    while index < |key|
      invariant index <= |key|
      invariant forall k :: 0 <= k < index ==> IsFormKeyByte(key[k])
    {
      if !IsFormKeyByte(key[index]) {
        return false;
      }
      index := index + 1;
    }
    return true;
  }

  /** One "key=value" part with a form key and a decodable value without a raw '='. */
  predicate IsFormPart(part: bytes) {
    var key, value := Before(part, EQUALS), After(part, EQUALS);
    part != [] && IndexOf(part, EQUALS) < |part| && key != [] && IsFormKey(key) && EQUALS !in value &&
    QueryUnescape(key).Some? && QueryUnescape(value).Some?
  }

  predicate AreFormParts(s: bytes)
    decreases |s|
  {
    s != [] ==> IsFormPart(Before(s, AMPERSAND)) && AreFormParts(After(s, AMPERSAND))
  }

  /** strictFormText. */
  predicate IsStrictForm(s: bytes) { IsOneWord(s) && SEMICOLON !in s && AreFormParts(s) }

  method StrictFormText(s: bytes) returns (ok: bool)
    ensures ok == IsStrictForm(s)
  {
    var index := 0;
    while index < |s|
      invariant index <= |s|
      invariant forall k :: 0 <= k < index ==> s[k] > SPACE && s[k] != 0x7F && s[k] != SEMICOLON
    {
      if s[index] <= SPACE || s[index] == 0x7F || s[index] == SEMICOLON {
        return false;
      }
      index := index + 1;
    }
    var remaining := s;
    while remaining != []
      invariant AreFormParts(remaining) == AreFormParts(s)
      decreases |remaining|
    {
      var part := Before(remaining, AMPERSAND);
      remaining := After(remaining, AMPERSAND);
      if part == [] {
        return false;
      }
      var key, value := Before(part, EQUALS), After(part, EQUALS);
      if IndexOf(part, EQUALS) == |part| || key == [] || EQUALS in value {
        return false;
      }
      var isKey := FormKey(key);
      if !isKey || QueryUnescape(key).None? || QueryUnescape(value).None? {
        return false;
      }
    }
    return true;
  }

  /** How many '&'-separated parts a text has. */
  function PartCount(s: bytes): nat
    decreases |s|
  {
    if s == [] then 0 else 1 + PartCount(After(s, AMPERSAND))
  }

  /** A form accepted by the strict grammar is a query no part of which is rejected or skipped. */
  lemma {:induction false} StrictFormParses(s: bytes)
    requires SEMICOLON !in s && AreFormParts(s)
    ensures Pairs(s).Some? && |Pairs(s).value| == PartCount(s)
    decreases |s|
  {
    hide IndexOf, QueryUnescape;
    if s != [] {
      var part, rest := Before(s, AMPERSAND), After(s, AMPERSAND);
      assert SEMICOLON !in part && SEMICOLON !in rest;
      assert ParsePart(part).Parsed?;
      StrictFormParses(rest);
    }
  }
}
