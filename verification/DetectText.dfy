/** Scanning helpers of internal/detect: character classes, prefixes and runs. */
module DetectText {
  import opened Bytes

  predicate IsAlnum(c: byte) { IsLetter(c) || IsDigit(c) }

  predicate IsWord(c: byte) { IsAlnum(c) || c == 0x5F }

  predicate IsBase64URL(c: byte) { IsWord(c) || c == MINUS }

  predicate IsJWTChar(c: byte) { IsBase64URL(c) || c == DOT }

  predicate IsAlnumDash(c: byte) { IsAlnum(c) || c == MINUS }

  /** Letters, digits and - . _ ~ + / */
  predicate IsToken68(c: byte) {
    IsAlnum(c) || c == MINUS || c == DOT || c == 0x5F || c == 0x7E || c == 0x2B || c == 0x2F
  }

  predicate IsKeyChar(c: byte) { IsWord(c) || c == DOT || c == MINUS }

  predicate IsKeyStart(c: byte) { IsLetter(c) || c == 0x5F || c == MINUS || c == DOT }

  predicate IsSchemeChar(c: byte) { IsAlnum(c) || c == 0x2B || c == MINUS || c == DOT }

  /** Every control byte counts as white space. */
  predicate IsSpaceByte(c: byte) { c <= SPACE || c == 0x7F }

  predicate IsBlank(c: byte) { c == SPACE || c == TAB }

  predicate IsEquals(c: byte) { c == 0x3D }

  predicate IsUpperOrDigit(c: byte) { 0x41 <= c <= 0x5A || IsDigit(c) }

  predicate IsLower(c: byte) { 0x61 <= c <= 0x7A }

  /** A byte of the authority of a URL: none of / ? # @ and no white space. */
  predicate IsAuthorityChar(c: byte) {
    c != 0x2F && c != 0x3F && c != 0x23 && c != 0x40 && !IsSpaceByte(c)
  }

  predicate IsSeparator(c: byte) { c == COMMA || c == 0x3B || c == 0x26 }

  /** A byte of an unquoted value: no white space and none of , ; & ) ] } > " ' */
  predicate IsValueChar(c: byte) {
    !IsSeparator(c) && c != 0x29 && c != RBRACKET && c != RBRACE && c != 0x3E && c != QUOTE && c != 0x27 &&
    !IsSpaceByte(c)
  }

  function Lower(c: byte): byte { if 0x41 <= c <= 0x5A then c + 0x20 else c }

  predicate HasPrefixAt(s: bytes, i: nat, prefix: bytes) {
    i + |prefix| <= |s| && s[i..i + |prefix|] == prefix
  }

  predicate HasFoldPrefixAt(s: bytes, i: nat, prefix: bytes) {
    i + |prefix| <= |s| && forall k :: 0 <= k < |prefix| ==> Lower(s[i + k]) == prefix[k]
  }

  predicate BoundedBefore(s: bytes, i: nat, inside: byte -> bool)
    requires i <= |s|
  {
    i == 0 || !inside(s[i - 1])
  }

  /** The end of the run of bytes of a class from i. */
  function RunEnd(s: bytes, i: nat, class_: byte -> bool): (e: nat)
    requires i <= |s|
    ensures i <= e <= |s|
    ensures e < |s| ==> !class_(s[e])
    ensures forall k :: i <= k < e ==> class_(s[k])
    decreases |s| - i
  {
    if i < |s| && class_(s[i]) then RunEnd(s, i + 1, class_) else i
  }

  function SkipBlanks(s: bytes, i: nat): (e: nat)
    requires i <= |s|
    ensures i <= e <= |s|
  {
    RunEnd(s, i, IsBlank)
  }

  /** Which end a run has is decided by its class alone. */
  lemma {:induction false} RunEndIs(s: bytes, i: nat, e: nat, class_: byte -> bool)
    requires i <= e <= |s|
    requires forall k :: i <= k < e ==> class_(s[k])
    requires e < |s| ==> !class_(s[e])
    ensures RunEnd(s, i, class_) == e
    decreases e - i
  {
    if i < e {
      RunEndIs(s, i + 1, e, class_);
    }
  }

  method FindRunEnd(s: bytes, start: nat, class_: byte -> bool) returns (index: nat)
    requires start <= |s|
    ensures index == RunEnd(s, start, class_)
  {
    index := start;
    while index < |s| && class_(s[index])
      invariant start <= index <= |s|
      invariant RunEnd(s, index, class_) == RunEnd(s, start, class_)
    {
      index := index + 1;
    }
  }

  method CheckPrefixAt(s: bytes, index: nat, prefix: bytes) returns (ok: bool)
    ensures ok == HasPrefixAt(s, index, prefix)
  {
    if |s| - index < |prefix| {
      return false;
    }
    var offset := 0;
    while offset < |prefix|
      invariant offset <= |prefix|
      invariant s[index..index + offset] == prefix[..offset]
    {
      if s[index + offset] != prefix[offset] {
        assert s[index..index + |prefix|][offset] != prefix[offset];
        return false;
      }
      assert s[index..index + offset + 1] == s[index..index + offset] + [prefix[offset]];
      assert prefix[..offset + 1] == prefix[..offset] + [prefix[offset]];
      offset := offset + 1;
    }
    assert prefix[..|prefix|] == prefix;
    return true;
  }

  method CheckFoldPrefixAt(s: bytes, index: nat, prefix: bytes) returns (ok: bool)
    ensures ok == HasFoldPrefixAt(s, index, prefix)
  {
    if |s| - index < |prefix| {
      return false;
    }
    var offset := 0;
    while offset < |prefix|
      invariant offset <= |prefix|
      invariant forall k :: 0 <= k < offset ==> Lower(s[index + k]) == prefix[k]
    {
      if Lower(s[index + offset]) != prefix[offset] {
        return false;
      }
      offset := offset + 1;
    }
    return true;
  }
}
