/** UTF-8 as Go's unicode/utf8 reads it: a byte that starts no valid rune is an error one byte wide. */
module Utf8 {
  import opened Bytes

  datatype Rune = Bad | Rune(value: int, size: nat)

  /** U+FFFD, the replacement character, in UTF-8. */
  const REPLACEMENT: bytes := [0xEF, 0xBF, 0xBD]

  predicate IsContinuation(b: byte) { 0x80 <= b <= 0xBF }

  /** A Unicode scalar value: a code point that is not a surrogate. */
  predicate IsScalar(v: int) { 0 <= v < 0xD800 || 0xE000 <= v < 0x110000 }

  /** The range the second byte of a sequence starting with lead must lie in. */
  predicate SecondFits(lead: byte, second: byte) {
    if lead == 0xE0 then 0xA0 <= second <= 0xBF
    else if lead == 0xED then 0x80 <= second <= 0x9F
    else if lead == 0xF0 then 0x90 <= second <= 0xBF
    else if lead == 0xF4 then 0x80 <= second <= 0x8F
    else IsContinuation(second)
  }

  /** utf8.DecodeRune on the head of s. */
  function DecodeRune(s: bytes): (r: Rune)
    requires s != []
    ensures r.Rune? ==> 1 <= r.size <= 4 && r.size <= |s| && IsScalar(r.value)
    ensures r.Rune? && s[0] >= 0x80 ==> forall k :: 0 <= k < r.size ==> s[k] >= 0x80
  {
    var lead: int := s[0];
    if lead < 0x80 then Rune(lead, 1)
    else if lead < 0xC2 || lead > 0xF4 then Bad
    else if |s| < 2 || !SecondFits(s[0], s[1]) then Bad
    else
      var b: int := s[1] as int - 0x80;
      if lead < 0xE0 then Rune((lead - 0xC0) * 64 + b, 2)
      else if |s| < 3 || !IsContinuation(s[2]) then Bad
      else
        var c: int := s[2] as int - 0x80;
        if lead < 0xF0 then Rune(((lead - 0xE0) * 64 + b) * 64 + c, 3)
        else if |s| < 4 || !IsContinuation(s[3]) then Bad
        else
          var d: int := s[3] as int - 0x80;
          Rune((((lead - 0xF0) * 64 + b) * 64 + c) * 64 + d, 4)
  }

  /** utf8.AppendRune for a scalar value. */
  function EncodeRune(v: int): (e: bytes)
    requires IsScalar(v)
    ensures 1 <= |e| <= 4
  {
    if v < 0x80 then [v]
    else if v < 0x800 then [0xC0 + v / 64, 0x80 + v % 64]
    else if v < 0x10000 then [0xE0 + v / 4096, 0x80 + v / 64 % 64, 0x80 + v % 64]
    else [0xF0 + v / 262144, 0x80 + v / 4096 % 64, 0x80 + v / 64 % 64, 0x80 + v % 64]
  }

  lemma JoinTwo(a: int, b: int)
    requires 2 <= a < 32 && 0 <= b < 64
    ensures EncodeRune(a * 64 + b) == [0xC0 + a, 0x80 + b]
  {
  }

  lemma JoinThree(a: int, b: int, c: int)
    requires 0 <= a < 16 && 0 <= b < 64 && 0 <= c < 64 && (a > 0 || b >= 32)
    requires IsScalar((a * 64 + b) * 64 + c)
    ensures EncodeRune((a * 64 + b) * 64 + c) == [0xE0 + a, 0x80 + b, 0x80 + c]
  {
    var v := (a * 64 + b) * 64 + c;
    assert v / 64 == a * 64 + b && v / 4096 == a;
  }

  lemma JoinFour(a: int, b: int, c: int, d: int)
    requires 0 <= a < 5 && 0 <= b < 64 && 0 <= c < 64 && 0 <= d < 64 && (a > 0 || b >= 16)
    requires IsScalar(((a * 64 + b) * 64 + c) * 64 + d)
    ensures EncodeRune(((a * 64 + b) * 64 + c) * 64 + d) == [0xF0 + a, 0x80 + b, 0x80 + c, 0x80 + d]
  {
    var v := ((a * 64 + b) * 64 + c) * 64 + d;
    assert v / 64 == (a * 64 + b) * 64 + c;
    assert v / 4096 == a * 64 + b && v / 262144 == a;
  }

  /** A decoded rune encodes back to the bytes it was read from. */
  lemma EncodeDecoded(s: bytes)
    requires s != [] && DecodeRune(s).Rune?
    ensures EncodeRune(DecodeRune(s).value) == s[..DecodeRune(s).size]
  {
    var size := DecodeRune(s).size;
    if size == 2 {
      JoinTwo(s[0] as int - 0xC0, s[1] as int - 0x80);
      assert s[..2] == [s[0], s[1]];
    } else if size == 3 {
      JoinThree(s[0] as int - 0xE0, s[1] as int - 0x80, s[2] as int - 0x80);
      assert s[..3] == [s[0], s[1], s[2]];
    } else if size == 4 {
      JoinFour(s[0] as int - 0xF0, s[1] as int - 0x80, s[2] as int - 0x80, s[3] as int - 0x80);
      assert s[..4] == [s[0], s[1], s[2], s[3]];
    }
  }

  lemma SplitThree(v: int)
    requires 0 <= v < 0x10000
    ensures v == (v / 4096 * 64 + v / 64 % 64) * 64 + v % 64
    ensures v / 4096 < 16
  {
    assert v / 64 / 64 == v / 4096;
  }

  lemma SplitFour(v: int)
    requires 0 <= v < 0x110000
    ensures v == ((v / 262144 * 64 + v / 4096 % 64) * 64 + v / 64 % 64) * 64 + v % 64
    ensures v / 262144 <= 4
  {
    assert v / 64 / 64 == v / 4096;
    assert v / 4096 / 64 == v / 262144;
  }

  /** An encoded scalar value decodes back to itself, whatever follows it. */
  lemma DecodeEncoded(v: int, rest: bytes)
    requires IsScalar(v)
    ensures DecodeRune(EncodeRune(v) + rest) == Rune(v, |EncodeRune(v)|)
  {
    var e := EncodeRune(v);
    var s := e + rest;
    assert forall k :: 0 <= k < |e| ==> s[k] == e[k];
    if v < 0x80 {
    } else if v < 0x800 {
      assert v == v / 64 * 64 + v % 64;
      assert DecodeRune(s) == Rune(v, 2);
    } else if v < 0x10000 {
      SplitThree(v);
      assert SecondFits(s[0], s[1]);
      assert DecodeRune(s) == Rune(v, 3);
    } else {
      SplitFour(v);
      assert SecondFits(s[0], s[1]);
      assert DecodeRune(s) == Rune(v, 4);
    }
  }

  /** What a rune is depends only on the bytes it spans. */
  lemma DecodeExtends(s: bytes, rest: bytes)
    requires s != [] && DecodeRune(s).Rune?
    ensures DecodeRune(s[..DecodeRune(s).size] + rest) == DecodeRune(s)
  {
    EncodeDecoded(s);
    var r := DecodeRune(s);
    DecodeEncoded(r.value, rest);
  }

  /** utf8.Valid. */
  predicate Valid(s: bytes) {
    if s == [] then true
    else match DecodeRune(s)
      case Bad => false
      case Rune(_, size) => Valid(s[size..])
  }

  lemma {:induction false} AsciiIsValid(s: bytes)
    requires forall k :: 0 <= k < |s| ==> s[k] < 0x80
    ensures Valid(s)
    decreases |s|
  {
    if s != [] { AsciiIsValid(s[1..]); }
  }

  /** Every byte that starts no rune replaced by U+FFFD, as encoding/json reads invalid text. */
  function Sanitize(s: bytes): bytes {
    if s == [] then []
    else match DecodeRune(s)
      case Bad => REPLACEMENT + Sanitize(s[1..])
      case Rune(_, size) => s[..size] + Sanitize(s[size..])
  }

  lemma {:induction false} SanitizeValid(s: bytes)
    ensures Valid(Sanitize(s))
    ensures Valid(s) ==> Sanitize(s) == s
    decreases |s|
  {
    if s != [] {
      match DecodeRune(s)
      case Bad =>
        SanitizeValid(s[1..]);
        ReplacementFirst(Sanitize(s[1..]));
      case Rune(v, size) =>
        SanitizeValid(s[size..]);
        RuneFirst(s, size, Sanitize(s[size..]));
        assert s == s[..size] + s[size..];
    }
  }

  /** U+FFFD in front of valid text. */
  lemma ReplacementFirst(rest: bytes)
    requires Valid(rest)
    ensures Valid(REPLACEMENT + rest)
  {
    DecodeEncoded(0xFFFD, rest);
    hide DecodeRune;
    assert (REPLACEMENT + rest)[3..] == rest;
  }

  /** The first rune of s in front of valid text. */
  lemma RuneFirst(s: bytes, size: nat, rest: bytes)
    requires s != [] && DecodeRune(s).Rune? && size == DecodeRune(s).size && Valid(rest)
    ensures Valid(s[..size] + rest)
  {
    DecodeExtends(s, rest);
    hide DecodeRune;
    assert (s[..size] + rest)[size..] == rest;
  }

  lemma ReplacementIs()
    ensures EncodeRune(0xFFFD) == REPLACEMENT
  {
  }

  /** Valid texts one after the other are a valid text. */
  lemma {:induction false} ValidAppend(a: bytes, b: bytes)
    requires Valid(a) && Valid(b)
    ensures Valid(a + b)
    decreases |a|
  {
    hide DecodeRune;
    if a == [] {
      assert a + b == b;
    } else {
      var size := DecodeRune(a).size;
      ValidAppend(a[size..], b);
      RuneFirst(a, size, a[size..] + b);
      assert a + b == a[..size] + (a[size..] + b);
    }
  }
}
