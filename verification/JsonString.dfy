/**
 JSON string tokens: how the masker writes one (appendJSONString), how encoding/json reads one back
 (json.Unmarshal of a token), and when a token may be copied unread (streamJSONStringCanCopy).
 */
module JsonString {
  import opened Bytes
  import opened Options
  import opened Utf8

  /* ---------- writing ---------- */

  function HexDigit(n: int): (b: byte)
    requires 0 <= n < 16
    ensures HexValue(b) == Some(n)
  {
    if n < 10 then 0x30 + n else 0x57 + n
  }

  /** A byte appendJSONString copies as it is. */
  predicate IsPlain(c: byte) {
    0x20 <= c < 0x80 && c != BACKSLASH && c != QUOTE && c != 0x3C && c != 0x3E && c != 0x26
  }

  /** How many bytes of s its first escaped unit covers. */
  function UnitSize(s: bytes): (n: nat)
    requires s != []
    ensures 1 <= n <= |s|
  {
    match DecodeRune(s)
    case Bad => 1
    case Rune(_, size) => size
  }

  /** The text written for an ASCII byte. */
  function AsciiText(c: byte): bytes
    requires c < 0x80
  {
    if IsPlain(c) then [c]
    else if c == BACKSLASH || c == QUOTE then [BACKSLASH, c]
    else if c == 0x08 then [BACKSLASH, 0x62]
    else if c == 0x0C then [BACKSLASH, 0x66]
    else if c == LF then [BACKSLASH, 0x6E]
    else if c == CR then [BACKSLASH, 0x72]
    else if c == TAB then [BACKSLASH, 0x74]
    else [BACKSLASH, 0x75, 0x30, 0x30, HexDigit(c / 16), HexDigit(c % 16)]
  }

  /** The text written for the first unit of s. */
  function UnitText(s: bytes): bytes
    requires s != []
  {
    if s[0] < 0x80 then AsciiText(s[0])
    else match DecodeRune(s)
      case Bad => [BACKSLASH, 0x75, 0x66, 0x66, 0x66, 0x64]
      case Rune(v, size) =>
        if v == 0x2028 || v == 0x2029 then [BACKSLASH, 0x75, 0x32, 0x30, 0x32, HexDigit(v % 16)]
        else s[..size]
  }

  /** The escaped form of s, without the quotes around it. */
  function Escape(s: bytes): bytes {
    if s == [] then [] else UnitText(s) + Escape(s[UnitSize(s)..])
  }

  /** The JSON text of the string s. */
  function Quoted(s: bytes): bytes { [QUOTE] + Escape(s) + [QUOTE] }

  /** Escape, one unit further on. */
  lemma EscapeStep(src: bytes, index: nat, done: bytes)
    requires index < |src|
    ensures var tail := src[index..];
      done + Escape(tail) == (done + UnitText(tail)) + Escape(src[index + UnitSize(tail)..])
  {
    var tail := src[index..];
    assert tail[UnitSize(tail)..] == src[index + UnitSize(tail)..];
  }

  /** A run of bytes not yet copied grows by a unit written as it is. */
  lemma GrowRun(src: bytes, start: nat, index: nat, written: bytes, done: bytes)
    requires start <= index < |src|
    requires written + src[start..index] == done
    ensures var size := UnitSize(src[index..]);
      written + src[start..index + size] == done + src[index..][..size]
  {
    var size := UnitSize(src[index..]);
    assert src[start..index + size] == src[start..index] + src[index..][..size];
  }

  /** appendJSONString: plain bytes are copied in runs, src[start..index], everything else is escaped. */
  method AppendJSONString(dst: bytes, src: bytes) returns (r: bytes)
    ensures r == dst + Quoted(src)
  {
    hide Escape, UnitText, UnitSize;
    r := dst + [QUOTE];
    var start, index := 0, 0;
    ghost var head, sofar := r, r;
    while index < |src|
      invariant 0 <= start <= index <= |src|
      invariant r + src[start..index] == sofar
      invariant sofar + Escape(src[index..]) == head + Escape(src)
      decreases |src| - index
    {
      var tail := src[index..];
      EscapeStep(src, index, sofar);
      GrowRun(src, start, index, r, sofar);
      sofar := sofar + UnitText(tail);
      var size, keep, text := NextUnit(tail);
      if !keep {
        r := r + src[start..index];
        r := r + text;
        start := index + size;
        assert src[start..start] == [];
      }
      index := index + size;
    }
    assert src[index..] == [];
    assert src[start..] == src[start..index];
    r := r + src[start..];
    Enclose(head, r);
    Enclose(dst, Escape(src));
    r := r + [QUOTE];
  }

  lemma Enclose(dst: bytes, e: bytes)
    ensures dst + [QUOTE] + e + [QUOTE] == dst + ([QUOTE] + e + [QUOTE])
    ensures e + Escape([]) == e
  {
  }

  lemma QuotedBody(token: bytes)
    requires IsDelimited(token)
    ensures token == [QUOTE] + Body(token) + [QUOTE]
  {
  }

  /** One turn of appendJSONString's loop: the size of the unit at the head of tail and its escape, if any. */
  method NextUnit(tail: bytes) returns (size: nat, keep: bool, text: bytes)
    requires tail != []
    ensures size == UnitSize(tail)
    ensures if keep then UnitText(tail) == tail[..size] else text == UnitText(tail)
  {
    var c := tail[0];
    if c < 0x80 {
      assert tail[..1] == [c];
      return 1, IsPlain(c), AsciiText(c);
    }
    match DecodeRune(tail)
    case Bad => return 1, false, [BACKSLASH, 0x75, 0x66, 0x66, 0x66, 0x64];
    case Rune(v, n) =>
      if v == 0x2028 || v == 0x2029 {
        return n, false, [BACKSLASH, 0x75, 0x32, 0x30, 0x32, HexDigit(v % 16)];
      }
      return n, true, [];
  }

  /* ---------- reading ---------- */

  function HexValue(b: byte): (v: Option<int>)
    ensures v.Some? ==> 0 <= v.value < 16
  {
    if IsDigit(b) then Some(b as int - 0x30)
    else if 0x61 <= b <= 0x66 then Some(b as int - 0x57)
    else if 0x41 <= b <= 0x46 then Some(b as int - 0x37)
    else None
  }

  predicate IsHex(b: byte) { HexValue(b).Some? }

  /** The code unit of a \uXXXX escape at the head of s. */
  function CodeUnit(s: bytes): (u: Option<int>)
    ensures u.Some? ==> 0 <= u.value < 0x10000 && |s| >= 6
  {
    if |s| >= 6 && s[0] == BACKSLASH && s[1] == 0x75 &&
       IsHex(s[2]) && IsHex(s[3]) && IsHex(s[4]) && IsHex(s[5])
    then Some(((HexValue(s[2]).value * 16 + HexValue(s[3]).value) * 16 + HexValue(s[4]).value) * 16 + HexValue(s[5]).value)
    else None
  }

  predicate IsSurrogate(u: int) { 0xD800 <= u < 0xE000 }

  predicate IsSurrogatePair(s: bytes) {
    CodeUnit(s).Some? && 0xD800 <= CodeUnit(s).value < 0xDC00 &&
    CodeUnit(s[6..]).Some? && 0xDC00 <= CodeUnit(s[6..]).value < 0xE000
  }

  /** The byte a two-character escape stands for. */
  function SimpleEscape(c: byte): Option<byte> {
    if c == QUOTE || c == BACKSLASH || c == 0x2F then Some(c)
    else if c == 0x62 then Some(0x08)
    else if c == 0x66 then Some(0x0C)
    else if c == 0x6E then Some(LF)
    else if c == 0x72 then Some(CR)
    else if c == 0x74 then Some(TAB)
    else None
  }

  /** One character of a string body: the text it decodes to and the bytes it takes. */
  datatype Char = NoChar | Char(text: bytes, size: nat)

  function DecodeChar(b: bytes): (c: Char)
    requires b != []
    ensures c.Char? ==> 1 <= c.size <= |b|
  {
    if b[0] == BACKSLASH then
      if |b| < 2 then NoChar
      else if b[1] == 0x75 then
        if CodeUnit(b).None? then NoChar
        else if IsSurrogatePair(b) then
          Char(EncodeRune((CodeUnit(b).value - 0xD800) * 0x400 + (CodeUnit(b[6..]).value - 0xDC00) + 0x10000), 12)
        else if IsSurrogate(CodeUnit(b).value) then Char(REPLACEMENT, 6)
        else Char(EncodeRune(CodeUnit(b).value), 6)
      else match SimpleEscape(b[1])
        case None => NoChar
        case Some(c) => Char([c], 2)
    else if b[0] == QUOTE || b[0] < 0x20 then NoChar
    else match DecodeRune(b)
      case Bad => Char(REPLACEMENT, 1)
      case Rune(_, size) => Char(b[..size], size)
  }

  /** The body of a string token decoded as encoding/json decodes it. */
  function Unescape(b: bytes): Option<bytes> {
    if b == [] then Some([])
    else match DecodeChar(b)
      case NoChar => None
      case Char(text, size) =>
        var rest := Unescape(b[size..]);
        if rest.None? then None else Some(text + rest.value)
  }

  function Body(token: bytes): bytes
    requires |token| >= 2
  {
    token[1..|token| - 1]
  }

  predicate IsDelimited(token: bytes) {
    |token| >= 2 && token[0] == QUOTE && token[|token| - 1] == QUOTE
  }

  /** json.Unmarshal(token, &string) for a token that starts with a quote. */
  function Unmarshal(token: bytes): Option<bytes> {
    if IsDelimited(token) then Unescape(Body(token)) else None
  }

  /** RFC 8259 section 7: a body is a sequence of unescaped characters and escapes. */
  predicate IsStringBody(b: bytes) {
    if b == [] then true
    else if b[0] == BACKSLASH then
      if CodeUnit(b).Some? then IsStringBody(b[6..])
      else |b| >= 2 && SimpleEscape(b[1]).Some? && IsStringBody(b[2..])
    else b[0] >= 0x20 && b[0] != QUOTE && IsStringBody(b[1..])
  }

  /** Exactly the bodies of the grammar decode. */
  lemma {:induction false} UnescapeIffGrammar(b: bytes)
    ensures Unescape(b).Some? <==> IsStringBody(b)
    decreases |b|
  {
    if b == [] {
    } else if b[0] == BACKSLASH {
      if CodeUnit(b).Some? {
        if IsSurrogatePair(b) {
          assert b[6..][6..] == b[12..];
          UnescapeIffGrammar(b[12..]);
          assert IsStringBody(b[6..]) == IsStringBody(b[12..]);
        } else {
          UnescapeIffGrammar(b[6..]);
        }
      } else if |b| >= 2 && SimpleEscape(b[1]).Some? {
        UnescapeIffGrammar(b[2..]);
      }
    } else if b[0] >= 0x20 && b[0] != QUOTE {
      match DecodeRune(b)
      case Bad => UnescapeIffGrammar(b[1..]);
      case Rune(_, size) =>
        UnescapeIffGrammar(b[size..]);
        HighBytesAreBody(b, size);
    }
  }

  /** Bytes above 0x7F are body bytes one at a time as well as rune by rune. */
  lemma {:induction false} HighBytesAreBody(b: bytes, n: nat)
    requires n <= |b|
    requires n > 1 ==> forall k :: 0 <= k < n ==> b[k] >= 0x80
    requires n == 1 ==> b[0] >= 0x20 && b[0] != QUOTE && b[0] != BACKSLASH
    ensures IsStringBody(b) == IsStringBody(b[n..])
    decreases n
  {
    if n == 0 {
      assert b[n..] == b;
    } else {
      assert b[1..][n - 1..] == b[n..];
      HighBytesAreBody(b[1..], n - 1);
    }
  }

  /* ---------- round trip ---------- */

  lemma AsciiReadsBack(c: byte, rest: bytes)
    requires c < 0x80
    ensures DecodeChar(AsciiText(c) + rest) == Char([c], |AsciiText(c)|)
  {
    var t := AsciiText(c);
    var b := t + rest;
    assert forall k :: 0 <= k < |t| ==> b[k] == t[k];
    if IsPlain(c) {
      assert b[..1] == [c];
    } else if |t| == 6 {
      assert c as int == c as int / 16 * 16 + c as int % 16;
      assert CodeUnit(b) == Some(c as int);
    }
  }

  /** One written unit reads back as the unit it stands for, an invalid byte as U+FFFD. */
  lemma UnitReadsBack(s: bytes, rest: bytes)
    requires s != []
    ensures UnitText(s) != []
    ensures DecodeChar(UnitText(s) + rest)
         == Char(if DecodeRune(s).Bad? then REPLACEMENT else s[..UnitSize(s)], |UnitText(s)|)
  {
    var t := UnitText(s);
    var b := t + rest;
    if s[0] < 0x80 {
      AsciiReadsBack(s[0], rest);
    } else {
      assert forall k :: 0 <= k < |t| ==> b[k] == t[k];
      match DecodeRune(s)
      case Bad =>
        assert CodeUnit(b) == Some(0xFFFD);
        assert EncodeRune(0xFFFD) == REPLACEMENT;
      case Rune(v, size) =>
        EncodeDecoded(s);
        if v == 0x2028 || v == 0x2029 {
          assert CodeUnit(b) == Some(v);
        } else {
          DecodeExtends(s, rest);
          assert b[..size] == s[..size];
        }
    }
  }

  /** Reading what Escape wrote gives the sanitized string. */
  lemma {:induction false} UnescapeEscape(s: bytes)
    ensures Unescape(Escape(s)) == Some(Sanitize(s))
    decreases |s|
  {
    if s != [] {
      var rest := Escape(s[UnitSize(s)..]);
      UnescapeEscape(s[UnitSize(s)..]);
      UnitReadsBack(s, rest);
      assert (UnitText(s) + rest)[|UnitText(s)|..] == rest;
    }
  }

  /**
   The text of a string reads back as the string itself exactly when it is valid UTF-8;
   otherwise every invalid byte has become U+FFFD.
   */
  lemma QuotedRoundTrip(s: bytes)
    ensures Unmarshal(Quoted(s)) == Some(Sanitize(s))
    ensures Unmarshal(Quoted(s)) == Some(s) <==> Valid(s)
  {
    assert Body(Quoted(s)) == Escape(s);
    UnescapeEscape(s);
    SanitizeValid(s);
  }

  /** The written text holds no control byte, so it can sit on one log line. */
  lemma {:induction false} EscapeHasNoControl(s: bytes)
    ensures forall b :: b in Escape(s) ==> b >= 0x20 && b != 0x3C && b != 0x3E && b != 0x26
    decreases |s|
  {
    if s != [] {
      EscapeHasNoControl(s[UnitSize(s)..]);
      var t := UnitText(s);
      if s[0] >= 0x80 && DecodeRune(s).Rune? {
        assert forall k :: 0 <= k < |t| ==> t[k] >= 0x20 && t[k] != 0x3C && t[k] != 0x3E && t[k] != 0x26;
      }
      assert forall b :: b in t ==> b >= 0x20 && b != 0x3C && b != 0x3E && b != 0x26;
    }
  }

  /* ---------- the raw-copy fast path ---------- */

  /** A body streamJSONStringCanCopy accepts. */
  predicate Copyable(b: bytes) {
    if b == [] then true
    else
      var c := b[0];
      c != BACKSLASH && c != 0x3C && c != 0x3E && c != 0x26 && c >= 0x20 &&
      if c < 0x80 then Copyable(b[1..])
      else match DecodeRune(b)
        case Bad => false
        case Rune(v, size) => v != 0x2028 && v != 0x2029 && Copyable(b[size..])
  }

  /** streamJSONStringCanCopy. */
  method CanCopy(token: bytes) returns (ok: bool)
    ensures ok == (IsDelimited(token) && Copyable(Body(token)))
  {
    if |token| < 2 || token[0] != QUOTE || token[|token| - 1] != QUOTE {
      return false;
    }
    var index := 1;
    ghost var body := Body(token);
    while index < |token| - 1
      invariant 1 <= index <= |token| - 1
      invariant Copyable(body) == Copyable(body[index - 1..])
      decreases |token| - index
    {
      var c := token[index];
      assert body[index - 1..][0] == c;
      assert body[index - 1..][1..] == body[index..];
      if c == BACKSLASH || c == 0x3C || c == 0x3E || c == 0x26 || c < 0x20 {
        return false;
      }
      if c >= 0x80 {
        // The closing quote after the body belongs to no multi-byte rune.
        QuoteEndsRune(body[index - 1..]);
        assert token[index..] == body[index - 1..] + [QUOTE];
        match DecodeRune(token[index..])
        case Bad => return false;
        case Rune(v, size) =>
          if v == 0x2028 || v == 0x2029 {
            return false;
          }
          assert body[index - 1..][size..] == body[index + size - 1..];
          index := index + size;
      } else {
        index := index + 1;
      }
    }
    assert body[index - 1..] == [];
    return true;
  }

  lemma QuoteEndsRune(b: bytes)
    requires b != []
    ensures DecodeRune(b + [QUOTE]) == DecodeRune(b)
  {
    var q := b + [QUOTE];
    assert forall k :: 0 <= k < |b| ==> q[k] == b[k];
  }

  /** A copyable body without a bare quote is what decoding and encoding it again would give. */
  lemma {:induction false} CopyableIsCanonical(b: bytes)
    requires Copyable(b) && QUOTE !in b
    ensures Unescape(b) == Some(b) && Escape(b) == b
    decreases |b|
  {
    if b != [] {
      assert b[0] in b;
      var size := UnitSize(b);
      assert b == b[..size] + b[size..];
      if b[0] < 0x80 {
        assert b[..1] == [b[0]];
      }
      CopyableIsCanonical(b[size..]);
    }
  }

  /** Raw copy equals the slow path for any delimited token without an inner quote. */
  lemma RawCopyIsExact(token: bytes)
    requires IsDelimited(token) && QUOTE !in Body(token) && Copyable(Body(token))
    ensures Unmarshal(token).Some? && Quoted(Unmarshal(token).value) == token
  {
    var b := Body(token);
    CopyableIsCanonical(b);
    QuotedBody(token);
    assert Unmarshal(token) == Some(b);
  }
}
