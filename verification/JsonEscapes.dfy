/**
 What a JSON string spells, written down the other way round: a string body is a list of pieces, each written in one
 of the forms of RFC 8259 section 7 and standing for one code point. The decoder is proved to read exactly that.
 */
module JsonEscapes {
  import opened Bytes
  import opened Options
  import opened JsonString
  import opened Utf8

  /**
   A code point as it is, as a two-character escape, as one \uXXXX, or as a pair of them; or half of a pair that
   stands alone. Each hexadecimal digit has its own case.
   */
  datatype Piece =
    | Raw(v: int)
    | Short(letter: char)
    | Unit(v: int, capital: seq<bool>)
    | Pair(v: int, high: seq<bool>, low: seq<bool>)
    | Half(v: int, capital: seq<bool>)

  /** The code point a two-character escape stands for. */
  function ShortValue(letter: char): int {
    match letter
    case '"' => 34
    case '\\' => 92
    case '/' => 47
    case 'b' => 8
    case 'f' => 12
    case 'n' => 10
    case 'r' => 13
    case 't' => 9
    case _ => -1
  }

  predicate IsHigh(v: int) { 0xD800 <= v <= 0xDBFF }

  predicate IsLow(v: int) { 0xDC00 <= v <= 0xDFFF }

  predicate IsPiece(p: Piece) {
    match p
    case Raw(v) => IsScalar(v) && v >= 32 && v != '"' as int && v != '\\' as int
    case Short(letter) => ShortValue(letter) >= 0
    case Unit(v, c) => IsScalar(v) && v < 0x10000 && |c| == 4
    case Pair(v, h, l) => 0x10000 <= v <= 0x10FFFF && |h| == 4 && |l| == 4
    case Half(v, c) => (IsHigh(v) || IsLow(v)) && |c| == 4
  }

  /** No half of a pair is followed by the other half. */
  predicate ArePieces(ps: seq<Piece>) {
    (forall k :: 0 <= k < |ps| ==> IsPiece(ps[k])) &&
    (forall k :: 0 < k < |ps| ==> !(ps[k - 1].Half? && IsHigh(ps[k - 1].v) && ps[k].Half? && IsLow(ps[k].v)))
  }

  function HexChar(n: int, capital: bool): byte
    requires 0 <= n < 16
  {
    if n < 10 then '0' as int + n else if capital then 'A' as int + n - 10 else 'a' as int + n - 10
  }

  /** \uXXXX */
  function UnitText(v: int, c: seq<bool>): (t: bytes)
    requires 0 <= v < 0x10000 && |c| == 4
    ensures |t| == 6
  {
    ['\\' as int, 'u' as int, HexChar(v / 4096, c[0]), HexChar(v / 256 % 16, c[1]), HexChar(v / 16 % 16, c[2]), HexChar(v % 16, c[3])]
  }

  /** The halves of a code point past 0xFFFF: ten bits each, the upper ten first. */
  function High(v: int): int { 0xD800 + (v - 0x10000) / 1024 }

  function Low(v: int): int { 0xDC00 + (v - 0x10000) % 1024 }

  function Written(p: Piece): (t: bytes)
    requires IsPiece(p)
    ensures t != []
  {
    match p
    case Raw(v) => EncodeRune(v)
    case Short(letter) => ['\\' as int, letter as int]
    case Unit(v, c) => UnitText(v, c)
    case Pair(v, h, l) => UnitText(High(v), h) + UnitText(Low(v), l)
    case Half(v, c) => UnitText(v, c)
  }

  /** The code point a piece stands for; half a pair is read as U+FFFD. */
  function Value(p: Piece): (v: int)
    requires IsPiece(p)
    ensures IsScalar(v)
  {
    match p
    case Short(letter) => ShortValue(letter)
    case Half(_, _) => 0xFFFD
    case _ => p.v
  }

  function WrittenAll(ps: seq<Piece>): bytes
    requires forall k :: 0 <= k < |ps| ==> IsPiece(ps[k])
  {
    if ps == [] then [] else Written(ps[0]) + WrittenAll(ps[1..])
  }

  /** The text a list of pieces spells, in UTF-8. */
  function Spelled(ps: seq<Piece>): bytes
    requires forall k :: 0 <= k < |ps| ==> IsPiece(ps[k])
  {
    if ps == [] then [] else EncodeRune(Value(ps[0])) + Spelled(ps[1..])
  }

  /* ---------- pieces are read ---------- */

  lemma HexCharIs(n: int, capital: bool)
    requires 0 <= n < 16
    ensures HexValue(HexChar(n, capital)) == Some(n)
  {
  }

  lemma SplitUnit(v: int)
    requires 0 <= v < 0x10000
    ensures v == ((v / 4096 * 16 + v / 256 % 16) * 16 + v / 16 % 16) * 16 + v % 16
    ensures v / 4096 < 16
  {
    assert v / 16 / 16 == v / 256 && v / 256 / 16 == v / 4096;
  }

  lemma UnitReads(v: int, c: seq<bool>, rest: bytes)
    requires 0 <= v < 0x10000 && |c| == 4
    ensures CodeUnit(UnitText(v, c) + rest) == Some(v)
  {
    SplitUnit(v);
    HexCharIs(v / 4096, c[0]);
    HexCharIs(v / 256 % 16, c[1]);
    HexCharIs(v / 16 % 16, c[2]);
    HexCharIs(v % 16, c[3]);
    hide HexValue, HexChar;
    var t := UnitText(v, c);
    assert forall k :: 0 <= k < 6 ==> (t + rest)[k] == t[k];
  }

  /** What is not written as a \uXXXX is none. */
  lemma NoUnit(p: Piece, rest: bytes)
    requires IsPiece(p) && (p.Raw? || p.Short?)
    ensures CodeUnit(Written(p) + rest).None?
  {
    if p.Raw? { RawStarts(p.v); }
    hide EncodeRune;
    var t := Written(p);
    assert (t + rest)[0] == t[0];
    if p.Short? { assert (t + rest)[1] == t[1] != 'u' as int; }
  }

  lemma PairStarts(v: int, h: seq<bool>, l: seq<bool>, rest: bytes)
    requires IsPiece(Pair(v, h, l))
    ensures CodeUnit(Written(Pair(v, h, l)) + rest) == Some(High(v)) && IsHigh(High(v))
  {
    PairJoins(v);
    UnitReads(High(v), h, UnitText(Low(v), l) + rest);
    hide CodeUnit, UnitText, High, Low;
    assert Written(Pair(v, h, l)) + rest == UnitText(High(v), h) + (UnitText(Low(v), l) + rest);
  }

  /** What stands at the head of a written list is the second half of a pair only if such a half is the first piece. */
  lemma FirstUnit(ps: seq<Piece>)
    requires ArePieces(ps)
    ensures var u := CodeUnit(WrittenAll(ps));
      u.Some? && IsLow(u.value) ==> ps != [] && ps[0].Half? && IsLow(ps[0].v)
  {
    hide EncodeRune, UnitText, High, Low;
    if ps == [] {
      NothingWritten();
    } else {
      hide CodeUnit;
      var p, rest := ps[0], WrittenAll(ps[1..]);
      if p.Raw? || p.Short? {
        NoUnit(p, rest);
      } else if p.Pair? {
        PairStarts(p.v, p.high, p.low, rest);
      } else {
        UnitReads(p.v, p.capital, rest);
      }
    }
  }

  lemma NothingWritten()
    ensures CodeUnit(WrittenAll([])).None?
  {
  }

  lemma RawStarts(v: int)
    requires IsPiece(Raw(v))
    ensures EncodeRune(v)[0] != BACKSLASH && EncodeRune(v)[0] != QUOTE && EncodeRune(v)[0] >= 0x20
  {
  }

  lemma PairJoins(v: int)
    requires 0x10000 <= v <= 0x10FFFF
    ensures IsHigh(High(v)) && IsLow(Low(v))
    ensures (High(v) - 0xD800) * 1024 + (Low(v) - 0xDC00) + 0x10000 == v
  {
  }

  lemma RawReads(v: int, rest: bytes)
    requires IsPiece(Raw(v))
    ensures DecodeChar(EncodeRune(v) + rest) == Char(EncodeRune(v), |EncodeRune(v)|)
  {
    var t := EncodeRune(v);
    var b := t + rest;
    RawStarts(v);
    DecodeEncoded(v, rest);
    hide EncodeRune, DecodeRune;
    assert b[0] == t[0] && b[..|t|] == t;
  }

  /** A first escape of four digits, by the code unit it is and the one that may follow. */
  lemma UnitFirst(v: int, c: seq<bool>, rest: bytes)
    requires 0 <= v < 0x10000 && |c| == 4
    ensures var b := UnitText(v, c) + rest;
      && (!IsSurrogate(v) ==> DecodeChar(b) == Char(EncodeRune(v), 6))
      && (IsSurrogate(v) && !(IsHigh(v) && CodeUnit(rest).Some? && IsLow(CodeUnit(rest).value)) ==>
            DecodeChar(b) == Char(REPLACEMENT, 6))
      && (IsHigh(v) && CodeUnit(rest).Some? && IsLow(CodeUnit(rest).value) ==>
            DecodeChar(b) == Char(EncodeRune((v - 0xD800) * 1024 + (CodeUnit(rest).value - 0xDC00) + 0x10000), 12))
  {
    UnitReads(v, c, rest);
    var t := UnitText(v, c);
    var b := t + rest;
    assert b[0] == t[0] == BACKSLASH && b[1] == t[1] == 0x75;
    assert b[6..] == rest;
    hide CodeUnit, EncodeRune, UnitText;
  }

  lemma PairReads(v: int, h: seq<bool>, l: seq<bool>, rest: bytes)
    requires IsPiece(Pair(v, h, l))
    ensures DecodeChar(Written(Pair(v, h, l)) + rest) == Char(EncodeRune(v), 12)
  {
    PairJoins(v);
    UnitReads(Low(v), l, rest);
    UnitFirst(High(v), h, UnitText(Low(v), l) + rest);
    hide UnitText, High, Low, EncodeRune, DecodeChar, CodeUnit;
    assert Written(Pair(v, h, l)) + rest == UnitText(High(v), h) + (UnitText(Low(v), l) + rest);
  }

  /** A written piece is read as its code point, and takes its own bytes. */
  lemma PieceReads(ps: seq<Piece>)
    requires ps != [] && ArePieces(ps)
    ensures DecodeChar(WrittenAll(ps)) == Char(EncodeRune(Value(ps[0])), |Written(ps[0])|)
  {
    hide DecodeChar, CodeUnit, EncodeRune, UnitText, ShortValue;
    var p, rest := ps[0], WrittenAll(ps[1..]);
    TailIsPieces(ps);
    FirstUnit(ps[1..]);
    ReplacementIs();
    match p {
      case Raw(v) => RawReads(v, rest);
      case Short(letter) => ShortReads(letter, rest);
      case Unit(v, c) => UnitFirst(v, c, rest);
      case Half(v, c) => UnitFirst(v, c, rest);
      case Pair(v, h, l) => PairReads(v, h, l, rest);
    }
  }

  lemma ShortReads(letter: char, rest: bytes)
    requires ShortValue(letter) >= 0
    ensures DecodeChar(['\\' as int, letter as int] + rest) == Char(EncodeRune(ShortValue(letter)), 2)
  {
    var b := ['\\' as int, letter as int] + rest;
    assert b[0] == BACKSLASH && b[1] == letter as int;
  }

  lemma TailIsPieces(ps: seq<Piece>)
    requires ps != [] && ArePieces(ps)
    ensures ArePieces(ps[1..])
  {
    var qs := ps[1..];
    forall k | 0 < k < |qs| ensures !(qs[k - 1].Half? && IsHigh(qs[k - 1].v) && qs[k].Half? && IsLow(qs[k].v)) {
      assert qs[k - 1] == ps[k] && qs[k] == ps[k + 1];
    }
  }

  /** Whatever way a text is spelled, the decoder reads the text. */
  lemma {:induction false} PiecesRead(ps: seq<Piece>)
    requires ArePieces(ps)
    ensures Unescape(WrittenAll(ps)) == Some(Spelled(ps))
    decreases |ps|
  {
    hide DecodeChar, Written, EncodeRune, Value;
    if ps != [] {
      PieceReads(ps);
      TailIsPieces(ps);
      PiecesRead(ps[1..]);
      assert WrittenAll(ps)[|Written(ps[0])|..] == WrittenAll(ps[1..]);
    }
  }

  /* ---------- whatever is read is made of pieces ---------- */

  lemma HexCase(x: byte) returns (capital: bool)
    requires HexValue(x).Some?
    ensures HexChar(HexValue(x).value, capital) == x
  {
    capital := 'A' as int <= x <= 'F' as int;
  }

  lemma JoinUnit(a: int, b: int, c: int, d: int)
    requires 0 <= a < 16 && 0 <= b < 16 && 0 <= c < 16 && 0 <= d < 16
    ensures var v := ((a * 16 + b) * 16 + c) * 16 + d;
      v / 4096 == a && v / 256 % 16 == b && v / 16 % 16 == c && v % 16 == d
  {
    var v := ((a * 16 + b) * 16 + c) * 16 + d;
    assert v / 16 == (a * 16 + b) * 16 + c;
    assert v / 256 == a * 16 + b;
  }

  lemma UnitCases(b: bytes) returns (c: seq<bool>)
    requires CodeUnit(b).Some?
    ensures |c| == 4 && UnitText(CodeUnit(b).value, c) == b[..6]
  {
    var w := HexCase(b[2]);
    var x := HexCase(b[3]);
    var y := HexCase(b[4]);
    var z := HexCase(b[5]);
    c := [w, x, y, z];
    JoinUnit(HexValue(b[2]).value, HexValue(b[3]).value, HexValue(b[4]).value, HexValue(b[5]).value);
    hide HexValue, HexChar;
  }

  lemma {:induction false} AfterAscii(b: bytes, n: nat)
    requires Valid(b) && n <= |b| && forall k :: 0 <= k < n ==> b[k] < 0x80
    ensures Valid(b[n..])
    decreases n
  {
    if n == 0 {
      assert b[0..] == b;
    } else {
      AfterAscii(b[1..], n - 1);
      assert b[1..][n - 1..] == b[n..];
    }
  }

  /** The piece at the head of a body that starts with a \uXXXX. */
  lemma UnitPiece(b: bytes) returns (p: Piece)
    requires CodeUnit(b).Some?
    ensures IsPiece(p) && !p.Raw? && |Written(p)| == DecodeChar(b).size <= |b| && Written(p) == b[..|Written(p)|]
    ensures p.Half? && IsHigh(p.v) ==> !(CodeUnit(b[6..]).Some? && IsLow(CodeUnit(b[6..]).value))
  {
    var u := CodeUnit(b).value;
    var c := UnitCases(b);
    if IsSurrogatePair(b) {
      var d := UnitCases(b[6..]);
      p := JoinedPair(b, c, d);
    } else {
      p := if IsSurrogate(u) then Half(u, c) else Unit(u, c);
    }
    hide CodeUnit, UnitText, EncodeRune;
  }

  lemma ShortPiece(b: bytes) returns (p: Piece)
    requires |b| >= 2 && b[0] == BACKSLASH && SimpleEscape(b[1]).Some?
    ensures IsPiece(p) && p.Short? && Written(p) == b[..2]
  {
    p := Short(b[1] as char);
  }

  lemma RawPiece(b: bytes) returns (p: Piece)
    requires b != [] && b[0] != BACKSLASH && b[0] != QUOTE && b[0] >= 0x20 && DecodeRune(b).Rune?
    ensures IsPiece(p) && p.Raw? && |Written(p)| == DecodeRune(b).size && Written(p) == b[..|Written(p)|]
  {
    p := Raw(DecodeRune(b).value);
    EncodeDecoded(b);
  }

  lemma CharCases(b: bytes)
    requires b != [] && Valid(b) && DecodeChar(b).Char?
    ensures b[0] == BACKSLASH && CodeUnit(b).None? ==> |b| >= 2 && SimpleEscape(b[1]).Some? && DecodeChar(b).size == 2
    ensures b[0] != BACKSLASH ==>
      b[0] != QUOTE && b[0] >= 0x20 && DecodeRune(b).Rune? && DecodeChar(b).size == DecodeRune(b).size &&
      Valid(b[DecodeRune(b).size..])
  {
    hide CodeUnit, EncodeRune;
  }

  /** The piece at the head of a body. */
  lemma FirstPiece(b: bytes) returns (p: Piece)
    requires b != [] && Valid(b) && DecodeChar(b).Char?
    ensures IsPiece(p) && |Written(p)| == DecodeChar(b).size && Written(p) == b[..|Written(p)|]
    ensures p.Half? && IsHigh(p.v) ==> |b| >= 6 && !(CodeUnit(b[6..]).Some? && IsLow(CodeUnit(b[6..]).value))
    ensures Valid(b[|Written(p)|..])
  {
    CharCases(b);
    hide DecodeChar, DecodeRune, Valid, SimpleEscape, Written, IsPiece;
    if b[0] == BACKSLASH {
      if CodeUnit(b).Some? { p := UnitPiece(b); } else { p := ShortPiece(b); }
      hide CodeUnit;
      var t := Written(p);
      WrittenAscii(p);
      assert forall k :: 0 <= k < |t| ==> b[k] == t[k];
      AfterAscii(b, |t|);
    } else {
      p := RawPiece(b);
    }
  }

  lemma JoinedPair(b: bytes, c: seq<bool>, d: seq<bool>) returns (p: Piece)
    requires IsSurrogatePair(b) && |c| == 4 && |d| == 4
    requires UnitText(CodeUnit(b).value, c) == b[..6] && UnitText(CodeUnit(b[6..]).value, d) == b[6..][..6]
    ensures IsPiece(p) && p.Pair? && |b| >= 12 && Written(p) == b[..12]
  {
    hide CodeUnit, UnitText;
    var x, y := CodeUnit(b).value, CodeUnit(b[6..]).value;
    p := Pair((x - 0xD800) * 1024 + (y - 0xDC00) + 0x10000, c, d);
    assert High(p.v) == x && Low(p.v) == y;
    assert b[..12] == b[..6] + b[6..][..6];
  }

  lemma UnitAscii(v: int, c: seq<bool>)
    requires 0 <= v < 0x10000 && |c| == 4
    ensures forall k :: 0 <= k < 6 ==> UnitText(v, c)[k] < 0x80
  {
  }

  lemma WrittenAscii(p: Piece)
    requires IsPiece(p) && !p.Raw?
    ensures forall k :: 0 <= k < |Written(p)| ==> Written(p)[k] < 0x80
  {
    match p
    case Short(_) =>
    case Unit(v, c) => UnitAscii(v, c);
    case Half(v, c) => UnitAscii(v, c);
    case Pair(v, h, l) =>
      UnitAscii(High(v), h);
      UnitAscii(Low(v), l);
  }

  lemma HalfSize(p: Piece)
    requires IsPiece(p) && p.Half?
    ensures |Written(p)| == 6
  {
  }

  lemma HalvesApart(b: bytes, p: Piece, rest: seq<Piece>)
    requires IsPiece(p) && p.Half? && ArePieces(rest) && rest != [] && rest[0].Half?
    requires |b| >= 6 && WrittenAll(rest) == b[6..]
    requires IsHigh(p.v) ==> !(CodeUnit(b[6..]).Some? && IsLow(CodeUnit(b[6..]).value))
    ensures !(IsHigh(p.v) && IsLow(rest[0].v))
  {
    UnitReads(rest[0].v, rest[0].capital, WrittenAll(rest[1..]));
    hide CodeUnit, UnitText;
    assert b[6..] == Written(rest[0]) + WrittenAll(rest[1..]);
  }

  lemma PiecesJoin(p: Piece, rest: seq<Piece>)
    requires IsPiece(p) && ArePieces(rest)
    requires rest != [] && rest[0].Half? && p.Half? ==> !(IsHigh(p.v) && IsLow(rest[0].v))
    ensures ArePieces([p] + rest) && WrittenAll([p] + rest) == Written(p) + WrittenAll(rest)
  {
    hide IsPiece, Written;
    var ps := [p] + rest;
    assert ps[1..] == rest;
    forall k | 0 < k < |ps| ensures !(ps[k - 1].Half? && IsHigh(ps[k - 1].v) && ps[k].Half? && IsLow(ps[k].v)) {
      if k > 1 { assert ps[k - 1] == rest[k - 2] && ps[k] == rest[k - 1]; }
    }
  }

  lemma {:induction false} PiecesExist(b: bytes) returns (ps: seq<Piece>)
    requires Valid(b) && Unescape(b).Some?
    ensures ArePieces(ps) && WrittenAll(ps) == b
    decreases |b|
  {
    hide DecodeChar, Valid, CodeUnit, UnitText, EncodeRune, High, Low, IsPiece, Written;
    ps := [];
    if b != [] {
      var p := FirstPiece(b);
      var t := Written(p);
      var rest := PiecesExist(b[|t|..]);
      if rest != [] && rest[0].Half? && p.Half? {
        HalfSize(p);
        HalvesApart(b, p, rest);
      }
      ps := [p] + rest;
      PiecesJoin(p, rest);
      assert b == t + b[|t|..];
    }
  }

  ghost predicate IsSpelling(b: bytes, t: bytes) {
    exists ps :: ArePieces(ps) && WrittenAll(ps) == b && Spelled(ps) == t
  }

  /** In valid UTF-8, a string body is read as a text exactly if it is a spelling of that text. */
  lemma ReadIffSpelled(b: bytes, t: bytes)
    requires Valid(b)
    ensures Unescape(b) == Some(t) <==> IsSpelling(b, t)
  {
    hide Valid, Unescape, WrittenAll, Spelled, IsPiece;
    if Unescape(b) == Some(t) {
      var ps := PiecesExist(b);
      PiecesRead(ps);
    }
    forall ps | ArePieces(ps) && WrittenAll(ps) == b && Spelled(ps) == t ensures Unescape(b) == Some(t) { PiecesRead(ps); }
  }

  /** No control character is accepted in a string. */
  lemma {:induction false} NoControls(b: bytes)
    requires Unescape(b).Some?
    ensures forall k :: 0 <= k < |b| ==> b[k] >= 32
    decreases |b|
  {
    hide Unescape, CodeUnit;
    UnescapeIffGrammar(b);
    BodyHasNoControls(b);
  }

  lemma {:induction false} BodyHasNoControls(b: bytes)
    requires IsStringBody(b)
    ensures forall k :: 0 <= k < |b| ==> b[k] >= 32
    decreases |b|
  {
    if b != [] {
      var n := if b[0] != BACKSLASH then 1 else if CodeUnit(b).Some? then 6 else 2;
      BodyHasNoControls(b[n..]);
      forall k | 0 <= k < |b| ensures b[k] >= 32 {
        if k >= n { assert b[k] == b[n..][k - n]; }
      }
    }
  }

  /* ---------- every text can be spelled in escapes alone ---------- */

  const SMALL: seq<bool> := [false, false, false, false]

  /** Every code point of s as one \uXXXX or two. */
  function AllEscaped(s: bytes): (ps: seq<Piece>)
    requires Valid(s)
    ensures forall k :: 0 <= k < |ps| ==> IsPiece(ps[k]) && !ps[k].Half?
  {
    if s == [] then []
    else
      var r := DecodeRune(s);
      [if r.value < 0x10000 then Unit(r.value, SMALL) else Pair(r.value, SMALL, SMALL)] + AllEscaped(s[r.size..])
  }

  lemma {:induction false} AllEscapedSpells(s: bytes)
    requires Valid(s)
    ensures ArePieces(AllEscaped(s)) && Spelled(AllEscaped(s)) == s
    decreases |s|
  {
    hide EncodeRune, DecodeRune;
    if s != [] {
      var r := DecodeRune(s);
      EncodeDecoded(s);
      AllEscapedSpells(s[r.size..]);
      assert AllEscaped(s)[1..] == AllEscaped(s[r.size..]);
      assert s == s[..r.size] + s[r.size..];
    }
  }

  /** Written in escapes alone, any text is read back. */
  lemma EscapesRoundTrip(s: bytes)
    requires Valid(s)
    ensures Unescape(WrittenAll(AllEscaped(s))) == Some(s)
  {
    AllEscapedSpells(s);
    PiecesRead(AllEscaped(s));
  }

  /** What is written in pieces is valid UTF-8. */
  lemma {:induction false} WrittenIsValid(ps: seq<Piece>)
    requires forall k :: 0 <= k < |ps| ==> IsPiece(ps[k])
    ensures Valid(WrittenAll(ps))
    decreases |ps|
  {
    if ps != [] {
      var p, rest := ps[0], WrittenAll(ps[1..]);
      WrittenIsValid(ps[1..]);
      if p.Raw? {
        DecodeEncoded(p.v, rest);
        RuneFront(p.v, rest);
      } else {
        WrittenAscii(p);
        AsciiFront(Written(p), rest);
      }
    }
  }

  lemma RuneFront(v: int, rest: bytes)
    requires IsScalar(v) && Valid(rest)
    ensures Valid(EncodeRune(v) + rest)
  {
    DecodeEncoded(v, rest);
    hide DecodeRune, EncodeRune;
    assert (EncodeRune(v) + rest)[|EncodeRune(v)|..] == rest;
  }

  lemma {:induction false} AsciiFront(t: bytes, rest: bytes)
    requires Valid(rest) && forall k :: 0 <= k < |t| ==> t[k] < 0x80
    ensures Valid(t + rest)
    decreases |t|
  {
    if t == [] {
      assert t + rest == rest;
    } else {
      AsciiFront(t[1..], rest);
      assert (t + rest)[1..] == t[1..] + rest;
    }
  }

  /* ---------- the spelling appendJSONString chooses ---------- */

  /** The short escape of a code point, if there is one in use; a slash is written as it is. */
  function Letter(v: int): Option<char> {
    match v
    case 34 => Some('"')
    case 92 => Some('\\')
    case 8 => Some('b')
    case 12 => Some('f')
    case 10 => Some('n')
    case 13 => Some('r')
    case 9 => Some('t')
    case _ => None
  }

  /** Control characters, < > & and the two line separators are never written as they are. */
  predicate NeedsEscape(v: int) {
    v < 32 || v == '<' as int || v == '>' as int || v == '&' as int || v == 0x2028 || v == 0x2029
  }

  function Spelling(v: int): (p: Piece)
    ensures IsScalar(v) ==> IsPiece(p) && !p.Half? && Value(p) == v
  {
    if Letter(v).Some? then Short(Letter(v).value)
    else if NeedsEscape(v) then Unit(v, SMALL)
    else Raw(v)
  }

  /** The spelling of every code point of s. */
  function Spellings(s: bytes): (ps: seq<Piece>)
    requires Valid(s)
    ensures forall k :: 0 <= k < |ps| ==> IsPiece(ps[k]) && !ps[k].Half?
  {
    if s == [] then []
    else
      var r := DecodeRune(s);
      [Spelling(r.value)] + Spellings(s[r.size..])
  }

  lemma AsciiSpelled(c: byte)
    requires c < 0x80
    ensures AsciiText(c) == Written(Spelling(c as int))
  {
  }

  lemma AsciiRune(s: bytes)
    requires s != [] && s[0] < 0x80
    ensures DecodeRune(s).Rune? && DecodeRune(s).value == s[0] as int
  {
  }

  lemma HighSpelled(s: bytes)
    requires s != [] && DecodeRune(s).Rune? && s[0] >= 0x80
    ensures JsonString.UnitText(s) == Written(Spelling(DecodeRune(s).value))
  {
    EncodeDecoded(s);
    HighRune(s);
    hide DecodeRune, EncodeRune;
  }

  lemma UnitSpelled(s: bytes)
    requires s != [] && DecodeRune(s).Rune?
    ensures JsonString.UnitText(s) == Written(Spelling(DecodeRune(s).value))
  {
    hide DecodeRune, Written, Spelling, AsciiText;
    if s[0] < 0x80 {
      AsciiRune(s);
      AsciiSpelled(s[0]);
    } else {
      HighSpelled(s);
    }
  }

  lemma HighRune(s: bytes)
    requires s != [] && DecodeRune(s).Rune? && s[0] >= 0x80
    ensures DecodeRune(s).value >= 0x80
  {
  }

  /** Valid text is written in that spelling, byte for byte. */
  lemma {:induction false} EscapeIsSpelling(s: bytes)
    requires Valid(s)
    ensures Escape(s) == WrittenAll(Spellings(s))
    decreases |s|
  {
    hide DecodeRune, JsonString.UnitText, Spelling, Written;
    if s != [] {
      UnitSpelled(s);
      EscapeIsSpelling(s[DecodeRune(s).size..]);
      assert Spellings(s)[1..] == Spellings(s[DecodeRune(s).size..]);
    }
  }
}
