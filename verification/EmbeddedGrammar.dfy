/** Which strings are read as a URL or as a form, written down as texts; and that a rewritten form is a form again. */
module EmbeddedGrammar {
  import opened Bytes
  import opened Options
  import opened DetectGrammar
  import opened Embedded
  import opened UrlQuery
  import D = DetectText

  /* ---------- schemes ---------- */

  ghost predicate SchemeTo(s: bytes, n: nat) {
    1 <= n <= |s| && Letter(s[0]) && (forall k :: 1 <= k < n ==> SchemeByte(s[k])) && At(s, n, "://")
  }

  /** A scheme is a letter, then letters, digits and + - . up to "://", as in section 3.1 of RFC 3986. */
  lemma SchemeIff(s: bytes)
    ensures HasScheme(s) <==> exists n :: SchemeTo(s, n)
  {
    if s != [] {
      forall b: byte ensures IsSchemeByte(b) == SchemeByte(b) && IsLetter(b) == Letter(b) { ClassesAre(b); }
      var e := D.RunEnd(s, 1, IsSchemeByte);
      assert Spells(SCHEME_MARK, "://");
      PrefixIs(s, e, SCHEME_MARK, "://");
      if HasScheme(s) { assert SchemeTo(s, e); }
      forall n | SchemeTo(s, n) ensures n == e {
        assert "://"[0] == ':';
        D.RunEndIs(s, 1, n, IsSchemeByte);
      }
    }
  }

  /* ---------- forms ---------- */

  predicate FormByte(b: byte) {
    'a' as int <= b <= 'z' as int || 'A' as int <= b <= 'Z' as int || '0' as int <= b <= '9' as int ||
    b == '_' as int || b == '-' as int || b == '.' as int || b == '[' as int || b == ']' as int || b == '%' as int ||
    b == '+' as int || b == '~' as int || b == '*' as int
  }

  /** A key as it is written in a form: not empty, of the bytes form keys use, and its escapes decode. */
  predicate RawKey(key: bytes) { key != [] && (forall k :: 0 <= k < |key| ==> FormByte(key[k])) && QueryUnescape(key).Some? }

  /** A value as it is written in a form: no syntax, no white space or control character, and its escapes decode. */
  predicate RawValue(value: bytes) {
    && (forall k :: 0 <= k < |value| ==>
          value[k] > 32 && value[k] != 127 && value[k] != '=' as int && value[k] != '&' as int && value[k] != ';' as int)
    && QueryUnescape(value).Some?
  }

  predicate RawPair(p: Pair) { RawKey(p.key) && RawValue(p.value) }

  function PairText(p: Pair): bytes { p.key + ['=' as int] + p.value }

  /** key=value&key=value... */
  function FormText(ps: seq<Pair>): bytes {
    if ps == [] then []
    else if |ps| == 1 then PairText(ps[0])
    else PairText(ps[0]) + (['&' as int] + FormText(ps[1..]))
  }

  predicate RawPairs(ps: seq<Pair>) { forall k :: 0 <= k < |ps| ==> RawPair(ps[k]) }

  /** A form: pairs, and perhaps one more '&' behind the last. */
  predicate IsFormOf(s: bytes, ps: seq<Pair>) {
    ps != [] && RawPairs(ps) && (s == FormText(ps) || s == FormText(ps) + ['&' as int])
  }

  lemma PartIsPair(part: bytes)
    requires forall k :: 0 <= k < |part| ==> part[k] > SPACE && part[k] != 0x7F && part[k] != SEMICOLON
    requires AMPERSAND !in part && IsFormPart(part)
    ensures var p := Pair(Before(part, EQUALS), After(part, EQUALS)); RawPair(p) && PairText(p) == part
  {
    hide QueryUnescape, IndexOf;
    var i := IndexOf(part, EQUALS);
    var p := Pair(part[..i], part[i + 1..]);
    assert part == part[..i] + [part[i]] + part[i + 1..];
    forall k | 0 <= k < |p.value|
      ensures p.value[k] > 32 && p.value[k] != 127 && p.value[k] != EQUALS && p.value[k] != AMPERSAND && p.value[k] != SEMICOLON
    {
      assert p.value[k] == part[i + 1 + k];
      assert p.value[k] in p.value && p.value[k] in part;
    }
  }

  lemma PairIsPart(p: Pair)
    requires RawPair(p)
    ensures IsFormPart(PairText(p)) && AMPERSAND !in PairText(p) && PairText(p) != []
    ensures Clean(PairText(p))
  {
    hide QueryUnescape, IndexOf;
    var t := PairText(p);
    assert forall k :: 0 <= k < |p.key| ==> t[k] == p.key[k];
    assert t[|p.key|] == EQUALS;
    assert forall k :: |p.key| < k < |t| ==> t[k] == p.value[k - |p.key| - 1];
    IndexOfIs(t, EQUALS, |p.key|);
    assert Before(t, EQUALS) == p.key && After(t, EQUALS) == p.value;
  }

  predicate Clean(s: bytes) { forall k :: 0 <= k < |s| ==> s[k] > SPACE && s[k] != 0x7F && s[k] != SEMICOLON }

  /** A text is its first part, and a sign and the rest if there is one. */
  lemma FirstPart(s: bytes)
    requires s != [] && Clean(s)
    ensures var part, rest := Before(s, AMPERSAND), After(s, AMPERSAND);
      && AMPERSAND !in part && Clean(part) && Clean(rest)
      && ((s == part && rest == []) || s == part + ([AMPERSAND] + rest))
  {
    var i := IndexOf(s, AMPERSAND);
    if i < |s| { assert s == s[..i] + ([s[i]] + s[i + 1..]); }
  }

  lemma OnePair(part: bytes, p: Pair)
    requires RawPair(p) && PairText(p) == part
    ensures IsFormOf(part, [p]) && IsFormOf(part + [AMPERSAND], [p])
  {
  }

  lemma MorePairs(p: Pair, rest: bytes, more: seq<Pair>)
    requires RawPair(p) && IsFormOf(rest, more)
    ensures IsFormOf(PairText(p) + ([AMPERSAND] + rest), [p] + more)
  {
    hide PairText, RawPair;
    var ps := [p] + more;
    assert ps[1..] == more;
    assert PairText(p) + ([AMPERSAND] + (FormText(more) + [AMPERSAND])) ==
      (PairText(p) + ([AMPERSAND] + FormText(more))) + [AMPERSAND];
  }

  lemma {:induction false} FormSplits(s: bytes) returns (ps: seq<Pair>)
    requires s != [] && AreFormParts(s) && Clean(s)
    ensures IsFormOf(s, ps)
    decreases |s|
  {
    hide IsFormPart, RawPair, IndexOf, IsFormOf, PairText;
    var part, rest := Before(s, AMPERSAND), After(s, AMPERSAND);
    FirstPart(s);
    PartIsPair(part);
    var p := Pair(Before(part, EQUALS), After(part, EQUALS));
    if rest == [] {
      ps := [p];
      OnePair(part, p);
      assert part + ([AMPERSAND] + rest) == part + [AMPERSAND];
    } else {
      var more := FormSplits(rest);
      ps := [p] + more;
      MorePairs(p, rest, more);
    }
  }

  lemma {:induction false} FormIsParts(ps: seq<Pair>, s: bytes)
    requires IsFormOf(s, ps)
    ensures s != [] && AreFormParts(s) && Clean(s)
    decreases |ps|
  {
    hide IsFormPart, RawPair, IndexOf, PairText, AreFormParts, Clean;
    PairIsPart(ps[0]);
    var t := PairText(ps[0]);
    if |ps| == 1 {
      NoParts();
      OnePart(t, []);
      assert t + [AMPERSAND] == t + ([AMPERSAND] + []);
    } else {
      var more := FormText(ps[1..]);
      var rest := if s == FormText(ps) then more else more + [AMPERSAND];
      assert s == t + ([AMPERSAND] + rest);
      FormIsParts(ps[1..], rest);
      OnePart(t, rest);
    }
  }

  /** A part alone, and a part in front of others. */
  lemma OnePart(t: bytes, rest: bytes)
    requires IsFormPart(t) && AMPERSAND !in t && t != [] && Clean(t) && AreFormParts(rest) && Clean(rest)
    ensures AreFormParts(t) && AreFormParts(t + ([AMPERSAND] + rest)) && Clean(t + ([AMPERSAND] + rest))
  {
    hide IsFormPart, IndexOf;
    PieceSplits(t, rest);
    NoParts();
  }

  lemma NoParts()
    ensures AreFormParts([]) && Clean([])
  {
  }

  lemma CleanIsOneWord(s: bytes)
    ensures IsOneWord(s) && SEMICOLON !in s <==> Clean(s)
  {
    if SEMICOLON in s {
      var k :| 0 <= k < |s| && s[k] == SEMICOLON;
    }
  }

  /** The strict grammar takes exactly the forms. */
  lemma FormIff(s: bytes)
    ensures IsStrictForm(s) <==> s == [] || exists ps :: IsFormOf(s, ps)
  {
    hide IsFormOf, AreFormParts, IsOneWord;
    CleanIsOneWord(s);
    NoParts();
    if IsStrictForm(s) && s != [] { var ps := FormSplits(s); }
    forall ps | IsFormOf(s, ps) ensures s != [] && AreFormParts(s) && Clean(s) { FormIsParts(ps, s); }
  }

  /* ---------- what is written ---------- */

  predicate Unreserved(b: byte) {
    'a' as int <= b <= 'z' as int || 'A' as int <= b <= 'Z' as int || '0' as int <= b <= '9' as int ||
    b == '-' as int || b == '_' as int || b == '.' as int || b == '~' as int
  }

  predicate CapitalHex(b: byte) { '0' as int <= b <= '9' as int || 'A' as int <= b <= 'F' as int }

  /** How one byte is written: itself, a plus for a space, or a percent sign and two capital hexadecimal digits. */
  lemma ByteWritten(b: byte)
    ensures Unreserved(b) ==> EscapeByte(b) == [b]
    ensures b == ' ' as int ==> EscapeByte(b) == ['+' as int]
    ensures !Unreserved(b) && b != ' ' as int ==>
      var e := EscapeByte(b); |e| == 3 && e[0] == '%' as int && CapitalHex(e[1]) && CapitalHex(e[2])
  {
  }

  /** Text without reserved bytes is written as it is, and no other bytes are ever written than form keys may hold. */
  lemma {:induction false} EscapedIsFormText(s: bytes)
    ensures forall k :: 0 <= k < |QueryEscape(s)| ==> FormByte(QueryEscape(s)[k])
    ensures (forall k :: 0 <= k < |s| ==> Unreserved(s[k])) ==> QueryEscape(s) == s
    decreases |s|
  {
    hide EscapeByte;
    if s != [] {
      ByteWritten(s[0]);
      EscapedIsFormText(s[1..]);
      assert s == [s[0]] + s[1..];
      var e, rest := EscapeByte(s[0]), QueryEscape(s[1..]);
      assert forall k :: 0 <= k < |e| ==> FormByte(e[k]);
    }
  }

  /** What the masker writes for a form is a form again, and none of its bytes needs another look. */
  lemma {:induction false} RenderIsForm(ps: seq<Pair>)
    requires forall k :: 0 <= k < |ps| ==> ps[k].key != []
    ensures IsStrictForm(Render(ps))
    ensures ps != [] ==> EQUALS in Render(ps)
  {
    hide IsStrictForm, IsFormOf;
    FormIff(Render(ps));
    if ps != [] {
      var raw := WrittenPairs(ps);
      assert IsFormOf(Render(ps), raw);
      RenderHasSign(ps);
    }
  }

  lemma RenderHasSign(ps: seq<Pair>)
    requires ps != []
    ensures EQUALS in Render(ps)
  {
    var t := Piece(ps[0]);
    assert t[|QueryEscape(ps[0].key)|] == EQUALS;
    assert EQUALS in t;
  }

  lemma PieceIsRaw(p: Pair)
    requires p.key != []
    ensures var q := Pair(QueryEscape(p.key), QueryEscape(p.value)); RawPair(q) && PairText(q) == Piece(p)
  {
    hide QueryEscape, QueryUnescape;
    EscapedIsFormText(p.key);
    EscapedIsFormText(p.value);
    EscapeIsClean(p.key);
    UnescapeEscape(p.key);
    UnescapeEscape(p.value);
  }

  lemma {:induction false} WrittenPairs(ps: seq<Pair>) returns (raw: seq<Pair>)
    requires ps != [] && forall k :: 0 <= k < |ps| ==> ps[k].key != []
    ensures IsFormOf(Render(ps), raw) && FormText(raw) == Render(ps)
    decreases |ps|
  {
    hide RawPair, PairText, Piece, QueryEscape;
    PieceIsRaw(ps[0]);
    var q := Pair(QueryEscape(ps[0].key), QueryEscape(ps[0].value));
    if |ps| == 1 {
      raw := [q];
    } else {
      var more := WrittenPairs(ps[1..]);
      raw := [q] + more;
      assert raw[1..] == more;
    }
  }

  /* ---------- what is read ---------- */

  /** A key and a value as they stand in a query: the key up to the first equals sign, both up to the ampersand. */
  predicate QueryPart(p: Pair) { AMPERSAND !in p.key && EQUALS !in p.key && AMPERSAND !in p.value }

  /** What the parts of a query say: none of them may hold a semicolon, one without a key is skipped, all others must decode. */
  function PartsSay(ps: seq<Pair>): Option<seq<Pair>> {
    if ps == [] then Some([])
    else
      var rest := PartsSay(ps[1..]);
      if rest.None? || ';' as int in ps[0].key || ';' as int in ps[0].value then None
      else if ps[0].key == [] then rest
      else match (QueryUnescape(ps[0].key), QueryUnescape(ps[0].value))
        case (Some(k), Some(v)) => Some([Pair(k, v)] + rest.value)
        case _ => None
  }

  lemma PartReads(p: Pair)
    requires QueryPart(p)
    ensures var t := PairText(p);
      && t != [] && AMPERSAND !in t && (SEMICOLON in t <==> SEMICOLON in p.key || SEMICOLON in p.value)
      && Before(t, EQUALS) == p.key && After(t, EQUALS) == p.value
  {
    hide IndexOf;
    var t := PairText(p);
    assert forall k :: 0 <= k < |p.key| ==> t[k] == p.key[k] && p.key[k] in p.key;
    assert t[|p.key|] == EQUALS;
    IndexOfIs(t, EQUALS, |p.key|);
    assert Before(t, EQUALS) == p.key && After(t, EQUALS) == p.value;
  }

  /** A query is read part by part: rejected exactly if some part is, and otherwise the decoded pairs in their order. */
  lemma {:induction false} QueryReads(ps: seq<Pair>)
    requires forall k :: 0 <= k < |ps| ==> QueryPart(ps[k])
    ensures Pairs(FormText(ps)) == PartsSay(ps)
    decreases |ps|
  {
    hide QueryPart, PairText, QueryUnescape, IndexOf;
    NoPairs();
    if ps != [] {
      var t, s := PairText(ps[0]), FormText(ps);
      PartReads(ps[0]);
      PieceSplits(t, FormText(ps[1..]));
      QueryReads(ps[1..]);
      if |ps| == 1 {
        assert ps[1..] == [];
        assert s == t;
      } else {
        assert s == t + ([AMPERSAND] + FormText(ps[1..]));
      }
      PairsUnfold(s);
    }
  }
}
