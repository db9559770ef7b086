/**
 Documents in valid UTF-8: every string and key of the parsed tree reads the same taken as it lies and decoded,
 which is why the streaming walker may look at bytes where the reference looks at decoded text.
 */
module ValidText {
  import opened Bytes
  import opened Options
  import opened JsonLex
  import opened JsonString
  import opened JsonTree
  import Utf8
  import J = JsonOut
  import D = DomMeaning

  /** Valid text may be split before any ASCII byte. */
  lemma {:induction false} SplitValid(s: bytes, k: nat)
    requires Utf8.Valid(s) && k <= |s| && (k < |s| ==> s[k] < 0x80)
    ensures Utf8.Valid(s[..k]) && Utf8.Valid(s[k..])
    decreases |s|
  {
    hide Utf8.DecodeRune, Utf8.Valid;
    if k == 0 {
      assert s[0..] == s;
      NothingIsValid();
    } else {
      RestIsValid(s);
      var size := Utf8.DecodeRune(s).size;
      FirstRuneEnds(s, k);
      var tail, j := s[size..], k - size;
      SplitValid(tail, j);
      SameSplit(s, size, k);
      Utf8.RuneFirst(s, size, tail[..j]);
    }
  }

  lemma NothingIsValid()
    ensures Utf8.Valid([])
  {
  }

  lemma RestIsValid(s: bytes)
    requires Utf8.Valid(s) && s != []
    ensures Utf8.DecodeRune(s).Rune? && Utf8.Valid(s[Utf8.DecodeRune(s).size..])
  {
  }

  lemma SameSplit(s: bytes, size: nat, k: nat)
    requires size <= k <= |s|
    ensures s[size..][k - size..] == s[k..] && s[..k] == s[..size] + s[size..][..k - size]
  {
  }

  lemma FirstRuneEnds(s: bytes, k: nat)
    requires s != [] && Utf8.DecodeRune(s).Rune? && 0 < k <= |s| && (k < |s| ==> s[k] < 0x80)
    ensures Utf8.DecodeRune(s).size <= k
  {
  }

  /** The token scanned at p, in valid text. */
  lemma TokenFaithful(d: bytes, p: nat)
    requires Utf8.Valid(d) && p < |d| && d[p] == QUOTE && Unmarshal(d[p..StringEnd(d, p)]).Some?
    ensures var token := d[p..StringEnd(d, p)]; KeyText(token) == J.TokenValue(token)
  {
    hide Unescape, Utf8.Valid, StringEnd;
    var e := StringEnd(d, p);
    var token := d[p..e];
    if !NeedsUnmarshal(Body(token)) {
      ScannedBody(d, p);
      assert token[|token| - 1] == d[e - 1];
      SplitValid(d, p);
      assert d[p..][e - 1 - p] == d[e - 1];
      SplitValid(d[p..], e - 1 - p);
      assert d[p..][..e - 1 - p] == d[p..e - 1];
      AfterQuote(d[p..e - 1]);
      assert d[p..e - 1][1..] == Body(token);
      PlainBodyIsItself(Body(token));
    }
  }

  lemma AfterQuote(s: bytes)
    requires Utf8.Valid(s) && s != [] && s[0] == QUOTE
    ensures Utf8.Valid(s[1..])
  {
  }

  lemma {:induction false} ValueFaithful(d: bytes, i: nat)
    requires Utf8.Valid(d) && i <= |d| && ParseValue(d, i).Parsed?
    ensures D.Faithful(ParseValue(d, i).value)
    decreases |d| - i, 1
  {
    hide Utf8.Valid, ParseMembers, ParseItems, KeyText, Unmarshal, StringEnd, PrimitiveNode;
    var p := SpaceEnd(d, i);
    if d[p] == QUOTE {
      TokenFaithful(d, p);
    } else if d[p] == LBRACE {
      var q := SpaceEnd(d, p + 1);
      if !(q < |d| && d[q] == RBRACE) { MembersFaithful(d, q); }
    } else if d[p] == LBRACKET {
      var q := SpaceEnd(d, p + 1);
      if !(q < |d| && d[q] == RBRACKET) { ItemsFaithful(d, q); }
    } else {
      PrimitiveFaithful(d[p..PrimitiveEnd(d, p)]);
    }
  }

  lemma PrimitiveFaithful(token: bytes)
    ensures PrimitiveNode(token).Some? ==> D.Faithful(PrimitiveNode(token).value)
  {
  }

  lemma {:induction false} MembersFaithful(d: bytes, q: nat)
    requires Utf8.Valid(d) && q <= |d| && ParseMembers(d, q).Parsed?
    ensures forall k :: 0 <= k < |ParseMembers(d, q).value| ==> D.Faithful(ParseMembers(d, q).value[k].value)
    decreases |d| - q, 2
  {
    hide Utf8.Valid, ParseValue, ParseKey, ParseMembers, MoreMembers, D.Faithful;
    MembersStep(d, q);
    var v := ParseKey(d, q).end;
    ValueFaithful(d, v);
    var n, e := ParseValue(d, v).value, ParseValue(d, v).end;
    MoreMembersStep(d, e, Member(ParseKey(d, q).value, n));
    var s := SpaceEnd(d, e);
    if d[s] == COMMA { MembersFaithful(d, SpaceEnd(d, s + 1)); }
  }

  lemma {:induction false} ItemsFaithful(d: bytes, q: nat)
    requires Utf8.Valid(d) && q <= |d| && ParseItems(d, q).Parsed?
    ensures forall k :: 0 <= k < |ParseItems(d, q).value| ==> D.Faithful(ParseItems(d, q).value[k])
    decreases |d| - q, 2
  {
    hide Utf8.Valid, ParseValue, ParseItems, MoreItems, D.Faithful;
    ItemsStep(d, q);
    ValueFaithful(d, q);
    var n, e := ParseValue(d, q).value, ParseValue(d, q).end;
    MoreItemsStep(d, e, n);
    var s := SpaceEnd(d, e);
    if d[s] == COMMA { ItemsFaithful(d, SpaceEnd(d, s + 1)); }
  }

  lemma DocumentFaithful(d: bytes)
    requires Utf8.Valid(d) && ParseDocument(d).Some?
    ensures D.Faithful(ParseDocument(d).value)
  {
    hide ParseValue, D.Faithful, Utf8.Valid;
    ValueFaithful(d, 0);
  }
}
