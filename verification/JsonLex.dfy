/** The scanners both JSON parsers rest on: each is an index advanced over the data. */
module JsonLex {
  import opened Bytes

  predicate IsSpace(b: byte) { b == SPACE || b == TAB || b == CR || b == LF }

  predicate AllSpace(s: bytes) { forall k :: 0 <= k < |s| ==> IsSpace(s[k]) }

  predicate EndsPrimitive(b: byte) { IsSpace(b) || b == COMMA || b == RBRACKET || b == RBRACE }

  /** Where the white space from i ends. */
  function SpaceEnd(d: bytes, i: nat): (e: nat)
    requires i <= |d|
    ensures i <= e <= |d|
    ensures forall k :: i <= k < e ==> IsSpace(d[k])
    ensures e < |d| ==> !IsSpace(d[e])
    decreases |d| - i
  {
    if i < |d| && IsSpace(d[i]) then SpaceEnd(d, i + 1) else i
  }

  /** Where the string token whose body starts at i ends, past its quote; |d| if it has none. */
  function BodyEnd(d: bytes, i: nat): (e: nat)
    requires i <= |d|
    ensures i <= e <= |d|
    decreases |d| - i
  {
    if i >= |d| then |d|
    else if d[i] == BACKSLASH then if i + 2 <= |d| then BodyEnd(d, i + 2) else |d|
    else if d[i] == QUOTE then i + 1
    else BodyEnd(d, i + 1)
  }

  /** scanJSONString from an opening quote at i. */
  function StringEnd(d: bytes, i: nat): (e: nat)
    requires i < |d|
    ensures i < e <= |d|
  {
    BodyEnd(d, i + 1)
  }

  /** scanJSONPrimitive. */
  function PrimitiveEnd(d: bytes, i: nat): (e: nat)
    requires i <= |d|
    ensures i <= e <= |d|
    ensures forall k :: i <= k < e ==> !EndsPrimitive(d[k])
    ensures e < |d| ==> EndsPrimitive(d[e])
    decreases |d| - i
  {
    if i < |d| && !EndsPrimitive(d[i]) then PrimitiveEnd(d, i + 1) else i
  }

  method SkipJSONSpace(d: bytes, start: nat) returns (index: nat)
    requires start <= |d|
    ensures index == SpaceEnd(d, start)
  {
    index := start;
    while index < |d|
      invariant start <= index <= |d|
      invariant SpaceEnd(d, index) == SpaceEnd(d, start)
    {
      if !IsSpace(d[index]) {
        return;
      }
      index := index + 1;
    }
  }

  method ScanJSONString(d: bytes, start: nat) returns (end: nat)
    requires start < |d|
    ensures end == StringEnd(d, start)
  {
    var index := start + 1;
    while index < |d|
      invariant start + 1 <= index
      invariant index <= |d| ==> BodyEnd(d, index) == StringEnd(d, start)
      invariant index > |d| ==> StringEnd(d, start) == |d|
    {
      if d[index] == BACKSLASH {
        index := index + 1;
      } else if d[index] == QUOTE {
        return index + 1;
      }
      index := index + 1;
    }
    return |d|;
  }

  method ScanJSONPrimitive(d: bytes, start: nat) returns (end: nat)
    requires start <= |d|
    ensures end == PrimitiveEnd(d, start)
  {
    end := start;
    while end < |d|
      invariant start <= end <= |d|
      invariant PrimitiveEnd(d, end) == PrimitiveEnd(d, start)
    {
      if EndsPrimitive(d[end]) {
        return;
      }
      end := end + 1;
    }
  }

  lemma SpaceRun(d: bytes, i: nat)
    requires i <= |d|
    ensures AllSpace(d[i..SpaceEnd(d, i)])
  {
    var e := SpaceEnd(d, i);
    forall k | 0 <= k < e - i ensures IsSpace(d[i..e][k]) {
      assert d[i..e][k] == d[i + k];
    }
  }

  /** White space from i to e, and none at e, is exactly what is skipped. */
  lemma {:induction false} SpaceEndIs(d: bytes, i: nat, e: nat)
    requires i <= e <= |d|
    requires forall k :: i <= k < e ==> IsSpace(d[k])
    requires e < |d| ==> !IsSpace(d[e])
    ensures SpaceEnd(d, i) == e
    decreases e - i
  {
    if i < e {
      SpaceEndIs(d, i + 1, e);
    }
  }

  lemma {:induction false} PrimitiveEndIs(d: bytes, i: nat, e: nat)
    requires i <= e <= |d|
    requires forall k :: i <= k < e ==> !EndsPrimitive(d[k])
    requires e < |d| ==> EndsPrimitive(d[e])
    ensures PrimitiveEnd(d, i) == e
    decreases e - i
  {
    if i < e {
      PrimitiveEndIs(d, i + 1, e);
    }
  }

  /** A token that stops short of the end of the data stops at an unescaped quote. */
  lemma {:induction false} BodyEndQuoted(d: bytes, i: nat)
    requires i <= |d| && BodyEnd(d, i) < |d|
    ensures BodyEnd(d, i) > i && d[BodyEnd(d, i) - 1] == QUOTE
    decreases |d| - i
  {
    if d[i] == BACKSLASH {
      BodyEndQuoted(d, i + 2);
    } else if d[i] != QUOTE {
      BodyEndQuoted(d, i + 1);
    }
  }

  /** Without a backslash, no quote lies inside the body. */
  lemma {:induction false} NoInnerQuote(d: bytes, i: nat)
    requires i <= |d|
    requires forall k :: i <= k < BodyEnd(d, i) - 1 ==> d[k] != BACKSLASH
    ensures forall k :: i <= k < BodyEnd(d, i) - 1 ==> d[k] != QUOTE
    decreases |d| - i
  {
    if i < |d| && i < BodyEnd(d, i) - 1 && d[i] != QUOTE {
      NoInnerQuote(d, i + 1);
    }
  }
}
