/** Go strings and byte slices: sequences of eight-bit values, and their order. */
module Bytes {

  type byte = b: int | 0 <= b < 256

  type bytes = seq<byte>

  const TAB: byte := 0x09
  const LF: byte := 0x0A
  const CR: byte := 0x0D
  const SPACE: byte := 0x20
  const QUOTE: byte := 0x22
  const COMMA: byte := 0x2C
  const MINUS: byte := 0x2D
  const DOT: byte := 0x2E
  const COLON: byte := 0x3A
  const LBRACKET: byte := 0x5B
  const BACKSLASH: byte := 0x5C
  const RBRACKET: byte := 0x5D
  const LBRACE: byte := 0x7B
  const RBRACE: byte := 0x7D

  predicate IsDigit(b: byte) { 0x30 <= b <= 0x39 }

  predicate IsLetter(b: byte) { 0x61 <= b <= 0x7A || 0x41 <= b <= 0x5A }

  /** strings.Compare(a, b) < 0: the order of Go strings, byte by byte. */
  predicate Less(a: bytes, b: bytes) {
    if b == [] then false
    else if a == [] then true
    else if a[0] != b[0] then a[0] < b[0]
    else Less(a[1..], b[1..])
  }

  lemma {:induction false} LessTrichotomy(a: bytes, b: bytes)
    ensures !(Less(a, b) && Less(b, a))
    ensures !(Less(a, b) && a == b) && !(Less(b, a) && a == b)
    ensures Less(a, b) || Less(b, a) || a == b
    decreases a
  {
    if a != [] && b != [] && a[0] == b[0] {
      LessTrichotomy(a[1..], b[1..]);
      assert a == [a[0]] + a[1..] && b == [b[0]] + b[1..];
    }
  }

  lemma {:induction false} LessTransitive(a: bytes, b: bytes, c: bytes)
    requires Less(a, b) && Less(b, c)
    ensures Less(a, c)
    decreases a
  {
    if a != [] && a[0] == b[0] && b[0] == c[0] {
      LessTransitive(a[1..], b[1..], c[1..]);
    }
  }

  /** a and b are the same up to byte k, where a ends or has the smaller byte. */
  predicate DiffersAt(a: bytes, b: bytes, k: nat) {
    k <= |a| && k < |b| && a[..k] == b[..k] && (k == |a| || a[k] < b[k])
  }

  lemma SameFirst(a: bytes, b: bytes, k: nat)
    requires DiffersAt(a, b, k) && k > 0
    ensures a != [] && b != [] && a[0] == b[0]
  {
    assert a[..k][0] == b[..k][0];
  }

  /** One text comes before another exactly if it is a proper prefix of it or smaller at the first difference. */
  lemma {:induction false} LessIff(a: bytes, b: bytes)
    ensures Less(a, b) <==> exists k: nat :: DiffersAt(a, b, k)
    decreases a
  {
    if a == [] || b == [] || a[0] != b[0] {
      if Less(a, b) { assert DiffersAt(a, b, 0); }
      forall k: nat | DiffersAt(a, b, k) ensures Less(a, b) {
        if k > 0 { SameFirst(a, b, k); }
      }
    } else {
      var x, y := a[1..], b[1..];
      LessIff(x, y);
      forall k: nat | DiffersAt(x, y, k) ensures DiffersAt(a, b, k + 1) {
        assert a[..k + 1] == [a[0]] + x[..k] && b[..k + 1] == [b[0]] + y[..k];
      }
      forall k: nat | DiffersAt(a, b, k) ensures k > 0 && DiffersAt(x, y, k - 1) {
        if k > 0 { assert x[..k - 1] == a[..k][1..] && y[..k - 1] == b[..k][1..]; }
      }
    }
  }

  /** After a common beginning the next byte decides, and a text comes before whatever goes on from it. */
  lemma {:induction false} LessByNext(p: bytes, x: byte, u: bytes, y: byte, v: bytes)
    requires x != y
    ensures Less(p + [x] + u, p + [y] + v) <==> x < y
    ensures Less(p, p + [x] + u)
    decreases p
  {
    if p != [] {
      LessByNext(p[1..], x, u, y, v);
      assert (p + [x] + u)[1..] == p[1..] + [x] + u;
      assert (p + [y] + v)[1..] == p[1..] + [y] + v;
    }
  }
}
