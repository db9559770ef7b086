/** Number tokens: validJSONNumber against the number grammar of RFC 8259, section 6. */
module JsonNumber {
  import opened Bytes
  import opened Options

  /* ---------- the grammar ---------- */

  predicate AllDigits(s: bytes) { forall k :: 0 <= k < |s| ==> IsDigit(s[k]) }

  /** number = [ minus ] int [ frac ] [ exp ]; an absent part is the empty text. */
  datatype Parts = Parts(minus: bytes, int_: bytes, frac: bytes, exp: bytes) {
    function Text(): bytes { minus + (int_ + (frac + exp)) }

    predicate WellFormed() { IsMinus(minus) && IsInt(int_) && IsFrac(frac) && IsExp(exp) }
  }

  predicate IsMinus(s: bytes) { s == [] || s == [MINUS] }

  /** int = zero / ( digit1-9 *DIGIT ) */
  predicate IsInt(s: bytes) { s != [] && AllDigits(s) && (s[0] == 0x30 ==> |s| == 1) }

  /** frac = decimal-point 1*DIGIT */
  predicate IsFrac(s: bytes) { s == [] || (|s| >= 2 && s[0] == DOT && AllDigits(s[1..])) }

  /** exp = e [ minus / plus ] 1*DIGIT */
  predicate IsExp(s: bytes) { s == [] || (|s| >= 2 && IsE(s[0]) && ExpDigits(s) != [] && AllDigits(ExpDigits(s))) }

  predicate IsE(b: byte) { b == 0x65 || b == 0x45 }

  predicate IsSign(b: byte) { b == MINUS || b == 0x2B }

  function ExpDigits(exp: bytes): bytes
    requires |exp| >= 2
  {
    if IsSign(exp[1]) then exp[2..] else exp[1..]
  }

  /** A text the number grammar derives. */
  ghost predicate IsNumber(s: bytes) { exists p: Parts :: p.WellFormed() && p.Text() == s }

  /* ---------- the recogniser ---------- */

  function DropDigits(s: bytes): (r: bytes)
    ensures |r| <= |s| && r == s[|s| - |r|..]
    ensures r == [] || !IsDigit(r[0])
  {
    if s != [] && IsDigit(s[0]) then DropDigits(s[1..]) else s
  }

  function AfterMinus(s: bytes): bytes { if s != [] && s[0] == MINUS then s[1..] else s }

  function AfterInt(s: bytes): bytes
    requires s != []
  {
    if s[0] == 0x30 then s[1..] else DropDigits(s)
  }

  function AfterFrac(s: bytes): bytes {
    if |s| >= 2 && s[0] == DOT && IsDigit(s[1]) then DropDigits(s[1..]) else s
  }

  /** Whether s, what is left after int and frac, is an exponent or nothing. */
  predicate EndsWell(s: bytes) {
    if |s| >= 2 && IsE(s[0]) then ExpDigits(s) != [] && DropDigits(ExpDigits(s)) == []
    else s == []
  }

  predicate Accepts(s: bytes) {
    var t := AfterMinus(s);
    t != [] && IsDigit(t[0]) && EndsWell(AfterFrac(AfterInt(t)))
  }

  /** validJSONNumber: the slice shrinks past each part in turn. */
  method ValidJSONNumber(s: bytes) returns (ok: bool)
    ensures ok <==> IsNumber(s)
  {
    AcceptsIffNumber(s);
    hide IsNumber, AfterInt, AfterFrac, EndsWell;
    var number := s;
    if |number| == 0 {
      return false;
    }
    if number[0] == MINUS {
      number := number[1..];
      if |number| == 0 {
        return false;
      }
    }
    if !IsDigit(number[0]) {
      return false;
    }
    number := SkipInt(number);
    number := SkipFrac(number);
    ok := ValidExponent(number);
  }

  method SkipInt(t: bytes) returns (u: bytes)
    requires t != [] && IsDigit(t[0])
    ensures u == AfterInt(t)
  {
    u := t[1..];
    if t[0] != 0x30 {
      u := SkipDigits(u);
    }
  }

  method SkipFrac(u: bytes) returns (w: bytes)
    ensures w == AfterFrac(u)
  {
    w := u;
    if |w| >= 2 && w[0] == DOT && IsDigit(w[1]) {
      w := w[2..];
      assert w == u[1..][1..];
      w := SkipDigits(w);
    }
  }

  /** The exponent block of validJSONNumber, over what is left. */
  method ValidExponent(w: bytes) returns (ok: bool)
    ensures ok <==> EndsWell(w)
  {
    var number := w;
    if |number| >= 2 && IsE(number[0]) {
      number := number[1..];
      if IsSign(number[0]) {
        number := number[1..];
        if |number| == 0 {
          return false;
        }
      }
      assert number == ExpDigits(w);
      number := SkipDigits(number);
    }
    return |number| == 0;
  }

  method SkipDigits(s: bytes) returns (r: bytes)
    ensures r == DropDigits(s)
  {
    r := s;
    while |r| > 0 && IsDigit(r[0])
      invariant DropDigits(r) == DropDigits(s)
      decreases |r|
    {
      r := r[1..];
    }
  }

  /* ---------- the recogniser is the grammar ---------- */

  lemma {:induction false} DropAllDigits(digits: bytes, rest: bytes)
    requires AllDigits(digits) && (rest == [] || !IsDigit(rest[0]))
    ensures DropDigits(digits + rest) == rest
    decreases |digits|
  {
    if digits == [] {
      assert digits + rest == rest;
    } else {
      assert (digits + rest)[1..] == digits[1..] + rest;
      DropAllDigits(digits[1..], rest);
    }
  }

  lemma {:induction false} DroppedAreDigits(s: bytes)
    ensures AllDigits(s[..|s| - |DropDigits(s)|])
    decreases |s|
  {
    if s != [] && IsDigit(s[0]) {
      DroppedAreDigits(s[1..]);
      var n := |s| - |DropDigits(s)|;
      assert s[..n] == [s[0]] + s[1..][..n - 1];
    }
  }

  lemma AcceptsIffNumber(s: bytes)
    ensures Accepts(s) <==> IsNumber(s)
  {
    if Accepts(s) {
      var p := PartsOf(s);
    }
    if IsNumber(s) {
      var p: Parts :| p.WellFormed() && p.Text() == s;
      PartsAccepted(p);
    }
  }

  lemma DropsAtLeastOne(s: bytes)
    requires s != [] && IsDigit(s[0])
    ensures |DropDigits(s)| < |s|
  {
  }

  lemma IntSplits(t: bytes)
    requires t != [] && IsDigit(t[0])
    ensures IsInt(t[..|t| - |AfterInt(t)|]) && t == t[..|t| - |AfterInt(t)|] + AfterInt(t)
  {
    DroppedAreDigits(t);
  }

  lemma FracSplits(u: bytes)
    ensures IsFrac(u[..|u| - |AfterFrac(u)|]) && u == u[..|u| - |AfterFrac(u)|] + AfterFrac(u)
  {
    hide DropDigits;
    var frac := u[..|u| - |AfterFrac(u)|];
    if |u| >= 2 && u[0] == DOT && IsDigit(u[1]) {
      var v := u[1..];
      DroppedAreDigits(v);
      assert IsDigit(v[0]);
      DropsAtLeastOne(v);
      assert frac[1..] == v[..|v| - |DropDigits(v)|];
    }
  }

  lemma ExpEndsWell(w: bytes)
    ensures EndsWell(w) <==> IsExp(w)
  {
    if |w| >= 2 {
      var d := ExpDigits(w);
      if DropDigits(d) == [] {
        DroppedAreDigits(d);
        assert d[..|d|] == d;
      }
      if AllDigits(d) {
        assert d + [] == d;
        DropAllDigits(d, []);
      }
    }
  }

  lemma PartsOf(s: bytes) returns (p: Parts)
    requires Accepts(s)
    ensures p.WellFormed() && p.Text() == s
  {
    hide AfterInt, AfterFrac, EndsWell, IsInt, IsFrac, IsExp;
    var t := AfterMinus(s);
    var u := AfterInt(t);
    var w := AfterFrac(u);
    IntSplits(t);
    FracSplits(u);
    ExpEndsWell(w);
    p := Parts(s[..|s| - |t|], t[..|t| - |u|], u[..|u| - |w|], w);
    assert s == p.minus + t;
  }

  lemma IntTaken(i: bytes, u: bytes)
    requires IsInt(i) && (u == [] || !IsDigit(u[0]))
    ensures AfterInt(i + u) == u && (i + u)[0] == i[0]
  {
    DropAllDigits(i, u);
  }

  lemma FracTaken(f: bytes, w: bytes)
    requires IsFrac(f) && (w == [] || IsE(w[0]))
    ensures AfterFrac(f + w) == w
  {
    if f == [] {
      assert f + w == w;
    } else {
      var u := f + w;
      assert u[1..] == f[1..] + w;
      DropAllDigits(f[1..], w);
    }
  }

  lemma PartsAccepted(p: Parts)
    requires p.WellFormed()
    ensures Accepts(p.Text())
  {
    hide AfterInt, AfterFrac, EndsWell, DropDigits;
    var u := p.frac + p.exp;
    var t := p.int_ + u;
    assert u == [] || !IsDigit(u[0]);
    IntTaken(p.int_, u);
    FracTaken(p.frac, p.exp);
    ExpEndsWell(p.exp);
    if p.minus == [] {
      assert p.Text() == t;
    } else {
      assert p.Text()[1..] == t;
    }
  }
}
