/** Card numbers in text: which runs of grouped digits are taken, and what the Luhn check tells about their digits. */
module CardNumbers {
  import opened Bytes
  import opened Options
  import opened DetectText
  import opened DetectPatterns
  import opened DetectGrammar

  /* ---------- the check ---------- */

  /** The digits of a text, in order, whatever stands between them. */
  function Digits(t: bytes): (ds: seq<nat>)
    ensures forall k :: 0 <= k < |ds| ==> ds[k] < 10
  {
    if t == [] then []
    else
      var n := |t| - 1;
      Digits(t[..n]) + (if '0' as int <= t[n] as int <= '9' as int then [t[n] as int - '0' as int] else [])
  }

  /** A doubled digit counts with the sum of its own digits. */
  function Twice(d: nat): nat { 2 * d / 10 + 2 * d % 10 }

  /** The Luhn sum: every second digit is doubled, counted from the last one. */
  function Checksum(ds: seq<nat>, double: bool): nat {
    if ds == [] then 0
    else
      var n := |ds| - 1;
      (if double then Twice(ds[n]) else ds[n]) + Checksum(ds[..n], !double)
  }

  lemma TwiceIs(d: nat)
    requires d < 10
    ensures Twice(d) == Doubled(d) < 10
  {
  }

  lemma LastDigit(t: bytes)
    requires t != []
    ensures var n := |t| - 1;
      Digits(t) == if IsDigit(t[n]) then Digits(t[..n]) + [t[n] as int - 0x30] else Digits(t[..n])
  {
  }

  lemma LastSummed(ds: seq<nat>, d: nat, double: bool)
    ensures Checksum(ds + [d], double) == (if double then Twice(d) else d) + Checksum(ds, !double)
  {
    assert (ds + [d])[..|ds|] == ds;
  }

  /** What stands between the digits does not matter to the sum. */
  lemma {:induction false} SumIsChecksum(s: bytes, start: nat, end: nat, double: bool)
    requires start <= end <= |s|
    ensures LuhnSum(s, start, end, double) == Checksum(Digits(s[start..end]), double)
    decreases end - start
  {
    hide Digits, Twice, Doubled, Checksum;
    var t := s[start..end];
    if start < end {
      var n := |t| - 1;
      assert t[..n] == s[start..end - 1] && t[n] == s[end - 1];
      LastDigit(t);
      SumIsChecksum(s, start, end - 1, double);
      if IsDigit(s[end - 1]) {
        SumIsChecksum(s, start, end - 1, !double);
        var d: nat := s[end - 1] as int - 0x30;
        LastSummed(Digits(t[..n]), d, double);
        TwiceIs(d);
      }
    } else {
      NoDigits(t);
      NothingSummed(double);
    }
  }

  lemma NothingSummed(double: bool)
    ensures Checksum([], double) == 0
  {
  }

  lemma TwiceIsInjective(a: nat, b: nat)
    requires a < 10 && b < 10 && a != b
    ensures Twice(a) != Twice(b)
  {
  }

  lemma AddShows(a: nat, b: nat, rest: nat)
    requires a < 10 && b < 10 && a != b
    ensures (a + rest) % 10 != (b + rest) % 10
  {
  }

  lemma AddKeeps(a: nat, x: nat, y: nat)
    requires x % 10 != y % 10
    ensures (a + x) % 10 != (a + y) % 10
  {
  }

  /** No single wrong digit goes unnoticed: it changes the sum modulo ten. */
  lemma {:induction false} WrongDigitShows(ds: seq<nat>, k: nat, d: nat, double: bool)
    requires k < |ds| && ds[k] < 10 && d < 10 && d != ds[k]
    ensures Checksum(ds[k := d], double) % 10 != Checksum(ds, double) % 10
    decreases |ds|
  {
    hide Twice, Checksum;
    var n := |ds| - 1;
    var front := ds[..n];
    assert ds == front + [ds[n]];
    LastSummed(front, ds[n], double);
    if k == n {
      assert ds[k := d] == front + [d];
      LastSummed(front, d, double);
      TwiceIs(d);
      TwiceIs(ds[n]);
      TwiceIsInjective(d, ds[n]);
      AddShows(if double then Twice(d) else d, if double then Twice(ds[n]) else ds[n], Checksum(front, !double));
    } else {
      assert ds[k := d] == front[k := d] + [ds[n]];
      LastSummed(front[k := d], ds[n], double);
      WrongDigitShows(front, k, d, !double);
      AddKeeps(if double then Twice(ds[n]) else ds[n], Checksum(front[k := d], !double), Checksum(front, !double));
    }
  }

  /** The last digit that completes a number. */
  function CheckDigit(ds: seq<nat>): nat { (10 - Checksum(ds, true) % 10) % 10 }

  lemma Completes(d: nat, sum: nat)
    requires d < 10
    ensures (d + sum) % 10 == 0 <==> d == (10 - sum % 10) % 10
  {
  }

  /** Whatever digits come first, exactly one last digit makes the sum come out. */
  lemma OneCheckDigit(ds: seq<nat>, d: nat)
    requires d < 10
    ensures Checksum(ds + [d], false) % 10 == 0 <==> d == CheckDigit(ds)
  {
    hide Checksum, Twice;
    LastSummed(ds, d, false);
    Completes(d, Checksum(ds, true));
  }

  /* ---------- the run ---------- */

  /** A single space or dash between digits. */
  ghost predicate Gap(s: bytes, k: nat) {
    0 < k && k + 1 < |s| && (Is(s[k], ' ') || Is(s[k], '-')) && Digit(s[k - 1]) && Digit(s[k + 1])
  }

  ghost predicate Grouped(s: bytes, i: nat, e: nat) {
    i < e <= |s| && Digit(s[i]) && forall k :: i < k < e ==> Digit(s[k]) || Gap(s, k)
  }

  /** The run of a card number: digits in groups, 13 to 19 of them, and nothing that would carry it on. */
  ghost predicate CardTo(s: bytes, i: nat, e: nat) {
    && Grouped(s, i, e) && (i == 0 || !Alnum(s[i - 1]))
    && (e == |s| || (!Digit(s[e]) && !Gap(s, e) && !Letter(s[e])))
    && 13 <= |Digits(s[i..e])| <= 19 && Checksum(Digits(s[i..e]), false) % 10 == 0
  }

  lemma OneMore(s: bytes, i: nat, at: nat)
    requires i <= at < |s|
    ensures |Digits(s[i..at + 1])| == |Digits(s[i..at])| + if Digit(s[at]) then 1 else 0
  {
    assert s[i..at + 1][..at - i] == s[i..at];
  }

  lemma {:induction false} RunIs(s: bytes, i: nat, at: nat)
    requires Grouped(s, i, at) && |Digits(s[i..at])| <= 20
    ensures var r := CardRunFrom(s, at, |Digits(s[i..at])|);
      && at <= r.end && Grouped(s, i, r.end) && r.digits == |Digits(s[i..r.end])|
      && (r.digits > 19 || r.end == |s| || (!Digit(s[r.end]) && !Gap(s, r.end)))
    decreases |s| - at
  {
    hide Digits;
    if at < |s| {
      OneMore(s, i, at);
      if |Digits(s[i..at])| <= 19 && (Digit(s[at]) || Gap(s, at)) { RunIs(s, i, at + 1); }
    }
  }

  lemma {:induction false} FewerBefore(s: bytes, i: nat, a: nat, b: nat)
    requires i <= a <= b <= |s|
    ensures |Digits(s[i..a])| <= |Digits(s[i..b])|
    decreases b - a
  {
    hide Digits;
    if a < b {
      FewerBefore(s, i, a, b - 1);
      OneMore(s, i, b - 1);
    }
  }

  /** A card number is found exactly where such a run starts, and then it is the whole run. */
  lemma CardIff(s: bytes, i: nat, e: nat)
    requires i < |s| && IsDigit(s[i])
    ensures MatchCard(s, i) == Some(Span(i, e, Card)) <==> CardTo(s, i, e)
    ensures MatchCard(s, i).Some? ==> MatchCard(s, i).value.kind == Card
  {
    hide CardRunFrom, LuhnSum, Digits;
    if i > 0 { ClassesAre(s[i - 1]); }
    OneMore(s, i, i);
    NoDigits(s[i..i]);
    RunIs(s, i, i + 1);
    var run := CardRunFrom(s, i + 1, 1);
    SumIsChecksum(s, i, run.end, false);
    if run.end < |s| { ClassesAre(s[run.end]); }
    if CardTo(s, i, e) { OneRun(s, i, e, run); }
  }

  lemma NoDigits(t: bytes)
    requires t == []
    ensures Digits(t) == []
  {
  }

  lemma OneRun(s: bytes, i: nat, e: nat, run: CardRun)
    requires CardTo(s, i, e) && Grouped(s, i, run.end) && run.digits == |Digits(s[i..run.end])|
    requires run.digits > 19 || run.end == |s| || (!Digit(s[run.end]) && !Gap(s, run.end))
    ensures run.end == e
  {
    hide Digits;
    if run.end < e { FewerBefore(s, i, run.end, e); }
  }
}
