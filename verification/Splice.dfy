/** Replacing overlapping ranges of a text: the second half of inspectText, and redactDiagnostic. */
module Splice {
  import opened Bytes

  /** Replace s[start:end] with text. */
  datatype Edit = Edit(start: nat, end: nat, text: bytes)

  predicate InText(edits: seq<Edit>, n: nat) {
    forall k :: 0 <= k < |edits| ==> edits[k].start < edits[k].end <= n
  }

  /** The order edits are sorted in: by start, the longer first. */
  predicate NotAfter(a: Edit, b: Edit) { a.start < b.start || (a.start == b.start && a.end >= b.end) }

  predicate Sorted(edits: seq<Edit>) {
    forall j, k :: 0 <= j < k < |edits| ==> NotAfter(edits[j], edits[k])
  }

  /** slices.SortFunc is not stable: it may return any sorted permutation. */
  predicate IsSortOf(sorted: seq<Edit>, edits: seq<Edit>) {
    Sorted(sorted) && multiset(sorted) == multiset(edits)
  }

  ghost predicate IsSorter(sort: seq<Edit> -> seq<Edit>) {
    forall edits :: IsSortOf(sort(edits), edits)
  }

  /** The edits kept: each begins where the last one kept ends, or later. */
  function Kept(sorted: seq<Edit>, last: nat): seq<Edit> {
    if sorted == [] then []
    else if sorted[0].start < last then Kept(sorted[1..], last)
    else [sorted[0]] + Kept(sorted[1..], sorted[0].end)
  }

  /** Ranges from last on that follow one another without overlap. */
  predicate Disjoint(edits: seq<Edit>, last: nat, n: nat) {
    edits != [] ==> last <= edits[0].start < edits[0].end <= n && Disjoint(edits[1..], edits[0].end, n)
  }

  /** s from from on with each range replaced by its text and every other byte copied in order. */
  function Replaced(s: bytes, edits: seq<Edit>, from: nat): bytes
    requires from <= |s| && Disjoint(edits, from, |s|)
    decreases |edits|
  {
    if edits == [] then s[from..]
    else s[from..edits[0].start] + edits[0].text + Replaced(s, edits[1..], edits[0].end)
  }

  predicate ChangesNothing(s: bytes, edits: seq<Edit>) {
    forall e :: e in edits ==> e.start <= e.end <= |s| && e.text == s[e.start..e.end]
  }

  /* ---------- which edits are kept ---------- */

  lemma {:induction false} KeptAreDisjoint(sorted: seq<Edit>, last: nat, n: nat)
    requires InText(sorted, n)
    ensures Disjoint(Kept(sorted, last), last, n)
    ensures forall e :: e in Kept(sorted, last) ==> e in sorted
    decreases |sorted|
  {
    if sorted != [] {
      var next := if sorted[0].start < last then last else sorted[0].end;
      KeptAreDisjoint(sorted[1..], next, n);
      var rest := Kept(sorted[1..], next);
      if sorted[0].start >= last {
        assert ([sorted[0]] + rest)[1..] == rest;
      }
    }
  }

  /** Every dropped edit begins inside one that is kept: the outermost edit wins an overlap. */
  lemma {:induction false} DroppedStartInside(sorted: seq<Edit>, last: nat, k: nat)
    requires Sorted(sorted) && k < |sorted|
    requires forall e :: e in sorted ==> e.start < e.end
    requires sorted[k].start >= last
    ensures exists e :: e in Kept(sorted, last) && e.start <= sorted[k].start < e.end
    decreases |sorted|
  {
    var e0 := sorted[0];
    var rest := sorted[1..];
    if e0.start < last {
      DroppedStartInside(rest, last, k - 1);
    } else {
      assert Kept(sorted, last) == [e0] + Kept(rest, e0.end);
      if sorted[k].start < e0.end {
        assert e0 in Kept(sorted, last);
        assert e0.start <= sorted[k].start;
      } else {
        DroppedStartInside(rest, e0.end, k - 1);
        var e :| e in Kept(rest, e0.end) && e.start <= rest[k - 1].start < e.end;
        assert e in Kept(sorted, last);
      }
    }
  }

  /** Edits that replace a range by itself leave the text as it was. */
  lemma {:induction false} NothingChanged(s: bytes, edits: seq<Edit>, from: nat)
    requires from <= |s| && Disjoint(edits, from, |s|) && ChangesNothing(s, edits)
    ensures Replaced(s, edits, from) == s[from..]
    decreases |edits|
  {
    if edits != [] {
      var e := edits[0];
      assert e in edits;
      NothingChanged(s, edits[1..], e.end);
      assert s[from..] == s[from..e.start] + s[e.start..e.end] + s[e.end..];
    }
  }

  /* ---------- the loop ---------- */

  /** Kept, one sorted edit further on. */
  lemma KeptStep(sorted: seq<Edit>, k: nat, last: nat)
    requires k < |sorted|
    ensures var e := sorted[k];
      Kept(sorted[k..], last) ==
        if e.start < last then Kept(sorted[k + 1..], last) else [e] + Kept(sorted[k + 1..], e.end)
  {
    assert sorted[k..][1..] == sorted[k + 1..];
  }

  lemma DisjointStep(e: Edit, rest: seq<Edit>, last: nat, n: nat)
    requires Disjoint([e] + rest, last, n)
    ensures last <= e.start < e.end <= n && Disjoint(rest, e.end, n)
  {
    assert ([e] + rest)[1..] == rest;
  }

  /** One more edit: what is copied before it, its text, and what is left. */
  lemma CopyStep(s: bytes, out: bytes, written: nat, last: nat, e: Edit, rest: seq<Edit>)
    requires written <= last <= |s| && Disjoint([e] + rest, last, |s|)
    ensures Disjoint(rest, e.end, |s|) && written <= e.start <= e.end <= |s|
    ensures out + s[written..last] + Replaced(s, [e] + rest, last)
         == (out + s[written..e.start] + e.text) + Replaced(s, rest, e.end)
  {
    DisjointStep(e, rest, last, |s|);
    assert ([e] + rest)[1..] == rest;
    assert s[written..e.start] == s[written..last] + s[last..e.start];
    var r := Replaced(s, rest, e.end);
    assert Replaced(s, [e] + rest, last) == s[last..e.start] + e.text + r;
  }

  /** An edit that changes nothing only lengthens the stretch not yet written. */
  lemma KeepStep(s: bytes, out: bytes, written: nat, e: Edit)
    requires written <= e.start <= e.end <= |s| && e.text == s[e.start..e.end]
    ensures out + s[written..e.start] + e.text == out + s[written..e.end]
  {
    assert s[written..e.end] == s[written..e.start] + s[e.start..e.end];
  }

  lemma FinishCopy(s: bytes, out: bytes, written: nat, last: nat)
    requires written <= last <= |s|
    ensures out + s[written..last] + Replaced(s, [], last) == out + s[written..]
  {
    assert s[written..] == s[written..last] + s[last..];
  }

  /**
   The splice loop of inspectText: last ends the last edit kept, written ends the text copied to out. An
   edit that changes nothing is kept, so it moves last, but it is not written.
   */
  method Apply(s: bytes, sorted: seq<Edit>) returns (out: bytes, changed: bool)
    requires InText(sorted, |s|)
    ensures Disjoint(Kept(sorted, 0), 0, |s|)
    ensures changed <==> !ChangesNothing(s, Kept(sorted, 0))
    ensures out == Replaced(s, Kept(sorted, 0), 0)
  {
    hide Kept, Disjoint, Replaced;
    KeptAreDisjoint(sorted, 0, |s|);
    ghost var kept := Kept(sorted, 0);
    out := [];
    var last, written := 0, 0;
    changed := false;
    ghost var done: seq<Edit> := [];
    var k := 0;
    assert sorted[0..] == sorted;
    while k < |sorted|
      invariant k <= |sorted| && written <= last <= |s|
      invariant kept == done + Kept(sorted[k..], last)
      invariant Disjoint(Kept(sorted[k..], last), last, |s|)
      invariant out + s[written..last] + Replaced(s, Kept(sorted[k..], last), last) == Replaced(s, kept, 0)
      invariant forall e :: e in done ==> e.start <= e.end <= |s|
      invariant changed <==> !ChangesNothing(s, done)
    {
      var edit := sorted[k];
      KeptStep(sorted, k, last);
      k := k + 1;
      if edit.start < last {
        continue;
      }
      ghost var rest := Kept(sorted[k..], edit.end);
      CopyStep(s, out, written, last, edit, rest);
      assert done + ([edit] + rest) == (done + [edit]) + rest;
      done := done + [edit];
      last := edit.end;
      if edit.text == s[edit.start..edit.end] {
        KeepStep(s, out, written, edit);
        continue;
      }
      changed := true;
      assert edit in done;
      out := out + s[written..edit.start];
      out := out + edit.text;
      written := edit.end;
      assert s[written..last] == [];
    }
    NothingKept(sorted, k, last);
    assert kept == done;
    FinishCopy(s, out, written, last);
    if !changed {
      NothingChanged(s, kept, 0);
      assert s[0..] == s;
      return s, false;
    }
    out := out + s[written..];
  }

  lemma NothingKept(sorted: seq<Edit>, k: nat, last: nat)
    requires k == |sorted|
    ensures Kept(sorted[k..], last) == []
  {
  }

  /** The loop of redactDiagnostic: every range kept becomes the marker. */
  method Redact(s: bytes, sorted: seq<Edit>, marker: bytes) returns (out: bytes)
    requires InText(sorted, |s|) && forall k :: 0 <= k < |sorted| ==> sorted[k].text == marker
    ensures Disjoint(Kept(sorted, 0), 0, |s|)
    ensures out == Replaced(s, Kept(sorted, 0), 0)
  {
    hide Kept, Disjoint, Replaced;
    KeptAreDisjoint(sorted, 0, |s|);
    ghost var kept := Kept(sorted, 0);
    out := [];
    var last := 0;
    var k := 0;
    assert sorted[0..] == sorted;
    while k < |sorted|
      invariant k <= |sorted| && last <= |s|
      invariant Disjoint(Kept(sorted[k..], last), last, |s|)
      invariant out + s[last..last] + Replaced(s, Kept(sorted[k..], last), last) == Replaced(s, kept, 0)
    {
      var edit := sorted[k];
      KeptStep(sorted, k, last);
      k := k + 1;
      if edit.start < last {
        continue;
      }
      CopyStep(s, out, last, last, edit, Kept(sorted[k..], edit.end));
      out := out + s[last..edit.start];
      out := out + marker;
      last := edit.end;
      assert s[last..last] == [];
    }
    NothingKept(sorted, k, last);
    FinishCopy(s, out, last, last);
    out := out + s[last..];
  }

  /* ---------- the sort's freedom ---------- */

  /** Edits of the same range are the same edit. */
  predicate RangesAgree(edits: seq<Edit>) {
    forall a, b :: a in edits && b in edits && a.start == b.start && a.end == b.end ==> a == b
  }

  lemma HeadIsForced(a: seq<Edit>, b: seq<Edit>)
    requires a != [] && b != [] && Sorted(a) && Sorted(b) && a[0] in b && b[0] in a && RangesAgree(a)
    ensures a[0] == b[0]
  {
    var i :| 0 <= i < |a| && a[i] == b[0];
    var j :| 0 <= j < |b| && b[j] == a[0];
    if i > 0 && j > 0 {
      assert NotAfter(a[0], a[i]) && NotAfter(b[0], b[j]);
    }
  }

  lemma Tail(a: seq<Edit>)
    requires a != [] && Sorted(a)
    ensures Sorted(a[1..]) && (RangesAgree(a) ==> RangesAgree(a[1..]))
    ensures multiset(a) == multiset{a[0]} + multiset(a[1..]) && a == [a[0]] + a[1..]
  {
    assert a == [a[0]] + a[1..];
    assert forall e :: e in a[1..] ==> e in a;
  }

  lemma SameElements(a: seq<Edit>, b: seq<Edit>)
    requires multiset(a) == multiset(b)
    ensures |a| == |b|
    ensures a != [] ==> a[0] in b && b[0] in a
  {
    assert |a| == |multiset(a)| == |b|;
    if a != [] {
      assert a[0] in multiset(a) && b[0] in multiset(b);
    }
  }

  /** When no two edits give one range different texts, every sort returns the same list. */
  lemma {:induction false} SortIsForced(a: seq<Edit>, b: seq<Edit>)
    requires Sorted(a) && Sorted(b) && multiset(a) == multiset(b) && RangesAgree(a)
    ensures a == b
    decreases |a|
  {
    hide Sorted, RangesAgree;
    SameElements(a, b);
    if |a| > 0 {
      HeadIsForced(a, b);
      Tail(a);
      Tail(b);
      assert multiset(a[1..]) == multiset(a) - multiset{a[0]};
      assert multiset(b[1..]) == multiset(b) - multiset{b[0]};
      SortIsForced(a[1..], b[1..]);
    }
  }

  /** Two edits of one range may trade places. */
  lemma Traded(a: seq<Edit>, j: nat, k: nat)
    requires Sorted(a) && j < k < |a| && a[j].start == a[k].start && a[j].end == a[k].end && a[j] != a[k]
    ensures var b := a[j := a[k]][k := a[j]]; Sorted(b) && multiset(b) == multiset(a) && b != a
  {
    var b := a[j := a[k]][k := a[j]];
    assert b[j] != a[j];
    forall i | 0 <= i < |a| ensures b[i].start == a[i].start && b[i].end == a[i].end {
    }
  }

  lemma AnotherSort(a: seq<Edit>) returns (b: seq<Edit>)
    requires Sorted(a) && !RangesAgree(a)
    ensures IsSortOf(b, a) && b != a
  {
    var x, y :| x in a && y in a && x.start == y.start && x.end == y.end && x != y;
    var j :| 0 <= j < |a| && a[j] == x;
    var k :| 0 <= k < |a| && a[k] == y;
    hide Sorted;
    var low, high := if j < k then j else k, if j < k then k else j;
    Traded(a, low, high);
    b := a[low := a[high]][high := a[low]];
  }

  /** Exactly if edits of one range are one edit, every sort returns the same list. */
  lemma SortIsForcedIff(a: seq<Edit>)
    requires Sorted(a)
    ensures RangesAgree(a) <==> forall b :: IsSortOf(b, a) ==> b == a
  {
    if RangesAgree(a) {
      forall b | IsSortOf(b, a) ensures b == a { SortIsForced(a, b); }
    } else {
      var b := AnotherSort(a);
      hide RangesAgree, IsSortOf;
    }
  }

  /* ---------- which edits win ---------- */

  predicate SameRange(a: Edit, b: Edit) { a.start == b.start && a.end == b.end }

  /** a sorts before b, with a range of its own, and b begins inside it. */
  predicate Outer(a: Edit, b: Edit) {
    (a.start < b.start || (a.start == b.start && a.end > b.end)) && b.start < a.end
  }

  /** No edit that survives begins before e and holds its start: e wins, whatever the sort. */
  ghost predicate Survives(edits: seq<Edit>, n: nat, e: Edit)
    requires InText(edits, n) && e.end <= n
    decreases e.start, n - e.end
  {
    !exists a :: a in edits && Outer(a, e) && Survives(edits, n, a)
  }

  /** An edit that is kept comes first among the edits of its range, and is the longest from its start. */
  lemma {:induction false} KeptIsFirst(sorted: seq<Edit>, last: nat, e: Edit) returns (i: nat)
    requires Sorted(sorted) && e in Kept(sorted, last) && forall x :: x in sorted ==> x.start < x.end
    ensures i < |sorted| && sorted[i] == e && e.start >= last
    ensures forall j :: 0 <= j < i ==> sorted[j].start < e.start
    ensures forall j :: 0 <= j < |sorted| && sorted[j].start == e.start ==> sorted[j].end <= e.end
    decreases |sorted|
  {
    var first, rest := sorted[0], sorted[1..];
    if first.start >= last && first == e {
      i := 0;
      assert forall j :: 0 <= j < |sorted| ==> NotAfter(first, sorted[j]) || j == 0;
    } else {
      var next := if first.start < last then last else first.end;
      assert e in Kept(rest, next);
      i := KeptIsFirst(rest, next, e);
      assert first.start < e.start;
      assert forall j :: 1 <= j < |sorted| ==> sorted[j] == rest[j - 1];
      i := i + 1;
    }
  }

  /** Two kept edits that share a byte are one. */
  lemma {:induction false} KeptApart(kept: seq<Edit>, last: nat, n: nat, a: Edit, b: Edit)
    requires Disjoint(kept, last, n) && a in kept && b in kept && a.start < b.end && b.start < a.end
    ensures a == b
    decreases |kept|
  {
    if a in kept[1..] { AfterLast(kept[1..], kept[0].end, n, a); }
    if b in kept[1..] { AfterLast(kept[1..], kept[0].end, n, b); }
    if a in kept[1..] && b in kept[1..] {
      KeptApart(kept[1..], kept[0].end, n, a, b);
    }
  }

  lemma {:induction false} AfterLast(kept: seq<Edit>, last: nat, n: nat, a: Edit)
    requires Disjoint(kept, last, n) && a in kept
    ensures last <= a.start < a.end <= n
    decreases |kept|
  {
    if a != kept[0] { AfterLast(kept[1..], kept[0].end, n, a); }
  }

  ghost predicate KeepsRange(kept: seq<Edit>, e: Edit) { exists k :: k in kept && SameRange(k, e) }

  lemma KeepsItself(kept: seq<Edit>, e: Edit)
    ensures e in kept ==> KeepsRange(kept, e)
  {
    assert SameRange(e, e);
  }

  /** Whatever the sort, an edit of e's range is kept exactly if e survives. */
  lemma {:induction false} KeptIffSurvives(sorted: seq<Edit>, edits: seq<Edit>, n: nat, e: Edit)
    requires IsSortOf(sorted, edits) && InText(edits, n) && e in edits
    ensures KeepsRange(Kept(sorted, 0), e) <==> Survives(edits, n, e)
    decreases e.start, n - e.end
  {
    hide Disjoint, Kept, Sorted;
    SortedSame(sorted, edits, n);
    KeptAreDisjoint(sorted, 0, n);
    if Survives(edits, n, e) {
      var k :| 0 <= k < |sorted| && sorted[k] == e;
      DroppedStartInside(sorted, 0, k);
      var w :| w in Kept(sorted, 0) && w.start <= e.start < w.end;
      KeepsItself(Kept(sorted, 0), w);
      if Outer(w, e) {
        KeptIffSurvives(sorted, edits, n, w);
        assert false;
      }
      var i := KeptIsFirst(sorted, 0, w);
      assert SameRange(w, e);
    } else {
      var a :| a in edits && Outer(a, e) && Survives(edits, n, a);
      KeptIffSurvives(sorted, edits, n, a);
      var k :| k in Kept(sorted, 0) && SameRange(k, a);
      if KeepsRange(Kept(sorted, 0), e) {
        var w :| w in Kept(sorted, 0) && SameRange(w, e);
        KeptApart(Kept(sorted, 0), 0, n, k, w);
        assert false;
      }
    }
  }

  lemma SortedSame(sorted: seq<Edit>, edits: seq<Edit>, n: nat)
    requires IsSortOf(sorted, edits) && InText(edits, n)
    ensures Sorted(sorted) && InText(sorted, n)
    ensures forall e :: e in sorted <==> e in edits
  {
    forall e ensures e in sorted <==> e in edits {
      assert e in sorted <==> e in multiset(sorted);
      assert e in edits <==> e in multiset(edits);
    }
    forall k | 0 <= k < |sorted| ensures sorted[k].start < sorted[k].end <= n { assert sorted[k] in edits; }
  }

  /** An edit is kept by every sort exactly if it survives and no edit gives its range another text. */
  lemma AlwaysKeptIff(sorted: seq<Edit>, edits: seq<Edit>, n: nat, e: Edit)
    requires IsSortOf(sorted, edits) && InText(edits, n) && e in edits
    ensures (forall order :: IsSortOf(order, edits) ==> e in Kept(order, 0)) <==>
      Survives(edits, n, e) && forall m :: m in edits && SameRange(m, e) ==> m == e
  {
    hide Kept, Survives, IsSortOf;
    if Survives(edits, n, e) && forall m :: m in edits && SameRange(m, e) ==> m == e {
      forall order | IsSortOf(order, edits) ensures e in Kept(order, 0) {
        KeptIffSurvives(order, edits, n, e);
        var k :| k in Kept(order, 0) && SameRange(k, e);
        SortedSame(order, edits, n);
        KeptAreDisjoint(order, 0, n);
      }
    } else if Survives(edits, n, e) {
      var m :| m in edits && SameRange(m, e) && m != e;
      var order := PutFirst(sorted, edits, n, m);
      if e in Kept(order, 0) { FirstIsNotLater(order, edits, n, m, e); }
    } else {
      KeptIffSurvives(sorted, edits, n, e);
      KeepsItself(Kept(sorted, 0), e);
    }
  }

  predicate IsFirstOfRange(order: seq<Edit>, m: Edit) {
    exists i :: 0 <= i < |order| && order[i] == m && forall j :: 0 <= j < i ==> !SameRange(order[j], m)
  }

  lemma FirstIsNotLater(order: seq<Edit>, edits: seq<Edit>, n: nat, m: Edit, e: Edit)
    requires IsSortOf(order, edits) && InText(edits, n) && IsFirstOfRange(order, m) && SameRange(m, e)
    requires e in Kept(order, 0)
    ensures m == e
  {
    SortedSame(order, edits, n);
    var i := KeptIsFirst(order, 0, e);
    var k :| 0 <= k < |order| && order[k] == m && forall j :: 0 <= j < k ==> !SameRange(order[j], m);
  }

  /** Some sort puts m before the other edits of its range. */
  lemma PutFirst(sorted: seq<Edit>, edits: seq<Edit>, n: nat, m: Edit) returns (order: seq<Edit>)
    requires IsSortOf(sorted, edits) && InText(edits, n) && m in edits
    ensures IsSortOf(order, edits) && IsFirstOfRange(order, m)
  {
    SortedSame(sorted, edits, n);
    var k :| 0 <= k < |sorted| && sorted[k] == m;
    var i := FirstOfRange(sorted, k);
    if sorted[i] == m {
      order := sorted;
    } else {
      Traded(sorted, i, k);
      order := sorted[i := sorted[k]][k := sorted[i]];
      assert order[i] == m;
      forall j | 0 <= j < i ensures !SameRange(order[j], m) { assert order[j] == sorted[j]; }
    }
  }

  lemma {:induction false} FirstOfRange(sorted: seq<Edit>, k: nat) returns (i: nat)
    requires k < |sorted|
    ensures i <= k && SameRange(sorted[i], sorted[k]) && forall j :: 0 <= j < i ==> !SameRange(sorted[j], sorted[k])
    decreases k
  {
    i := k;
    if exists j :: 0 <= j < k && SameRange(sorted[j], sorted[k]) {
      var j :| 0 <= j < k && SameRange(sorted[j], sorted[k]);
      i := FirstOfRange(sorted, j);
    }
  }

  /* ---------- what is covered ---------- */

  /** Where the stretch of kept edits that abut one another ends, from the i-th on. */
  function StretchEnd(kept: seq<Edit>, i: nat): nat
    requires i < |kept|
    decreases |kept| - i
  {
    if i + 1 < |kept| && kept[i + 1].start == kept[i].end then StretchEnd(kept, i + 1) else kept[i].end
  }

  predicate IsReplaced(kept: seq<Edit>, at: nat) { exists i :: 0 <= i < |kept| && kept[i].start <= at < kept[i].end }

  /** From inside the i-th kept edit on, the bytes up to an end are replaced exactly if the stretch reaches it. */
  lemma {:induction false} StretchCovers(kept: seq<Edit>, last: nat, n: nat, i: nat, from: nat, to: nat)
    requires Disjoint(kept, last, n) && i < |kept| && kept[i].start <= from < kept[i].end && from <= to
    ensures (forall at :: from <= at < to ==> IsReplaced(kept, at)) <==> to <= StretchEnd(kept, i)
    decreases |kept| - i
  {
    var end := kept[i].end;
    forall at | from <= at < end ensures IsReplaced(kept, at) {}
    if end < to {
      if i + 1 < |kept| { InOrder(kept, last, n, i, i + 1); }
      if i + 1 < |kept| && kept[i + 1].start == end {
        InOrder(kept, last, n, i + 1, i + 1);
        StretchCovers(kept, last, n, i + 1, end, to);
      } else if IsReplaced(kept, end) {
        var j :| 0 <= j < |kept| && kept[j].start <= end < kept[j].end;
        if j < i { InOrder(kept, last, n, j, i); } else if j > i { NextStarts(kept, last, n, i, j); }
        assert false;
      }
    } else {
      StretchGrows(kept, last, n, i);
    }
  }

  lemma {:induction false} StretchGrows(kept: seq<Edit>, last: nat, n: nat, i: nat)
    requires Disjoint(kept, last, n) && i < |kept|
    ensures kept[i].end <= StretchEnd(kept, i)
    decreases |kept| - i
  {
    if i + 1 < |kept| {
      InOrder(kept, last, n, i + 1, i + 1);
      StretchGrows(kept, last, n, i + 1);
    }
  }

  /** Kept edits lie one behind the other. */
  lemma {:induction false} InOrder(kept: seq<Edit>, last: nat, n: nat, i: nat, j: nat)
    requires Disjoint(kept, last, n) && i <= j < |kept|
    ensures last <= kept[i].start < kept[i].end <= n && (i < j ==> kept[i].end <= kept[j].start)
    decreases |kept|
  {
    if i > 0 {
      InOrder(kept[1..], kept[0].end, n, i - 1, j - 1);
    } else if j > 0 {
      InOrder(kept[1..], kept[0].end, n, j - 1, j - 1);
    }
  }

  lemma NextStarts(kept: seq<Edit>, last: nat, n: nat, i: nat, j: nat)
    requires Disjoint(kept, last, n) && i < j < |kept|
    ensures i + 1 < |kept| && kept[i].end <= kept[i + 1].start <= kept[j].start
  {
    InOrder(kept, last, n, i, i + 1);
    InOrder(kept, last, n, i + 1, j);
    InOrder(kept, last, n, i + 1, i + 1);
  }

  /** The kept edits replace a dropped edit's whole range. */
  ghost predicate Covered(kept: seq<Edit>, e: Edit) { forall at :: e.start <= at < e.end ==> IsReplaced(kept, at) }

  /** A dropped edit does not end past the stretch of kept edits that holds its start. */
  ghost predicate EndsWithin(kept: seq<Edit>, e: Edit) {
    exists i :: 0 <= i < |kept| && kept[i].start <= e.start < kept[i].end && e.end <= StretchEnd(kept, i)
  }

  /** Every byte of every edit is replaced exactly if no edit ends past the stretch of kept edits that holds its start. */
  lemma CoveredIff(sorted: seq<Edit>, n: nat)
    requires Sorted(sorted) && InText(sorted, n)
    ensures var kept := Kept(sorted, 0);
      (forall e :: e in sorted ==> Covered(kept, e)) <==> (forall e :: e in sorted ==> EndsWithin(kept, e))
  {
    hide Sorted, Kept, Disjoint, Covered, EndsWithin;
    KeptAreDisjoint(sorted, 0, n);
    forall e | e in sorted ensures Covered(Kept(sorted, 0), e) <==> EndsWithin(Kept(sorted, 0), e) {
      var k :| 0 <= k < |sorted| && sorted[k] == e;
      DroppedStartInside(sorted, 0, k);
      CoveredOne(Kept(sorted, 0), n, e);
    }
  }

  lemma CoveredOne(kept: seq<Edit>, n: nat, e: Edit)
    requires Disjoint(kept, 0, n) && e.start < e.end && exists w :: w in kept && w.start <= e.start < w.end
    ensures Covered(kept, e) <==> EndsWithin(kept, e)
  {
    hide Disjoint, StretchEnd;
    var w :| w in kept && w.start <= e.start < w.end;
    var i :| 0 <= i < |kept| && kept[i] == w;
    StretchCovers(kept, 0, n, i, e.start, e.end);
    forall j | 0 <= j < |kept| && kept[j].start <= e.start < kept[j].end ensures j == i {
      if j < i { InOrder(kept, 0, n, j, i); } else if i < j { InOrder(kept, 0, n, i, j); }
    }
  }

  /* ---------- the output around a kept edit ---------- */

  /** A kept edit's text stands in the output between what becomes of the text before it and after it. */
  lemma {:induction false} WrittenInPlace(s: bytes, kept: seq<Edit>, from: nat, i: nat)
    requires from <= |s| && Disjoint(kept, from, |s|) && i < |kept|
    ensures from <= kept[i].start <= kept[i].end <= |s|
    ensures Disjoint(kept[..i], from, kept[i].start) && Disjoint(kept[i + 1..], kept[i].end, |s|)
    ensures Replaced(s, kept, from) ==
      Replaced(s[..kept[i].start], kept[..i], from) + kept[i].text + Replaced(s, kept[i + 1..], kept[i].end)
    decreases i
  {
    var e := kept[0];
    if i == 0 {
      assert kept[..0] == [];
      assert s[..e.start][from..] == s[from..e.start];
    } else {
      var rest := kept[1..];
      WrittenInPlace(s, rest, e.end, i - 1);
      assert rest[..i - 1] == kept[..i][1..] && rest[i - 1 + 1..] == kept[i + 1..];
      var head := s[..kept[i].start];
      assert head[from..e.start] == s[from..e.start];
      assert Replaced(head, kept[..i], from) == head[from..e.start] + e.text + Replaced(head, kept[..i][1..], e.end);
    }
  }
}
