/** Query and form text as internal/urlquery rewrites it: split, unescaped, sorted by key, escaped again. */
module UrlQuery {
  import opened Bytes
  import opened Options
  import opened JsonString

  const AMPERSAND: byte := 0x26
  const SEMICOLON: byte := 0x3B
  const EQUALS: byte := 0x3D
  const PLUS: byte := 0x2B
  const PERCENT: byte := 0x25

  datatype Pair = Pair(key: bytes, value: bytes)

  /* ---------- percent-encoding: url.QueryEscape and url.QueryUnescape ---------- */

  predicate IsUnreserved(c: byte) {
    IsLetter(c) || IsDigit(c) || c == MINUS || c == DOT || c == 0x5F || c == 0x7E
  }

  function UpperHex(n: int): (b: byte)
    requires 0 <= n < 16
    ensures HexValue(b) == Some(n)
  {
    if n < 10 then 0x30 + n else 0x37 + n
  }

  function EscapeByte(c: byte): bytes {
    if IsUnreserved(c) then [c]
    else if c == SPACE then [PLUS]
    else [PERCENT, UpperHex(c / 16), UpperHex(c % 16)]
  }

  function QueryEscape(s: bytes): bytes {
    if s == [] then [] else EscapeByte(s[0]) + QueryEscape(s[1..])
  }

  function QueryUnescape(s: bytes): (r: Option<bytes>)
    ensures r.Some? && s != [] ==> r.value != []
  {
    if s == [] then Some([])
    else if s[0] == PERCENT then
      if |s| < 3 || !IsHex(s[1]) || !IsHex(s[2]) then None
      else
        var rest := QueryUnescape(s[3..]);
        if rest.None? then None
        else Some([HexValue(s[1]).value * 16 + HexValue(s[2]).value] + rest.value)
    else
      var rest := QueryUnescape(s[1..]);
      if rest.None? then None
      else Some([if s[0] == PLUS then SPACE else s[0]] + rest.value)
  }

  lemma {:induction false} UnescapeEscape(s: bytes)
    ensures QueryUnescape(QueryEscape(s)) == Some(s)
    decreases |s|
  {
    if s != [] {
      UnescapeEscape(s[1..]);
      var e, rest := EscapeByte(s[0]), QueryEscape(s[1..]);
      var t := e + rest;
      assert t[|e|..] == rest;
      assert forall k :: 0 <= k < |e| ==> t[k] == e[k];
      assert s[0] as int == s[0] as int / 16 * 16 + s[0] as int % 16;
      assert s == [s[0]] + s[1..];
    }
  }

  /** A byte with a meaning in query text. */
  predicate IsSyntax(c: byte) { c == AMPERSAND || c == SEMICOLON || c == EQUALS }

  /** No escaped text holds a byte of the query syntax. */
  lemma {:induction false} EscapeIsClean(s: bytes)
    ensures forall c :: c in QueryEscape(s) ==> !IsSyntax(c)
    ensures s != [] ==> QueryEscape(s) != []
    decreases |s|
  {
    if s != [] {
      EscapeIsClean(s[1..]);
      assert forall c :: c in EscapeByte(s[0]) ==> !IsSyntax(c);
    }
  }

  /* ---------- parsing ---------- */

  /** Where byte c first stands in s; |s| if nowhere. */
  function IndexOf(s: bytes, c: byte): (i: nat)
    ensures i <= |s| && (i < |s| ==> s[i] == c)
    ensures forall k :: 0 <= k < i ==> s[k] != c
  {
    if s == [] || s[0] == c then 0 else 1 + IndexOf(s[1..], c)
  }

  /** strings.Cut, before and after the first c. */
  function Before(s: bytes, c: byte): bytes { s[..IndexOf(s, c)] }

  function After(s: bytes, c: byte): (r: bytes)
    ensures s != [] ==> |r| < |s|
  {
    if IndexOf(s, c) < |s| then s[IndexOf(s, c) + 1..] else []
  }

  datatype Part = Skipped | Invalid | Parsed(pair: Pair)

  /** One '&'-separated part: a part without a key is skipped before its value is looked at. */
  function ParsePart(part: bytes): (r: Part)
    ensures r.Parsed? ==> r.pair.key != []
  {
    if SEMICOLON in part then Invalid
    else
      var key := Before(part, EQUALS);
      if key == [] then Skipped
      else match (QueryUnescape(key), QueryUnescape(After(part, EQUALS)))
        case (Some(k), Some(v)) => Parsed(Pair(k, v))
        case _ => Invalid
  }

  /** The pairs of a query in text order; none if it is invalid. */
  function Pairs(raw: bytes): (r: Option<seq<Pair>>)
    ensures r.Some? ==> forall p :: p in r.value ==> p.key != []
    decreases |raw|
  {
    if raw == [] then Some([])
    else match ParsePart(Before(raw, AMPERSAND))
      case Invalid => None
      case Skipped => Pairs(After(raw, AMPERSAND))
      case Parsed(pair) =>
        var rest := Pairs(After(raw, AMPERSAND));
        if rest.None? then None else Some([pair] + rest.value)
  }

  function Joined(done: seq<Pair>, rest: Option<seq<Pair>>): Option<seq<Pair>> {
    if rest.None? then None else Some(done + rest.value)
  }

  /** The pairs of a query, one part further on. */
  lemma PairsUnfold(raw: bytes)
    requires raw != []
    ensures var rest := Pairs(After(raw, AMPERSAND));
      Pairs(raw) == match ParsePart(Before(raw, AMPERSAND))
        case Invalid => None
        case Skipped => rest
        case Parsed(p) => Joined([p], rest)
  {
    hide ParsePart, Before, After;
  }

  lemma PairsStep(raw: bytes, done: seq<Pair>)
    requires raw != []
    ensures var rest := Pairs(After(raw, AMPERSAND));
      Joined(done, Pairs(raw)) == match ParsePart(Before(raw, AMPERSAND))
        case Invalid => None
        case Skipped => Joined(done, rest)
        case Parsed(p) => Joined(done + [p], rest)
  {
    hide ParsePart, Pairs, Before, After;
    PairsUnfold(raw);
    var rest := Pairs(After(raw, AMPERSAND));
    match ParsePart(Before(raw, AMPERSAND))
    case Parsed(p) => if rest.Some? { assert done + ([p] + rest.value) == (done + [p]) + rest.value; }
    case _ =>
  }

  /** The first loop of Mask. */
  method Collect(raw: bytes) returns (pairs: seq<Pair>, ok: bool)
    ensures ok <==> Pairs(raw).Some?
    ensures ok ==> pairs == Pairs(raw).value
  {
    hide Pairs, ParsePart;
    pairs := [];
    var remaining := raw;
    if Pairs(raw).Some? { assert [] + Pairs(raw).value == Pairs(raw).value; }
    while remaining != []
      invariant Joined(pairs, Pairs(remaining)) == Pairs(raw)
      decreases |remaining|
    {
      PairsStep(remaining, pairs);
      var part := Before(remaining, AMPERSAND);
      var rest := After(remaining, AMPERSAND);
      match ParsePart(part) {
        case Invalid => return pairs, false;
        case Skipped =>
        case Parsed(pair) => pairs := pairs + [pair];
      }
      remaining := rest;
    }
    NoPairs();
    assert pairs + [] == pairs;
    ok := true;
  }

  lemma NoPairs()
    ensures Pairs([]) == Some([])
  {
  }

  /* ---------- sorting ---------- */

  /** p in front of the first pair whose key is not smaller. */
  function Insert(p: Pair, sorted: seq<Pair>): seq<Pair> {
    if sorted == [] || !Less(sorted[0].key, p.key) then [p] + sorted
    else [sorted[0]] + Insert(p, sorted[1..])
  }

  /** slices.SortStableFunc by key. */
  function StableSort(ps: seq<Pair>): seq<Pair> {
    if ps == [] then [] else Insert(ps[0], StableSort(ps[1..]))
  }

  predicate KeysSorted(ps: seq<Pair>) {
    forall j, k :: 0 <= j < k < |ps| ==> !Less(ps[k].key, ps[j].key)
  }

  /** The values of one key, in order. */
  function ValuesOf(ps: seq<Pair>, key: bytes): seq<bytes> {
    if ps == [] then []
    else (if ps[0].key == key then [ps[0].value] else []) + ValuesOf(ps[1..], key)
  }

  lemma {:induction false} InsertSorts(p: Pair, ps: seq<Pair>)
    requires KeysSorted(ps)
    ensures KeysSorted(Insert(p, ps))
    ensures multiset(Insert(p, ps)) == multiset{p} + multiset(ps)
    decreases |ps|
  {
    if ps == [] {
    } else if !Less(ps[0].key, p.key) {
      forall k | 0 < k < |ps| ensures !Less(ps[k].key, p.key) {
        NotLessTransitive(p.key, ps[0].key, ps[k].key);
      }
    } else {
      assert ps == [ps[0]] + ps[1..];
      InsertSorts(p, ps[1..]);
      var rest := Insert(p, ps[1..]);
      forall k | 0 <= k < |rest| ensures !Less(rest[k].key, ps[0].key) {
        assert rest[k] in multiset(rest);
        LessTrichotomy(ps[0].key, p.key);
        if rest[k] != p {
          assert rest[k] in ps[1..];
        }
      }
    }
  }

  lemma NotLessTransitive(a: bytes, b: bytes, c: bytes)
    requires !Less(b, a) && !Less(c, b)
    ensures !Less(c, a)
  {
    LessTrichotomy(a, b);
    LessTrichotomy(b, c);
    if Less(a, b) && Less(b, c) {
      LessTransitive(a, b, c);
    }
    LessTrichotomy(a, c);
  }

  lemma {:induction false} InsertKeepsOrder(p: Pair, ps: seq<Pair>, key: bytes)
    ensures ValuesOf(Insert(p, ps), key) == (if p.key == key then [p.value] else []) + ValuesOf(ps, key)
    decreases |ps|
  {
    if ps == [] || !Less(ps[0].key, p.key) {
      assert ([p] + ps)[1..] == ps;
    } else {
      InsertKeepsOrder(p, ps[1..], key);
      LessTrichotomy(ps[0].key, p.key);
      var rest := Insert(p, ps[1..]);
      assert ([ps[0]] + rest)[1..] == rest;
    }
  }

  /** The sort orders the keys, keeps every pair, and keeps the values of each key in their order. */
  lemma {:induction false} SortIsStable(ps: seq<Pair>, key: bytes)
    ensures KeysSorted(StableSort(ps))
    ensures multiset(StableSort(ps)) == multiset(ps)
    ensures ValuesOf(StableSort(ps), key) == ValuesOf(ps, key)
    decreases |ps|
  {
    if ps != [] {
      SortIsStable(ps[1..], key);
      InsertSorts(ps[0], StableSort(ps[1..]));
      InsertKeepsOrder(ps[0], StableSort(ps[1..]), key);
      assert ps == [ps[0]] + ps[1..];
    }
  }

  lemma {:induction false} SortedStays(ps: seq<Pair>)
    requires KeysSorted(ps)
    ensures StableSort(ps) == ps
    decreases |ps|
  {
    if ps != [] {
      assert KeysSorted(ps[1..]);
      SortedStays(ps[1..]);
      if |ps| > 1 {
        assert ps[1..][0] == ps[1];
      }
      assert ps == [ps[0]] + ps[1..];
    }
  }

  /* ---------- writing ---------- */

  function Piece(p: Pair): bytes { QueryEscape(p.key) + [EQUALS] + QueryEscape(p.value) }

  /** The text of the pairs that were kept. */
  function Render(ps: seq<Pair>): bytes {
    if ps == [] then []
    else if |ps| == 1 then Piece(ps[0])
    else Piece(ps[0]) + ([AMPERSAND] + Render(ps[1..]))
  }

  lemma Reassociate(a: bytes, b: bytes, c: bytes)
    ensures a + ([AMPERSAND] + (b + [AMPERSAND] + c)) == (a + ([AMPERSAND] + b)) + [AMPERSAND] + c
    ensures a + ([AMPERSAND] + c) == a + [AMPERSAND] + c
  {
  }

  lemma PieceNotEmpty(p: Pair)
    ensures Piece(p) != []
  {
  }

  /** Appending a pair to the builder, with a separator unless it is empty. */
  lemma {:induction false} RenderAppends(ps: seq<Pair>, p: Pair)
    ensures Render(ps + [p]) == if ps == [] then Piece(p) else Render(ps) + [AMPERSAND] + Piece(p)
    ensures Render(ps) == [] <==> ps == []
    decreases |ps|
  {
    hide Piece;
    PieceNotEmpty(p);
    if ps == [] {
      assert ps + [p] == [p];
    } else {
      PieceNotEmpty(ps[0]);
      var tail := ps[1..];
      assert (ps + [p])[1..] == tail + [p];
      RenderAppends(tail, p);
      Reassociate(Piece(ps[0]), Render(tail), Piece(p));
    }
  }

  lemma IndexOfIs(s: bytes, c: byte, i: nat)
    requires i <= |s| && (forall k :: 0 <= k < i ==> s[k] != c) && (i < |s| ==> s[i] == c)
    ensures IndexOf(s, c) == i
  {
  }

  /** One written piece parses back to its pair. */
  lemma PieceParses(p: Pair)
    requires p.key != []
    ensures ParsePart(Piece(p)) == Parsed(p)
    ensures AMPERSAND !in Piece(p)
  {
    hide QueryEscape, QueryUnescape, IndexOf;
    var k, v := QueryEscape(p.key), QueryEscape(p.value);
    EscapeIsClean(p.key);
    EscapeIsClean(p.value);
    UnescapeEscape(p.key);
    UnescapeEscape(p.value);
    var t := Piece(p);
    assert forall i :: 0 <= i < |k| ==> t[i] == k[i] && k[i] in k;
    assert t[|k|] == EQUALS;
    IndexOfIs(t, EQUALS, |k|);
    assert Before(t, EQUALS) == k && After(t, EQUALS) == v;
  }

  /** A piece in front: Before and After of the text find it. */
  lemma PieceSplits(p: bytes, rest: bytes)
    requires AMPERSAND !in p
    ensures Before(p, AMPERSAND) == p && After(p, AMPERSAND) == []
    ensures var t := p + ([AMPERSAND] + rest); Before(t, AMPERSAND) == p && After(t, AMPERSAND) == rest
  {
    hide IndexOf;
    var t := p + ([AMPERSAND] + rest);
    assert forall k :: 0 <= k < |p| ==> p[k] in p && t[k] == p[k];
    IndexOfIs(p, AMPERSAND, |p|);
    IndexOfIs(t, AMPERSAND, |p|);
  }

  /** Written pairs parse back to themselves. */
  lemma {:induction false} RenderParses(ps: seq<Pair>)
    requires forall p :: p in ps ==> p.key != []
    ensures Pairs(Render(ps)) == Some(ps)
    decreases |ps|
  {
    hide Pairs, ParsePart, Piece, Before, After;
    NoPairs();
    if ps != [] {
      var p, t := Piece(ps[0]), Render(ps);
      assert ps[0] in ps;
      PieceParses(ps[0]);
      PieceSplits(p, Render(ps[1..]));
      RenderParses(ps[1..]);
      assert ps == [ps[0]] + ps[1..];
      if |ps| == 1 {
        assert t == p;
      } else {
        assert t == p + ([AMPERSAND] + Render(ps[1..]));
      }
      assert t != [] by { if p == [] { PieceNotEmpty(ps[0]); } }
      PairsUnfold(t);
    }
  }

  /* ---------- Mask with a callback that answers at once ---------- */

  /** The callback's answer for each pair in turn; a dropped pair vanishes. */
  function Answered(ps: seq<Pair>, mask: (bytes, bytes) -> Option<bytes>): seq<Pair> {
    if ps == [] then []
    else
      var rest := Answered(ps[1..], mask);
      match mask(ps[0].key, ps[0].value)
      case None => rest
      case Some(v) => [Pair(ps[0].key, v)] + rest
  }

  function MaskWith(raw: bytes, mask: (bytes, bytes) -> Option<bytes>): Option<bytes> {
    match Pairs(raw)
    case None => None
    case Some(ps) => Some(Render(Answered(StableSort(ps), mask)))
  }

  lemma {:induction false} AnsweredKeys(ps: seq<Pair>, mask: (bytes, bytes) -> Option<bytes>)
    requires KeysSorted(ps) && forall p :: p in ps ==> p.key != []
    ensures KeysSorted(Answered(ps, mask))
    ensures forall a :: a in Answered(ps, mask) ==> a.key != [] && exists p :: p in ps && p.key == a.key
    decreases |ps|
  {
    if ps != [] {
      assert ps[0] in ps && ps == [ps[0]] + ps[1..];
      AnsweredKeys(ps[1..], mask);
      var rest := Answered(ps[1..], mask);
      forall k | 0 <= k < |rest| ensures !Less(rest[k].key, ps[0].key) {
        assert rest[k] in rest;
        var p :| p in ps[1..] && p.key == rest[k].key;
        var j :| 0 <= j < |ps[1..]| && ps[1..][j] == p;
        assert ps[j + 1] == p;
      }
    }
  }

  /** The output parses back to the sorted input with the callback's answers in it. */
  lemma MaskParsesBack(raw: bytes, mask: (bytes, bytes) -> Option<bytes>)
    requires Pairs(raw).Some?
    ensures MaskWith(raw, mask).Some?
    ensures var answered := Answered(StableSort(Pairs(raw).value), mask);
      Pairs(MaskWith(raw, mask).value) == Some(answered) && KeysSorted(answered)
  {
    var ps := Pairs(raw).value;
    var sorted := StableSort(ps);
    SortIsStable(ps, []);
    assert forall p :: p in sorted ==> p in multiset(sorted) && p in ps;
    AnsweredKeys(sorted, mask);
    RenderParses(Answered(sorted, mask));
  }

  lemma {:induction false} IdentityAnswers(ps: seq<Pair>, same: (bytes, bytes) -> Option<bytes>)
    requires forall k, v :: same(k, v) == Some(v)
    ensures Answered(ps, same) == ps
    decreases |ps|
  {
    if ps != [] {
      IdentityAnswers(ps[1..], same);
      assert ps == [ps[0]] + ps[1..];
    }
  }

  /** A callback that changes nothing: each key keeps its values in order, and a second pass changes nothing. */
  lemma IdentityIsIdempotent(raw: bytes, same: (bytes, bytes) -> Option<bytes>, key: bytes)
    requires Pairs(raw).Some? && forall k, v :: same(k, v) == Some(v)
    ensures var once := MaskWith(raw, same);
      && once.Some? && MaskWith(once.value, same) == once
      && ValuesOf(Pairs(once.value).value, key) == ValuesOf(Pairs(raw).value, key)
  {
    var ps := Pairs(raw).value;
    MaskParsesBack(raw, same);
    IdentityAnswers(StableSort(ps), same);
    SortIsStable(ps, key);
    SortedStays(StableSort(ps));
  }
}
