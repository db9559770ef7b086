/**
 The steps of the streaming walk: kinds and scalars, elements and members, each against the parser and the
  specification of the walk.
 */
module StreamSteps {
  import opened Bytes
  import opened Options
  import opened Settings
  import opened MaskSpec
  import opened JsonLex
  import opened StreamState
  import J = JsonOut
  import JS = JsonString
  import T = JsonTree
  import N = JsonNumber
  import K = JsonSkip
  import SM = SortedMap

  /* ---------- the value at a byte ---------- */

  /** streamJSONKind. */
  function KindAt(first: byte): (kind: Option<Kind>)
    ensures kind != Some(InvalidKind)
  {
    if first == LBRACE then Some(ObjectKind)
    else if first == LBRACKET then Some(ArrayKind)
    else if first == QUOTE then Some(StringKind)
    else if first == 0x74 || first == 0x66 then Some(BoolKind)
    else if first == 0x6E then Some(NilKind)
    else if first == MINUS || IsDigit(first) then Some(NumberKind)
    else None
  }

  lemma NumberStart(token: bytes)
    requires N.Accepts(token)
    ensures token != [] && (token[0] == MINUS || IsDigit(token[0]))
  {
    hide N.EndsWell, N.AfterFrac, N.AfterInt;
  }

  lemma TokenKind(token: bytes)
    requires T.PrimitiveNode(token).Some?
    ensures var n := T.PrimitiveNode(token).value;
      && token != [] && token[0] != QUOTE && token[0] != LBRACE && token[0] != LBRACKET
      && KindAt(token[0]) == Some(KindOf(n)) && KindOf(n) in {BoolKind, NilKind, NumberKind}
      && (n.Bool? || n.Number? ==> RuleText(n) == token)
      && (n.Null? ==> RuleText(n) == [] && token == T.NULL)
  {
    hide N.Accepts;
    if N.Accepts(token) { NumberStart(token); }
  }

  /** A primitive is of the kind its first byte says, and its text is its token. */
  lemma PrimitiveKind(d: bytes, p: nat)
    requires p < |d| && T.ParsePrimitive(d, p).Parsed?
    ensures d[p] != QUOTE && d[p] != LBRACE && d[p] != LBRACKET
    ensures var r := T.ParsePrimitive(d, p);
      && r.end == PrimitiveEnd(d, p)
      && KindAt(d[p]) == Some(KindOf(r.value)) && KindOf(r.value) in {BoolKind, NilKind, NumberKind}
      && (r.value.Bool? || r.value.Number? ==> RuleText(r.value) == d[p..r.end])
      && (r.value.Null? ==> RuleText(r.value) == [] && d[p..r.end] == T.NULL)
  {
    hide PrimitiveEnd, KindAt, T.PrimitiveNode;
    var token := d[p..PrimitiveEnd(d, p)];
    TokenKind(token);
    assert token[0] == d[p];
  }

  /** A kind says which parser reads the value. */
  lemma KindParses(d: bytes, p: nat)
    requires p < |d| && !IsSpace(d[p])
    ensures KindAt(d[p]).None? ==> T.ParseValue(d, p).NoParse?
    ensures KindAt(d[p]) == Some(ObjectKind) ==> T.ParseValue(d, p) == T.ParseObject(d, p)
    ensures KindAt(d[p]) == Some(ArrayKind) ==> T.ParseValue(d, p) == T.ParseArray(d, p)
    ensures KindAt(d[p]) == Some(StringKind) <==> d[p] == QUOTE
    ensures KindAt(d[p]) == Some(StringKind) ==> T.ParseValue(d, p) == T.ParseString(d, p)
    ensures KindAt(d[p]).Some? && KindAt(d[p]).value in {BoolKind, NilKind, NumberKind} ==>
      T.ParseValue(d, p) == T.ParsePrimitive(d, p)
    ensures T.ParseValue(d, p).Parsed? ==> KindAt(d[p]) == Some(KindOf(T.ParseValue(d, p).value))
  {
    hide T.ParseValue, T.ParsePrimitive;
    SpaceEndIs(d, p, p);
    T.ValueStep(d, p);
    if T.ParsePrimitive(d, p).Parsed? {
      PrimitiveKind(d, p);
    }
  }

  /** streamScalarEnd: where a scalar ends; 0 for a container. A string is not looked at yet. */
  method ScalarEnd(data: bytes, start: nat, kind: Kind) returns (end: nat, ok: bool)
    requires start < |data| && KindAt(data[start]) == Some(kind)
    ensures kind == StringKind ==> ok && end == StringEnd(data, start)
    ensures kind in {BoolKind, NilKind, NumberKind} ==> (ok <==> T.ParsePrimitive(data, start).Parsed?)
    ensures kind in {BoolKind, NilKind, NumberKind} && ok ==> end == T.ParsePrimitive(data, start).end
    ensures kind in {ObjectKind, ArrayKind} ==> ok && end == 0
  {
    if kind == StringKind {
      end := ScanJSONString(data, start);
      ok := true;
    } else if kind == ObjectKind || kind == ArrayKind {
      return 0, true;
    } else {
      end := ScanJSONPrimitive(data, start);
      if end <= start {
        return 0, false;
      }
      ok := K.ValidSkippedPrimitive(data[start..end]);
    }
  }

  function Slice(data: bytes, start: nat, end: nat): bytes {
    if start <= end <= |data| then data[start..end] else []
  }

  /** The text decide hands to a rule. */
  function ValueText(data: bytes, start: nat, scalarEnd: nat, kind: Kind): bytes {
    if kind == StringKind then T.KeyText(Slice(data, start, scalarEnd))
    else if scalarEnd > 0 && kind != NilKind then Slice(data, start, scalarEnd)
    else []
  }

  /** A rule applies to a string whose token does not decode. */
  predicate TextMissing(cfg: Config, field: Field, data: bytes, start: nat, scalarEnd: nat) {
    field.kind == StringKind && T.TokenText(Slice(data, start, scalarEnd)).None? &&
    match cfg.policy(field)
    case Decision(omit, rule) => !omit && rule.Some?
    case _ => false
  }

  /* ---------- steps of the walk ---------- */

  lemma NothingAt(d: bytes, i: nat)
    requires i <= |d| && SpaceEnd(d, i) == |d|
    ensures T.ParseValue(d, i).NoParse? && !LoneAt(d, i)
  {
  }

  /** The white space before a value is not part of it. */
  lemma FromSpaceEnd(d: bytes, i: nat)
    requires i <= |d|
    ensures var p := SpaceEnd(d, i);
      && SpaceEnd(d, p) == p && T.ParseValue(d, p) == T.ParseValue(d, i) && LoneAt(d, p) == LoneAt(d, i)
      && NodeAt(d, p) == NodeAt(d, i) && EndAt(d, p) == EndAt(d, i)
  {
    hide T.ParseValue;
    var p := SpaceEnd(d, i);
    SpaceEndIs(d, p, p);
    T.ParseFromSpaceEnd(d, i);
  }

  /** The text decide hands to a rule is the text of the value. */
  lemma TextOfValue(d: bytes, p: nat, kind: Kind, scalarEnd: nat)
    requires p < |d| && !IsSpace(d[p]) && KindAt(d[p]) == Some(kind)
    requires kind == StringKind ==> scalarEnd == StringEnd(d, p)
    requires kind in {BoolKind, NilKind, NumberKind} ==>
      T.ParsePrimitive(d, p).Parsed? && scalarEnd == T.ParsePrimitive(d, p).end
    requires kind in {ObjectKind, ArrayKind} ==> scalarEnd == 0
    ensures p <= scalarEnd <= |d| || scalarEnd == 0
    ensures T.ParseValue(d, p).Parsed? || K.LoneQuote(d, p) ==>
      KindOf(NodeAt(d, p)) == kind && RuleText(NodeAt(d, p)) == ValueText(d, p, scalarEnd, kind)
  {
    hide T.ParseValue, KindAt, T.TokenText, JS.Unmarshal, StringEnd, T.ParsePrimitive;
    KindParses(d, p);
    if kind in {BoolKind, NilKind, NumberKind} {
      PrimitiveKind(d, p);
    } else if K.LoneQuote(d, p) {
      K.LoneQuoteReadsNothing(d, p);
      LoneToken(d, p);
    } else if kind == StringKind && T.ParseValue(d, p).Parsed? {
      StringRead(d, p);
    }
  }

  lemma StringRead(d: bytes, p: nat)
    requires p < |d| && T.ParseString(d, p).Parsed?
    ensures T.ParseString(d, p).value == T.String(d[p..StringEnd(d, p)])
  {
  }

  lemma LoneToken(d: bytes, p: nat)
    requires K.LoneQuote(d, p)
    ensures StringEnd(d, p) == |d| && d[p..|d|] == [QUOTE] && T.KeyText([QUOTE]) == [] && T.TokenText([QUOTE]).None?
  {
  }

  /** A string whose token has no text does not parse. */
  lemma NoTextNoString(d: bytes, p: nat)
    requires p < |d|
    ensures d[p] == QUOTE && T.TokenText(Slice(d, p, StringEnd(d, p))).None? ==> T.ParseString(d, p).NoParse?
    ensures K.LoneQuote(d, p) ==> T.TokenText(Slice(d, p, StringEnd(d, p))).None?
  {
    hide StringEnd, T.TokenText, JS.Unmarshal;
    if d[p] == QUOTE { T.TokenTextIffUnmarshal(d, p); }
    if K.LoneQuote(d, p) { LoneToken(d, p); }
  }

  lemma ScalarText(j: J.Json)
    ensures j.Null? ==> J.Encode(j) == T.NULL
    ensures j.Number? ==> J.Encode(j) == j.text
    ensures j.Bool? ==> J.Encode(j) == if j.b then T.TRUE else T.FALSE
  {
  }

  /** The token of a boolean is its text. */
  lemma BoolText(d: bytes, p: nat)
    requires p < |d| && T.ParsePrimitive(d, p).Parsed? && T.ParsePrimitive(d, p).value.Bool?
    ensures var r := T.ParsePrimitive(d, p);
      d[p..r.end] == (if r.value.b then T.TRUE else T.FALSE) == J.Encode(J.Bool(r.value.b))
  {
    hide PrimitiveEnd, N.Accepts;
  }

  function ItemsAt(d: bytes, p: nat): (r: T.Parsed<seq<T.Node>>)
    requires p < |d|
  {
    var q := SpaceEnd(d, p + 1);
    if q < |d| && d[q] == RBRACKET then T.Parsed([], q + 1) else T.ParseItems(d, q)
  }

  function MembersAt(d: bytes, p: nat): (r: T.Parsed<seq<T.Member>>)
    requires p < |d|
  {
    var q := SpaceEnd(d, p + 1);
    if q < |d| && d[q] == RBRACE then T.Parsed([], q + 1) else T.ParseMembers(d, q)
  }

  lemma ArrayAt(d: bytes, p: nat)
    requires p < |d|
    ensures var r := ItemsAt(d, p);
      T.ParseArray(d, p) == if r.NoParse? then T.NoParse else T.Parsed(T.Array(r.value), r.end)
  {
    hide SpaceEnd, T.ParseItems;
  }

  lemma ObjectAt(d: bytes, p: nat)
    requires p < |d|
    ensures var r := MembersAt(d, p);
      T.ParseObject(d, p) == if r.NoParse? then T.NoParse else T.Parsed(T.Object(r.value), r.end)
  {
    hide SpaceEnd, T.ParseMembers;
  }

  /** What has been read, and what follows it. */
  function After<X>(done: seq<X>, rest: T.Parsed<seq<X>>): T.Parsed<seq<X>> {
    match rest
    case NoParse => T.NoParse
    case Parsed(xs, e) => T.Parsed(done + xs, e)
  }

  lemma AfterNothing<X>(p: T.Parsed<seq<X>>)
    ensures After([], p) == p
  {
    if p.Parsed? { assert [] + p.value == p.value; }
  }

  lemma AfterOne<X>(done: seq<X>, x: X, rest: T.Parsed<seq<X>>)
    ensures After(done, T.Prepend(x, rest)) == After(done + [x], rest)
  {
    if rest.Parsed? { assert done + ([x] + rest.value) == done + [x] + rest.value; }
  }

  lemma ItemsRead(d: bytes, at: nat, n: T.Node, next: nat, done: seq<T.Node>)
    requires at <= |d| && T.ParseValue(d, at) == T.Parsed(n, next)
    ensures var s := SpaceEnd(d, next);
      After(done, T.ParseItems(d, at)) ==
        if s == |d| then T.NoParse
        else if d[s] == RBRACKET then T.Parsed(done + [n], s + 1)
        else if d[s] != COMMA then T.NoParse
        else After(done + [n], T.ParseItems(d, SpaceEnd(d, s + 1)))
  {
    hide T.ParseValue, T.ParseItems, T.MoreItems, SpaceEnd;
    T.ItemsStep(d, at);
    T.MoreItemsStep(d, next, n);
    var s := SpaceEnd(d, next);
    if s < |d| && d[s] == COMMA {
      AfterOne(done, n, T.ParseItems(d, SpaceEnd(d, s + 1)));
    }
  }

  lemma ItemUnread(d: bytes, at: nat, done: seq<T.Node>)
    requires at <= |d| && T.ParseValue(d, at).NoParse?
    ensures After(done, T.ParseItems(d, at)).NoParse?
  {
    hide T.ParseValue;
    T.ItemsStep(d, at);
  }

  /** Nothing but white space follows the element. */
  lemma ItemCutOff(d: bytes, at: nat, next: nat, done: seq<T.Node>)
    requires at <= |d| && next <= |d| && SpaceEnd(d, next) == |d|
    requires T.ParseValue(d, at).Parsed? ==> next == T.ParseValue(d, at).end
    ensures After(done, T.ParseItems(d, at)).NoParse?
  {
    hide T.ParseValue, T.ParseItems, SpaceEnd;
    if T.ParseValue(d, at).Parsed? {
      ItemsRead(d, at, T.ParseValue(d, at).value, next, done);
    } else {
      ItemUnread(d, at, done);
    }
  }

  /** Bytes follow the element, so it parsed; and then what follows it says how the list goes on. */
  lemma ItemBefore(d: bytes, at: nat, next: nat, done: seq<T.Node>) returns (n: T.Node)
    requires at <= |d| && next <= |d| && SpaceEnd(d, next) < |d|
    requires T.ParseValue(d, at).Parsed? ==> next == T.ParseValue(d, at).end
    requires T.ParseValue(d, at).NoParse? ==> next == |d|
    ensures T.ParseValue(d, at) == T.Parsed(n, next)
    ensures var s := SpaceEnd(d, next);
      After(done, T.ParseItems(d, at)) ==
        if d[s] == RBRACKET then T.Parsed(done + [n], s + 1)
        else if d[s] != COMMA then T.NoParse
        else After(done + [n], T.ParseItems(d, SpaceEnd(d, s + 1)))
  {
    hide T.ParseValue, T.ParseItems, SpaceEnd;
    n := T.ParseValue(d, at).value;
    ItemsRead(d, at, n, next, done);
  }

  function ItemTree(w: Walked): J.Json { if w.out.Omitted? then J.Null else w.out.tree }

  lemma NoItemsWalked(cfg: Config, here: bytes, depth: nat, run: Run)
    requires depth <= cfg.maxDepth
    ensures WalkItems(cfg, [], here, depth, run) == ([], run)
  {
  }

  lemma ItemWalked(cfg: Config, done: seq<T.Node>, outs: seq<J.Json>, n: T.Node, here: bytes, depth: nat, run0: Run, run: Run)
    returns (tree: J.Json)
    requires depth <= cfg.maxDepth && WalkItems(cfg, done, here, depth, run0) == (outs, run)
    ensures var w := Walk(cfg, n, ItemField(), PathForIndex(here, |done|), depth + 1, run);
      tree == ItemTree(w) && WalkItems(cfg, done + [n], here, depth, run0) == (outs + [tree], w.run)
  {
    tree := ItemTree(Walk(cfg, n, ItemField(), PathForIndex(here, |done|), depth + 1, run));
    hide Walk;
    assert (done + [n])[..|done|] == done;
  }

  lemma ItemWritten(out0: bytes, outs: seq<J.Json>, tree: J.Json)
    ensures out0 + J.ItemsBody(outs) + (if |outs| == 0 then [] else [COMMA]) + J.Encode(tree)
         == out0 + J.ItemsBody(outs + [tree])
  {
    hide J.Encode, J.ItemsBody;
    J.ItemsLast(outs + [tree]);
    assert (outs + [tree])[..|outs|] == outs;
    Joined(out0, J.ItemsBody(outs), if |outs| == 0 then [] else [COMMA], J.Encode(tree));
  }

  lemma Joined(a: bytes, b: bytes, c: bytes, d: bytes)
    ensures a + b + c + d == a + (b + c + d)
  {
  }

  lemma ArrayText(out0: bytes, outs: seq<J.Json>)
    ensures out0 + [LBRACKET] + J.ItemsBody(outs) + [RBRACKET] == out0 + J.Encode(J.Array(outs))
  {
    hide J.ItemsBody;
    var b := J.ItemsBody(outs);
    assert out0 + [LBRACKET] + b + [RBRACKET] == out0 + ([LBRACKET] + b + [RBRACKET]);
  }

  /** The member at q: its key, and the value past its colon. */
  function MemberAt(d: bytes, q: nat): (r: T.Parsed<T.Member>)
    requires q <= |d|
    ensures r.Parsed? ==> q < r.end <= |d|
  {
    match T.ParseKey(d, q)
    case NoParse => T.NoParse
    case Parsed(key, v) =>
      match T.ParseValue(d, v)
      case NoParse => T.NoParse
      case Parsed(n, e) => T.Parsed(T.Member(key, n), e)
  }

  lemma MembersRead(d: bytes, at: nat, m: T.Member, next: nat, done: seq<T.Member>)
    requires at <= |d| && MemberAt(d, at) == T.Parsed(m, next)
    ensures var s := SpaceEnd(d, next);
      After(done, T.ParseMembers(d, at)) ==
        if s == |d| then T.NoParse
        else if d[s] == RBRACE then T.Parsed(done + [m], s + 1)
        else if d[s] != COMMA then T.NoParse
        else After(done + [m], T.ParseMembers(d, SpaceEnd(d, s + 1)))
  {
    hide T.ParseValue, T.ParseKey, T.ParseMembers, T.MoreMembers, SpaceEnd;
    T.MembersStep(d, at);
    T.MoreMembersStep(d, next, m);
    var s := SpaceEnd(d, next);
    if s < |d| && d[s] == COMMA {
      AfterOne(done, m, T.ParseMembers(d, SpaceEnd(d, s + 1)));
    }
  }

  lemma MemberUnread(d: bytes, at: nat, done: seq<T.Member>)
    requires at <= |d| && MemberAt(d, at).NoParse?
    ensures After(done, T.ParseMembers(d, at)).NoParse?
  {
    hide T.ParseValue, T.ParseKey;
    T.MembersStep(d, at);
  }

  lemma MemberCutOff(d: bytes, at: nat, next: nat, done: seq<T.Member>)
    requires at <= |d| && next <= |d| && SpaceEnd(d, next) == |d|
    requires MemberAt(d, at).Parsed? ==> next == MemberAt(d, at).end
    ensures After(done, T.ParseMembers(d, at)).NoParse?
  {
    hide MemberAt, T.ParseMembers, SpaceEnd;
    if MemberAt(d, at).Parsed? {
      MembersRead(d, at, MemberAt(d, at).value, next, done);
    } else {
      MemberUnread(d, at, done);
    }
  }

  lemma MemberBefore(d: bytes, at: nat, next: nat, done: seq<T.Member>) returns (m: T.Member)
    requires at <= |d| && next <= |d| && SpaceEnd(d, next) < |d|
    requires MemberAt(d, at).Parsed? ==> next == MemberAt(d, at).end
    requires MemberAt(d, at).NoParse? ==> next == |d|
    ensures MemberAt(d, at) == T.Parsed(m, next)
    ensures var s := SpaceEnd(d, next);
      After(done, T.ParseMembers(d, at)) ==
        if d[s] == RBRACE then T.Parsed(done + [m], s + 1)
        else if d[s] != COMMA then T.NoParse
        else After(done + [m], T.ParseMembers(d, SpaceEnd(d, s + 1)))
  {
    hide MemberAt, T.ParseMembers, SpaceEnd;
    m := MemberAt(d, at).value;
    MembersRead(d, at, m, next, done);
  }

  lemma NoMembersWalked(cfg: Config, here: bytes, depth: nat, run: Run)
    requires depth <= cfg.maxDepth
    ensures WalkMembers(cfg, [], here, depth, run) == ([], run)
  {
  }

  lemma MemberWalked(cfg: Config, done: seq<T.Member>, outs: seq<SM.Entry<J.Json>>, m: T.Member, here: bytes, depth: nat,
                     run0: Run, run: Run) returns (settled: seq<SM.Entry<J.Json>>)
    requires depth <= cfg.maxDepth && WalkMembers(cfg, done, here, depth, run0) == (outs, run)
    ensures var w := Walk(cfg, m.value, MemberField(m.key), PathFor(here, m.key), depth + 1, run);
      settled == Settle(outs, m.key, w.out) && WalkMembers(cfg, done + [m], here, depth, run0) == (settled, w.run)
  {
    settled := Settle(outs, m.key, Walk(cfg, m.value, MemberField(m.key), PathFor(here, m.key), depth + 1, run).out);
    hide Walk, Settle;
    assert (done + [m])[..|done|] == done;
  }

  lemma ObjectText(out0: bytes, outs: seq<SM.Entry<J.Json>>)
    ensures out0 + [LBRACE] + J.MembersBody(outs) + [RBRACE] == out0 + J.Encode(J.Object(outs))
  {
    hide J.MembersBody;
    var b := J.MembersBody(outs);
    assert out0 + [LBRACE] + b + [RBRACE] == out0 + ([LBRACE] + b + [RBRACE]);
  }
}
