/**
 The value grammar of RFC 8259, sections 2 to 7, written down as derivation trees, and the proof that the
 parser of JsonTree reads exactly its texts. Together with JsonSkip this says what validJSONDocument accepts.
 */
module JsonGrammar {
  import opened Bytes
  import opened Options
  import opened JsonLex
  import opened JsonNumber
  import opened JsonString
  import opened JsonTree
  import JsonSkip

  /** A derivation of a value; gaps are runs of white space. */
  datatype Derivation =
    | Primitive(token: bytes)
    | Str(token: bytes)
    | Empty(open: byte, gap: bytes)
    | Arr(items: seq<Item>)
    | Obj(fields: seq<FieldText>)

  datatype Item = Item(before: bytes, value: Derivation, after: bytes)

  datatype FieldText = FieldText(before: bytes, key: bytes, afterKey: bytes, item: Item)

  predicate IsPrimitive(token: bytes) {
    token == TRUE || token == FALSE || token == NULL || Accepts(token)
  }

  predicate IsStringToken(token: bytes) { IsDelimited(token) && IsStringBody(Body(token)) }

  ghost predicate WellFormed(v: Derivation) {
    match v
    case Primitive(t) => IsPrimitive(t)
    case Str(t) => IsStringToken(t)
    case Empty(open, gap) => (open == LBRACE || open == LBRACKET) && AllSpace(gap)
    case Arr(items) => items != [] && forall k :: 0 <= k < |items| ==> WellFormedItem(items[k])
    case Obj(fields) => fields != [] && forall k :: 0 <= k < |fields| ==> WellFormedField(fields[k])
  }

  ghost predicate WellFormedItem(i: Item) {
    AllSpace(i.before) && AllSpace(i.after) && WellFormed(i.value)
  }

  ghost predicate WellFormedField(f: FieldText) {
    AllSpace(f.before) && IsStringToken(f.key) && AllSpace(f.afterKey) && WellFormedItem(f.item)
  }

  /** The text a derivation derives. */
  function Text(v: Derivation): bytes {
    match v
    case Primitive(t) => t
    case Str(t) => t
    case Empty(open, gap) => [open] + (gap + [if open == LBRACE then RBRACE else RBRACKET])
    case Arr(items) => [LBRACKET] + ItemsText(items)
    case Obj(fields) => [LBRACE] + FieldsText(fields)
  }

  function ItemText(i: Item): bytes { i.before + (Text(i.value) + i.after) }

  /** Elements separated by commas, up to and including the closing bracket. */
  function ItemsText(items: seq<Item>): bytes {
    if items == [] then []
    else if |items| == 1 then ItemText(items[0]) + [RBRACKET]
    else ItemText(items[0]) + ([COMMA] + ItemsText(items[1..]))
  }

  function FieldString(f: FieldText): bytes { f.before + (f.key + (f.afterKey + ([COLON] + ItemText(f.item)))) }

  function FieldsText(fields: seq<FieldText>): bytes {
    if fields == [] then []
    else if |fields| == 1 then FieldString(fields[0]) + [RBRACE]
    else FieldString(fields[0]) + ([COMMA] + FieldsText(fields[1..]))
  }

  /** The tree a derivation stands for. */
  function Tree(v: Derivation): Node {
    match v
    case Primitive(t) => if PrimitiveNode(t).Some? then PrimitiveNode(t).value else Null
    case Str(t) => String(t)
    case Empty(open, _) => if open == LBRACE then Object([]) else Array([])
    case Arr(items) => Array(ItemTrees(items))
    case Obj(fields) => Object(FieldTrees(fields))
  }

  function ItemTrees(items: seq<Item>): seq<Node> {
    if items == [] then [] else [Tree(items[0].value)] + ItemTrees(items[1..])
  }

  function FieldTrees(fields: seq<FieldText>): seq<Member> {
    if fields == [] then []
    else [Member(KeyText(fields[0].key), Tree(fields[0].item.value))] + FieldTrees(fields[1..])
  }

  /** JSON-text = ws value ws: d derives as a document with tree n. */
  ghost predicate Derives(d: bytes, n: Node) {
    exists i: Item :: WellFormedItem(i) && ItemText(i) == d && Tree(i.value) == n
  }

  ghost predicate IsDocument(d: bytes) { exists n: Node :: Derives(d, n) }

  /* ---------- unfolding, one definition at a time ---------- */

  lemma TextUnfolds(v: Derivation)
    ensures v.Primitive? || v.Str? ==> Text(v) == v.token
    ensures v.Empty? ==> Text(v) == [v.open] + (v.gap + [if v.open == LBRACE then RBRACE else RBRACKET])
    ensures v.Arr? ==> Text(v) == [LBRACKET] + ItemsText(v.items)
    ensures v.Obj? ==> Text(v) == [LBRACE] + FieldsText(v.fields)
  {
    hide ItemsText, FieldsText;
  }

  lemma ItemsUnfold(items: seq<Item>)
    requires items != []
    ensures |items| == 1 ==> ItemsText(items) == ItemText(items[0]) + [RBRACKET]
    ensures |items| > 1 ==> ItemsText(items) == ItemText(items[0]) + ([COMMA] + ItemsText(items[1..]))
    ensures |items| == 1 ==> ItemTrees(items) == [Tree(items[0].value)]
    ensures |items| > 1 ==> ItemTrees(items) == [Tree(items[0].value)] + ItemTrees(items[1..])
  {
    hide ItemText, Tree;
  }

  lemma FieldsUnfold(fields: seq<FieldText>)
    requires fields != []
    ensures |fields| == 1 ==> FieldsText(fields) == FieldString(fields[0]) + [RBRACE]
    ensures |fields| > 1 ==> FieldsText(fields) == FieldString(fields[0]) + ([COMMA] + FieldsText(fields[1..]))
    ensures var m := Member(KeyText(fields[0].key), Tree(fields[0].item.value));
      && (|fields| == 1 ==> FieldTrees(fields) == [m])
      && (|fields| > 1 ==> FieldTrees(fields) == [m] + FieldTrees(fields[1..]))
  {
    hide FieldString, Tree, KeyText;
  }

  /* ---------- everything parsed is derived ---------- */

  lemma Glue(d: bytes, i: nat, j: nat, k: nat)
    requires i <= j <= k <= |d|
    ensures d[i..k] == d[i..j] + d[j..k]
  {
  }

  lemma StringDerived(d: bytes, p: nat) returns (v: Derivation)
    requires p < |d| && d[p] == QUOTE && ParseString(d, p).Parsed?
    ensures WellFormed(v) && Text(v) == d[p..ParseString(d, p).end] && Tree(v) == ParseString(d, p).value
  {
    v := Str(d[p..StringEnd(d, p)]);
    UnescapeIffGrammar(Body(v.token));
  }

  lemma EmptyDerived(d: bytes, p: nat, q: nat) returns (v: Derivation)
    requires p < q < |d| && AllSpace(d[p + 1..q]) && (d[p] == LBRACE || d[p] == LBRACKET)
    requires d[q] == (if d[p] == LBRACE then RBRACE else RBRACKET)
    ensures WellFormed(v) && Text(v) == d[p..q + 1]
    ensures Tree(v) == if d[p] == LBRACE then Object([]) else Array([])
  {
    v := Empty(d[p], d[p + 1..q]);
    assert d[p..q + 1] == [d[p]] + (d[p + 1..q] + [d[q]]);
  }

  lemma {:induction false} ValueDerived(d: bytes, i: nat) returns (v: Derivation)
    requires i <= |d| && ParseValue(d, i).Parsed?
    ensures WellFormed(v) && Tree(v) == ParseValue(d, i).value
    ensures Text(v) == d[SpaceEnd(d, i)..ParseValue(d, i).end]
    decreases |d| - i, 1
  {
    hide ParseMembers, ParseItems, Unmarshal, ItemsText, FieldsText, ItemTrees, FieldTrees;
    var p, e := SpaceEnd(d, i), ParseValue(d, i).end;
    if d[p] == QUOTE {
      v := StringDerived(d, p);
    } else if d[p] == LBRACE || d[p] == LBRACKET {
      var q := SpaceEnd(d, p + 1);
      if q < |d| && d[q] == (if d[p] == LBRACE then RBRACE else RBRACKET) {
        v := EmptyDerived(d, p, q);
      } else if d[p] == LBRACE {
        var fields := MembersDerived(d, p + 1, q);
        v := Obj(fields);
        Glue(d, p, p + 1, e);
        assert d[p..p + 1] == [LBRACE];
      } else {
        SpaceEndIs(d, q, q);
        var items := ItemsDerived(d, p + 1, q);
        v := Arr(items);
        Glue(d, p, p + 1, e);
        assert d[p..p + 1] == [LBRACKET];
      }
    } else {
      v := Primitive(d[p..e]);
      assert WellFormed(v);
    }
  }

  /** An element and the white space around it, from p to s. */
  lemma ItemDerived(d: bytes, p: nat, w: nat, x: nat, s: nat, value: Derivation) returns (item: Item)
    requires p <= w <= x <= s <= |d| && AllSpace(d[p..w]) && AllSpace(d[x..s])
    requires WellFormed(value) && Text(value) == d[w..x]
    ensures WellFormedItem(item) && ItemText(item) == d[p..s] && item.value == value
  {
    hide Text, WellFormed;
    item := Item(d[p..w], value, d[x..s]);
    Glue(d, p, w, s);
    Glue(d, w, x, s);
  }

  lemma FieldDerived(d: bytes, p: nat, q: nat, e: nat, c: nat, s: nat, item: Item) returns (f: FieldText)
    requires p <= q <= e <= c < s <= |d| && AllSpace(d[p..q]) && AllSpace(d[e..c]) && d[c] == COLON
    requires IsStringToken(d[q..e]) && WellFormedItem(item) && ItemText(item) == d[c + 1..s]
    ensures WellFormedField(f) && FieldString(f) == d[p..s] && f.item == item && f.key == d[q..e]
  {
    hide ItemText, WellFormedItem, IsStringToken;
    f := FieldText(d[p..q], d[q..e], d[e..c], item);
    Glue(d, p, q, s);
    Glue(d, q, e, s);
    Glue(d, e, c, s);
    Glue(d, c, c + 1, s);
    assert d[c..c + 1] == [COLON];
  }

  lemma KeyDerived(d: bytes, q: nat)
    requires q <= |d| && ParseKey(d, q).Parsed?
    ensures IsStringToken(d[q..StringEnd(d, q)])
    ensures ParseKey(d, q).value == KeyText(d[q..StringEnd(d, q)])
    ensures ParseKey(d, q).end == SpaceEnd(d, StringEnd(d, q)) + 1
    ensures d[ParseKey(d, q).end - 1] == COLON
  {
    UnescapeIffGrammar(Body(d[q..StringEnd(d, q)]));
  }

  /** The member read at q: the field from p to the separator or closer after it. */
  lemma {:induction false} MemberDerived(d: bytes, p: nat, q: nat) returns (f: FieldText)
    requires p <= q <= |d| && AllSpace(d[p..q])
    requires ParseKey(d, q).Parsed? && ParseValue(d, ParseKey(d, q).end).Parsed?
    ensures var x := ParseValue(d, ParseKey(d, q).end);
      && WellFormedField(f) && p < SpaceEnd(d, x.end) && FieldString(f) == d[p..SpaceEnd(d, x.end)]
      && KeyText(f.key) == ParseKey(d, q).value && Tree(f.item.value) == x.value
    decreases |d| - q, 2
  {
    hide ParseValue, ParseKey, Text, WellFormed, WellFormedItem, WellFormedField, Tree, ItemText, FieldString,
      KeyText, IsStringToken, SpaceEnd, AllSpace;
    KeyDerived(d, q);
    var e := StringEnd(d, q);
    var v := ParseKey(d, q).end;
    var value := ValueDerived(d, v);
    var x := ParseValue(d, v).end;
    var s := SpaceEnd(d, x);
    SpaceRun(d, e);
    SpaceRun(d, v);
    SpaceRun(d, x);
    var item := ItemDerived(d, v, SpaceEnd(d, v), x, s, value);
    f := FieldDerived(d, p, q, e, v - 1, s, item);
  }

  /** The members read at q, with the white space from p to q in front of the first. */
  lemma {:induction false} MembersDerived(d: bytes, p: nat, q: nat) returns (fields: seq<FieldText>)
    requires p <= q <= |d| && AllSpace(d[p..q]) && ParseMembers(d, q).Parsed?
    ensures fields != [] && forall k :: 0 <= k < |fields| ==> WellFormedField(fields[k])
    ensures FieldsText(fields) == d[p..ParseMembers(d, q).end]
    ensures FieldTrees(fields) == ParseMembers(d, q).value
    decreases |d| - q, 3
  {
    hide ParseValue, ParseKey, ParseMembers, MoreMembers, Text, WellFormedField, Tree, FieldString, FieldsText,
      FieldTrees, KeyText, SpaceEnd, AllSpace;
    MembersStep(d, q);
    var x := ParseValue(d, ParseKey(d, q).end);
    MoreMembersStep(d, x.end, Member(ParseKey(d, q).value, x.value));
    var f := MemberDerived(d, p, q);
    var s := SpaceEnd(d, x.end);
    if d[s] == RBRACE {
      fields := [f];
      FieldsUnfold(fields);
      assert d[p..s + 1] == d[p..s] + [RBRACE];
    } else {
      var r := SpaceEnd(d, s + 1);
      SpaceRun(d, s + 1);
      var more := MembersDerived(d, s + 1, r);
      fields := [f] + more;
      assert fields[1..] == more;
      FieldsUnfold(fields);
      JoinComma(d, p, s, ParseMembers(d, r).end);
    }
  }

  lemma JoinComma(d: bytes, p: nat, s: nat, end: nat)
    requires p <= s < end <= |d| && d[s] == COMMA
    ensures d[p..end] == d[p..s] + ([COMMA] + d[s + 1..end])
  {
  }

  lemma {:induction false} ItemsDerived(d: bytes, p: nat, q: nat) returns (items: seq<Item>)
    requires p <= q <= |d| && AllSpace(d[p..q]) && SpaceEnd(d, q) == q && ParseItems(d, q).Parsed?
    ensures items != [] && forall k :: 0 <= k < |items| ==> WellFormedItem(items[k])
    ensures ItemsText(items) == d[p..ParseItems(d, q).end]
    ensures ItemTrees(items) == ParseItems(d, q).value
    decreases |d| - q, 2
  {
    hide ParseValue, ParseItems, MoreItems, Text, WellFormed, WellFormedItem, Tree, ItemText, ItemsText, ItemTrees,
      SpaceEnd, AllSpace;
    ItemsStep(d, q);
    var value := ValueDerived(d, q);
    var x := ParseValue(d, q).end;
    MoreItemsStep(d, x, ParseValue(d, q).value);
    var s := SpaceEnd(d, x);
    SpaceRun(d, x);
    var item := ItemDerived(d, p, q, x, s, value);
    if d[s] == RBRACKET {
      items := [item];
      ItemsUnfold(items);
      assert d[p..s + 1] == d[p..s] + [RBRACKET];
    } else {
      var r := SpaceEnd(d, s + 1);
      SpaceRun(d, s + 1);
      SpaceEndIs(d, r, r);
      var more := ItemsDerived(d, s + 1, r);
      items := [item] + more;
      assert items[1..] == more;
      ItemsUnfold(items);
      JoinComma(d, p, s, ParseItems(d, r).end);
    }
  }

  /* ---------- everything derived is parsed ---------- */

  /** Text t stands in d at i. */
  predicate At(d: bytes, i: nat, t: bytes) { i + |t| <= |d| && d[i..i + |t|] == t }

  lemma AtFirst(d: bytes, i: nat, t: bytes)
    requires At(d, i, t) && t != []
    ensures i < |d| && d[i] == t[0]
  {
    assert d[i..i + |t|][0] == d[i];
  }

  lemma AtSplits(d: bytes, i: nat, a: bytes, b: bytes)
    requires At(d, i, a + b)
    ensures At(d, i, a) && At(d, i + |a|, b)
    ensures i + |a| + |b| <= |d|
  {
    assert d[i..i + |a|] == (a + b)[..|a|];
    assert d[i + |a|..i + |a| + |b|] == (a + b)[|a|..];
  }

  /** White space in front of something that is not white space is skipped whole. */
  lemma SpaceAt(d: bytes, i: nat, gap: bytes)
    requires At(d, i, gap) && AllSpace(gap)
    requires i + |gap| < |d| ==> !IsSpace(d[i + |gap|])
    ensures SpaceEnd(d, i) == i + |gap|
  {
    forall k | i <= k < i + |gap| ensures IsSpace(d[k]) {
      assert d[k] == gap[k - i];
    }
    SpaceEndIs(d, i, i + |gap|);
  }

  /** A derived string token is scanned whole. */
  lemma {:induction false} BodyScanned(d: bytes, i: nat, b: bytes)
    requires At(d, i, b + [QUOTE]) && IsStringBody(b)
    ensures BodyEnd(d, i) == i + |b| + 1
    decreases |b|
  {
    AtSplits(d, i, b, [QUOTE]);
    if b == [] {
      assert d[i] == QUOTE;
    } else {
      assert forall k :: 0 <= k < |b| ==> d[i + k] == b[k];
      var n := if b[0] != BACKSLASH then 1 else if CodeUnit(b).Some? then 6 else 2;
      assert b + [QUOTE] == b[..n] + (b[n..] + [QUOTE]);
      AtSplits(d, i, b[..n], b[n..] + [QUOTE]);
      BodyScanned(d, i + n, b[n..]);
      if n == 6 {
        assert d[i + 2] == b[2] && d[i + 3] == b[3] && d[i + 4] == b[4] && d[i + 5] == b[5];
        assert BodyEnd(d, i + 5) == BodyEnd(d, i + 6);
        assert BodyEnd(d, i + 4) == BodyEnd(d, i + 5);
        assert BodyEnd(d, i + 3) == BodyEnd(d, i + 4);
        assert BodyEnd(d, i + 2) == BodyEnd(d, i + 3);
      }
    }
  }

  lemma StringScanned(d: bytes, i: nat, token: bytes)
    requires At(d, i, token) && IsStringToken(token)
    ensures i < |d| && d[i] == QUOTE && StringEnd(d, i) == i + |token| && d[i..i + |token|] == token
    ensures Unmarshal(token).Some?
  {
    hide IsStringBody, Unescape, BodyEnd;
    var b := Body(token);
    AtFirst(d, i, token);
    assert token == [QUOTE] + (b + [QUOTE]);
    AtSplits(d, i, [QUOTE], b + [QUOTE]);
    BodyScanned(d, i + 1, b);
    UnescapeIffGrammar(b);
  }

  lemma PrimitiveScanned(d: bytes, i: nat, t: bytes)
    requires At(d, i, t) && IsPrimitive(t)
    requires i + |t| < |d| ==> EndsPrimitive(d[i + |t|])
    ensures ParseValue(d, i) == Parsed(Tree(Primitive(t)), i + |t|)
  {
    hide Accepts;
    PrimitiveBytes(t);
    forall k | i <= k < i + |t| ensures !EndsPrimitive(d[k]) {
      assert d[k] == t[k - i];
    }
    PrimitiveEndIs(d, i, i + |t|);
    AtFirst(d, i, t);
    SpaceEndIs(d, i, i);
  }

  predicate NumberByte(b: byte) { IsDigit(b) || IsE(b) || IsSign(b) || b == DOT }

  /** No primitive holds a byte that ends one, and none starts like another kind of value. */
  lemma PrimitiveBytes(t: bytes)
    requires IsPrimitive(t)
    ensures t != [] && t[0] != QUOTE && t[0] != LBRACE && t[0] != LBRACKET
    ensures forall k :: 0 <= k < |t| ==> !EndsPrimitive(t[k])
  {
    hide Accepts, IsNumber;
    if Accepts(t) {
      AcceptsIffNumber(t);
      NumberTokenBytes(t);
    }
  }

  lemma NumberTokenBytes(t: bytes)
    requires IsNumber(t)
    ensures t != [] && forall k :: 0 <= k < |t| ==> NumberByte(t[k])
  {
    var p: Parts :| p.WellFormed() && p.Text() == t;
    NumberBytes(p);
  }

  lemma NumberBytes(p: Parts)
    requires p.WellFormed()
    ensures p.Text() != [] && forall k :: 0 <= k < |p.Text()| ==> NumberByte(p.Text()[k])
  {
    assert forall k :: 0 <= k < |p.exp| ==> NumberByte(p.exp[k]) by {
      if p.exp != [] {
        var x := ExpDigits(p.exp);
        assert forall k :: 0 <= k < |x| ==> p.exp[|p.exp| - |x| + k] == x[k];
      }
    }
    assert forall k :: 0 <= k < |p.frac| ==> NumberByte(p.frac[k]) by {
      if p.frac != [] {
        assert forall k :: 1 <= k < |p.frac| ==> p.frac[k] == p.frac[1..][k - 1];
      }
    }
    assert forall k :: 0 <= k < |p.int_| ==> NumberByte(p.int_[k]);
  }

  predicate EndsAt(v: Derivation, d: bytes, e: nat) {
    v.Primitive? && e < |d| ==> EndsPrimitive(d[e])
  }

  /** A derivation's first byte is no white space and no closer. */
  lemma FirstByte(v: Derivation)
    requires WellFormed(v)
    ensures Text(v) != [] && !IsSpace(Text(v)[0]) && Text(v)[0] != RBRACE && Text(v)[0] != RBRACKET
    ensures v.Str? ==> Text(v)[0] == QUOTE
    ensures v.Empty? ==> Text(v)[0] == v.open
    ensures v.Arr? ==> Text(v)[0] == LBRACKET
    ensures v.Obj? ==> Text(v)[0] == LBRACE
  {
    hide IsPrimitive, ItemsText, FieldsText, WellFormedItem, WellFormedField, IsStringBody;
    TextUnfolds(v);
    if v.Primitive? {
      PrimitiveBytes(v.token);
    }
  }

  lemma {:induction false} ValueParsed(d: bytes, i: nat, v: Derivation)
    requires WellFormed(v) && At(d, i, Text(v)) && EndsAt(v, d, i + |Text(v)|)
    ensures ParseValue(d, i) == Parsed(Tree(v), i + |Text(v)|)
    decreases v, 0
  {
    hide ParseMembers, ParseItems, Unmarshal, Text, ItemTrees, FieldTrees, ItemsText, FieldsText, At, PrimitiveNode,
      IsStringToken, IsPrimitive, SpaceEnd, ParsePrimitive, EndsPrimitive, StringEnd, WellFormedItem, WellFormedField;
    FirstByte(v);
    AtFirst(d, i, Text(v));
    SpaceEndIs(d, i, i);
    TextUnfolds(v);
    match v
    case Primitive(t) => PrimitiveScanned(d, i, t);
    case Str(t) => StringScanned(d, i, t);
    case Empty(open, gap) => EmptyParsed(d, i, open, gap);
    case Arr(items) =>
      AtSplits(d, i, [LBRACKET], ItemsText(items));
      ItemStarts(d, i + 1, items);
      ItemsParsed(d, i + 1, items);
    case Obj(fields) =>
      AtSplits(d, i, [LBRACE], FieldsText(fields));
      FieldStarts(d, i + 1, fields);
      FieldsParsed(d, i + 1, fields);
  }

  lemma EmptyParsed(d: bytes, i: nat, open: byte, gap: bytes)
    requires WellFormed(Empty(open, gap)) && At(d, i, Text(Empty(open, gap)))
    ensures ParseValue(d, i) == Parsed(Tree(Empty(open, gap)), i + |gap| + 2)
  {
    hide ParseMembers, ParseItems, At, SpaceEnd, ParsePrimitive;
    var close := [if open == LBRACE then RBRACE else RBRACKET];
    AtSplits(d, i, [open], gap + close);
    AtSplits(d, i + 1, gap, close);
    AtFirst(d, i, [open]);
    AtFirst(d, i + 1 + |gap|, close);
    SpaceEndIs(d, i, i);
    SpaceAt(d, i + 1, gap);
  }

  lemma ItemUnfolds(item: Item)
    ensures ItemText(item) == item.before + (Text(item.value) + item.after)
  {
    hide Text;
  }

  /** An element list starts, past its white space, with a value and not with a closer. */
  lemma ItemStarts(d: bytes, i: nat, items: seq<Item>)
    requires items != [] && WellFormedItem(items[0]) && At(d, i, ItemsText(items))
    ensures var s := SpaceEnd(d, i); s == i + |items[0].before| && s < |d| && d[s] != RBRACKET
  {
    hide Text, ItemsText, ItemTrees, SpaceEnd, At, WellFormed, ItemText, Tree;
    var item := items[0];
    ItemsUnfold(items);
    if |items| == 1 {
      AtSplits(d, i, ItemText(item), [RBRACKET]);
    } else {
      AtSplits(d, i, ItemText(item), [COMMA] + ItemsText(items[1..]));
    }
    ItemUnfolds(item);
    AtSplits(d, i, item.before, Text(item.value) + item.after);
    AtSplits(d, i + |item.before|, Text(item.value), item.after);
    FirstByte(item.value);
    AtFirst(d, i + |item.before|, Text(item.value));
    SpaceAt(d, i, item.before);
  }

  lemma FieldUnfolds(f: FieldText)
    ensures FieldString(f) == f.before + (f.key + (f.afterKey + ([COLON] + ItemText(f.item))))
  {
    hide ItemText;
  }

  lemma FieldStarts(d: bytes, i: nat, fields: seq<FieldText>)
    requires fields != [] && WellFormedField(fields[0]) && At(d, i, FieldsText(fields))
    ensures var s := SpaceEnd(d, i); s == i + |fields[0].before| && s < |d| && d[s] == QUOTE
  {
    hide FieldsText, FieldTrees, SpaceEnd, At, ItemText, FieldString, IsStringBody, WellFormedItem, Tree, KeyText;
    var f := fields[0];
    FieldsUnfold(fields);
    if |fields| == 1 {
      AtSplits(d, i, FieldString(f), [RBRACE]);
    } else {
      AtSplits(d, i, FieldString(f), [COMMA] + FieldsText(fields[1..]));
    }
    FieldUnfolds(f);
    var tail := f.afterKey + ([COLON] + ItemText(f.item));
    AtSplits(d, i, f.before, f.key + tail);
    AtSplits(d, i + |f.before|, f.key, tail);
    AtFirst(d, i + |f.before|, f.key);
    SpaceAt(d, i, f.before);
  }

  /** An element and the separator or closer after it. */
  lemma {:induction false} ItemParsed(d: bytes, i: nat, item: Item, sep: byte)
    requires WellFormedItem(item) && At(d, i, ItemText(item)) && At(d, i + |ItemText(item)|, [sep])
    requires EndsPrimitive(sep) && !IsSpace(sep)
    ensures ParseValue(d, SpaceEnd(d, i)).Parsed? && ParseValue(d, SpaceEnd(d, i)).value == Tree(item.value)
    ensures var e := ParseValue(d, SpaceEnd(d, i)).end;
      SpaceEnd(d, e) == i + |ItemText(item)| < |d| && d[i + |ItemText(item)|] == sep
    decreases item, 1
  {
    hide Text, WellFormed, Tree, ParseValue, SpaceEnd, At;
    var v := item.value;
    var j := i + |item.before|;
    var e := j + |Text(v)|;
    AtSplits(d, i, item.before, Text(v) + item.after);
    AtSplits(d, j, Text(v), item.after);
    FirstByte(v);
    AtFirst(d, j, Text(v));
    AtFirst(d, e + |item.after|, [sep]);
    SpaceAt(d, i, item.before);
    SpaceAt(d, e, item.after);
    if item.after != [] { AtFirst(d, e, item.after); }
    ValueParsed(d, j, v);
  }

  /** An element list, one derived element further on. */
  lemma {:induction false} ItemRead(d: bytes, i: nat, item: Item, sep: byte)
    requires WellFormedItem(item) && At(d, i, ItemText(item)) && At(d, i + |ItemText(item)|, [sep])
    requires sep == COMMA || sep == RBRACKET
    ensures i + |ItemText(item)| < |d|
    ensures var s := i + |ItemText(item)|;
      ParseItems(d, SpaceEnd(d, i)) ==
        if sep == RBRACKET then Parsed([Tree(item.value)], s + 1)
        else Prepend(Tree(item.value), ParseItems(d, SpaceEnd(d, s + 1)))
    decreases item, 2
  {
    hide ParseValue, ParseItems, MoreItems, Text, WellFormedItem, Tree, ItemText, At, SpaceEnd;
    ItemParsed(d, i, item, sep);
    ItemsStep(d, SpaceEnd(d, i));
    var x := ParseValue(d, SpaceEnd(d, i));
    MoreItemsStep(d, x.end, x.value);
  }

  lemma {:induction false} ItemsParsed(d: bytes, i: nat, items: seq<Item>)
    requires items != [] && (forall k :: 0 <= k < |items| ==> WellFormedItem(items[k]))
    requires At(d, i, ItemsText(items))
    ensures ParseItems(d, SpaceEnd(d, i)) == Parsed(ItemTrees(items), i + |ItemsText(items)|)
    decreases items, 2
  {
    hide ParseValue, ParseItems, MoreItems, Text, WellFormedItem, Tree, ItemText, ItemsText, ItemTrees, At, SpaceEnd;
    var item := items[0];
    var n := |ItemText(item)|;
    ItemsUnfold(items);
    if |items| == 1 {
      AtSplits(d, i, ItemText(item), [RBRACKET]);
      ItemRead(d, i, item, RBRACKET);
    } else {
      var more := ItemsText(items[1..]);
      AtSplits(d, i, ItemText(item), [COMMA] + more);
      AtSplits(d, i + n, [COMMA], more);
      ItemRead(d, i, item, COMMA);
      ItemsParsed(d, i + n + 1, items[1..]);
    }
  }

  lemma KeyLaidOut(d: bytes, i: nat, f: FieldText)
    requires At(d, i, FieldString(f))
    ensures var j := i + |f.before|;
      var k := j + |f.key|;
      var c := k + |f.afterKey|;
      && At(d, i, f.before) && At(d, j, f.key) && At(d, k, f.afterKey)
      && c < |d| && d[c] == COLON && At(d, c + 1, ItemText(f.item))
  {
    hide ItemText, FieldString, At;
    FieldUnfolds(f);
    var j := i + |f.before|;
    var k := j + |f.key|;
    var c := k + |f.afterKey|;
    var tail := [COLON] + ItemText(f.item);
    AtSplits(d, i, f.before, f.key + (f.afterKey + tail));
    AtSplits(d, j, f.key, f.afterKey + tail);
    AtSplits(d, k, f.afterKey, tail);
    AtSplits(d, c, [COLON], ItemText(f.item));
    AtFirst(d, c, [COLON]);
  }

  /** The key of a field and the colon after it. */
  lemma KeyParsed(d: bytes, i: nat, f: FieldText)
    requires WellFormedField(f) && At(d, i, FieldString(f))
    ensures ParseKey(d, SpaceEnd(d, i)) == Parsed(KeyText(f.key), i + |f.before| + |f.key| + |f.afterKey| + 1)
    ensures At(d, i + |f.before| + |f.key| + |f.afterKey| + 1, ItemText(f.item))
  {
    hide Unmarshal, KeyText, ItemText, FieldString, At, SpaceEnd, StringEnd, IsStringToken, WellFormedItem;
    KeyLaidOut(d, i, f);
    var j := i + |f.before|;
    StringScanned(d, j, f.key);
    SpaceAt(d, i, f.before);
    SpaceAt(d, j + |f.key|, f.afterKey);
  }

  lemma {:induction false} FieldParsed(d: bytes, i: nat, f: FieldText, sep: byte)
    requires WellFormedField(f) && At(d, i, FieldString(f)) && At(d, i + |FieldString(f)|, [sep])
    requires EndsPrimitive(sep) && !IsSpace(sep)
    ensures ParseKey(d, SpaceEnd(d, i)).Parsed? && ParseKey(d, SpaceEnd(d, i)).value == KeyText(f.key)
    ensures var v := ParseKey(d, SpaceEnd(d, i)).end;
      && ParseValue(d, v).Parsed? && ParseValue(d, v).value == Tree(f.item.value)
      && SpaceEnd(d, ParseValue(d, v).end) == i + |FieldString(f)| < |d|
      && d[i + |FieldString(f)|] == sep
    decreases f, 2
  {
    hide ParseValue, ItemText, At, SpaceEnd, Tree, ParseKey, IsStringToken;
    KeyParsed(d, i, f);
    var v := ParseKey(d, SpaceEnd(d, i)).end;
    assert v + |ItemText(f.item)| == i + |FieldString(f)|;
    ItemParsed(d, v, f.item, sep);
    ParseFromSpaceEnd(d, v);
  }

  /** A member list, one derived field further on. */
  lemma {:induction false} FieldRead(d: bytes, i: nat, f: FieldText, sep: byte)
    requires WellFormedField(f) && At(d, i, FieldString(f)) && At(d, i + |FieldString(f)|, [sep])
    requires sep == COMMA || sep == RBRACE
    ensures i + |FieldString(f)| < |d|
    ensures var s := i + |FieldString(f)|;
      var m := Member(KeyText(f.key), Tree(f.item.value));
      ParseMembers(d, SpaceEnd(d, i)) ==
        if sep == RBRACE then Parsed([m], s + 1)
        else Prepend(m, ParseMembers(d, SpaceEnd(d, s + 1)))
    decreases f, 3
  {
    hide ParseValue, ParseKey, ParseMembers, MoreMembers, WellFormedField, Tree, FieldString, At, SpaceEnd, KeyText;
    FieldParsed(d, i, f, sep);
    var q := SpaceEnd(d, i);
    MembersStep(d, q);
    var x := ParseValue(d, ParseKey(d, q).end);
    MoreMembersStep(d, x.end, Member(ParseKey(d, q).value, x.value));
  }

  lemma {:induction false} FieldsParsed(d: bytes, i: nat, fields: seq<FieldText>)
    requires fields != [] && (forall k :: 0 <= k < |fields| ==> WellFormedField(fields[k]))
    requires At(d, i, FieldsText(fields))
    ensures ParseMembers(d, SpaceEnd(d, i)) == Parsed(FieldTrees(fields), i + |FieldsText(fields)|)
    decreases fields, 3
  {
    hide ParseValue, ParseKey, ParseMembers, MoreMembers, WellFormedField, Tree, FieldString, FieldsText, FieldTrees,
      At, SpaceEnd, KeyText;
    var f := fields[0];
    var n := |FieldString(f)|;
    FieldsUnfold(fields);
    if |fields| == 1 {
      AtSplits(d, i, FieldString(f), [RBRACE]);
      FieldRead(d, i, f, RBRACE);
    } else {
      var more := FieldsText(fields[1..]);
      AtSplits(d, i, FieldString(f), [COMMA] + more);
      AtSplits(d, i + n, [COMMA], more);
      FieldRead(d, i, f, COMMA);
      FieldsParsed(d, i + n + 1, fields[1..]);
    }
  }

  /* ---------- documents ---------- */

  /** The parser reads tree n from a document exactly when the grammar derives it from n. */
  lemma ParseIffDerives(d: bytes, n: Node)
    ensures ParseDocument(d) == Some(n) <==> Derives(d, n)
  {
    hide ParseValue, ItemText, Text, WellFormed, Tree, WellFormedItem;
    if ParseDocument(d) == Some(n) {
      var v := ValueDerived(d, 0);
      var i := ItemDerived(d, 0, SpaceEnd(d, 0), ParseValue(d, 0).end, |d|, v);
      assert d[0..|d|] == d;
    }
    if Derives(d, n) {
      var i: Item :| WellFormedItem(i) && ItemText(i) == d && Tree(i.value) == n;
      DocumentParsed(d, i);
    }
  }

  lemma DocumentParsed(d: bytes, i: Item)
    requires WellFormedItem(i) && ItemText(i) == d
    ensures ParseDocument(d) == Some(Tree(i.value))
  {
    hide ParseValue, Text, WellFormed, Tree, At, SpaceEnd;
    var t := Text(i.value);
    var j := |i.before|;
    var e := j + |t|;
    WholeAt(d);
    AtSplits(d, 0, i.before, t + i.after);
    AtSplits(d, j, t, i.after);
    FirstByte(i.value);
    AtFirst(d, j, t);
    SpaceAt(d, 0, i.before);
    SpaceAt(d, e, i.after);
    if i.after != [] { AtFirst(d, e, i.after); }
    ValueParsed(d, j, i.value);
    ParseFromSpaceEnd(d, 0);
  }

  lemma WholeAt(d: bytes)
    ensures At(d, 0, d)
  {
    assert d[0..|d|] == d;
  }

  /** White space and then a single quote: the one family of texts accepted beyond the grammar. */
  predicate IsLoneQuote(d: bytes) { JsonSkip.LoneQuote(d, SpaceEnd(d, 0)) }

  /** validJSONDocument. */
  method ValidJSONDocument(d: bytes) returns (ok: bool)
    ensures ok <==> IsDocument(d) || IsLoneQuote(d)
    ensures !IsLoneQuote(d) ==> (ok <==> ParseDocument(d).Some?)
  {
    DocumentIffParsed(d);
    var end := JsonSkip.SkipJSONValue(d, 0);
    if end < 0 {
      return false;
    }
    var e := SkipJSONSpace(d, end);
    return e == |d|;
  }

  lemma DocumentIffParsed(d: bytes)
    ensures IsDocument(d) <==> ParseDocument(d).Some?
  {
    if ParseDocument(d).Some? {
      ParseIffDerives(d, ParseDocument(d).value);
    }
    if IsDocument(d) {
      var n: Node :| Derives(d, n);
      ParseIffDerives(d, n);
    }
  }

  /** The exception is real: a lone quote is accepted and derives from nothing. */
  lemma LoneQuoteIsNoDocument()
    ensures IsLoneQuote([QUOTE]) && !IsDocument([QUOTE])
  {
    DocumentIffParsed([QUOTE]);
    JsonSkip.LoneQuoteReadsNothing([QUOTE], 0);
  }
}
