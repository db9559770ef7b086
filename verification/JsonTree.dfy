/**
 JSON text as a tree. The parser here is the specification: the recursive masker and the iterative
 skipper of json_stream.go are both proved to stop exactly where it stops.
 */
module JsonTree {
  import opened Bytes
  import opened Options
  import opened JsonLex
  import opened JsonNumber
  import opened JsonString
  import Utf8

  /** A parsed value. Strings keep their token and objects their members in document order, repeats included. */
  datatype Node =
    | Null
    | Bool(b: bool)
    | Number(text: bytes)
    | String(token: bytes)
    | Array(items: seq<Node>)
    | Object(members: seq<Member>)

  datatype Member = Member(key: bytes, value: Node)

  datatype Parsed<+T> = NoParse | Parsed(value: T, end: nat)

  const TRUE: bytes := [0x74, 0x72, 0x75, 0x65]
  const FALSE: bytes := [0x66, 0x61, 0x6C, 0x73, 0x65]
  const NULL: bytes := [0x6E, 0x75, 0x6C, 0x6C]

  /** A byte that keeps a string token from being taken as it lies. */
  predicate NeedsUnmarshal(body: bytes) {
    exists k :: 0 <= k < |body| && (body[k] == BACKSLASH || body[k] < 0x20)
  }

  /** streamJSONStringText: the text of a token, decoded only when it holds an escape. */
  function TokenText(token: bytes): Option<bytes> {
    if !IsDelimited(token) then None
    else if NeedsUnmarshal(Body(token)) then Unmarshal(token)
    else Some(Body(token))
  }

  function PrimitiveNode(token: bytes): Option<Node> {
    if token == TRUE then Some(Bool(true))
    else if token == FALSE then Some(Bool(false))
    else if token == NULL then Some(Null)
    else if Accepts(token) then Some(Number(token))
    else None
  }

  function ParseString(d: bytes, p: nat): (r: Parsed<Node>)
    requires p < |d|
    ensures r.Parsed? ==> p + 2 <= r.end <= |d|
  {
    var e := StringEnd(d, p);
    if Unmarshal(d[p..e]).Some? then Parsed(String(d[p..e]), e) else NoParse
  }

  function ParsePrimitive(d: bytes, p: nat): (r: Parsed<Node>)
    requires p < |d|
    ensures r.Parsed? ==> p < r.end <= |d|
  {
    var e := PrimitiveEnd(d, p);
    match PrimitiveNode(d[p..e])
    case None => NoParse
    case Some(n) => assert e > p; Parsed(n, e)
  }

  /** One value, with the white space before it. */
  function ParseValue(d: bytes, i: nat): (r: Parsed<Node>)
    requires i <= |d|
    ensures r.Parsed? ==> SpaceEnd(d, i) < r.end <= |d|
    decreases |d| - i, 1
  {
    var p := SpaceEnd(d, i);
    if p == |d| then NoParse
    else if d[p] == QUOTE then ParseString(d, p)
    else if d[p] == LBRACE then
      var q := SpaceEnd(d, p + 1);
      if q < |d| && d[q] == RBRACE then Parsed(Object([]), q + 1)
      else match ParseMembers(d, q)
        case NoParse => NoParse
        case Parsed(ms, e) => Parsed(Object(ms), e)
    else if d[p] == LBRACKET then
      var q := SpaceEnd(d, p + 1);
      if q < |d| && d[q] == RBRACKET then Parsed(Array([]), q + 1)
      else match ParseItems(d, q)
        case NoParse => NoParse
        case Parsed(vs, e) => Parsed(Array(vs), e)
    else ParsePrimitive(d, p)
  }

  /** The key at q and the colon after it: the key's text and where its value may start. */
  function ParseKey(d: bytes, q: nat): (r: Parsed<bytes>)
    requires q <= |d|
    ensures r.Parsed? ==> q < r.end <= |d|
  {
    if q == |d| || d[q] != QUOTE then NoParse
    else
      var e := StringEnd(d, q);
      if Unmarshal(d[q..e]).None? then NoParse
      else
        var c := SpaceEnd(d, e);
        if c == |d| || d[c] != COLON then NoParse
        else Parsed(KeyText(d[q..e]), c + 1)
  }

  /** The text of a key token. */
  function KeyText(token: bytes): bytes {
    match TokenText(token)
    case None => []
    case Some(t) => t
  }

  /** Members from q on, up to and including the closing brace. */
  function ParseMembers(d: bytes, q: nat): (r: Parsed<seq<Member>>)
    requires q <= |d|
    ensures r.Parsed? ==> q < r.end <= |d| && r.value != []
    decreases |d| - q, 2
  {
    match ParseKey(d, q)
    case NoParse => NoParse
    case Parsed(key, v) =>
      match ParseValue(d, v)
      case NoParse => NoParse
      case Parsed(n, e) => MoreMembers(d, e, Member(key, n))
  }

  /** What follows a member that ended at e. */
  function MoreMembers(d: bytes, e: nat, m: Member): (r: Parsed<seq<Member>>)
    requires e <= |d|
    ensures r.Parsed? ==> e < r.end <= |d| && r.value != []
    decreases |d| - e, 3
  {
    var s := SpaceEnd(d, e);
    if s == |d| then NoParse
    else if d[s] == RBRACE then Parsed([m], s + 1)
    else if d[s] == COMMA then
      match ParseMembers(d, SpaceEnd(d, s + 1))
      case NoParse => NoParse
      case Parsed(ms, end) => Parsed([m] + ms, end)
    else NoParse
  }

  /** Elements from q on, up to and including the closing bracket. */
  function ParseItems(d: bytes, q: nat): (r: Parsed<seq<Node>>)
    requires q <= |d|
    ensures r.Parsed? ==> q < r.end <= |d| && r.value != []
    decreases |d| - q, 2
  {
    match ParseValue(d, q)
    case NoParse => NoParse
    case Parsed(n, e) => MoreItems(d, e, n)
  }

  function MoreItems(d: bytes, e: nat, n: Node): (r: Parsed<seq<Node>>)
    requires e <= |d|
    ensures r.Parsed? ==> e < r.end <= |d| && r.value != []
    decreases |d| - e, 3
  {
    var s := SpaceEnd(d, e);
    if s == |d| then NoParse
    else if d[s] == RBRACKET then Parsed([n], s + 1)
    else if d[s] == COMMA then
      match ParseItems(d, SpaceEnd(d, s + 1))
      case NoParse => NoParse
      case Parsed(ns, end) => Parsed([n] + ns, end)
    else NoParse
  }

  /** A whole document: one value and white space around it. */
  function ParseDocument(d: bytes): Option<Node> {
    match ParseValue(d, 0)
    case NoParse => None
    case Parsed(n, e) => if SpaceEnd(d, e) == |d| then Some(n) else None
  }

  function Prepend<T>(x: T, p: Parsed<seq<T>>): Parsed<seq<T>> {
    match p
    case NoParse => NoParse
    case Parsed(xs, e) => Parsed([x] + xs, e)
  }

  /** The members at q, one member at a time. */
  lemma MembersStep(d: bytes, q: nat)
    requires q <= |d|
    ensures ParseMembers(d, q) ==
      if ParseKey(d, q).NoParse? || ParseValue(d, ParseKey(d, q).end).NoParse? then NoParse
      else MoreMembers(d, ParseValue(d, ParseKey(d, q).end).end,
                       Member(ParseKey(d, q).value, ParseValue(d, ParseKey(d, q).end).value))
  {
    hide ParseValue, ParseKey, MoreMembers;
  }

  lemma MoreMembersStep(d: bytes, e: nat, m: Member)
    requires e <= |d|
    ensures var s := SpaceEnd(d, e);
      MoreMembers(d, e, m) ==
        if s == |d| then NoParse
        else if d[s] == RBRACE then Parsed([m], s + 1)
        else if d[s] != COMMA then NoParse
        else Prepend(m, ParseMembers(d, SpaceEnd(d, s + 1)))
  {
    hide ParseMembers, SpaceEnd;
  }

  /** The elements at q, one element at a time. */
  lemma ItemsStep(d: bytes, q: nat)
    requires q <= |d|
    ensures ParseItems(d, q) ==
      if ParseValue(d, q).NoParse? then NoParse
      else MoreItems(d, ParseValue(d, q).end, ParseValue(d, q).value)
  {
    hide ParseValue, MoreItems;
  }

  lemma MoreItemsStep(d: bytes, e: nat, n: Node)
    requires e <= |d|
    ensures var s := SpaceEnd(d, e);
      MoreItems(d, e, n) ==
        if s == |d| then NoParse
        else if d[s] == RBRACKET then Parsed([n], s + 1)
        else if d[s] != COMMA then NoParse
        else Prepend(n, ParseItems(d, SpaceEnd(d, s + 1)))
  {
    hide ParseItems, SpaceEnd;
  }

  /** The object or array whose bracket stands at p. */
  function ParseObject(d: bytes, p: nat): Parsed<Node>
    requires p < |d|
  {
    var q := SpaceEnd(d, p + 1);
    if q < |d| && d[q] == RBRACE then Parsed(Object([]), q + 1)
    else match ParseMembers(d, q)
      case NoParse => NoParse
      case Parsed(ms, e) => Parsed(Object(ms), e)
  }

  function ParseArray(d: bytes, p: nat): Parsed<Node>
    requires p < |d|
  {
    var q := SpaceEnd(d, p + 1);
    if q < |d| && d[q] == RBRACKET then Parsed(Array([]), q + 1)
    else match ParseItems(d, q)
      case NoParse => NoParse
      case Parsed(vs, e) => Parsed(Array(vs), e)
  }

  /** The value at i, by its first byte past the white space. */
  lemma ValueStep(d: bytes, i: nat)
    requires i <= |d|
    ensures var p := SpaceEnd(d, i);
      ParseValue(d, i) ==
        if p == |d| then NoParse
        else if d[p] == QUOTE then ParseString(d, p)
        else if d[p] == LBRACE then ParseObject(d, p)
        else if d[p] == LBRACKET then ParseArray(d, p)
        else ParsePrimitive(d, p)
  {
    hide SpaceEnd, ParseMembers, ParseItems, ParseString, ParsePrimitive;
  }

  /** Parsing starts by skipping white space, so starting past it changes nothing. */
  lemma ParseFromSpaceEnd(d: bytes, i: nat)
    requires i <= |d|
    ensures ParseValue(d, SpaceEnd(d, i)) == ParseValue(d, i)
  {
    hide ParseValue, ParseObject, ParseArray, ParseString, ParsePrimitive, SpaceEnd;
    SpaceEndIs(d, SpaceEnd(d, i), SpaceEnd(d, i));
    ValueStep(d, i);
    ValueStep(d, SpaceEnd(d, i));
  }

  /** For a scanned token, its text exists exactly when encoding/json accepts the token. */
  lemma TokenTextIffUnmarshal(d: bytes, p: nat)
    requires p < |d| && d[p] == QUOTE
    ensures var token := d[p..StringEnd(d, p)]; TokenText(token).Some? <==> Unmarshal(token).Some?
  {
    var token := d[p..StringEnd(d, p)];
    if IsDelimited(token) && !NeedsUnmarshal(Body(token)) {
      var body := Body(token);
      ScannedBody(d, p);
      PlainBodyReads(body);
    }
  }

  /** A scanned token without a backslash holds no quote inside. */
  lemma ScannedBody(d: bytes, p: nat)
    requires p < |d| && d[p] == QUOTE
    ensures var token := d[p..StringEnd(d, p)];
      IsDelimited(token) && BACKSLASH !in Body(token) ==> QUOTE !in Body(token)
  {
    var e := StringEnd(d, p);
    var token := d[p..e];
    if IsDelimited(token) && BACKSLASH !in Body(token) {
      forall k | p + 1 <= k < e - 1 ensures d[k] != BACKSLASH {
        assert d[k] == Body(token)[k - p - 1];
      }
      NoInnerQuote(d, p + 1);
      forall k | 0 <= k < |Body(token)| ensures Body(token)[k] != QUOTE {
        assert Body(token)[k] == d[p + 1 + k];
      }
    }
  }

  lemma {:induction false} PlainBodyReads(b: bytes)
    requires !NeedsUnmarshal(b) && QUOTE !in b
    ensures Unescape(b).Some?
    decreases |b|
  {
    UnescapeIffGrammar(b);
    if b != [] {
      assert b[0] in b;
      assert forall k :: 0 <= k < |b[1..]| ==> b[1..][k] == b[k + 1];
      PlainBodyReads(b[1..]);
      UnescapeIffGrammar(b[1..]);
      assert b[0] >= 0x20 && b[0] != BACKSLASH;
    }
  }

  /** On valid UTF-8 without escapes, the text taken as it lies is what decoding gives. */
  lemma {:induction false} PlainBodyIsItself(b: bytes)
    requires !NeedsUnmarshal(b) && QUOTE !in b && Utf8.Valid(b)
    ensures Unescape(b) == Some(b)
    decreases |b|
  {
    if b != [] {
      assert b[0] in b && b[0] >= 0x20 && b[0] != BACKSLASH;
      var size := Utf8.DecodeRune(b).size;
      var tail := b[size..];
      assert forall k :: 0 <= k < |tail| ==> tail[k] == b[k + size];
      PlainBodyIsItself(tail);
      assert b == b[..size] + tail;
    }
  }
}
