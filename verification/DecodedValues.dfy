/**
 A Go value that encoding/json decoded from a document is masked as the document is. This ties the two halves of the
 masker together: the walk of maps and slices on one side, the walk of JSON text on the other.
 */
module DecodedValues {
  import opened Bytes
  import opened Options
  import opened Settings
  import opened SortedMap
  import opened JsonOut
  import opened MaskSpec
  import opened Meaning
  import opened DomMeaning
  import opened DomAgreement
  import opened ValueGraph
  import opened ValueSteps
  import opened Unfolding
  import opened MaskValue
  import opened MaskJson
  import TE = TreeEncoder
  import VT = ValidText
  import G = JsonGrammar
  import N = JsonNumber
  import T = JsonTree
  import D = Detect
  import DP = DetectPatterns
  import Q = UrlQuery
  import Utf8

  /** t is j as Go values: nil, booleans, strings, json.Number, slices, and maps in the order they are iterated. */
  ghost predicate Represents(t: Tree, j: Json)
    decreases j
  {
    match (t, j)
    case (Leaf(Nil), Null) => true
    case (Leaf(Bool(b)), Bool(c)) => b == c
    case (Leaf(JsonNumber(x)), Number(y)) => x == y
    case (Leaf(Text(x)), String(y)) => x == y
    case (Listing(ts), Array(js)) => |ts| == |js| && forall k :: 0 <= k < |js| ==> Represents(ts[k], js[k])
    case (Mapping(ts), Object(es)) =>
      |ts| == |es| && forall k :: 0 <= k < |es| ==> ts[k].key == es[k].key && Represents(ts[k].value, es[k].value)
    case _ => false
  }

  /** Both sides put the same kind and the same text to policies and rules. */
  lemma SameQuestion(t: Tree, j: Json)
    requires Represents(t, j) && TextsValid(j)
    ensures TreeKind(t) == KindOfTree(j) && TreeScalar(t) == TreeText(j)
    ensures j.String? ==> !BadLeaf(t)
    ensures !j.Number? ==> !BadLeaf(t)
  {
  }

  /** An integer is asked about as the number with its text. */
  lemma IntegerIsNumber(x: bytes)
    ensures KindOfValue(Integer(x)) == KindOfTree(Number(x)) && ScalarText(Integer(x)) == TreeText(Number(x))
  {
  }

  /** A number is ASCII text. */
  lemma NumberIsValid(x: bytes)
    requires N.Accepts(x)
    ensures Utf8.Valid(x)
  {
    hide N.Accepts, N.IsNumber, Utf8.Valid;
    N.AcceptsIffNumber(x);
    G.NumberTokenBytes(x);
    Utf8.AsciiIsValid(x);
  }

  /** A policy that decides alike wherever a field comes from. */
  ghost predicate SourceBlind(cfg: Config) {
    forall f: Field, s: Source :: cfg.policy(f) == cfg.policy(f.(source := s))
  }

  lemma SameAnswer(cfg: Config, text: bytes, f: Field, path: bytes)
    requires PathsHonest(cfg) && SourceBlind(cfg) && (cfg.needPaths ==> f.path == path)
    ensures Chosen(cfg, text, f) == Chosen(cfg, text, Field(f.key, path, JSONSource, f.kind))
  {
    hide PathsHonest, ApplyRule;
    SameChoice(cfg, text, f, path);
    var g := f.(path := path);
    assert cfg.policy(g) == cfg.policy(g.(source := JSONSource));
  }

  /* ---------- inspection does not look at the source ---------- */

  lemma {:induction false} PairsIgnore(cfg: Config, ps: seq<Q.Pair>, f: Field, g: Field, depth: nat)
    requires depth <= cfg.maxDepth && f.path == g.path
    ensures MeanPairs(cfg, ps, f, depth) == MeanPairs(cfg, ps, g, depth)
    decreases |ps|
  {
    hide MemberDecision, MeanInspect;
    if ps != [] {
      var k := |ps| - 1;
      PairsIgnore(cfg, ps[..k], f, g, depth);
      assert MeanPair(cfg, ps[k], f, depth) == MeanPair(cfg, ps[k], g, depth);
    }
  }

  lemma {:induction false} EditsIgnore(cfg: Config, s: bytes, pairs: seq<DP.Pair>, f: Field, g: Field, depth: nat)
    requires (forall p :: p in pairs ==> D.WellShaped(p, |s|)) && f.path == g.path
    ensures MeanEdits(cfg, s, pairs, f, depth) == MeanEdits(cfg, s, pairs, g, depth)
    decreases |pairs|
  {
    hide MemberDecision;
    if pairs != [] {
      var k := |pairs| - 1;
      EditsIgnore(cfg, s, pairs[..k], f, g, depth);
      assert pairs[k] in pairs;
    }
  }

  lemma TextIgnores(cfg: Config, s: bytes, f: Field, g: Field, depth: nat)
    requires f.path == g.path
    ensures MeanText(cfg, s, f, depth) == MeanText(cfg, s, g, depth)
  {
    hide MeanEdits, D.Found;
    D.FoundInOrder(s, cfg.detectors);
    EditsIgnore(cfg, s, D.Found(s, cfg.detectors).pairs, f, g, depth);
  }

  lemma QueryIgnores(cfg: Config, raw: bytes, f: Field, g: Field, depth: nat)
    requires depth <= cfg.maxDepth && f.path == g.path
    ensures MeanQuery(cfg, raw, f, depth) == MeanQuery(cfg, raw, g, depth)
    ensures MeanForm(cfg, raw, f, depth) == MeanForm(cfg, raw, g, depth)
  {
    hide MeanPairs, Q.Pairs, Q.StableSort, Q.Render;
    if Q.Pairs(raw).Some? { PairsIgnore(cfg, Q.StableSort(Q.Pairs(raw).value), f, g, depth); }
  }

  /** A string is inspected by its key and path alone. */
  lemma InspectIgnores(cfg: Config, s: bytes, f: Field, g: Field, depth: nat)
    requires depth <= cfg.maxDepth && f.path == g.path && f.key == g.key
    ensures MeanInspect(cfg, s, f, depth) == MeanInspect(cfg, s, g, depth)
  {
    hide MeanText, MeanQuery, MeanForm, Mean, T.ParseDocument, IsUrl, IsForm, UrlResult, D.Found;
    TextIgnores(cfg, s, f, g, depth);
    QueryIgnores(cfg, s, f, g, depth);
    if IsUrl(cfg, s) { UrlIgnores(cfg, s, f, g, depth); }
  }

  lemma UrlIgnores(cfg: Config, s: bytes, f: Field, g: Field, depth: nat)
    requires depth <= cfg.maxDepth && f.path == g.path && IsUrl(cfg, s)
    ensures MeanUrl(cfg, s, cfg.parseUrl(s).value, f, depth) == MeanUrl(cfg, s, cfg.parseUrl(s).value, g, depth)
  {
    hide MeanText, MeanQuery, UrlResult, D.Found, Veiled, HasVeil;
    var url := cfg.parseUrl(s).value;
    TextIgnores(cfg, cfg.escapedPath(url), f, g, depth);
    QueryIgnores(cfg, url.rawQuery, f, g, depth);
  }

  lemma StringIgnores(cfg: Config, s: bytes, f: Field, g: Field, depth: nat)
    requires depth <= cfg.maxDepth && f.path == g.path && f.key == g.key
    ensures MeanString(cfg, s, s, f, depth) == MeanString(cfg, s, s, g, depth)
  {
    hide MeanInspect, Inspectable;
    InspectIgnores(cfg, s, f, g, depth);
  }

  /* ---------- trees ---------- */

  /** The same outcome at the same cost, but for the order of the members of an object. */
  predicate Alike(a: Sense<Out>, b: Sense<Out>) { Covers(a, b) && Differs(a, b, Extra(0)) }

  lemma AlikeIs(a: Sense<Out>, b: Sense<Out>)
    ensures Alike(a, b) <==> (a.Means? <==> b.Means?) && (a.Means? ==> a.cost == b.cost && a.value == CanonOut(b.value))
  {
    hide CanonOut;
  }

  ghost predicate Decodable(j: Json) { TextsValid(j) && NumbersValid(j) && TE.IsMapTree(j) }

  /** A tree of Go values means what the decoded tree means, at the same price. */
  lemma {:induction false} TreeMeansJson(cfg: Config, t: Tree, j: Json, field: Field, here: bytes, depth: nat)
    requires PathsHonest(cfg) && SourceBlind(cfg) && Represents(t, j) && Decodable(j) && Utf8.Valid(field.key)
    requires here != [] && field.path in {[], here}
    ensures Alike(MeanUnfolded(cfg, t, field, here, depth), MeanTree(cfg, j, field.key, here, depth))
    decreases j, 1
  {
    hide Chosen, Represents, Decodable, MeanUnfoldedShape, MeanTreeShape, Canon, TreeScalar, TreeText, BadLeaf, Utf8.Valid,
      PathsHonest, SourceBlind;
    NoBadLeaf(t, j);
    var f := Seen(cfg, field, TreeKind(t), here);
    SameAnswer(cfg, TreeScalar(t), f, here);
    ChosenIsCanon(cfg, TreeScalar(t), f);
    if depth <= cfg.maxDepth { TreeShapesAlike(cfg, t, j, f, here, depth); }
  }

  lemma NoBadLeaf(t: Tree, j: Json)
    requires Represents(t, j) && Decodable(j)
    ensures TreeKind(t) == KindOfTree(j) && TreeScalar(t) == TreeText(j) && !BadLeaf(t)
  {
    hide Utf8.Valid, N.Accepts;
    SameQuestion(t, j);
    if j.Number? { NumberIsValid(j.text); }
  }

  lemma {:induction false} TreeShapesAlike(cfg: Config, t: Tree, j: Json, f: Field, here: bytes, depth: nat)
    requires PathsHonest(cfg) && SourceBlind(cfg) && Represents(t, j) && Decodable(j) && depth <= cfg.maxDepth
    requires here != [] && f.path in {[], here}
    ensures Alike(MeanUnfoldedShape(cfg, t, f, here, depth), MeanTreeShape(cfg, j, TreeField(j, f.key, here), depth))
    decreases j, 0
  {
    hide MeanUnfolded, MeanTree, MeanString, Listed, Gathered, Collected, Alike, SortEntries, CanonEntries,
      MeanTrees, MeanEntries, Utf8.Valid, N.Accepts, DistinctKeys, PathsHonest, SourceBlind;
    match j
    case Null => ScalarsAlike(Null);
    case Bool(b) => ScalarsAlike(BoolTree(cfg, b));
    case Number(x) => ScalarsAlike(Number(x));
    case String(s) =>
      StringIgnores(cfg, s, Located(f, here), TreeField(j, f.key, here), depth);
      SameAlike(cfg, s, TreeField(j, f.key, here), depth);
    case Array(js) => ListsAlike(cfg, t.items, js, f, here, depth);
    case Object(es) => MapsAlike(cfg, t.entries, es, f, here, depth);
  }

  lemma ScalarsAlike(tree: Json)
    requires !tree.Array? && !tree.Object?
    ensures Alike(Means(Kept(tree), false, 0), Means(Kept(tree), false, 0))
  {
  }

  lemma SameAlike(cfg: Config, s: bytes, f: Field, depth: nat)
    requires depth <= cfg.maxDepth
    ensures Alike(MeanString(cfg, s, s, f, depth), MeanString(cfg, s, s, f, depth))
  {
    hide MeanString;
    StringIsCanon(cfg, s, s, f, depth);
  }

  ghost function MeanListing(cfg: Config, ts: seq<Tree>, f: Field, here: bytes, depth: nat): (r: seq<Sense<Out>>)
    ensures |r| == |ts|
  {
    seq(|ts|, i requires 0 <= i < |ts| => MeanUnfolded(cfg, ts[i], EntryField(f, []), PathForIndex(here, i), depth + 1))
  }

  ghost function MeanMapping(cfg: Config, ts: seq<Entry<Tree>>, f: Field, here: bytes, depth: nat): (r: seq<Entry<Sense<Out>>>)
    ensures |r| == |ts|
  {
    seq(|ts|, i requires 0 <= i < |ts| =>
      Entry(ts[i].key, MeanUnfolded(cfg, ts[i].value, EntryField(f, ts[i].key), PathFor(here, ts[i].key), depth + 1)))
  }

  lemma NoExtrasOf(n: nat) returns (xs: seq<Extra>)
    ensures |xs| == n && (forall k :: 0 <= k < n ==> xs[k] == Extra(0)) && TotalExtra(xs) == Extra(0)
  {
    xs := seq(n, i => Extra(0));
    NoExtras(xs);
  }

  lemma {:induction false} ListsAlike(cfg: Config, ts: seq<Tree>, js: seq<Json>, f: Field, here: bytes, depth: nat)
    requires PathsHonest(cfg) && SourceBlind(cfg) && depth <= cfg.maxDepth && |ts| == |js|
    requires forall k :: 0 <= k < |js| ==> Represents(ts[k], js[k]) && Decodable(js[k])
    ensures Alike(ListOut(Listed(MeanListing(cfg, ts, f, here, depth))), ListOut(Listed(MeanTrees(cfg, js, here, depth))))
    decreases js
  {
    hide MeanUnfolded, MeanTree, Represents, Decodable, Listed, Covers, Differs, PathsHonest, SourceBlind, Utf8.Valid;
    var a, b := MeanListing(cfg, ts, f, here, depth), MeanTrees(cfg, js, here, depth);
    var xs := NoExtrasOf(|js|);
    VT.NothingIsValid();
    forall k | 0 <= k < |js| ensures Covers(a[k], b[k]) && Differs(a[k], b[k], xs[k]) {
      TreeMeansJson(cfg, ts[k], js[k], EntryField(f, []), PathForIndex(here, k), depth + 1);
    }
    assert EachCovers(a, b) && EachDiffers(a, b, xs);
    ArraysAgree(a, b);
  }

  lemma {:induction false} MapsAlike(cfg: Config, ts: seq<Entry<Tree>>, es: seq<Entry<Json>>, f: Field, here: bytes, depth: nat)
    requires PathsHonest(cfg) && SourceBlind(cfg) && depth <= cfg.maxDepth && |ts| == |es| && DistinctKeys(es)
    requires forall k :: 0 <= k < |es| ==>
      ts[k].key == es[k].key && Utf8.Valid(es[k].key) && Represents(ts[k].value, es[k].value) && Decodable(es[k].value)
    ensures Alike(ObjectOut(Gathered(MeanMapping(cfg, ts, f, here, depth))),
                  ObjectOut(Collected(MeanEntries(cfg, es, here, depth))))
    decreases es
  {
    hide MeanUnfolded, MeanTree, Represents, Decodable, Gathered, Collected, Covers, Differs, PathsHonest, SourceBlind,
      Utf8.Valid, LastWith, Get, IsHidden;
    var a, b := MeanMapping(cfg, ts, f, here, depth), MeanEntries(cfg, es, here, depth);
    var xs := NoExtrasOf(|es|);
    forall k | 0 <= k < |es| ensures a[k].key == b[k].key && Covers(a[k].value, b[k].value) && Differs(a[k].value, b[k].value, xs[k]) {
      TreeMeansJson(cfg, ts[k].value, es[k].value, EntryField(f, es[k].key), PathFor(here, es[k].key), depth + 1);
    }
    KeyedSame(a, b, xs);
    ObjectsAgree(a, b);
  }

  /** Lists with the same distinct keys in the same order are alike if their entries are. */
  lemma KeyedSame(a: seq<Entry<Sense<Out>>>, b: seq<Entry<Sense<Out>>>, xs: seq<Extra>)
    requires |a| == |b| == |xs| && DistinctKeys(b)
    requires forall k :: 0 <= k < |b| ==>
      a[k].key == b[k].key && Covers(a[k].value, b[k].value) && Differs(a[k].value, b[k].value, xs[k])
    ensures KeyedAlike(a, b) && AllCover(a, b) && AllDiffer(a, b, xs)
  {
    hide Covers, Differs, LastWith, Get;
    forall key ensures LastWith(a, key).Some? <==> Get(b, key).Some? {
      LastIffKey(a, key);
      LastIffKey(b, key);
      LastIsOnly(b, key);
      SameKeys(a, b, key);
    }
    forall k | 0 <= k < |b|
      ensures LastWith(a, b[k].key) == Some(a[k].value) && Get(b, a[k].key) == Some(b[k].value) && !IsHidden(a, k)
    {
      LastOfKey(a, k);
      LastOfKey(b, k);
      LastIsOnly(b, b[k].key);
    }
  }

  lemma SameKeys(a: seq<Entry<Sense<Out>>>, b: seq<Entry<Sense<Out>>>, key: bytes)
    requires |a| == |b| && forall k :: 0 <= k < |b| ==> a[k].key == b[k].key
    ensures HasKey(a, key) <==> HasKey(b, key)
  {
    if HasKey(a, key) {
      var k :| 0 <= k < |a| && a[k].key == key;
      assert b[k].key == key;
    }
    if HasKey(b, key) {
      var k :| 0 <= k < |b| && b[k].key == key;
      assert a[k].key == key;
    }
  }
}
