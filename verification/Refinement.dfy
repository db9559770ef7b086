/**
 The streaming masker against the reference masker: what MaskJSON writes is what decoding the document, masking
 the tree and encoding it again would write.
 */
module Refinement {
  import opened Bytes
  import opened Options
  import opened Settings
  import opened SortedMap
  import opened JsonOut
  import opened MaskSpec
  import opened Meaning
  import opened DomMeaning
  import opened DomAgreement
  import opened LimitProtocol
  import opened CleanRuns
  import opened StreamState
  import opened MaskJson
  import DW = DomWalker
  import TE = TreeEncoder
  import VT = ValidText
  import T = JsonTree
  import G = JsonGrammar
  import JS = JsonString
  import N = JsonNumber
  import Utf8

  /* ---------- the streaming side ---------- */

  ghost function StreamMeaning(cfg: Config, n: T.Node): Sense<Out> { Mean(cfg, n, DocumentField(), ROOT, 0) }

  /** MaskJSON succeeds exactly on a document, or a lone quote, that means something within the limits. */
  lemma StreamSucceeds(cfg: Config, src: bytes)
    requires |src| <= cfg.maxInputBytes && Utf8.Valid(src)
    requires T.ParseDocument(src).Some? || LoneRoot(cfg, src)
    ensures var m := StreamMeaning(cfg, RootNode(src));
      && (Masking(cfg, src).errs == [] <==> m.Means? && m.cost <= cfg.maxNodes)
      && (Masking(cfg, src).errs == [] ==> Masking(cfg, src).text == RootText(m.value))
  {
    hide Walk, Mean, T.ParseDocument, LoneRoot, RootNode, Utf8.Valid, Encode, Lawful;
    FreshIsLawful(cfg);
    WalkMeans(cfg, RootNode(src), DocumentField(), ROOT, 0, FRESH);
    WalkSteps(cfg, RootNode(src), DocumentField(), ROOT, 0, FRESH);
    StoppedHasErrors(cfg, RootWalk(cfg, RootNode(src)).run.st);
  }

  lemma FreshIsLawful(cfg: Config)
    ensures Lawful(cfg, FRESH.st)
  {
  }

  lemma StoppedHasErrors(cfg: Config, st: State)
    ensures Lawful(cfg, st) && st.stop ==> st.errs != []
  {
  }

  /* ---------- the reference side ---------- */

  ghost function DomMeaningOf(cfg: Config, j: Json): Sense<Out> { MeanTree(cfg, j, [], ROOT, 0) }

  /** An omitted root is null. */
  function RootTree(out: Out): Json {
    match out
    case Omitted => Null
    case Kept(tree) => tree
  }

  /** decoded is what encoding/json makes of the document, if it is one. */
  ghost predicate IsDecoding(src: bytes, decoded: Option<Json>) {
    match T.ParseDocument(src)
    case None => decoded.None?
    case Some(n) => decoded.Some? && Decodes(n, decoded.value)
  }

  /** maskJSONDOM, from the decoded tree on. */
  method MaskJSONDOM(cfg: Config, src: bytes, decoded: Option<Json>) returns (result: Outcome)
    requires Utf8.Valid(src) && IsDecoding(src, decoded)
    ensures decoded.None? ==> result == Failed(cfg, [DocumentError(cfg, InvalidJSON)])
    ensures decoded.Some? ==>
      var m := DomMeaningOf(cfg, decoded.value);
      && (result.errs == [] <==> m.Means? && m.cost <= cfg.maxNodes)
      && (result.errs == [] ==> result.text == Encode(Canon(RootTree(m.value))))
  {
    hide MeanTree, Encode, Canon, T.ParseDocument, Lawful, Step, Decodes, Utf8.Valid, Sound, NumbersValid, TE.IsMapTree;
    if decoded.None? {
      return Failed(cfg, [DocumentError(cfg, InvalidJSON)]);
    }
    DecodedSound(src, decoded.value);
    FreshIsLawful(cfg);
    var budget := new Budget(0, []);
    var walker := new DW.JsonWalker(cfg, budget);
    var masked := walker.Walk(decoded.value, TreeField(decoded.value, [], ROOT), 0);
    StepLawful(cfg, FRESH.st, budget.St());
    StoppedHasErrors(cfg, budget.St());
    if |budget.errs| > 0 {
      return Failed(cfg, budget.errs);
    }
    MeanTreeSound(cfg, decoded.value, [], ROOT, 0);
    RootSound(masked);
    var text, ok := TE.EncodeJSONTree(RootTree(masked));
    // Every number came from the document, so the encoder takes it.
    assert ok;
    result := Outcome(text, []);
  }

  /** A tree the encoder takes: its numbers are numbers and its objects maps. */
  ghost predicate Sound(j: Json) { NumbersValid(j) && TE.IsMapTree(j) }

  lemma RootSound(out: Out)
    requires out.Kept? ==> Sound(out.tree)
    ensures NumbersValid(RootTree(out)) && TE.IsMapTree(RootTree(out))
  {
  }

  lemma DecodedSound(src: bytes, j: Json)
    requires Utf8.Valid(src) && T.ParseDocument(src).Some? && Decodes(T.ParseDocument(src).value, j)
    ensures Sound(j)
  {
    hide Sound, Decodes, T.ParseDocument, Utf8.Valid;
    VT.DocumentFaithful(src);
    DecodesSound(T.ParseDocument(src).value, j);
  }

  lemma {:induction false} DecodesSound(n: T.Node, j: Json)
    requires Faithful(n) && Decodes(n, j)
    ensures Sound(j)
    decreases j
  {
    hide T.KeyText, TokenValue, LastWith, AsEntries, N.Accepts;
    match j
    case Array(js) =>
      forall k | 0 <= k < |js| ensures Sound(js[k]) { DecodesSound(n.items[k], js[k]); }
    case Object(es) =>
      forall k | 0 <= k < |es| ensures Sound(es[k].value) {
        var i := LastIsMember(AsEntries(n.members), es[k].key);
        EntryOf(n.members, i);
        DecodesSound(n.members[i].value, es[k].value);
      }
    case _ =>
  }

  lemma {:induction false} MeanTreeSound(cfg: Config, j: Json, key: bytes, path: bytes, depth: nat)
    requires Sound(j)
    ensures var m := MeanTree(cfg, j, key, path, depth); m.Means? && m.value.Kept? ==> Sound(m.value.tree)
    decreases j
  {
    hide MeanString, Chosen, TreeText, N.Accepts, MeanTrees, MeanEntries, Listed, Collected;
    ChosenIsText(cfg, TreeText(j), TreeField(j, key, path));
    if depth <= cfg.maxDepth {
      match j
      case String(s) => StringMeansString(cfg, s, s, TreeField(j, key, path), depth);
      case Array(items) =>
        forall k | 0 <= k < |items| ensures SoundSense(MeanTrees(cfg, items, path, depth)[k]) {
          DW.TreeSense(cfg, items, path, depth, k);
          MeanTreeSound(cfg, items[k], [], PathForIndex(path, k), depth + 1);
        }
        ListedSound(MeanTrees(cfg, items, path, depth));
      case Object(es) =>
        var senses := MeanEntries(cfg, es, path, depth);
        forall k | 0 <= k < |es| ensures senses[k].key == es[k].key && SoundSense(senses[k].value) {
          DW.EntrySense(cfg, es, path, depth, k);
          MeanTreeSound(cfg, es[k].value, es[k].key, PathFor(path, es[k].key), depth + 1);
        }
        CollectedSound(senses);
      case _ =>
    }
  }

  ghost predicate SoundSense(m: Sense<Out>) { m.Means? && m.value.Kept? ==> Sound(m.value.tree) }

  lemma ChosenIsText(cfg: Config, text: bytes, f: Field)
    ensures var c := Chosen(cfg, text, f); c.Chose? && c.out.Kept? ==> c.out.tree.String?
  {
    hide ApplyRule;
  }

  lemma StringMeansString(cfg: Config, text: bytes, value: bytes, f: Field, depth: nat)
    requires depth <= cfg.maxDepth
    ensures var m := MeanString(cfg, text, value, f, depth); m.Means? ==> m.value.Kept? && m.value.tree.String?
  {
    hide MeanInspect, Inspectable;
  }

  lemma {:induction false} ListedSound(senses: seq<Sense<Out>>)
    requires forall k :: 0 <= k < |senses| ==> SoundSense(senses[k])
    ensures Listed(senses).Means? ==> Sound(Array(Listed(senses).value))
    decreases |senses|
  {
    if senses != [] {
      ListedSound(senses[..|senses| - 1]);
    }
  }

  lemma {:induction false} CollectedSound(senses: seq<Entry<Sense<Out>>>)
    requires DistinctKeys(senses) && forall k :: 0 <= k < |senses| ==> SoundSense(senses[k].value)
    ensures Collected(senses).Means? ==> Sound(Object(Collected(senses).value))
    ensures Collected(senses).Means? ==>
      forall e :: e in Collected(senses).value ==> exists k :: 0 <= k < |senses| && senses[k].key == e.key
    decreases |senses|
  {
    if senses != [] {
      var k := |senses| - 1;
      CollectedSound(senses[..k]);
      if Collected(senses).Means? {
        var outs := Collected(senses[..k]).value;
        forall i | 0 <= i < |outs| ensures outs[i].key != senses[k].key {
          assert outs[i] in outs;
        }
      }
    }
  }

  /* ---------- the refinement ---------- */

  /**
   Whenever the streaming masker succeeds, so does the reference, and they write the same bytes, whatever order
   the maps are walked in. When no object repeats a key, they succeed on the same documents.
   */
  lemma StreamRefinesReference(cfg: Config, src: bytes, j: Json)
    requires |src| <= cfg.maxInputBytes && Utf8.Valid(src) && PathsHonest(cfg)
    requires T.ParseDocument(src).Some? && Decodes(T.ParseDocument(src).value, j)
    ensures var dom := DomMeaningOf(cfg, j);
      var stream := Masking(cfg, src);
      && (stream.errs == [] ==>
            dom.Means? && dom.cost <= cfg.maxNodes && stream.text == Encode(Canon(RootTree(dom.value))))
      && (NoRepeats(T.ParseDocument(src).value) ==>
            (stream.errs == [] <==> dom.Means? && dom.cost <= cfg.maxNodes))
  {
    hide Mean, MeanTree, Encode, Canon, T.ParseDocument, Utf8.Valid, Decodes, NoRepeats, Faithful, Masking, PathsHonest,
      Hidden;
    var n := T.ParseDocument(src).value;
    VT.DocumentFaithful(src);
    StreamSucceeds(cfg, src);
    TreesAgree(cfg, n, j, DocumentField(), ROOT, 0);
    if NoRepeats(n) { NoRepeatsHideNothing(cfg, n, DocumentField(), ROOT, 0); }
    NullIsCanon();
  }

  /** What the reference never sees of n, because a later duplicate hides it. */
  ghost function HiddenFrom(cfg: Config, n: T.Node): Extra { Hidden(cfg, n, DocumentField(), ROOT, 0) }

  /**
   Where the reference succeeds, the streaming masker succeeds exactly if no member that a later duplicate hides
   fails, and the nodes suffice for the hidden ones as well.
   */
  lemma HiddenDecides(cfg: Config, src: bytes, j: Json)
    requires |src| <= cfg.maxInputBytes && Utf8.Valid(src) && PathsHonest(cfg)
    requires T.ParseDocument(src).Some? && Decodes(T.ParseDocument(src).value, j)
    requires DomMeaningOf(cfg, j).Means? && DomMeaningOf(cfg, j).cost <= cfg.maxNodes
    ensures var hidden := HiddenFrom(cfg, T.ParseDocument(src).value);
      Masking(cfg, src).errs == [] <==> hidden.Extra? && DomMeaningOf(cfg, j).cost + hidden.cost <= cfg.maxNodes
  {
    hide Mean, MeanTree, T.ParseDocument, Utf8.Valid, Decodes, Faithful, Masking, PathsHonest, Hidden;
    var n := T.ParseDocument(src).value;
    VT.DocumentFaithful(src);
    StreamSucceeds(cfg, src);
    TreesAgree(cfg, n, j, DocumentField(), ROOT, 0);
  }

  /** The same for any input at all: only the lone quote is masked by one side and not by the other. */
  lemma MaskingMatchesReference(cfg: Config, src: bytes, decoded: Option<Json>)
    requires PathsHonest(cfg) && IsDecoding(src, decoded)
    ensures Masking(cfg, src).errs == [] && !G.IsLoneQuote(src) ==>
      && decoded.Some?
      && var dom := DomMeaningOf(cfg, decoded.value);
         dom.Means? && dom.cost <= cfg.maxNodes && Masking(cfg, src).text == Encode(Canon(RootTree(dom.value)))
    ensures
      (&& |src| <= cfg.maxInputBytes && Utf8.Valid(src) && !G.IsLoneQuote(src)
       && (decoded.Some? ==> NoRepeats(T.ParseDocument(src).value)))
      ==>
      (Masking(cfg, src).errs == [] <==>
        decoded.Some? && var dom := DomMeaningOf(cfg, decoded.value); dom.Means? && dom.cost <= cfg.maxNodes)
  {
    hide MeanTree, Encode, Canon, T.ParseDocument, Utf8.Valid, Decodes, NoRepeats, PathsHonest, RootWalk, G.IsLoneQuote;
    if |src| <= cfg.maxInputBytes && Utf8.Valid(src) && decoded.Some? {
      StreamRefinesReference(cfg, src, decoded.value);
    }
  }

  /** A lone quote is masked exactly if the policy omits it and one node is allowed, and then it becomes null. */
  lemma LoneQuoteMaskedIff(cfg: Config, src: bytes)
    requires G.IsLoneQuote(src)
    ensures T.ParseDocument(src).None?
    ensures Masking(cfg, src).errs == [] <==>
      && |src| <= cfg.maxInputBytes && cfg.maxNodes > 0
      && var decision := cfg.policy(Seen(cfg, DocumentField(), StringKind, ROOT)); decision.Decision? && decision.omit
    ensures Masking(cfg, src).errs == [] ==> Masking(cfg, src).text == T.NULL
  {
    hide T.ParseDocument, Mean, Utf8.Valid, RootWalk, Encode, RootNode;
    LoneQuoteParsesNot(src);
    if LoneRoot(cfg, src) && |src| <= cfg.maxInputBytes {
      StreamSucceeds(cfg, src);
      LoneMeans(cfg, src);
    }
  }

  lemma LoneQuoteParsesNot(src: bytes)
    requires G.IsLoneQuote(src)
    ensures T.ParseDocument(src).None? && Utf8.Valid(src)
  {
  }

  lemma LoneMeans(cfg: Config, src: bytes)
    requires T.ParseDocument(src).None?
    ensures var f := Seen(cfg, DocumentField(), StringKind, ROOT);
      match cfg.policy(f)
      case Decision(omit, _) => omit ==> StreamMeaning(cfg, RootNode(src)) == Means(Omitted, true, 1)
      case _ => StreamMeaning(cfg, RootNode(src)) == Fails
    ensures var m := StreamMeaning(cfg, RootNode(src)); m.Means? ==> m.cost > 0
  {
    hide T.ParseDocument, MeanShape;
  }

  lemma NullIsCanon()
    ensures Canon(Null) == Null && Encode(Null) == T.NULL
  {
  }

  /**
   The condition is needed: with a repeated key and room for two nodes only, the reference, which never sees
   the first value, succeeds where the streaming walk fails.
   */
  lemma RepeatsCost(cfg: Config, key: bytes)
    requires cfg.maxDepth == 1 && cfg.maxNodes == 2 && forall f: Field :: cfg.policy(f) == Decision(false, None)
    ensures var n := T.Object([T.Member(key, T.Null), T.Member(key, T.Null)]);
      var j := Object([Entry(key, Null)]);
      && Decodes(n, j) && !NoRepeats(n)
      && StreamMeaning(cfg, n).Means? && StreamMeaning(cfg, n).cost > cfg.maxNodes
      && DomMeaningOf(cfg, j).Means? && DomMeaningOf(cfg, j).cost <= cfg.maxNodes && DomMeaningOf(cfg, j).value == Kept(j)
  {
    hide Inspectable, MeanInspect, Gathered, Collected, MeanMembers, MeanEntries, Chosen, Decodes, NoRepeats;
    var ms, es := [T.Member(key, T.Null), T.Member(key, T.Null)], [Entry(key, Null)];
    RepeatedKey(key);
    NullMeans(cfg, MemberField(key), PathFor(ROOT, key), key, 1);
    MemberSense(cfg, ms, ROOT, 0, 0);
    MemberSense(cfg, ms, ROOT, 0, 1);
    DW.EntrySense(cfg, es, ROOT, 0, 0);
    TwoMembers(MeanMembers(cfg, ms, ROOT, 0));
    OneEntryCost(MeanEntries(cfg, es, ROOT, 0));
    AllOpen(cfg, [], Seen(cfg, DocumentField(), ObjectKind, ROOT));
    AllOpen(cfg, [], TreeField(Object(es), [], ROOT));
    var n, f := T.Object(ms), Seen(cfg, DocumentField(), ObjectKind, ROOT);
    assert MeanShape(cfg, n, f, ROOT, 0) == ObjectOut(Gathered(MeanMembers(cfg, ms, ROOT, 0)));
    assert StreamMeaning(cfg, n) == MeanShape(cfg, n, f, ROOT, 0).Costing(1);
    var j, g := Object(es), TreeField(Object(es), [], ROOT);
    assert MeanTreeShape(cfg, j, g, 0) == ObjectOut(Collected(MeanEntries(cfg, es, ROOT, 0)));
    assert DomMeaningOf(cfg, j) == MeanTreeShape(cfg, j, g, 0).Costing(1);
  }

  /** {"k":null,"k":null} */
  const REPEATED: bytes := [
    0x7B, 0x22, 0x6B, 0x22, 0x3A, 0x6E, 0x75, 0x6C, 0x6C, 0x2C, 0x22, 0x6B, 0x22, 0x3A, 0x6E, 0x75, 0x6C, 0x6C, 0x7D]

  const K: bytes := [0x6B]

  /** "k":null */
  const MEMBER: bytes := [0x22, 0x6B, 0x22, 0x3A, 0x6E, 0x75, 0x6C, 0x6C]

  lemma RepeatedIsAscii()
    ensures Utf8.Valid(REPEATED) && Utf8.Valid(K)
  {
    hide Utf8.Valid;
    Utf8.AsciiIsValid(REPEATED);
    Utf8.AsciiIsValid(K);
  }

  lemma MemberIs()
    ensures MemberText(K, Encode(Null)) == MEMBER
  {
    assert K[1..] == [];
    assert JS.Escape(K) == [0x6B];
  }

  lemma OneMember()
    ensures MembersBody([Entry(K, Null)]) == MEMBER
  {
    hide MemberText;
    MemberIs();
    var es := [Entry(K, Null)];
    assert es[..0] == [];
  }

  lemma MembersTogether(es: seq<Entry<Json>>, e: Entry<Json>)
    requires |es| == 1
    ensures MembersBody(es + [e]) == MembersBody(es) + [COMMA] + MemberText(e.key, Encode(e.value))
  {
    hide MemberText, Encode;
    assert (es + [e])[..1] == es;
  }

  lemma RepeatedText()
    ensures Encode(Object([Entry(K, Null), Entry(K, Null)])) == REPEATED
  {
    hide MembersBody, MemberText;
    OneMember();
    MemberIs();
    MembersTogether([Entry(K, Null)], Entry(K, Null));
    assert [Entry(K, Null)] + [Entry(K, Null)] == [Entry(K, Null), Entry(K, Null)];
    assert [LBRACE] + (MEMBER + [COMMA] + MEMBER) + [RBRACE] == REPEATED;
  }

  lemma RepeatedTree()
    ensures var j := Object([Entry(K, Null), Entry(K, Null)]); NumbersValid(j) && TextsValid(j)
  {
    RepeatedIsAscii();
    hide Utf8.Valid;
  }

  /** The document parses to an object with the key twice. */
  lemma RepeatedParses()
    ensures T.ParseDocument(REPEATED) == Some(T.Object([T.Member(K, T.Null), T.Member(K, T.Null)]))
  {
    hide T.ParseDocument, Encode, NumbersValid, TextsValid, SanitizedTree, Utf8.Valid;
    RepeatedText();
    RepeatedTree();
    var j := Object([Entry(K, Null), Entry(K, Null)]);
    EncodingReadsBack(j);
    var n := T.ParseDocument(REPEATED).value;
    assert Decoded(n) == j;
    assert n.Object? && |n.members| == 2;
    assert j.members[0] == Entry(n.members[0].key, Decoded(n.members[0].value));
    assert j.members[1] == Entry(n.members[1].key, Decoded(n.members[1].value));
    assert n.members == [T.Member(K, T.Null), T.Member(K, T.Null)];
  }

  /** On these bytes MaskJSON fails and the reference succeeds. */
  method RepeatsDiffer(cfg: Config) returns (stream: Outcome, dom: Outcome)
    requires cfg.maxDepth == 1 && cfg.maxNodes == 2 && |REPEATED| <= cfg.maxInputBytes
    requires forall f: Field :: cfg.policy(f) == Decision(false, None)
    ensures stream == Masking(cfg, REPEATED) && stream.errs != []
    ensures dom.errs == [] && dom.text == [LBRACE] + MEMBER + [RBRACE]
  {
    hide T.ParseDocument, Mean, MeanTree, Masking, Decodes, NoRepeats, Encode, Canon, Utf8.Valid, MembersBody;
    RepeatedIsAscii();
    RepeatedParses();
    OneMember();
    OneMemberCanon();
    RepeatsCost(cfg, K);
    StreamSucceeds(cfg, REPEATED);
    stream := MaskJSON(cfg, REPEATED);
    dom := MaskJSONDOM(cfg, REPEATED, Some(Object([Entry(K, Null)])));
  }

  lemma OneMemberCanon()
    ensures var j := Object([Entry(K, Null)]); Canon(j) == j && Encode(j) == [LBRACE] + MembersBody([Entry(K, Null)]) + [RBRACE]
  {
    hide MembersBody;
    var es := [Entry(K, Null)];
    assert CanonEntries(es) == es;
    assert es[1..] == [];
    assert SortEntries(es) == es;
  }

  lemma TwoMembers(senses: seq<Entry<Sense<Out>>>)
    requires |senses| == 2 && AllMean(senses) && senses[0].value.cost == senses[1].value.cost == 1
    ensures Gathered(senses).Means? && Gathered(senses).cost == 2
  {
    GatheredLookup(senses, []);
    assert senses[..1][..0] == [];
    assert TotalCost(senses[..1]) == 1;
  }

  lemma OneEntryCost(senses: seq<Entry<Sense<Out>>>)
    requires |senses| == 1 && AllMean(senses) && senses[0].value.cost == 1
    ensures Collected(senses).Means? && Collected(senses).cost == 1
    ensures Collected(senses).value == KeptEntry(senses[0].key, senses[0].value.value)
  {
    CollectedLookup(senses, []);
    assert senses[..0] == [];
  }

  lemma AllOpen(cfg: Config, text: bytes, f: Field)
    requires forall f: Field :: cfg.policy(f) == Decision(false, None)
    ensures Chosen(cfg, text, f) == Open
  {
  }

  lemma NullMeans(cfg: Config, field: Field, here: bytes, key: bytes, depth: nat)
    requires depth <= cfg.maxDepth && forall f: Field :: cfg.policy(f) == Decision(false, None)
    ensures Mean(cfg, T.Null, field, here, depth) == Means(Kept(Null), false, 1)
    ensures MeanTree(cfg, Null, key, here, depth) == Means(Kept(Null), false, 1)
  {
    hide Chosen;
    AllOpen(cfg, [], Seen(cfg, field, NilKind, here));
    AllOpen(cfg, [], TreeField(Null, key, here));
  }

  lemma RepeatedKey(key: bytes)
    ensures var n := T.Object([T.Member(key, T.Null), T.Member(key, T.Null)]);
      Decodes(n, Object([Entry(key, Null)])) && !NoRepeats(n)
  {
    var ms, es := [T.Member(key, T.Null), T.Member(key, T.Null)], [Entry(key, Null)];
    var entries := AsEntries(ms);
    assert entries[0].key == entries[1].key;
    forall k ensures LastWith(entries, k).Some? <==> Get(es, k).Some? {
      assert entries[..1][..0] == [] && es[1..] == [];
      assert LastWith(entries[..1], k).Some? <==> key == k;
    }
  }

  /** Whatever MaskJSON reports of a policy or a rule is what it answered for a field it was asked about. */
  lemma MaskingExplained(cfg: Config, src: bytes)
    ensures forall e :: e in Masking(cfg, src).errs ==>
      Explained(cfg, RootWalk(cfg, RootNode(src)).run.st.asked, e)
  {
    hide Walk, T.ParseDocument, Utf8.Valid, RootNode, LoneRoot, Explains;
    OperationLimits(cfg, RootNode(src), DocumentField(), ROOT);
  }

  /** A document that is turned away whole is turned away for one reason: its size, its encoding, its syntax, in this order. */
  lemma TurnedAway(cfg: Config, src: bytes)
    ensures var errs := Masking(cfg, src).errs;
      var reason := if |src| > cfg.maxInputBytes then Some(InputLimit)
        else if !Utf8.Valid(src) then Some(InvalidUTF8)
        else if T.ParseDocument(src).None? && !LoneRoot(cfg, src) then Some(InvalidJSON)
        else None;
      reason.Some? ==> |errs| == 1 && errs[0].code == reason.value && errs[0].depth == 0
  {
    hide RootWalk, T.ParseDocument, Utf8.Valid, LoneRoot, RootNode, Encode;
  }

  /** What stands in for a document that could not be masked is one JSON string that reads as the marker. */
  lemma FailureIsMarker(cfg: Config, src: bytes)
    requires Masking(cfg, src).errs != []
    ensures var d := Masking(cfg, src).text;
      && T.ParseDocument(d).Some? && T.ParseDocument(d).value.String?
      && Decoded(T.ParseDocument(d).value) == String(Utf8.Sanitize(cfg.marker))
  {
    hide RootWalk, T.ParseDocument, Utf8.Valid, RootNode, LoneRoot, Encode, Utf8.Sanitize;
    MarkerHasNoNumbers(cfg.marker);
    EncodingReadsBack(String(cfg.marker));
  }

  lemma MarkerHasNoNumbers(marker: bytes)
    ensures NumbersValid(String(marker))
  {
  }

  /* ---------- the output ---------- */

  lemma {:induction false} MeanNumbers(cfg: Config, n: T.Node, field: Field, here: bytes, depth: nat)
    requires Faithful(n)
    ensures var m := Mean(cfg, n, field, here, depth); m.Means? && m.value.Kept? ==> NumbersValid(m.value.tree)
    decreases n
  {
    hide MeanString, Chosen, RuleText, N.Accepts, T.KeyText, TokenValue, MeanItems, MeanMembers, Listed, Gathered, Located;
    var f := Seen(cfg, field, KindOf(n), here);
    ChosenIsText(cfg, RuleText(n), f);
    if depth <= cfg.maxDepth {
      match n
      case String(token) => StringMeansString(cfg, T.KeyText(token), TokenValue(token), Located(f, here), depth);
      case Array(items) =>
        var senses := MeanItems(cfg, items, here, depth);
        forall k | 0 <= k < |items| ensures NumberSense(senses[k]) {
          ItemSense(cfg, items, here, depth, k);
          MeanNumbers(cfg, items[k], ItemField(), PathForIndex(here, k), depth + 1);
        }
        ListedNumbers(senses);
      case Object(ms) =>
        var senses := MeanMembers(cfg, ms, here, depth);
        forall k | 0 <= k < |ms| ensures NumberSense(senses[k].value) {
          MemberSense(cfg, ms, here, depth, k);
          MeanNumbers(cfg, ms[k].value, MemberField(ms[k].key), PathFor(here, ms[k].key), depth + 1);
        }
        GatheredNumbers(senses);
      case _ =>
    }
  }

  ghost predicate NumberSense(m: Sense<Out>) { m.Means? && m.value.Kept? ==> NumbersValid(m.value.tree) }

  lemma ItemSense(cfg: Config, items: seq<T.Node>, here: bytes, depth: nat, k: nat)
    requires depth <= cfg.maxDepth && k < |items|
    ensures MeanItems(cfg, items, here, depth)[k] == Mean(cfg, items[k], ItemField(), PathForIndex(here, k), depth + 1)
  {
    hide Mean;
  }

  lemma MemberSense(cfg: Config, ms: seq<T.Member>, here: bytes, depth: nat, k: nat)
    requires depth <= cfg.maxDepth && k < |ms|
    ensures MeanMembers(cfg, ms, here, depth)[k] ==
      Entry(ms[k].key, Mean(cfg, ms[k].value, MemberField(ms[k].key), PathFor(here, ms[k].key), depth + 1))
  {
    hide Mean;
  }

  lemma {:induction false} ListedNumbers(senses: seq<Sense<Out>>)
    requires forall k :: 0 <= k < |senses| ==> NumberSense(senses[k])
    ensures Listed(senses).Means? ==> NumbersValid(Array(Listed(senses).value))
    decreases |senses|
  {
    if senses != [] {
      ListedNumbers(senses[..|senses| - 1]);
    }
  }

  lemma GatheredNumbers(senses: seq<Entry<Sense<Out>>>)
    requires forall k :: 0 <= k < |senses| ==> NumberSense(senses[k].value)
    ensures Gathered(senses).Means? ==> NumbersValid(Object(Gathered(senses).value))
  {
    hide Gathered, Get, LastWith;
    if Gathered(senses).Means? {
      var outs := Gathered(senses).value;
      forall i | 0 <= i < |outs| ensures NumbersValid(outs[i].value) {
        GatheredLookup(senses, outs[i].key);
        AscendingIsDistinct(outs);
        GetIffIn(outs, outs[i].key, outs[i].value);
        assert outs[i] in outs;
        var k := LastIsMember(senses, outs[i].key);
      }
    }
  }

  /** What MaskJSON writes on success is one JSON document, and it reads back as the masked tree. */
  lemma OutputIsJson(cfg: Config, src: bytes)
    requires Masking(cfg, src).errs == []
    ensures StreamMeaning(cfg, RootNode(src)).Means?
    ensures var tree := RootTree(StreamMeaning(cfg, RootNode(src)).value);
      var text := Masking(cfg, src).text;
      && text == Encode(tree)
      && T.ParseDocument(text).Some? && G.IsDocument(text)
      && Decoded(T.ParseDocument(text).value) == SanitizedTree(tree)
      && (TextsValid(tree) ==> Decoded(T.ParseDocument(text).value) == tree)
  {
    hide Mean, Encode, T.ParseDocument, Utf8.Valid, Faithful, Decoded, SanitizedTree, NumbersValid, TextsValid, G.IsDocument,
      RootWalk, LoneRoot;
    var m := StreamMeaning(cfg, RootNode(src));
    StreamSucceeds(cfg, src);
    RootFaithful(src);
    MeanNumbers(cfg, RootNode(src), DocumentField(), ROOT, 0);
    NullIsCanon();
    NullIsNumberless();
    EncodingReadsBack(RootTree(m.value));
    G.DocumentIffParsed(Masking(cfg, src).text);
  }

  lemma NullIsNumberless()
    ensures NumbersValid(Null)
  {
  }

  lemma RootFaithful(src: bytes)
    requires Utf8.Valid(src)
    ensures Faithful(RootNode(src))
  {
    hide T.ParseDocument, Utf8.Valid;
    if T.ParseDocument(src).Some? {
      VT.DocumentFaithful(src);
    } else {
      LoneIsEmpty();
    }
  }

  lemma LoneIsEmpty()
    ensures T.KeyText([QUOTE]) == TokenValue([QUOTE])
  {
  }
}
