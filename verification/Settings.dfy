/** What a Masker is configured with, what it asks its policy and rules, and the errors it records. */
module Settings {
  import opened Bytes
  import opened Options
  import opened Splice
  import D = DetectPatterns
  import Utf8

  datatype Kind = InvalidKind | NilKind | StringKind | BoolKind | NumberKind | ObjectKind | ArrayKind

  datatype Source = AnySource | JSONSource | QuerySource | TextSource

  /** The context a policy decides in. */
  datatype Field = Field(key: bytes, path: bytes, source: Source, kind: Kind)

  datatype RuleInput = RuleInput(value: bytes, kind: Kind, redaction: bytes)

  /** A rule's answer; a panic is caught and told apart from an error. */
  datatype RuleAnswer = Text(text: bytes) | RuleError | RulePanic

  datatype Rule = Rule(name: bytes, apply: RuleInput -> RuleAnswer)

  /** A policy's answer; omit wins over a rule. */
  datatype Decision = Decision(omit: bool, rule: Option<Rule>) | PolicyError | PolicyPanic

  datatype Code =
    | InvalidJSON | InvalidUTF8 | InputLimit | DepthLimit | NodeLimit | PolicyFailure | RuleFailure | Panicked
    | Cycle | UnsupportedType

  datatype MaskError = MaskError(code: Code, path: bytes, field: bytes, depth: nat, rule: bytes) {
    predicate IsLimit() { code == DepthLimit || code == NodeLimit }
  }

  /** A URL as net/url parses it. */
  datatype Url = Url(
    scheme: bytes, opaqueText: bytes, user: Option<bytes>, host: bytes, path: bytes,
    rawQuery: bytes, forceQuery: bool, fragment: bytes, rawFragment: bytes)

  /** A sort of edits: any function that returns a sorted permutation. */
  type Sorter = f: seq<Edit> -> seq<Edit> | IsSorter(f) ghost witness SomeSorter()

  datatype Config = Config(
    policy: Field -> Decision,
    marker: bytes,
    maxDepth: nat,
    maxNodes: nat,
    maxInputBytes: nat,
    preserveSafe: bool,
    embedded: bool,
    textDetectors: bool,
    detectors: D.Detectors,
    needPaths: bool,
    // Library code and formatting the masker calls.
    diagnostic: bytes -> bytes,
    sortEdits: Sorter,
    maskCard: bytes -> bytes,
    parseUrl: bytes -> Option<Url>,
    escapedPath: Url -> bytes,
    urlText: Url -> bytes,
    keyHash: bytes -> nat)

  /* ---------- paths ---------- */

  /** "$", the root path. */
  const ROOT: bytes := [0x24]

  function PathFor(parent: bytes, key: bytes): (p: bytes)
    ensures p != []
  {
    (if parent == [] then ROOT else parent) + [LBRACKET] + key + [RBRACKET]
  }

  function Decimal(n: nat): bytes {
    if n < 10 then [0x30 + n] else Decimal(n / 10) + [0x30 + n % 10]
  }

  function PathForIndex(parent: bytes, index: nat): (p: bytes)
    ensures p != []
  {
    parent + [LBRACKET] + Decimal(index) + [RBRACKET]
  }

  /* ---------- the error list ---------- */

  const MAX_ERRORS := 64

  /** addMaskError: past the cap an error is dropped. */
  function Record(errs: seq<MaskError>, e: MaskError): seq<MaskError> {
    if |errs| < MAX_ERRORS then errs + [e] else errs
  }

  /** addUnique. */
  function RecordUnique(errs: seq<MaskError>, e: MaskError): seq<MaskError> {
    if e in errs then errs else Record(errs, e)
  }

  /** addPriorityMaskError: a full list loses its last entry instead. */
  function RecordPriority(errs: seq<MaskError>, e: MaskError): seq<MaskError> {
    if |errs| < MAX_ERRORS then errs + [e] else errs[MAX_ERRORS - 1 := e]
  }

  function FieldError(cfg: Config, code: Code, field: Field, depth: nat): MaskError {
    MaskError(code, cfg.diagnostic(field.path), cfg.diagnostic(field.key), depth, [])
  }

  function RuleFieldError(cfg: Config, code: Code, field: Field, rule: Rule): MaskError {
    FieldError(cfg, code, field, 0).(rule := cfg.diagnostic(rule.name))
  }

  /** applyRule: a result that is not valid UTF-8 is a failure. */
  function ApplyRule(rule: Rule, input: RuleInput): RuleAnswer {
    match rule.apply(input)
    case Text(t) => if Utf8.Valid(t) then Text(t) else RuleError
    case answer => answer
  }

  /* ---------- a sort exists ---------- */

  ghost function SomeSorter(): (f: seq<Edit> -> seq<Edit>)
    ensures IsSorter(f)
  {
    assert IsSorter(SortEdits) by {
      forall edits ensures IsSortOf(SortEdits(edits), edits) { SortEditsSorts(edits); }
    }
    SortEdits
  }

  function InsertEdit(e: Edit, sorted: seq<Edit>): seq<Edit> {
    if sorted == [] || NotAfter(e, sorted[0]) then [e] + sorted
    else [sorted[0]] + InsertEdit(e, sorted[1..])
  }

  lemma {:induction false} InsertSorts(e: Edit, sorted: seq<Edit>)
    requires Sorted(sorted)
    ensures Sorted(InsertEdit(e, sorted))
    ensures multiset(InsertEdit(e, sorted)) == multiset{e} + multiset(sorted)
    decreases |sorted|
  {
    if sorted != [] && !NotAfter(e, sorted[0]) {
      var first, tail := sorted[0], sorted[1..];
      assert sorted == [first] + tail;
      InsertSorts(e, tail);
      var rest := InsertEdit(e, tail);
      forall k | 0 <= k < |rest| ensures NotAfter(first, rest[k]) {
        assert rest[k] in multiset(rest);
        if rest[k] != e {
          assert rest[k] in tail;
        }
      }
    }
  }

  function SortEdits(edits: seq<Edit>): seq<Edit> {
    if edits == [] then [] else InsertEdit(edits[0], SortEdits(edits[1..]))
  }

  lemma {:induction false} SortEditsSorts(edits: seq<Edit>)
    ensures IsSortOf(SortEdits(edits), edits)
    decreases |edits|
  {
    if edits != [] {
      SortEditsSorts(edits[1..]);
      InsertSorts(edits[0], SortEdits(edits[1..]));
      assert edits == [edits[0]] + edits[1..];
    }
  }
}
