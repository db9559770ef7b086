/** What the walkers and inspections of one operation share, and what a walker reads and adds at a position. */
module StreamState {
  import opened Bytes
  import opened Options
  import opened Settings
  import opened MaskSpec
  import opened JsonLex
  import J = JsonOut
  import T = JsonTree
  import K = JsonSkip

  /** A byte slice appended to through a pointer. */
  class Buffer {
    var data: bytes

    constructor ()
      ensures data == []
    {
      data := [];
    }
  }

  /** The list after an error was added: it comes last if there was room, and nothing else changes. */
  ghost predicate Joined(before: seq<MaskError>, after: seq<MaskError>, e: MaskError) {
    && before <= after
    && (|before| < MAX_ERRORS ==> |after| == |before| + 1 && after[|before|] == e)
    && (|before| >= MAX_ERRORS ==> |after| == |before|)
  }

  /** The list after a limit: it comes last whatever there was, and only takes the place of another in a full list. */
  ghost predicate Ended(before: seq<MaskError>, after: seq<MaskError>, e: MaskError) {
    && after != []
    && (|before| <= MAX_ERRORS ==> |after| <= MAX_ERRORS && after[|after| - 1] == e)
    && (|before| < MAX_ERRORS ==> after == before + [e])
    && (|before| == MAX_ERRORS ==> |after| == MAX_ERRORS && after[..MAX_ERRORS - 1] == before[..MAX_ERRORS - 1])
  }

  /** The counters, error list and stop flag of one operation: what an inspectState points to. */
  class Budget {
    var nodes: nat
    var errs: seq<MaskError>
    var stop: bool
    ghost var asked: seq<Field>

    constructor (nodes: nat, ghost asked: seq<Field>)
      ensures St() == State(nodes, [], false, asked)
    {
      this.nodes := nodes;
      errs := [];
      stop := false;
      this.asked := asked;
    }

    ghost function St(): State
      reads this
    {
      State(nodes, errs, stop, asked)
    }

    /** An error joins the others while there is room, and is dropped after. */
    method Fail(e: MaskError)
      modifies this
      ensures St() == old(St()).Fail(e)
      ensures nodes == old(nodes) && stop == old(stop) && Joined(old(errs), errs, e)
    {
      errs := Record(errs, e);
    }

    /** The same for an error not recorded before; one that was changes nothing. */
    method FailUnique(e: MaskError)
      modifies this
      ensures St() == old(St()).FailUnique(e)
      ensures nodes == old(nodes) && stop == old(stop)
      ensures if e in old(errs) then errs == old(errs) else Joined(old(errs), errs, e)
    {
      errs := RecordUnique(errs, e);
    }

    /** The first limit stops the operation and comes last, in place of another error if the list was full. */
    method Limit(e: MaskError)
      modifies this
      ensures St() == old(St()).Limit(e)
      ensures stop && nodes == old(nodes)
      ensures if old(stop) then errs == old(errs) else Ended(old(errs), errs, e)
    {
      if stop {
        return;
      }
      stop := true;
      errs := RecordPriority(errs, e);
    }

    /** callPolicy, remembering what was asked. */
    method Ask(cfg: Config, field: Field) returns (decision: Decision)
      modifies this
      ensures St() == old(St()).Ask(field)
      ensures decision == cfg.policy(field)
    {
      asked := asked + [field];
      decision := cfg.policy(field);
    }
  }

  datatype PathPart = KeyPart(key: bytes) | IndexPart(index: nat)

  function Extend(parent: bytes, part: PathPart): bytes {
    match part
    case KeyPart(key) => PathFor(parent, key)
    case IndexPart(index) => PathForIndex(parent, index)
  }

  /** The path the parts lead to from a root. */
  function PathOf(root: bytes, parts: seq<PathPart>): bytes {
    if parts == [] then if root == [] then ROOT else root
    else Extend(PathOf(root, parts[..|parts| - 1]), parts[|parts| - 1])
  }

  lemma PathPushed(root: bytes, parts: seq<PathPart>, part: PathPart)
    ensures PathOf(root, parts + [part]) == Extend(PathOf(root, parts), part)
  {
    assert (parts + [part])[..|parts|] == parts;
  }

  /* ---------- what the parser finds at a position ---------- */

  predicate LoneAt(d: bytes, i: nat)
    requires i <= |d|
  {
    K.LoneQuote(d, SpaceEnd(d, i))
  }

  /** The value at i; a lone quote passes for a string with the quote as its token. */
  function NodeAt(d: bytes, i: nat): T.Node
    requires i <= |d|
  {
    match T.ParseValue(d, i)
    case NoParse => T.String([QUOTE])
    case Parsed(n, _) => n
  }

  function EndAt(d: bytes, i: nat): nat
    requires i <= |d|
  {
    match T.ParseValue(d, i)
    case NoParse => |d|
    case Parsed(_, e) => e
  }

  /** A lone quote is only stepped over: past a limit, when the policy fails, or when it omits. */
  predicate SteppedOver(cfg: Config, field: Field, here: bytes, depth: nat, run: Run) {
    run.st.stop || depth > cfg.maxDepth || run.st.nodes + 1 > cfg.maxNodes ||
    PolicyStepsOver(cfg, Seen(cfg, field, StringKind, here))
  }

  predicate PolicyStepsOver(cfg: Config, f: Field) {
    match cfg.policy(f)
    case Decision(omit, _) => omit
    case _ => true
  }

  predicate IsValueAt(cfg: Config, d: bytes, i: nat, field: Field, here: bytes, depth: nat, run: Run)
    requires i <= |d|
  {
    T.ParseValue(d, i).Parsed? || (LoneAt(d, i) && SteppedOver(cfg, field, here, depth, run))
  }

  /** What a value adds to its buffer; an omitted root is null. */
  function Added(out: Out, root: bool): bytes {
    match out
    case Omitted => if root then T.NULL else []
    case Kept(tree) => J.Encode(tree)
  }
}
