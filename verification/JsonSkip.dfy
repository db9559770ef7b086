/**
 skipJSONValue: the iterative parser, driven by a stack of frames, that steps over whatever is masked,
 omitted or past a limit. It is proved to stop exactly where the recursive grammar stops.
 */
module JsonSkip {
  import opened Bytes
  import opened Options
  import opened JsonLex
  import opened JsonNumber
  import opened JsonString
  import opened JsonTree

  datatype State =
    | ObjectKeyOrEnd
    | ObjectKey
    | ObjectValue
    | ObjectCommaOrEnd
    | ArrayValueOrEnd
    | ArrayValue
    | ArrayCommaOrEnd
  {
    predicate InObject() { ObjectKeyOrEnd? || ObjectKey? || ObjectValue? || ObjectCommaOrEnd? }

    /** A value may come next in this state. */
    predicate TakesValue() { ObjectValue? || ArrayValueOrEnd? || ArrayValue? }
  }

  datatype Frame = Frame(close: byte, state: State)

  type Frames = seq<Frame>

  /** Frames as the skipper stacks them: closers match, and every frame below the top waits for a value. */
  predicate Stacked(frames: Frames) {
    forall k :: 0 <= k < |frames| ==>
      frames[k].close == (if frames[k].state.InObject() then RBRACE else RBRACKET) &&
      (k < |frames| - 1 ==> frames[k].state.TakesValue())
  }

  function Top(frames: Frames): Frame
    requires frames != []
  {
    frames[|frames| - 1]
  }

  function Pop(frames: Frames): Frames
    requires frames != []
  {
    frames[..|frames| - 1]
  }

  function WithTop(frames: Frames, state: State): Frames
    requires frames != []
  {
    Pop(frames) + [Top(frames).(state := state)]
  }

  /* ---------- what is left to parse ---------- */

  function EndOf<T>(p: Parsed<T>): Option<nat> {
    match p
    case NoParse => None
    case Parsed(_, e) => Some(e)
  }

  /** A value ended at e inside frames, all of them waiting for it: where the outermost value ends. */
  ghost function ValueDone(d: bytes, e: nat, frames: Frames): Option<nat>
    requires e <= |d|
    decreases |frames|, 0
  {
    if frames == [] then Some(e)
    else Close(d, if Top(frames).state.InObject()
                  then EndOf(MoreMembers(d, e, Member([], Null)))
                  else EndOf(MoreItems(d, e, Null)), Pop(frames))
  }

  /** A container ended where end says, inside frames. */
  ghost function Close(d: bytes, end: Option<nat>, frames: Frames): Option<nat>
    requires end.Some? ==> end.value <= |d|
    decreases |frames|, 1
  {
    match end
    case None => None
    case Some(e) => ValueDone(d, e, frames)
  }

  ghost function MembersOrEnd(d: bytes, p: nat): Option<nat>
    requires p <= |d|
  {
    if p < |d| && d[p] == RBRACE then Some(p + 1) else EndOf(ParseMembers(d, p))
  }

  ghost function ItemsOrEnd(d: bytes, p: nat): Option<nat>
    requires p <= |d|
  {
    if p < |d| && d[p] == RBRACKET then Some(p + 1) else EndOf(ParseItems(d, p))
  }

  /** Where the whole value ends, seen from the middle of the skip. */
  ghost function Resume(d: bytes, pos: nat, frames: Frames, need: bool): Option<nat>
    requires pos <= |d|
  {
    if need then Close(d, EndOf(ParseValue(d, pos)), frames)
    else if frames == [] then Some(pos)
    else
      var p := SpaceEnd(d, pos);
      var rest := Pop(frames);
      match Top(frames).state
      case ObjectKeyOrEnd => Close(d, MembersOrEnd(d, p), rest)
      case ObjectKey => Close(d, EndOf(ParseMembers(d, p)), rest)
      case ObjectValue => Close(d, EndOf(ParseValue(d, p)), frames)
      case ObjectCommaOrEnd => Close(d, EndOf(MoreMembers(d, p, Member([], Null))), rest)
      case ArrayValueOrEnd => Close(d, ItemsOrEnd(d, p), rest)
      case ArrayValue => Close(d, EndOf(ParseItems(d, p)), rest)
      case ArrayCommaOrEnd => Close(d, EndOf(MoreItems(d, p, Null)), rest)
  }

  /* ---------- the skipper ---------- */

  /** A quote that is the very last byte: scanJSONStringToken takes it for a whole token. */
  predicate LoneQuote(d: bytes, p: nat) { p + 1 == |d| && d[p] == QUOTE }

  method ScanJSONStringToken(d: bytes, start: nat) returns (end: nat, ok: bool)
    requires start < |d| && d[start] == QUOTE
    ensures ok <==> Unmarshal(d[start..StringEnd(d, start)]).Some? || LoneQuote(d, start)
    ensures ok ==> end == StringEnd(d, start)
  {
    end := ScanJSONString(d, start);
    ghost var token := d[start..end];
    if d[end - 1] != QUOTE {
      return 0, false;
    }
    if end == start + 1 {
      return end, true;
    }
    assert IsDelimited(token);
    ghost var body := Body(token);
    var index := start + 1;
    while index < end - 1
      invariant start + 1 <= index <= end - 1
      invariant forall k :: start + 1 <= k < index ==> d[k] >= 0x20 && d[k] != BACKSLASH
    {
      if d[index] < 0x20 {
        ControlNeverReads(body, index - start - 1);
        return 0, false;
      }
      if d[index] == BACKSLASH {
        return end, Unmarshal(d[start..end]).Some?;
      }
      index := index + 1;
    }
    assert forall k :: 0 <= k < |body| ==> body[k] == d[start + 1 + k];
    assert !NeedsUnmarshal(body);
    TokenTextIffUnmarshal(d, start);
    return end, true;
  }

  /** A control byte makes a string body unreadable wherever it stands. */
  lemma {:induction false} ControlNeverReads(b: bytes, k: nat)
    requires k < |b| && b[k] < 0x20
    ensures Unescape(b).None?
    decreases |b|
  {
    UnescapeIffGrammar(b);
    if IsStringBody(b) {
      ControlNeverDerived(b, k);
    }
  }

  lemma {:induction false} ControlNeverDerived(b: bytes, k: nat)
    requires k < |b| && b[k] < 0x20
    ensures !IsStringBody(b)
    decreases |b|
  {
    if b[0] == BACKSLASH {
      if CodeUnit(b).Some? {
        if k >= 6 { ControlNeverDerived(b[6..], k - 6); }
      } else if |b| >= 2 && SimpleEscape(b[1]).Some? {
        if k >= 2 { ControlNeverDerived(b[2..], k - 2); }
      }
    } else if k > 0 {
      ControlNeverDerived(b[1..], k - 1);
    }
  }

  /** completeSkippedValue: the enclosing frame has its value. */
  function CompleteSkippedValue(frames: Frames): (r: Option<Frames>)
    ensures r.Some? ==> |r.value| == |frames|
  {
    if frames == [] then Some(frames)
    else match Top(frames).state
      case ObjectValue => Some(WithTop(frames, ObjectCommaOrEnd))
      case ArrayValueOrEnd => Some(WithTop(frames, ArrayCommaOrEnd))
      case ArrayValue => Some(WithTop(frames, ArrayCommaOrEnd))
      case _ => None
  }

  /** Completing a value in a frame that takes one succeeds and leaves what ValueDone says. */
  lemma Completed(d: bytes, e: nat, frames: Frames)
    requires e <= |d| && Stacked(frames)
    requires frames != [] ==> Top(frames).state.TakesValue()
    ensures CompleteSkippedValue(frames).Some?
    ensures var done := CompleteSkippedValue(frames).value;
      Stacked(done) && Resume(d, e, done, false) == ValueDone(d, e, frames)
  {
    hide MoreMembers, MoreItems;
    if frames != [] {
      var done := CompleteSkippedValue(frames).value;
      assert Pop(done) == Pop(frames);
      MoreFromSpaceEnd(d, e);
    }
  }

  /** What follows a value is found past the white space after it. */
  lemma MoreFromSpaceEnd(d: bytes, e: nat)
    requires e <= |d|
    ensures MoreMembers(d, SpaceEnd(d, e), Member([], Null)) == MoreMembers(d, e, Member([], Null))
    ensures MoreItems(d, SpaceEnd(d, e), Null) == MoreItems(d, e, Null)
  {
    hide ParseMembers, ParseItems;
    SpaceEndIs(d, SpaceEnd(d, e), SpaceEnd(d, e));
  }

  lemma ResumeFromSpaceEnd(d: bytes, pos: nat, frames: Frames, need: bool)
    requires pos <= |d| && (need || frames != [])
    ensures Resume(d, SpaceEnd(d, pos), frames, need) == Resume(d, pos, frames, need)
  {
    ParseFromSpaceEnd(d, pos);
    SpaceEndIs(d, SpaceEnd(d, pos), SpaceEnd(d, pos));
  }

  /** The value at a position, by its first byte: the needValue block of the loop. */
  method StartValue(d: bytes, position: nat, frames: Frames) returns (next: nat, stack: Frames, ok: bool)
    requires position < |d| && !IsSpace(d[position]) && Stacked(frames)
    requires frames != [] ==> Top(frames).state.TakesValue()
    ensures ok ==> position < next <= |d| && Stacked(stack)
    ensures LoneQuote(d, position) ==> ok && next == |d| && |stack| == |frames|
    ensures !LoneQuote(d, position) ==>
      Resume(d, position, frames, true) == if ok then Resume(d, next, stack, false) else None
  {
    hide ParseValue, ParseMembers, ParseItems, MoreMembers, MoreItems, Unmarshal, SpaceEnd, StringEnd, PrimitiveEnd,
      PrimitiveNode, ValueDone;
    SpaceEndIs(d, position, position);
    ValueStep(d, position);
    next, stack, ok := position, frames, false;
    if d[position] == QUOTE {
      next, ok := ScanJSONStringToken(d, position);
      if !ok {
        return;
      }
      Completed(d, next, frames);
      stack := CompleteSkippedValue(frames).value;
    } else if d[position] == LBRACE {
      stack := frames + [Frame(RBRACE, ObjectKeyOrEnd)];
      next, ok := position + 1, true;
      assert Pop(stack) == frames;
    } else if d[position] == LBRACKET {
      stack := frames + [Frame(RBRACKET, ArrayValueOrEnd)];
      next, ok := position + 1, true;
      assert Pop(stack) == frames;
    } else {
      var end := ScanJSONPrimitive(d, position);
      var valid := ValidSkippedPrimitive(d[position..end]);
      if end <= position || !valid {
        return;
      }
      next, ok := end, true;
      Completed(d, next, frames);
      stack := CompleteSkippedValue(frames).value;
    }
  }

  /** validSkippedPrimitive. */
  method ValidSkippedPrimitive(token: bytes) returns (ok: bool)
    ensures ok <==> PrimitiveNode(token).Some?
  {
    if |token| == 0 {
      return false;
    }
    if token[0] == 0x74 || token[0] == 0x66 {
      return token == TRUE || token == FALSE;
    }
    if token[0] == 0x6E {
      return token == NULL;
    }
    if token[0] == MINUS || IsDigit(token[0]) {
      ok := ValidJSONNumber(token);
      AcceptsIffNumber(token);
      return;
    }
    return false;
  }

  datatype Step = Failed | Went(position: nat, frames: Frames, need: bool)

  /** The key token at position and the colon after it. */
  method SkipKey(d: bytes, position: nat) returns (next: nat, ok: bool)
    requires position < |d|
    ensures ok <==> ParseKey(d, position).Parsed?
    ensures ok ==> next == ParseKey(d, position).end
  {
    if d[position] != QUOTE {
      return 0, false;
    }
    var keyEnd, found := ScanJSONStringToken(d, position);
    if !found {
      return 0, false;
    }
    next := SkipJSONSpace(d, keyEnd);
    if next >= |d| || d[next] != COLON {
      return 0, false;
    }
    return next + 1, true;
  }

  /** One turn of the frame switch at a byte that is not white space. */
  method AdvanceFrame(d: bytes, position: nat, frames: Frames) returns (step: Step)
    requires position < |d| && !IsSpace(d[position]) && Stacked(frames) && frames != []
    ensures step.Went? ==>
      && position <= step.position <= |d| && Stacked(step.frames)
      && (position == step.position ==> step.need)
      && (step.need ==> step.frames != [] && Top(step.frames).state.TakesValue())
      && Resume(d, position, frames, false) == Resume(d, step.position, step.frames, step.need)
    ensures step.Failed? ==> Resume(d, position, frames, false) == None
  {
    hide ParseValue, Unmarshal;
    SpaceEndIs(d, position, position);
    var top := Top(frames);
    match top.state
    case ObjectKeyOrEnd =>
      if d[position] == top.close {
        step := CloseFrame(d, position, frames);
        return;
      }
      step := TakeKey(d, position, frames);
    case ObjectKey =>
      step := TakeKey(d, position, frames);
    case ObjectValue =>
      step := Went(position, frames, true);
    case ObjectCommaOrEnd =>
      if d[position] == COMMA {
        ghost var next := WithTop(frames, ObjectKey);
        assert Pop(next) == Pop(frames);
        step := Went(position + 1, WithTop(frames, ObjectKey), false);
      } else if d[position] == RBRACE {
        step := CloseFrame(d, position, frames);
      } else {
        step := Failed;
      }
    case ArrayValueOrEnd =>
      if d[position] == top.close {
        step := CloseFrame(d, position, frames);
        return;
      }
      step := Went(position, frames, true);
      ItemNext(d, position, frames);
    case ArrayValue =>
      if d[position] == RBRACKET {
        NothingBeforeBracket(d, position);
        return Failed;
      }
      step := Went(position, frames, true);
      ItemNext(d, position, frames);
    case ArrayCommaOrEnd =>
      if d[position] == COMMA {
        ghost var next := WithTop(frames, ArrayValue);
        assert Pop(next) == Pop(frames);
        step := Went(position + 1, WithTop(frames, ArrayValue), false);
      } else if d[position] == RBRACKET {
        step := CloseFrame(d, position, frames);
      } else {
        step := Failed;
      }
  }

  /** An element is a value and what follows it. */
  lemma ItemNext(d: bytes, p: nat, frames: Frames)
    requires p < |d| && frames != [] && Stacked(frames)
    requires Top(frames).state.ArrayValueOrEnd? || Top(frames).state.ArrayValue?
    ensures Close(d, EndOf(ParseItems(d, p)), Pop(frames)) == Resume(d, p, frames, true)
  {
    hide ParseValue, MoreItems;
    match ParseValue(d, p)
    case NoParse =>
      assert ParseItems(d, p) == NoParse;
    case Parsed(n, e) =>
      assert ParseItems(d, p) == MoreItems(d, e, n);
      MoreEndsAlike(d, e, Member([], Null), n);
      assert Resume(d, p, frames, true) == ValueDone(d, e, frames);
  }

  /** Where the rest of a container ends does not depend on what has been read. */
  lemma MoreEndsAlike(d: bytes, e: nat, m: Member, n: Node)
    requires e <= |d|
    ensures EndOf(MoreMembers(d, e, m)) == EndOf(MoreMembers(d, e, Member([], Null)))
    ensures EndOf(MoreItems(d, e, n)) == EndOf(MoreItems(d, e, Null))
  {
  }

  lemma NothingBeforeBracket(d: bytes, p: nat)
    requires p < |d| && d[p] == RBRACKET
    ensures ParseItems(d, p) == NoParse
  {
    SpaceEndIs(d, p, p);
    PrimitiveEndIs(d, p, p);
    assert d[p..p] == [];
  }

  /** A closer was found: the frame is popped and the value it closes completes the one below. */
  method CloseFrame(d: bytes, position: nat, frames: Frames) returns (step: Step)
    requires position < |d| && Stacked(frames) && frames != []
    ensures step.Went? && step.position == position + 1 && !step.need && Stacked(step.frames)
    ensures Resume(d, position + 1, step.frames, false) == ValueDone(d, position + 1, Pop(frames))
  {
    var rest := Pop(frames);
    if rest != [] {
      assert Top(rest) == frames[|frames| - 2];
    }
    Completed(d, position + 1, rest);
    return Went(position + 1, CompleteSkippedValue(rest).value, false);
  }

  /** A key, and then its value. */
  method TakeKey(d: bytes, position: nat, frames: Frames) returns (step: Step)
    requires position < |d| && Stacked(frames) && frames != [] && Top(frames).state.InObject()
    ensures step.Went? ==>
      && position < step.position <= |d| && Stacked(step.frames) && step.need
      && step.frames != [] && Top(step.frames).state.TakesValue()
      && Close(d, EndOf(ParseMembers(d, position)), Pop(frames)) == Resume(d, step.position, step.frames, true)
    ensures step.Failed? ==> ParseMembers(d, position) == NoParse
  {
    hide ParseValue, MoreMembers, ParseKey;
    var next, ok := SkipKey(d, position);
    if !ok {
      return Failed;
    }
    var stack := WithTop(frames, ObjectValue);
    assert Pop(stack) == Pop(frames);
    match ParseValue(d, next) {
      case NoParse =>
        assert ParseMembers(d, position) == NoParse;
      case Parsed(n, e) =>
        var m := Member(ParseKey(d, position).value, n);
        assert ParseMembers(d, position) == MoreMembers(d, e, m);
        MoreEndsAlike(d, e, m, Null);
        assert Resume(d, next, stack, true) == ValueDone(d, e, stack);
    }
    return Went(next, stack, true);
  }

  /**
   skipJSONValue: -1, or the end of the value at start. The one text it takes that is no JSON value is
   a quote that is the last byte of the data.
   */
  method SkipJSONValue(d: bytes, start: nat) returns (end: int)
    requires start <= |d|
    ensures LoneQuote(d, SpaceEnd(d, start)) ==> end == |d|
    ensures !LoneQuote(d, SpaceEnd(d, start)) ==>
      end == match ParseValue(d, start) { case NoParse => -1 case Parsed(_, e) => e }
  {
    hide ParseValue, MoreMembers, MoreItems, ParseKey, ParseItems, ParseMembers, ValueDone;
    var position := SkipJSONSpace(d, start);
    if position >= |d| {
      assert ParseValue(d, start) == NoParse by { NothingLeft(d, start); }
      return -1;
    }
    ghost var p0 := position;
    ResumeFromSpaceEnd(d, start, [], true);
    RootResume(d, start);
    var frames: Frames := [];
    var need := true;
    while true
      invariant position <= |d| && Stacked(frames)
      invariant frames == [] ==> need && position == p0
      invariant need && frames != [] ==> Top(frames).state.TakesValue()
      invariant LoneQuote(d, p0) ==> frames == []
      invariant Resume(d, position, frames, need) == EndOf(ParseValue(d, start))
      decreases |d| - position, if need then 0 else 1
    {
      ResumeFromSpaceEnd(d, position, frames, need);
      position := SkipJSONSpace(d, position);
      if need {
        if position >= |d| {
          NothingLeft(d, position);
          return -1;
        }
        var next, stack, ok := StartValue(d, position, frames);
        if !ok {
          return -1;
        }
        if |stack| == 0 {
          return next;
        }
        if LoneQuote(d, position) {
          // The token took the rest of the data, and the frame still needs bytes.
          LoneQuoteReadsNothing(d, position);
          position := SkipJSONSpace(d, next);
          assert position >= |d|;
          return -1;
        }
        position, frames, need := next, stack, false;
        ResumeFromSpaceEnd(d, position, frames, need);
      }
      position := SkipJSONSpace(d, position);
      if position >= |d| {
        NothingToClose(d, position, frames);
        return -1;
      }
      var step := AdvanceFrame(d, position, frames);
      if step.Failed? {
        return -1;
      }
      position, frames, need := step.position, step.frames, step.need;
      if |frames| == 0 {
        return position;
      }
    }
  }

  lemma NothingLeft(d: bytes, p: nat)
    requires p <= |d| && SpaceEnd(d, p) == |d|
    ensures ParseValue(d, p) == NoParse
  {
  }

  lemma RootResume(d: bytes, p: nat)
    requires p <= |d|
    ensures Resume(d, p, [], true) == EndOf(ParseValue(d, p))
  {
  }

  lemma LoneQuoteReadsNothing(d: bytes, p: nat)
    requires LoneQuote(d, p)
    ensures ParseValue(d, p) == NoParse
  {
    SpaceEndIs(d, p, p);
    assert StringEnd(d, p) == |d|;
    assert |d[p..|d|]| == 1;
  }

  lemma NothingToClose(d: bytes, p: nat, frames: Frames)
    requires p == |d| && frames != []
    ensures Resume(d, p, frames, false) == None
  {
    assert SpaceEnd(d, p) == p;
    NothingLeft(d, p);
  }
}
