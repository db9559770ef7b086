/**
 The streaming walker and the string inspection it shares its budget with, as they run: bytes are appended to
 buffers, counters and the error list are updated in place, walkers are restarted inside strings. Every method
 is proved equal to the specification of MaskSpec.
 */
module StreamWalker {
  import opened Bytes
  import opened Options
  import opened Settings
  import opened MaskSpec
  import opened JsonLex
  import opened StreamState
  import opened StreamSteps
  import opened TextInspector
  import J = JsonOut
  import JS = JsonString
  import T = JsonTree
  import G = JsonGrammar
  import K = JsonSkip
  import C = KeyCache
  import M = StreamMembers
  import O = ObjectOutput
  import SM = SortedMap
  import E = Embedded
  import Q = UrlQuery
  import D = Detect

  class Walker {
    const cfg: Config
    const budget: Budget
    const cache: C.Cache
    const rootPath: bytes
    var changes: nat
    var path: seq<PathPart>

    constructor (cfg: Config, rootPath: bytes, budget: Budget)
      ensures this.cfg == cfg && this.budget == budget && this.rootPath == rootPath
      ensures fresh(cache) && cache.hash == cfg.keyHash
      ensures forall d :: cache.Valid(d)
      ensures changes == 0 && path == []
    {
      this.cfg := cfg;
      this.budget := budget;
      this.rootPath := rootPath;
      changes := 0;
      path := [];
      cache := new C.Cache(cfg.keyHash);
    }

    ghost function Now(): Run
      reads this, budget
    {
      Run(budget.St(), changes)
    }

    function CurrentPath(): bytes
      reads this
    {
      PathOf(rootPath, path)
    }

    /** fail, for a limit. */
    method FailLimit(code: Code, field: Field, depth: nat)
      modifies this`changes, budget
      ensures Now() == old(Now()).Changed(
        old(budget.St()).Limit(LimitError(cfg, code, field, old(CurrentPath()), depth)))
    {
      changes := changes + 1;
      budget.Limit(FieldError(cfg, code, Located(field, CurrentPath()), depth));
    }

    method AppendMarker(out: Buffer)
      modifies out
      ensures out.data == old(out.data) + J.Encode(Marker(cfg).tree)
    {
      out.data := AppendQuoted(out.data, cfg.marker);
    }

    method AppendQuoted(dst: bytes, s: bytes) returns (r: bytes)
      ensures r == dst + J.Encode(J.String(s))
    {
      r := JS.AppendJSONString(dst, s);
    }

    /** A value that is masked, omitted or past a limit is stepped over. */
    method StepOver(data: bytes, start: nat) returns (end: int, ok: bool)
      requires start <= |data|
      ensures ok <==> T.ParseValue(data, start).Parsed? || LoneAt(data, start)
      ensures ok ==> end == EndAt(data, start)
    {
      end := K.SkipJSONValue(data, start);
      if LoneAt(data, start) { K.LoneQuoteReadsNothing(data, SpaceEnd(data, start)); T.ParseFromSpaceEnd(data, start); }
      ok := end >= 0;
    }

    /* ---------- the decision ---------- */

    /** decide: ask the policy about a value, and mask or omit the value if it says so; end -1 fails the parse. */
    method DecideValue(field: Field, data: bytes, start: nat, scalarEnd: nat, out: Buffer)
      returns (handled: bool, end: int, omitted: bool)
      requires start <= scalarEnd <= |data| || scalarEnd == 0
      modifies this`changes, budget, out
      ensures var v := Decide(cfg, ValueText(data, start, scalarEnd, field.kind), field, old(CurrentPath()), old(Now()));
        if TextMissing(cfg, field, data, start, scalarEnd) then handled && end == -1
        else match v
          case Undecided(r) => !handled && Now() == r && out.data == old(out.data)
          case Final(w) => (handled && end == 0 && Now() == w.run && omitted == w.out.Omitted? &&
                            out.data == old(out.data) + Added(w.out, false))
    {
      hide J.Encode, T.TokenText;
      var decision := budget.Ask(cfg, field);
      match decision {
        case PolicyError =>
          FailUnique(FieldError(cfg, PolicyFailure, Located(field, CurrentPath()), 0), out);
          return true, 0, false;
        case PolicyPanic =>
          FailUnique(FieldError(cfg, Panicked, Located(field, CurrentPath()), 0), out);
          return true, 0, false;
        case Decision(omit, rule) =>
          if omit {
            changes := changes + 1;
            return true, 0, true;
          }
          if rule.None? {
            return false, 0, false;
          }
          var text: bytes := [];
          if field.kind == StringKind {
            var token := Slice(data, start, scalarEnd);
            var decoded := T.TokenText(token);
            if decoded.None? {
              return true, -1, false;
            }
            text := decoded.value;
          } else if scalarEnd > 0 && field.kind != NilKind {
            text := data[start..scalarEnd];
          }
          var answer := ApplyRule(rule.value, RuleInput(text, field.kind, cfg.marker));
          match answer {
            case Text(result) =>
              changes := changes + 1;
              out.data := AppendQuoted(out.data, result);
            case RuleError =>
              FailUnique(RuleFieldError(cfg, RuleFailure, Located(field, CurrentPath()), rule.value), out);
            case RulePanic =>
              FailUnique(RuleFieldError(cfg, Panicked, Located(field, CurrentPath()), rule.value), out);
          }
          return true, 0, false;
      }
    }

    /** A failure that does not stop the operation: the value becomes the marker. */
    method FailUnique(e: MaskError, out: Buffer)
      modifies this`changes, budget, out
      ensures Now() == old(Now()).Changed(old(budget.St()).FailUnique(e))
      ensures out.data == old(out.data) + J.Encode(Marker(cfg).tree)
    {
      changes := changes + 1;
      budget.FailUnique(e);
      AppendMarker(out);
    }

    /* ---------- walking ---------- */

    /** appendValue: the value at start, masked, is appended to out. */
    method AppendValue(data: bytes, start: nat, field: Field, depth: nat, out: Buffer)
      returns (end: int, ok: bool, omitted: bool)
      requires start <= |data| && cache.Valid(data)
      modifies this`changes, this`path, budget, cache, out
      ensures path == old(path) && cache.Valid(data)
      ensures ok <==> IsValueAt(cfg, data, start, field, old(CurrentPath()), depth, old(Now()))
      ensures ok ==> end == EndAt(data, start)
      ensures ok ==>
        var w := Walk(cfg, NodeAt(data, start), field, old(CurrentPath()), depth, old(Now()));
        && Now() == w.run && omitted == w.out.Omitted?
        && out.data == old(out.data) + Added(w.out, path == [])
      decreases Fuel(cfg, depth), 10
    {
      hide WalkNode, T.ParseValue, J.Encode;
      var p := SkipJSONSpace(data, start);
      if p >= |data| {
        NothingAt(data, start);
        return p, false, false;
      }
      FromSpaceEnd(data, start);
      if budget.stop {
        end, ok := StepOver(data, p);
        AppendMarker(out);
        return end, ok, false;
      }
      if depth > cfg.maxDepth {
        FailLimit(DepthLimit, field, depth);
        end, ok := StepOver(data, p);
        AppendMarker(out);
        return end, ok, false;
      }
      budget.nodes := budget.nodes + 1;
      if budget.nodes > cfg.maxNodes {
        FailLimit(NodeLimit, field, depth);
        end, ok := StepOver(data, p);
        AppendMarker(out);
        return end, ok, false;
      }
      end, ok, omitted := AppendNode(data, p, field, depth, out);
    }

    /** The rest of appendValue: the policy decides the value, or it is looked into. */
    method AppendNode(data: bytes, p: nat, field: Field, depth: nat, out: Buffer)
      returns (end: int, ok: bool, omitted: bool)
      requires p < |data| && !IsSpace(data[p]) && depth <= cfg.maxDepth && cache.Valid(data)
      modifies this`changes, this`path, budget, cache, out
      ensures path == old(path) && cache.Valid(data)
      ensures ok <==> (T.ParseValue(data, p).Parsed? ||
        (K.LoneQuote(data, p) && PolicyStepsOver(cfg, Seen(cfg, field, StringKind, old(CurrentPath())))))
      ensures ok ==> end == EndAt(data, p)
      ensures ok ==>
        var n := NodeAt(data, p);
        var w := WalkNode(cfg, n, Seen(cfg, field, KindOf(n), old(CurrentPath())), old(CurrentPath()), depth, old(Now()));
        && Now() == w.run && omitted == w.out.Omitted?
        && out.data == old(out.data) + Added(w.out, path == [])
      decreases Fuel(cfg, depth), 9
    {
      hide WalkShape, T.ParseValue, J.Encode, T.ParsePrimitive, KindAt, T.TokenText, StringEnd;
      KindParses(data, p);
      var kind := KindAt(data[p]);
      if kind.None? {
        return p, false, false;
      }
      var f := Seen(cfg, field, kind.value, CurrentPath());
      var scalarEnd, scalarOK := ScalarEnd(data, p, kind.value);
      if !scalarOK {
        return p, false, false;
      }
      TextOfValue(data, p, kind.value, scalarEnd);
      NoTextNoString(data, p);
      SpaceEndIs(data, p, p);
      var handled;
      handled, end, omitted := DecideValue(f, data, p, scalarEnd, out);
      if handled {
        if end == 0 {
          end, ok := StepOver(data, p);
          if omitted && |path| == 0 {
            out.data := out.data + T.NULL;
          }
          return;
        }
        return end, false, omitted;
      }
      end, ok := AppendShape(data, p, kind.value, f, depth, scalarEnd, out);
      omitted := false;
    }

    /** A value the policy left alone. */
    method AppendShape(data: bytes, p: nat, kind: Kind, f: Field, depth: nat, scalarEnd: nat, out: Buffer)
      returns (end: int, ok: bool)
      requires p < |data| && !IsSpace(data[p]) && depth <= cfg.maxDepth && cache.Valid(data)
      requires KindAt(data[p]) == Some(kind)
      requires kind == StringKind ==> scalarEnd == StringEnd(data, p)
      requires kind in {BoolKind, NilKind, NumberKind} ==>
        T.ParsePrimitive(data, p).Parsed? && scalarEnd == T.ParsePrimitive(data, p).end
      modifies this`changes, this`path, budget, cache, out
      ensures path == old(path) && cache.Valid(data)
      ensures ok <==> T.ParseValue(data, p).Parsed?
      ensures ok ==> end == EndAt(data, p)
      ensures ok ==>
        var w := WalkShape(cfg, NodeAt(data, p), f, old(CurrentPath()), depth, old(Now()));
        Now() == w.run && w.out.Kept? && out.data == old(out.data) + J.Encode(w.out.tree)
      decreases Fuel(cfg, depth), 8
    {
      hide WalkString, WalkMembers, WalkItems, T.ParseValue, J.Encode, T.ParsePrimitive, KindAt, T.TokenText, StringEnd,
        T.ParseObject, T.ParseArray, MembersAt, ItemsAt;
      KindParses(data, p);
      if kind == StringKind {
        ok := AppendString(data, p, scalarEnd, f, depth, out);
        end := scalarEnd;
      } else if kind == BoolKind {
        PrimitiveKind(data, p);
        if cfg.preserveSafe {
          out.data := out.data + data[p..scalarEnd];
        } else {
          out.data := AppendQuoted(out.data, data[p..scalarEnd]);
        }
        BoolText(data, p);
        end, ok := scalarEnd, true;
      } else if kind == NilKind {
        PrimitiveKind(data, p);
        out.data := out.data + T.NULL;
        ScalarText(J.Null);
        end, ok := scalarEnd, true;
      } else if kind == NumberKind {
        PrimitiveKind(data, p);
        out.data := out.data + data[p..scalarEnd];
        ScalarText(J.Number(data[p..scalarEnd]));
        end, ok := scalarEnd, true;
      } else if kind == ObjectKind {
        ObjectAt(data, p);
        end, ok := AppendObject(data, p, depth, out);
      } else {
        ArrayAt(data, p);
        end, ok := AppendArray(data, p, depth, out);
      }
    }

    /** The string case of appendValue. */
    method AppendString(data: bytes, p: nat, end: nat, f: Field, depth: nat, out: Buffer) returns (ok: bool)
      requires p < |data| && data[p] == QUOTE && end == StringEnd(data, p) && depth <= cfg.maxDepth
      modifies this`changes, budget, out
      ensures ok <==> JS.Unmarshal(data[p..end]).Some?
      ensures ok ==>
        var w := WalkString(cfg, data[p..end], f, CurrentPath(), depth, old(Now()));
        Now() == w.run && w.out.Kept? && out.data == old(out.data) + J.Encode(w.out.tree)
      decreases Fuel(cfg, depth), 7
    {
      hide Inspect, Inspectable, J.Encode, JS.Unmarshal, T.TokenText, StringEnd;
      var token := data[p..end];
      T.TokenTextIffUnmarshal(data, p);
      var inspectable := InspectableToken(cfg, token);
      if inspectable {
        var decoded := T.TokenText(token);
        if decoded.None? {
          return false;
        }
        var masked, changed := InspectString(cfg, decoded.value, Located(f, CurrentPath()), depth, budget);
        if changed {
          out.data := AppendQuoted(out.data, masked);
          changes := changes + 1;
          return true;
        }
      }
      var text;
      text, ok := AppendStreamString(out.data, data, p, end);
      if ok {
        out.data := text;
      }
    }

    /** appendArray: elements are written straight to out. */
    method AppendArray(data: bytes, start: nat, depth: nat, out: Buffer) returns (end: int, ok: bool)
      requires start < |data| && depth <= cfg.maxDepth && cache.Valid(data)
      modifies this`changes, this`path, budget, cache, out
      ensures path == old(path) && cache.Valid(data)
      ensures ok <==> ItemsAt(data, start).Parsed?
      ensures ok ==> end == ItemsAt(data, start).end
      ensures ok ==>
        var (outs, r) := WalkItems(cfg, ItemsAt(data, start).value, old(CurrentPath()), depth, old(Now()));
        Now() == r && out.data == old(out.data) + J.Encode(J.Array(outs))
      decreases Fuel(cfg, depth), 6, 1
    {
      hide WalkItems, T.ParseItems, T.ParseValue, J.Encode, J.ItemsBody, SpaceEnd;
      out.data := out.data + [LBRACKET];
      var position := SkipJSONSpace(data, start + 1);
      if position < |data| && data[position] == RBRACKET {
        out.data := out.data + [RBRACKET];
        NoItemsWalked(cfg, CurrentPath(), depth, Now());
        J.NoItems();
        return position + 1, true;
      }
      end, ok := AppendItems(data, position, depth, out);
      if ok {
        ArrayText(old(out.data), WalkItems(cfg, ItemsAt(data, start).value, old(CurrentPath()), depth, old(Now())).0);
      }
    }

    /** The loop of appendArray, up to and with the closing bracket. */
    method AppendItems(data: bytes, start: nat, depth: nat, out: Buffer) returns (end: int, ok: bool)
      requires start <= |data| && depth <= cfg.maxDepth && cache.Valid(data)
      modifies this`changes, this`path, budget, cache, out
      ensures path == old(path) && cache.Valid(data)
      ensures ok <==> T.ParseItems(data, start).Parsed?
      ensures ok ==> end == T.ParseItems(data, start).end
      ensures ok ==>
        var (outs, r) := WalkItems(cfg, T.ParseItems(data, start).value, old(CurrentPath()), depth, old(Now()));
        Now() == r && out.data == old(out.data) + J.ItemsBody(outs) + [RBRACKET]
      decreases Fuel(cfg, depth), 6, 0
    {
      hide WalkItems, T.ParseItems, T.ParseValue, J.Encode, J.ItemsBody, SpaceEnd;
      ghost var here, run0, out0 := CurrentPath(), Now(), out.data;
      ghost var done, outs: seq<J.Json> := [], [];
      var position, index := start, 0;
      NoItemsWalked(cfg, here, depth, run0);
      J.NoItems();
      AfterNothing(T.ParseItems(data, start));
      while true
        invariant position <= |data| && path == old(path) && cache.Valid(data)
        invariant |done| == |outs| == index
        invariant T.ParseItems(data, start) == After(done, T.ParseItems(data, position))
        invariant WalkItems(cfg, done, here, depth, run0) == (outs, Now())
        invariant out.data == out0 + J.ItemsBody(outs)
        decreases |data| - position
      {
        ghost var before, at := Now(), position;
        var next, read := AppendItem(data, position, index, depth, out);
        if !read {
          ItemUnread(data, at, done);
          return start, false;
        }
        position := SkipJSONSpace(data, next);
        if position >= |data| {
          ItemCutOff(data, at, next, done);
          return start, false;
        }
        ghost var n := ItemBefore(data, at, next, done);
        ghost var tree := ItemWalked(cfg, done, outs, n, here, depth, run0, before);
        ItemWritten(out0, outs, tree);
        done, outs := done + [n], outs + [tree];
        index := index + 1;
        if data[position] == COMMA {
          position := SkipJSONSpace(data, position + 1);
        } else {
          if data[position] == RBRACKET {
            out.data := out.data + [RBRACKET];
            return position + 1, true;
          }
          return start, false;
        }
      }
    }

    /** One element, with the comma before it. A lone quote may pass for it, but takes the rest of the data. */
    method AppendItem(data: bytes, position: nat, index: nat, depth: nat, out: Buffer) returns (next: nat, ok: bool)
      requires position <= |data| && depth <= cfg.maxDepth && cache.Valid(data)
      modifies this`changes, this`path, budget, cache, out
      ensures path == old(path) && cache.Valid(data)
      ensures T.ParseValue(data, position).Parsed? ==> ok && next == T.ParseValue(data, position).end
      ensures T.ParseValue(data, position).NoParse? && ok ==> next == |data|
      ensures T.ParseValue(data, position).Parsed? ==>
        var n := T.ParseValue(data, position).value;
        var w := Walk(cfg, n, ItemField(), PathForIndex(old(CurrentPath()), index), depth + 1, old(Now()));
        && Now() == w.run
        && out.data == old(out.data) + (if index == 0 then [] else [COMMA]) + J.Encode(ItemTree(w))
      decreases Fuel(cfg, depth), 5
    {
      hide Walk, T.ParseValue, J.Encode;
      if index > 0 {
        out.data := out.data + [COMMA];
      }
      PathPushed(rootPath, path, IndexPart(index));
      path := path + [IndexPart(index)];
      var end, read, omitted := AppendValue(data, position, ItemField(), depth + 1, out);
      path := path[..|path| - 1];
      assert path == old(path);
      if !read {
        return 0, false;
      }
      if omitted {
        out.data := out.data + T.NULL;
        ScalarText(J.Null);
      }
      next, ok := end, true;
    }

    /** appendObject: members are written to a scratch buffer, and sorted by key when the object is complete. */
    method AppendObject(data: bytes, start: nat, depth: nat, out: Buffer) returns (end: int, ok: bool)
      requires start < |data| && depth <= cfg.maxDepth && cache.Valid(data)
      modifies this`changes, this`path, budget, cache, out
      ensures path == old(path) && cache.Valid(data)
      ensures ok <==> MembersAt(data, start).Parsed?
      ensures ok ==> end == MembersAt(data, start).end
      ensures ok ==>
        var (outs, r) := WalkMembers(cfg, MembersAt(data, start).value, old(CurrentPath()), depth, old(Now()));
        Now() == r && out.data == old(out.data) + J.Encode(J.Object(outs))
      decreases Fuel(cfg, depth), 6, 1
    {
      hide WalkMembers, T.ParseMembers, J.Encode, J.MembersBody, O.Represents, SpaceEnd, M.SortRanges, O.BodyOf;
      var scratch := new Buffer();
      var members := new M.Members();
      var position := SkipJSONSpace(data, start + 1);
      if position < |data| && data[position] == RBRACE {
        out.data := out.data + [LBRACE, RBRACE];
        NoMembersWalked(cfg, CurrentPath(), depth, Now());
        J.NoItems();
        return position + 1, true;
      }
      ghost var outs;
      end, ok, outs := AppendMembers(data, position, depth, scratch, members);
      if ok {
        O.SortedIsEncoded(members.members, scratch.data, outs);
        var sorted := M.SortRanges(members.members);
        out.data := O.EmitMembers(out.data, sorted, scratch.data);
        ObjectText(old(out.data), outs);
      }
    }

    /** The loop of appendObject, up to the closing brace. */
    method AppendMembers(data: bytes, start: nat, depth: nat, scratch: Buffer, members: M.Members)
      returns (end: int, ok: bool, ghost outs: seq<SM.Entry<J.Json>>)
      requires start <= |data| && depth <= cfg.maxDepth && cache.Valid(data)
      requires members.Valid() && members.members == [] && scratch.data == []
      modifies this`changes, this`path, budget, cache, scratch, members
      ensures path == old(path) && cache.Valid(data) && members.Valid()
      ensures ok <==> T.ParseMembers(data, start).Parsed?
      ensures ok ==> end == T.ParseMembers(data, start).end
      ensures ok ==>
        && WalkMembers(cfg, T.ParseMembers(data, start).value, old(CurrentPath()), depth, old(Now())) == (outs, Now())
        && O.Represents(members.members, scratch.data, outs)
      decreases Fuel(cfg, depth), 6, 0
    {
      hide WalkMembers, T.ParseMembers, J.Encode, O.Represents, MemberAt, Settle, SpaceEnd;
      ghost var here, run0 := CurrentPath(), Now();
      ghost var done := [];
      outs := [];
      var position := start;
      NoMembersWalked(cfg, here, depth, run0);
      O.NothingRepresented();
      AfterNothing(T.ParseMembers(data, start));
      while true
        invariant position <= |data| && path == old(path) && cache.Valid(data) && members.Valid()
        invariant T.ParseMembers(data, start) == After(done, T.ParseMembers(data, position))
        invariant WalkMembers(cfg, done, here, depth, run0) == (outs, Now())
        invariant O.Represents(members.members, scratch.data, outs)
        decreases |data| - position
      {
        ghost var before, at := Now(), position;
        var next, read := AppendMember(data, position, depth, scratch, members, outs);
        if !read {
          MemberUnread(data, at, done);
          return start, false, outs;
        }
        position := SkipJSONSpace(data, next);
        if position >= |data| {
          MemberCutOff(data, at, next, done);
          return start, false, outs;
        }
        ghost var m := MemberBefore(data, at, next, done);
        outs := MemberWalked(cfg, done, outs, m, here, depth, run0, before);
        done := done + [m];
        if data[position] == COMMA {
          position := SkipJSONSpace(data, position + 1);
        } else {
          return position + 1, data[position] == RBRACE, outs;
        }
      }
    }

    /** One member of an object: its key, its colon and its value, which is added to the members or leaves them. */
    method AppendMember(data: bytes, position: nat, depth: nat, scratch: Buffer, members: M.Members,
                        ghost outs: seq<SM.Entry<J.Json>>) returns (next: nat, ok: bool)
      requires position <= |data| && depth <= cfg.maxDepth && cache.Valid(data) && members.Valid()
      requires O.Represents(members.members, scratch.data, outs)
      modifies this`changes, this`path, budget, cache, scratch, members
      ensures path == old(path) && cache.Valid(data) && members.Valid()
      ensures MemberAt(data, position).Parsed? ==> ok && next == MemberAt(data, position).end
      ensures MemberAt(data, position).NoParse? && ok ==> next == |data|
      ensures MemberAt(data, position).Parsed? ==>
        var m := MemberAt(data, position).value;
        var w := Walk(cfg, m.value, MemberField(m.key), PathFor(old(CurrentPath()), m.key), depth + 1, old(Now()));
        Now() == w.run && O.Represents(members.members, scratch.data, Settle(outs, m.key, w.out))
      decreases Fuel(cfg, depth), 5
    {
      hide Walk, T.ParseValue, T.ParseKey, J.Encode, O.Represents, Settle;
      var key, valueStart, read := ReadKey(data, position);
      if !read {
        return 0, false;
      }
      FromSpaceEnd(data, T.ParseKey(data, position).end);
      ghost var here, before, written := CurrentPath(), Now(), scratch.data;
      var memberStart := |scratch.data|;
      PathPushed(rootPath, path, KeyPart(key));
      path := path + [KeyPart(key)];
      var end, omitted;
      end, ok, omitted := AppendValue(data, valueStart, MemberField(key), depth + 1, scratch);
      path := path[..|path| - 1];
      assert path == old(path);
      if !ok {
        return 0, false;
      }
      next := end;
      ghost var w := Walk(cfg, NodeAt(data, valueStart), MemberField(key), PathFor(here, key), depth + 1, before);
      O.Settled(members.members, written, outs, key, w.out);
      if omitted {
        members.Remove(key);
        assert scratch.data == written;
      } else {
        members.Upsert(key, memberStart, |scratch.data|);
      }
    }

    /** The key of a member and the colon after it. */
    method ReadKey(data: bytes, position: nat) returns (key: bytes, valueStart: nat, ok: bool)
      requires position <= |data| && cache.Valid(data)
      modifies cache
      ensures cache.Valid(data)
      ensures ok <==> T.ParseKey(data, position).Parsed?
      ensures ok ==> key == T.ParseKey(data, position).value
      ensures ok ==> valueStart == SpaceEnd(data, T.ParseKey(data, position).end)
    {
      hide T.TokenText, JS.Unmarshal, StringEnd;
      if position >= |data| || data[position] != QUOTE {
        return [], 0, false;
      }
      var keyEnd := ScanJSONString(data, position);
      var read;
      key, read := cache.StreamObjectKey(data, position, keyEnd);
      T.TokenTextIffUnmarshal(data, position);
      if !read {
        return key, 0, false;
      }
      var colon := SkipJSONSpace(data, keyEnd);
      if colon >= |data| || data[colon] != COLON {
        return key, 0, false;
      }
      valueStart := SkipJSONSpace(data, colon + 1);
      ok := true;
    }
  }

  /* ---------- inspection ---------- */

  method InspectString(cfg: Config, s: bytes, field: Field, depth: nat, state: Budget)
    returns (text: bytes, changed: bool)
    requires depth <= cfg.maxDepth
    modifies state
    ensures Inspected(text, changed, state.St()) == Inspect(cfg, s, field, depth, old(state.St()))
    decreases Fuel(cfg, depth), 5
  {
    hide InspectUrl, InspectJson, InspectForm, InspectPlain;
    if state.stop {
      return cfg.marker, true;
    }
    if |s| > cfg.maxInputBytes {
      state.Fail(FieldError(cfg, InputLimit, field, depth));
      return cfg.marker, true;
    }
    if cfg.embedded {
      var ok;
      text, changed, ok := InspectURLString(cfg, s, field, depth, state);
      if ok {
        return;
      }
      text, changed, ok := InspectJSONString(cfg, s, field, depth, state);
      if ok {
        return;
      }
      text, changed, ok := InspectFormString(cfg, s, field, depth, state);
      if ok && (changed || !cfg.textDetectors) {
        return;
      }
      if state.stop {
        return cfg.marker, true;
      }
    }
    text, changed := InspectPlainString(cfg, s, field, depth, state);
  }

  /* ---------- documents inside strings ---------- */

  /** What an inspection that may not apply answers: when it does not, nothing has changed. */
  ghost predicate Answers(r: Option<Inspected>, text: bytes, changed: bool, ok: bool, before: State, after: State) {
    match r
    case None => !ok && after == before
    case Some(i) => ok && Inspected(text, changed, after) == i
  }

  /** inspectURL. */
  method InspectURLString(cfg: Config, s: bytes, field: Field, depth: nat, state: Budget)
    returns (text: bytes, changed: bool, ok: bool)
    requires depth <= cfg.maxDepth
    modifies state
    ensures Answers(InspectUrl(cfg, s, field, depth, old(state.St())), text, changed, ok, old(state.St()), state.St())
    decreases Fuel(cfg, depth), 4
  {
    hide MaskQuery, InspectText, D.Found, E.HasScheme;
    var scheme := E.EmbeddedSchemeEnd(s);
    if scheme < 0 {
      return [], false, false;
    }
    var word := E.CheckOneWord(s);
    if !word {
      return [], false, false;
    }
    var parsed := cfg.parseUrl(s);
    if parsed.None? || parsed.value.opaqueText != [] || parsed.value.host == [] {
      return [], false, false;
    }
    var result := parsed.value;
    changed := false;
    if result.user.Some? {
      result := result.(user := Some(cfg.marker));
      changed := true;
    }
    if result.fragment != [] {
      result := result.(fragment := cfg.marker, rawFragment := []);
      changed := true;
    }
    if result.rawQuery != [] {
      var query, queryChanged := MaskQueryValues(cfg, result.rawQuery, field, depth, state);
      if query.None? {
        return cfg.marker, true, true;
      }
      changed := changed || queryChanged;
      result := result.(rawQuery := query.value);
    }
    text, changed := InspectURLPath(cfg, s, parsed.value, result, changed, field, depth, state);
    ok := true;
  }

  /** inspectJSON. */
  method InspectJSONString(cfg: Config, s: bytes, field: Field, depth: nat, state: Budget)
    returns (text: bytes, changed: bool, ok: bool)
    requires depth <= cfg.maxDepth
    modifies state
    ensures Answers(InspectJson(cfg, s, field, depth, old(state.St())), text, changed, ok, old(state.St()), state.St())
    decreases Fuel(cfg, depth), 4
  {
    hide Walk, J.Encode, E.IsBracketed, T.ParseDocument, G.IsLoneQuote, G.IsDocument, IsValueAt, NodeAt, EndAt, Merge,
      RootPath, RecordPriority, Record;
    var bracketed := E.CheckBracketed(s);
    if !bracketed {
      return [], false, false;
    }
    BracketedDocument(s);
    var valid := G.ValidJSONDocument(s);
    if !valid {
      return [], false, false;
    }
    var budget := new Budget(state.nodes, state.asked);
    var inner := new Walker(cfg, field.path, budget);
    var out := new Buffer();
    DocumentIsValue(cfg, s, RootField(field), RootPath(field), depth + 1, inner.Now());
    RootHere(field);
    var end, parsed, omitted := inner.AppendValue(s, 0, RootField(field), depth + 1, out);
    // The document is valid, so the walker cannot fail to parse it.
    assert parsed;
    state.nodes := budget.nodes;
    state.asked := budget.asked;
    MergeErrors(state, budget.errs);
    if budget.stop {
      state.stop := true;
    }
    if |budget.errs| > 0 {
      return cfg.marker, true, true;
    }
    if inner.changes == 0 {
      return s, false, true;
    }
    return out.data, true, true;
  }

  lemma BracketedDocument(s: bytes)
    requires E.IsBracketed(s)
    ensures !G.IsLoneQuote(s)
  {
    hide E.IsBracketed;
    E.BracketedStart(s);
  }

  /** Whatever the limits and the policy, a document parses where its root is walked. */
  lemma DocumentIsValue(cfg: Config, s: bytes, field: Field, here: bytes, depth: nat, run: Run)
    requires T.ParseDocument(s).Some?
    ensures IsValueAt(cfg, s, 0, field, here, depth, run) && NodeAt(s, 0) == T.ParseDocument(s).value
  {
    hide T.ParseValue, SteppedOver;
  }

  lemma RootHere(field: Field)
    ensures PathOf(field.path, []) == RootPath(field)
  {
  }

  /** inspectForm. */
  method InspectFormString(cfg: Config, s: bytes, field: Field, depth: nat, state: Budget)
    returns (text: bytes, changed: bool, ok: bool)
    requires depth <= cfg.maxDepth
    modifies state
    ensures Answers(InspectForm(cfg, s, field, depth, old(state.St())), text, changed, ok, old(state.St()), state.St())
    decreases Fuel(cfg, depth), 4
  {
    hide MaskQuery, E.IsStrictForm;
    if Q.EQUALS !in s {
      return [], false, false;
    }
    var strict := E.StrictFormText(s);
    if !strict {
      return [], false, false;
    }
    var query, queryChanged := MaskQueryValues(cfg, s, field, depth, state);
    if query.None? {
      return cfg.marker, true, true;
    }
    if !queryChanged {
      return s, false, true;
    }
    return query.value, true, true;
  }

  /** maskQueryValues over Mask: the pairs in key order, each key escaped once. */
  method MaskQueryValues(cfg: Config, raw: bytes, field: Field, depth: nat, state: Budget)
    returns (query: Option<bytes>, changed: bool)
    requires depth <= cfg.maxDepth
    modifies state
    ensures Masked(query, changed, state.St()) == MaskQuery(cfg, raw, field, depth, old(state.St()))
    decreases Fuel(cfg, depth), 3
  {
    hide Q.Pairs, Q.StableSort, Q.Render, Q.QueryEscape, QueryStep, QueryFold;
    var collected, ok := Q.Collect(raw);
    if !ok {
      return None, false;
    }
    var pairs := Q.StableSort(collected);
    var builder: bytes := [];
    ghost var kept: seq<Q.Pair> := [];
    ghost var st0 := state.St();
    changed := false;
    var index := 0;
    NothingRendered();
    NothingFolded(cfg, field, depth, st0);
    assert pairs[..0] == [];
    while index < |pairs|
      invariant index <= |pairs|
      invariant builder == Q.Render(kept)
      invariant QueryFold(cfg, pairs[..index], field, depth, st0) == MaskSpec.Fold(kept, changed, false, state.St())
    {
      var key := pairs[index].key;
      var keyEscaped := Q.QueryEscape(key);
      ghost var from := index;
      while index < |pairs| && pairs[index].key == key
        invariant from <= index <= |pairs| && (index == from ==> index < |pairs| && pairs[index].key == key)
        invariant builder == Q.Render(kept)
        invariant QueryFold(cfg, pairs[..index], field, depth, st0) == MaskSpec.Fold(kept, changed, false, state.St())
      {
        var pair := pairs[index];
        ghost var before := MaskSpec.Fold(kept, changed, false, state.St());
        FoldNext(cfg, pairs, index, field, depth, st0);
        var value, keep, pairChanged, stopped := MaskPair(cfg, pair, field, depth, state, kept, changed);
        changed := changed || pairChanged;
        if stopped {
          FoldHalts(cfg, pairs, index + 1, field, depth, st0);
          return None, changed;
        }
        index := index + 1;
        if keep {
          builder := WritePair(builder, keyEscaped, key, value, kept);
          kept := kept + [Q.Pair(key, value)];
        }
      }
    }
    assert pairs[..index] == pairs;
    query := Some(builder);
  }

  /** The callback maskQueryValues gives to Mask. */
  method MaskPair(cfg: Config, pair: Q.Pair, field: Field, depth: nat, state: Budget,
                  ghost kept: seq<Q.Pair>, ghost changed0: bool)
    returns (value: bytes, keep: bool, changed: bool, stopped: bool)
    requires depth <= cfg.maxDepth
    modifies state
    ensures QueryStep(cfg, pair, field, depth, MaskSpec.Fold(kept, changed0, false, old(state.St())))
         == MaskSpec.Fold(if keep && !stopped then kept + [Q.Pair(pair.key, value)] else kept,
                          changed0 || changed, stopped, state.St())
    decreases Fuel(cfg, depth), 1
  {
    hide Inspect, DecideMember;
    var member := Field(pair.key, PathFor(field.path, pair.key), QuerySource, StringKind);
    var masked, decided;
    masked, decided, keep := DecideText(cfg, member, pair.value, depth, state);
    if state.stop {
      return [], false, false, true;
    }
    if decided {
      return masked, keep, !keep || masked != pair.value, false;
    }
    DecidedWithinDepth(cfg, member, pair.value, depth, old(state.St()));
    var text, nested := InspectString(cfg, pair.value, member, depth + 1, state);
    if nested {
      return text, true, true, false;
    }
    return pair.value, true, false, false;
  }
}
