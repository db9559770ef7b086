/**
 The reference masker as it runs: a decoded tree is rewritten value by value, then encoded. It shares string
 inspection and the budget with the streaming walker, and nothing else.
 */
module DomWalker {
  import opened Bytes
  import opened Options
  import opened Settings
  import opened SortedMap
  import opened JsonOut
  import opened MaskSpec
  import opened Meaning
  import opened DomMeaning
  import opened LimitProtocol
  import opened CleanRuns
  import opened StreamState
  import opened TreeDecision
  import W = StreamWalker
  import TI = TextInspector
  import TE = TreeEncoder
  import T = JsonTree
  import J = MaskJson

  class JsonWalker {
    const cfg: Config
    const budget: Budget

    constructor (cfg: Config, budget: Budget)
      ensures this.cfg == cfg && this.budget == budget
    {
      this.cfg := cfg;
      this.budget := budget;
    }

    /** walk. */
    method Walk(value: Json, field: Field, depth: nat) returns (result: Out)
      requires Lawful(cfg, budget.St()) && depth <= cfg.maxDepth + 1
      requires field == TreeField(value, field.key, field.path)
      modifies budget
      ensures Step(cfg, old(budget.St()), budget.St())
      ensures Clean(old(budget.St())) ==>
        var m := MeanTree(cfg, value, field.key, field.path, depth);
        Ends(cfg, old(budget.St()), budget.St(), m) && (Clean(budget.St()) ==> result == m.value)
      decreases value, 2
    {
      hide Step, Lawful, MeanTreeShape, Chosen, TreeText, Joined, Ended;
      ghost var st := budget.St();
      Stays(cfg, st);
      if budget.stop {
        return Marker(cfg);
      }
      if depth > cfg.maxDepth {
        Limits(cfg, st, FieldError(cfg, DepthLimit, field, depth));
        budget.Limit(FieldError(cfg, DepthLimit, field, depth));
        return Marker(cfg);
      }
      budget.nodes := budget.nodes + 1;
      if budget.nodes > cfg.maxNodes {
        Limits(cfg, st, FieldError(cfg, NodeLimit, field, depth));
        NodesFull(cfg, st);
        budget.Limit(FieldError(cfg, NodeLimit, field, depth));
        return Marker(cfg);
      }
      var handled;
      handled, result := ApplyFieldDecision(cfg, budget, TreeText(value), field, field, st);
      if !handled {
        ghost var asked := budget.St();
        StepLawful(cfg, st, asked);
        result := WalkShape(value, field, depth);
        Then(cfg, st, asked, budget.St());
      }
    }

    /** The value itself, when the policy left it alone. */
    method WalkShape(value: Json, field: Field, depth: nat) returns (result: Out)
      requires Lawful(cfg, budget.St()) && !budget.St().stop && depth <= cfg.maxDepth
      modifies budget
      ensures Step(cfg, old(budget.St()), budget.St())
      ensures Clean(old(budget.St())) ==>
        var m := MeanTreeShape(cfg, value, field, depth);
        Ends(cfg, old(budget.St()), budget.St(), m) && (Clean(budget.St()) ==> result == m.value)
      decreases value, 1
    {
      hide Step, Lawful, Inspectable, Inspect, MeanInspect, MeanTrees, MeanEntries, Listed, Collected;
      ghost var st := budget.St();
      Stays(cfg, st);
      if Clean(st) { WithinNodes(cfg, st); }
      match value {
        case Null => result := Kept(Null);
        case Bool(b) =>
          if cfg.preserveSafe {
            return Kept(value);
          }
          result := Kept(String(if b then T.TRUE else T.FALSE));
        case Number(_) => result := Kept(value);
        case String(s) =>
          var inspectable := TI.IsInspectable(cfg, s);
          if inspectable {
            InspectSteps(cfg, s, field, depth, st);
            if Clean(st) { InspectMeans(cfg, s, field, depth, st); }
            var masked, changed := W.InspectString(cfg, s, field, depth, budget);
            if changed {
              return Kept(String(masked));
            }
          }
          result := Kept(value);
        case Array(items) =>
          var values := WalkArray(items, field.path, depth);
          result := Kept(Array(values));
        case Object(es) =>
          var typed := WalkObject(es, field.path, depth);
          result := Kept(Object(typed));
      }
    }

    /** walkArray: each element is replaced in its place. */
    method WalkArray(items: seq<Json>, path: bytes, depth: nat) returns (values: seq<Json>)
      requires Lawful(cfg, budget.St()) && depth <= cfg.maxDepth
      modifies budget
      ensures Step(cfg, old(budget.St()), budget.St())
      ensures Clean(old(budget.St())) ==>
        var m := Listed(MeanTrees(cfg, items, path, depth));
        Ends(cfg, old(budget.St()), budget.St(), m) && (Clean(budget.St()) ==> values == m.value)
      decreases items, 0
    {
      hide Step, Lawful, MeanTree, MeanTrees, Listed;
      ghost var st, senses := budget.St(), MeanTrees(cfg, items, path, depth);
      Stays(cfg, st);
      if Clean(st) { WithinNodes(cfg, st); }
      NoneListed(senses);
      values := items;
      var index := 0;
      while index < |items|
        invariant index <= |items| == |values| && values[index..] == items[index..]
        invariant Step(cfg, st, budget.St()) && Lawful(cfg, budget.St())
        invariant Clean(st) ==>
          Ends(cfg, st, budget.St(), Listed(senses[..index])) &&
          (Clean(budget.St()) ==> values[..index] == Listed(senses[..index]).value)
      {
        if budget.stop {
          if Clean(st) { ListedPrefix(senses, index); }
          return;
        }
        ghost var before := budget.St();
        var child := items[index];
        var field := TreeField(child, [], PathForIndex(path, index));
        var result := Walk(child, field, depth + 1);
        Then(cfg, st, before, budget.St());
        StepLawful(cfg, st, budget.St());
        if Clean(budget.St()) { CleanBefore(cfg, before, budget.St()); }
        TreeSense(cfg, items, path, depth, index);
        ListedNext(senses, index);
        values := values[index := if result.Omitted? then Null else result.tree];
        index := index + 1;
      }
      assert senses[..index] == senses && values[..index] == values;
    }

    /** The map case of walk: entries are rewritten or deleted while the map is iterated. */
    method WalkObject(es: seq<Entry<Json>>, path: bytes, depth: nat) returns (typed: seq<Entry<Json>>)
      requires Lawful(cfg, budget.St()) && depth <= cfg.maxDepth
      modifies budget
      ensures Step(cfg, old(budget.St()), budget.St())
      ensures Clean(old(budget.St())) ==>
        var m := Collected(MeanEntries(cfg, es, path, depth));
        Ends(cfg, old(budget.St()), budget.St(), m) && (Clean(budget.St()) ==> typed == m.value)
      decreases es, 0
    {
      hide Step, Lawful, MeanTree, MeanEntries, Collected;
      ghost var st, senses := budget.St(), MeanEntries(cfg, es, path, depth);
      Stays(cfg, st);
      if Clean(st) { WithinNodes(cfg, st); }
      NoneCollected(senses);
      var kept: seq<Entry<Json>> := [];
      var index := 0;
      while index < |es|
        invariant index <= |es|
        invariant Step(cfg, st, budget.St()) && Lawful(cfg, budget.St())
        invariant Clean(st) ==>
          Ends(cfg, st, budget.St(), Collected(senses[..index])) &&
          (Clean(budget.St()) ==> kept == Collected(senses[..index]).value)
      {
        if budget.stop {
          if Clean(st) { CollectedPrefix(senses, index); }
          return kept + es[index..];
        }
        ghost var before := budget.St();
        var key, child := es[index].key, es[index].value;
        var field := TreeField(child, key, PathFor(path, key));
        var result := Walk(child, field, depth + 1);
        Then(cfg, st, before, budget.St());
        StepLawful(cfg, st, budget.St());
        if Clean(budget.St()) { CleanBefore(cfg, before, budget.St()); }
        EntrySense(cfg, es, path, depth, index);
        CollectedNext(senses, index);
        if result.Kept? {
          kept := kept + [Entry(key, result.tree)];
        }
        index := index + 1;
      }
      assert senses[..index] == senses;
      typed := kept;
    }
  }

  lemma NoneListed(senses: seq<Sense<Out>>)
    ensures Listed(senses[..0]) == Means([], false, 0)
  {
  }

  lemma NoneCollected(senses: seq<Entry<Sense<Out>>>)
    ensures Collected(senses[..0]) == Means([], false, 0)
  {
  }

  lemma TreeSense(cfg: Config, items: seq<Json>, path: bytes, depth: nat, k: nat)
    requires k < |items|
    ensures MeanTrees(cfg, items, path, depth)[k] == MeanTree(cfg, items[k], [], PathForIndex(path, k), depth + 1)
  {
    hide MeanTree;
  }

  lemma EntrySense(cfg: Config, es: seq<Entry<Json>>, path: bytes, depth: nat, k: nat)
    requires k < |es|
    ensures var key := es[k].key;
      MeanEntries(cfg, es, path, depth)[k] == Entry(key, MeanTree(cfg, es[k].value, key, PathFor(path, key), depth + 1))
  {
    hide MeanTree;
  }

  lemma ListedNext(senses: seq<Sense<Out>>, k: nat)
    requires k < |senses|
    ensures var a, b, r := Listed(senses[..k]), senses[k], Listed(senses[..k + 1]);
      if a.Fails? || b.Fails? then r.Fails?
      else r == Means(a.value + [if b.value.Omitted? then Null else b.value.tree], a.changed || b.changed, a.cost + b.cost)
  {
    assert senses[..k + 1][..k] == senses[..k];
  }

  lemma CollectedNext(senses: seq<Entry<Sense<Out>>>, k: nat)
    requires k < |senses|
    ensures var a, b, r := Collected(senses[..k]), senses[k].value, Collected(senses[..k + 1]);
      if a.Fails? || b.Fails? then r.Fails?
      else r == Means(a.value + KeptEntry(senses[k].key, b.value), a.changed || b.changed, a.cost + b.cost)
  {
    assert senses[..k + 1][..k] == senses[..k];
  }

  /** What the first elements cost, or fail, all of them cost, or fail. */
  lemma {:induction false} ListedPrefix(senses: seq<Sense<Out>>, k: nat)
    requires k <= |senses|
    ensures Listed(senses).Means? ==> Listed(senses[..k]).Means? && Listed(senses[..k]).cost <= Listed(senses).cost
    decreases |senses| - k
  {
    hide Listed;
    if k == |senses| {
      assert senses[..k] == senses;
    } else {
      ListedPrefix(senses, k + 1);
      ListedNext(senses, k);
    }
  }

  lemma {:induction false} CollectedPrefix(senses: seq<Entry<Sense<Out>>>, k: nat)
    requires k <= |senses|
    ensures Collected(senses).Means? ==>
      Collected(senses[..k]).Means? && Collected(senses[..k]).cost <= Collected(senses).cost
    decreases |senses| - k
  {
    hide Collected;
    if k == |senses| {
      assert senses[..k] == senses;
    } else {
      CollectedPrefix(senses, k + 1);
      CollectedNext(senses, k);
    }
  }
}
