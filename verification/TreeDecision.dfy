/** The decision both tree walkers put to the policy about a value. */
module TreeDecision {
  import opened Bytes
  import opened Options
  import opened Settings
  import opened JsonOut
  import opened MaskSpec
  import opened Meaning
  import opened LimitProtocol
  import opened CleanRuns
  import opened StreamState

  /**
   applyFieldDecision, after a node was counted from state st: the policy is asked about a field, and its rule
   applied to a text. Errors name the located field.
   */
  method ApplyFieldDecision(cfg: Config, budget: Budget, text: bytes, field: Field, located: Field, ghost st: State)
    returns (handled: bool, result: Out)
    requires Lawful(cfg, st) && !st.stop && st.nodes + 1 <= cfg.maxNodes
    requires budget.St() == st.(nodes := st.nodes + 1) 
    requires located.key == field.key && (field.path != [] ==> located.path == field.path)
    modifies budget
    ensures Step(cfg, st, budget.St())
    ensures (handled <==> !Chosen(cfg, text, field).Open?) && !budget.stop
    ensures !handled ==> budget.St() == old(budget.St()).Ask(field)
    ensures var asked := old(budget.St()).Ask(field);
      match cfg.policy(field)
      case PolicyError => budget.St() == asked.Fail(FieldError(cfg, PolicyFailure, located, 0))
      case PolicyPanic => budget.St() == asked.Fail(FieldError(cfg, Panicked, located, 0))
      case Decision(omit, rule) =>
        if omit || rule.None? then budget.St() == asked
        else match ApplyRule(rule.value, RuleInput(text, field.kind, cfg.marker))
          case Text(_) => budget.St() == asked
          case RuleError => budget.St() == asked.Fail(RuleFieldError(cfg, RuleFailure, located, rule.value))
          case RulePanic => budget.St() == asked.Fail(RuleFieldError(cfg, Panicked, located, rule.value))
    ensures Clean(st) ==>
      match Chosen(cfg, text, field)
      case Refused => handled && !Clean(budget.St())
      case Chose(out) => handled && result == out && Clean(budget.St()) && budget.St().nodes == st.nodes + 1
      case Open => !handled
  {
    hide Step, Lawful, ApplyRule, Explained;
    Asks(cfg, st, field);
    ghost var asked := budget.St().Ask(field);
    StepLawful(cfg, st, asked);
    AnswerExplains(cfg, asked.asked, field, located, text, 0);
    var decision := budget.Ask(cfg, field);
    match decision {
      case PolicyError =>
        Failing(cfg, st, asked, FieldError(cfg, PolicyFailure, located, 0));
        budget.Fail(FieldError(cfg, PolicyFailure, located, 0));
        return true, Marker(cfg);
      case PolicyPanic =>
        Failing(cfg, st, asked, FieldError(cfg, Panicked, located, 0));
        budget.Fail(FieldError(cfg, Panicked, located, 0));
        return true, Marker(cfg);
      case Decision(omit, rule) =>
        if omit {
          return true, Omitted;
        }
        if rule.None? {
          return false, Omitted;
        }
        var answer := ApplyRule(rule.value, RuleInput(text, field.kind, cfg.marker));
        match answer {
          case Text(masked) => return true, Kept(String(masked));
          case RuleError =>
            Failing(cfg, st, asked, RuleFieldError(cfg, RuleFailure, located, rule.value));
            budget.Fail(RuleFieldError(cfg, RuleFailure, located, rule.value));
            return true, Marker(cfg);
          case RulePanic =>
            Failing(cfg, st, asked, RuleFieldError(cfg, Panicked, located, rule.value));
            budget.Fail(RuleFieldError(cfg, Panicked, located, rule.value));
            return true, Marker(cfg);
        }
    }
  }

  lemma Failing(cfg: Config, st: State, asked: State, e: MaskError)
    requires Step(cfg, st, asked) && Lawful(cfg, asked) && !asked.stop
    requires !e.IsLimit() && e.code != Cycle && e.depth == 0 && Explained(cfg, asked.asked, e)
    ensures Step(cfg, st, asked.Fail(e)) && asked.Fail(e).errs != []
  {
    hide Step, Lawful, Explained;
    Recorded(cfg, asked, e);
    Then(cfg, st, asked, asked.Fail(e));
  }
}
