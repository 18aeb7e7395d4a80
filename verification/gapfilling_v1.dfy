/** `homology_gapfilling(model, templates, model_obj, template_obj)` of the
    older revision (gapfilling/Gapfilling.py): no bridging injectors, no
    exception handling around the solver, and no cap or rejection. After
    each template the solver's reactions stay in the model; the running
    value rises when the new value is higher, the loop stops when it is
    equal, and a lower or missing value is simply passed over. */
module GapfillingV1 {
  import opened Common
  import opened Network
  import opened Objective
  import Gapfilling

  /** The loop's variables: the query model, the running objective value
      and `added_reactions`. */
  datatype State = State(model: Model, value: real, added: map<string, seq<LogEntry>>)

  datatype Flow = Continue(state: State) | Halt(state: State)

  /** One pass of the loop body for template `t`. Solver failures escape. */
  function Step(optimize: Model -> Option<real>, gapfill: (Model, Model) -> SolveOutcome, s: State, t: Model)
    : (r: Result<Flow, Crash>)
    ensures gapfill(s.model, t) == ValidationFailed <==> r == Err(SolverValidationFailed)
    ensures gapfill(s.model, t) == Infeasible <==> r == Err(SolverInfeasible)
    ensures r.Ok? ==> var s' := r.value.state;
      && s'.added == s.added[t.name := SolverEntries(gapfill(s.model, t).reactions)]
      && AppendsFrom(s.model, s'.model, gapfill(s.model, t).reactions)
      && s'.value >= s.value
      && (s'.value > s.value ==> Some(s'.value) == optimize(s'.model))
    ensures r.Ok? ==> (r.value.Halt? <==> optimize(r.value.state.model) == Some(s.value))
    // A solved pass appends the solver's reactions to the model.
    ensures r.Ok? <==> gapfill(s.model, t).Solved?
    ensures r.Ok? ==> r.value.state.model == AddReactions(s.model, gapfill(s.model, t).reactions)
    // A higher new value becomes the running value; otherwise the running value stays.
    ensures r.Ok? ==> var nv := optimize(AddReactions(s.model, gapfill(s.model, t).reactions));
      && (nv.Some? && nv.value > s.value ==> r.value.state.value == nv.value)
      && (nv.None? || nv.value <= s.value ==> r.value.state.value == s.value)
  {
    match gapfill(s.model, t)
    case ValidationFailed => Err(SolverValidationFailed)
    case Infeasible => Err(SolverInfeasible)
    case Solved(rs) =>
      var added := s.added[t.name := SolverEntries(rs)];
      var m := AddReactions(s.model, rs);
      var nv := optimize(m);
      if nv.Some? && nv.value > s.value then Ok(Continue(State(m, nv.value, added)))
      else if nv.None? then Ok(Continue(State(m, s.value, added)))
      else if nv.value == s.value then Ok(Halt(State(m, s.value, added)))
      else Ok(Continue(State(m, s.value, added)))
  }

  /** The loop over the templates, up to the first `break`. */
  function Loop(optimize: Model -> Option<real>, gapfill: (Model, Model) -> SolveOutcome, s: State, ts: seq<Model>)
    : (r: Result<State, Crash>)
    decreases |ts|
  {
    if |ts| == 0 then Ok(s)
    else
      match Step(optimize, gapfill, s, ts[0])
      case Err(e) => Err(e)
      case Ok(Halt(s')) => Ok(s')
      case Ok(Continue(s')) => Loop(optimize, gapfill, s', ts[1..])
  }

  /** `homology_gapfilling` of this revision: the final query model and
      `added_reactions`. Template loading is the one both revisions share. */
  function Run(fid: Gapfilling.Fidelity, modelObjective: Option<string>, templateObjective: Option<string>,
               optimize: Model -> Option<real>, gapfill: (Model, Model) -> SolveOutcome, m: Model, ts: seq<Model>)
    : (r: Result<(Model, map<string, seq<LogEntry>>), Crash>)
    ensures fid == Gapfilling.AsWritten && templateObjective == Some("biomass") ==>
      (r == Err(TemplatesNotIterable) <==> forall i :: 0 <= i < |ts| ==> HasCoreBiomass(ts[i]))
  {
    var m0 := LoadQueryModel(m, modelObjective);
    var loaded := if fid == Gapfilling.AsWritten then LoadTemplateModels(ts, templateObjective)
                  else LoadTemplateModelsIntended(ts, templateObjective);
    LoadTemplateModelsNone(ts);
    match loaded.templates
    case None => Err(TemplatesNotIterable)
    case Some(templates) =>
      var v0 := optimize(m0);
      var s0 := State(m0, if v0.None? then 0.0 else v0.value, map[]);
      LoopNeverNotIterable(optimize, gapfill, s0, templates);
      match Loop(optimize, gapfill, s0, templates)
      case Err(e) => Err(e)
      case Ok(s) => Ok((s.model, s.added))
  }

  /** A query model without a value starts the run at 0.0: a first template
      whose additions bring the value to 0.0 ends the run after it. */
  lemma NoInitialValueStartsAtZero(fid: Gapfilling.Fidelity, modelObjective: Option<string>,
                                   optimize: Model -> Option<real>, gapfill: (Model, Model) -> SolveOutcome,
                                   m: Model, ts: seq<Model>)
    requires |ts| > 0
    requires var m0 := LoadQueryModel(m, modelObjective);
      && optimize(m0).None?
      && gapfill(m0, ts[0]).Solved?
      && optimize(AddReactions(m0, gapfill(m0, ts[0]).reactions)) == Some(0.0)
    ensures var m0 := LoadQueryModel(m, modelObjective);
      var rs := gapfill(m0, ts[0]).reactions;
      Run(fid, modelObjective, None, optimize, gapfill, m, ts) == Ok((AddReactions(m0, rs), map[ts[0].name := SolverEntries(rs)]))
  {
  }

  lemma {:induction false} LoopNeverNotIterable(optimize: Model -> Option<real>, gapfill: (Model, Model) -> SolveOutcome,
                                                s: State, ts: seq<Model>)
    ensures Loop(optimize, gapfill, s, ts) != Err(TemplatesNotIterable)
    decreases |ts|
  {
    if |ts| > 0 {
      var r := Step(optimize, gapfill, s, ts[0]);
      if r.Ok? && r.value.Continue? {
        LoopNeverNotIterable(optimize, gapfill, r.value.state, ts[1..]);
      }
    }
  }

  /** The running value never falls: the final value is at least the
      initial one. */
  lemma {:induction false} LoopValueMonotone(optimize: Model -> Option<real>, gapfill: (Model, Model) -> SolveOutcome,
                                             s: State, ts: seq<Model>)
    requires Loop(optimize, gapfill, s, ts).Ok?
    ensures Loop(optimize, gapfill, s, ts).value.value >= s.value
    decreases |ts|
  {
    if |ts| > 0 {
      var f := Step(optimize, gapfill, s, ts[0]).value;
      if f.Continue? {
        LoopValueMonotone(optimize, gapfill, f.state, ts[1..]);
      }
    }
  }

  /** Reactions are only ever added, and log entries only ever added or
      overwritten, never removed; each key is a starting key or a template
      name. */
  lemma {:induction false} LoopOnlyAdds(optimize: Model -> Option<real>, gapfill: (Model, Model) -> SolveOutcome,
                                        s: State, ts: seq<Model>)
    requires Loop(optimize, gapfill, s, ts).Ok?
    ensures var r := Loop(optimize, gapfill, s, ts).value;
      && Extends(s.model, r.model)
      && s.added.Keys <= r.added.Keys <= s.added.Keys + Gapfilling.Names(ts)
    decreases |ts|
  {
    if |ts| > 0 {
      var f := Step(optimize, gapfill, s, ts[0]).value;
      assert Gapfilling.Names(ts[1..]) <= Gapfilling.Names(ts) by {
        forall x | x in ts[1..] ensures x in ts { }
      }
      if f.Continue? {
        LoopOnlyAdds(optimize, gapfill, f.state, ts[1..]);
        ExtendsTransitive(s.model, f.state.model, Loop(optimize, gapfill, f.state, ts[1..]).value.model);
      }
    }
  }

  /** The loop keeps the query model's reaction ids unique. */
  lemma {:induction false} LoopWellFormed(optimize: Model -> Option<real>, gapfill: (Model, Model) -> SolveOutcome,
                                          s: State, ts: seq<Model>)
    requires WellFormed(s.model)
    requires Loop(optimize, gapfill, s, ts).Ok?
    ensures WellFormed(Loop(optimize, gapfill, s, ts).value.model)
    decreases |ts|
  {
    if |ts| > 0 {
      AddReactionsWellFormed(s.model, gapfill(s.model, ts[0]).reactions);
      var f := Step(optimize, gapfill, s, ts[0]).value;
      if f.Continue? {
        LoopWellFormed(optimize, gapfill, f.state, ts[1..]);
      }
    }
  }

  /** Where neither revision's extra machinery comes into play (no bridging,
      the solver succeeds, the new value is not below the running one) a pass
      of this revision is a pass of the scripts revision. */
  lemma StepAgreesWithScripts(fid: Gapfilling.Fidelity, cfg: Gapfilling.Config, optimize: Model -> Option<real>,
                              gapfill: (Model, Model) -> SolveOutcome, s: State, t: Model)
    requires !cfg.forceExchange && !cfg.forceTransport && !cfg.useAllTemplates
    requires gapfill(s.model, t).Solved?
    requires var nv := optimize(AddReactions(s.model, gapfill(s.model, t).reactions)); nv.None? || nv.value >= s.value
    ensures var r := Step(optimize, gapfill, s, t);
      var w := Gapfilling.Step(fid, cfg, optimize, gapfill, Gapfilling.State(s.model, Some(s.value), s.added), t);
      && r.Ok? && w.Ok? && r.value.Halt? == w.value.Halt?
      && w.value.state == Gapfilling.State(r.value.state.model, Some(r.value.state.value), r.value.state.added)
  {
    var rs := gapfill(s.model, t).reactions;
    assert [] + SolverEntries(rs) == SolverEntries(rs);
    assert s.model.reactions[|s.model.reactions|..] == [];
  }
}
