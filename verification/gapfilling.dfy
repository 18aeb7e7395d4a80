/** `homology_gapfilling` of the scripts revision: the query model is gap
    filled against each template in turn. Before each solve the bridging
    injectors may copy exchange and transport reactions from the template;
    the solver's reactions are then added and logged under the template's
    name. In the default mode the objective value decides after every
    template whether to keep the additions, stop, cap the new reactions'
    flux or take the additions back and stop; with `use_all_templates` every
    template is used unconditionally.

    The flux-balance optimiser and the gap-fill solver are parameters:
    `optimize(m)` is `m.optimize().objective_value` (`None` when there is no
    value) and `gapfill(m, t)` is the outcome of `GapFiller(m, t).fill()`.

    The three defects of the source are modelled as written and as evidently
    intended, selected by `Fidelity`. */
module Gapfilling {
  import opened Common
  import opened Network
  import opened Objective
  import opened Bridging

  datatype Fidelity = AsWritten | Intended

  /** The keyword arguments of `homology_gapfilling`; `integer_threshold`
      is part of the `gapfill` oracle. */
  datatype Config = Config(
    modelObjective: Option<string>,
    templateObjective: Option<string>,
    useAllTemplates: bool,
    forceExchange: bool,
    forceTransport: bool,
    allCompounds: bool,
    ignoreH: bool,
    valueFraction: real)

  /** The loop's variables: the query model, the running objective value
      (`None` once a capped model has no value) and `added_reactions`. */
  datatype State = State(model: Model, value: Option<real>, added: map<string, seq<LogEntry>>)

  /** After one template: go on with the next one, or `break`. */
  datatype Flow = Continue(state: State) | Halt(state: State)

  /** The decision taken once the solver's reactions are in. */
  datatype Verdict = Skip | Improve | Stop | CapNew | RejectNew

  function Names(ts: seq<Model>): set<string> {
    set t | t in ts :: t.name
  }

  /** `log` has one entry per reaction of `qs`, in order: an exchange entry
      under the reaction's id, or a transport entry under
      "Transport reaction: " + id. */
  predicate Describes(log: seq<LogEntry>, qs: seq<Reaction>) {
    && |log| == |qs|
    && forall i :: 0 <= i < |qs| ==> log[i] == LogEntry(qs[i].id, ExchangeTag) || log[i] == TransportEntry(qs[i])
  }

  function ExchangeEntries(ids: seq<string>): seq<LogEntry> {
    seq(|ids|, i requires 0 <= i < |ids| => LogEntry(ids[i], ExchangeTag))
  }

  lemma ExchangeDescribes(qs: seq<Reaction>)
    ensures Describes(ExchangeEntries(Ids(qs)), qs)
    ensures Keys(ExchangeEntries(Ids(qs))) == Ids(qs)
  {
  }

  lemma TransportDescribes(qs: seq<Reaction>)
    ensures Describes(TransportEntries(qs), qs)
  {
  }

  lemma DescribesConcat(l1: seq<LogEntry>, q1: seq<Reaction>, l2: seq<LogEntry>, q2: seq<Reaction>)
    requires Describes(l1, q1) && Describes(l2, q2)
    ensures Describes(l1 + l2, q1 + q2)
  {
    forall i | 0 <= i < |q1 + q2|
      ensures (l1 + l2)[i] == LogEntry((q1 + q2)[i].id, ExchangeTag) || (l1 + l2)[i] == TransportEntry((q1 + q2)[i])
    {
      if i >= |q1| { assert (l1 + l2)[i] == l2[i - |q1|] && (q1 + q2)[i] == q2[i - |q1|]; }
    }
  }

  /** The bridging part of one iteration: exchange reactions if
      `force_exchange`, then transport reactions if `force_transport`, and
      their log entries. The reactions stay in the model whatever the solver
      does next. */
  function Bridge(m: Model, t: Model, cfg: Config): (r: Result<(Model, seq<LogEntry>), Crash>)
    ensures r.Ok? ==> AppendsFrom(m, r.value.0, t.reactions)
    ensures r.Ok? ==> Describes(r.value.1, r.value.0.reactions[|m.reactions|..])
    ensures r.Ok? && !cfg.forceTransport ==> Keys(r.value.1) == Ids(r.value.0.reactions[|m.reactions|..])
    ensures !cfg.forceExchange ==> r.Ok?
    ensures !cfg.forceExchange && !cfg.forceTransport ==> r == Ok((m, []))
    ensures r.Err? ==> r.error == ExchangeWithoutMetabolite
    ensures cfg.forceExchange ==> (r.Err? <==> AddExchangeReactions(m, t).Err?)
  {
    match (if cfg.forceExchange then AddExchangeReactions(m, t) else Ok((m, [])))
    case Err(e) => Err(e)
    case Ok((m1, ids)) =>
      assert ids == Ids(m1.reactions[|m.reactions|..]);
      var elog := ExchangeEntries(ids);
      ExchangeDescribes(m1.reactions[|m.reactions|..]);
      if !cfg.forceTransport then Ok((m1, elog))
      else
        var (m2, tlog) := AddTransport(m1, t, cfg.allCompounds, cfg.ignoreH);
        BridgeTransport(m, m1, m2, t.reactions, elog, tlog);
        Ok((m2, elog + tlog))
  }

  lemma BridgeTransport(m: Model, m1: Model, m2: Model, pool: seq<Reaction>, elog: seq<LogEntry>, tlog: seq<LogEntry>)
    requires AppendsFrom(m, m1, pool) && AppendsFrom(m1, m2, pool)
    requires Describes(elog, m1.reactions[|m.reactions|..])
    requires tlog == TransportEntries(m2.reactions[|m1.reactions|..])
    ensures AppendsFrom(m, m2, pool)
    ensures Describes(elog + tlog, m2.reactions[|m.reactions|..])
  {
    AppendsFromTransitive(m, m1, m2, pool, pool);
    assert m2.reactions[|m.reactions|..] == m1.reactions[|m.reactions|..] + m2.reactions[|m1.reactions|..];
    TransportDescribes(m2.reactions[|m1.reactions|..]);
    DescribesConcat(elog, m1.reactions[|m.reactions|..], tlog, m2.reactions[|m1.reactions|..]);
  }

  /** What is bridged, in closed form: for a template with distinct ids whose
      exchange reactions carry one metabolite each, the reactions appended
      are the exchange candidates (with `force_exchange`) followed by the
      transport candidates of the model as the exchange injector left it
      (with `force_transport`), each logged once in that order. */
  lemma BridgeSpec(m: Model, t: Model, cfg: Config)
    requires Distinct(Ids(t.reactions))
    requires SingleMetaboliteExchanges(t.reactions)
    ensures var ex := if cfg.forceExchange then ExchangeCandidates(Ids(m.reactions), m.metabolites, t.reactions) else [];
      var m1 := m.(reactions := m.reactions + ex);
      var tr := if cfg.forceTransport
                then TransportCandidates(Ids(m1.reactions), t.reactions,
                                         Acceptor(Tokens(t.compartments), KnownCompounds(m1), cfg.allCompounds, cfg.ignoreH))
                else [];
      && Bridge(m, t, cfg).Ok?
      && Bridge(m, t, cfg).value.0.reactions == m.reactions + ex + tr
      && Bridge(m, t, cfg).value.1 == ExchangeEntries(Ids(ex)) + TransportEntries(tr)
  {
    var ex := if cfg.forceExchange then ExchangeCandidates(Ids(m.reactions), m.metabolites, t.reactions) else [];
    var m1 := m.(reactions := m.reactions + ex);
    if cfg.forceExchange {
      AddExchangeReactionsSpec(m, t);
    } else {
      assert m1 == m;
    }
    if cfg.forceTransport {
      AddTransportSpec(m1, t, cfg.allCompounds, cfg.ignoreH);
    }
  }

  /** Bridging raises exactly when `force_exchange` is set and the template,
      with distinct ids, has an `EX_` reaction new to the model and without
      metabolites. */
  lemma BridgeErr(m: Model, t: Model, cfg: Config)
    requires Distinct(Ids(t.reactions))
    ensures Bridge(m, t, cfg).Err? <==>
      cfg.forceExchange && exists q :: q in t.reactions && BareExchange(Ids(m.reactions), q)
  {
    if cfg.forceExchange {
      AddExchangeReactionsErr(m, t);
    }
  }

  /** The comparison chain after the solver's reactions are added, with `v`
      the running value, `nv` the new one and `f` `value_fraction`. A new
      value compared with a `None` running value raises `TypeError`. */
  function Judge(v: Option<real>, nv: Option<real>, f: real): (r: Result<Verdict, Crash>)
    ensures r == Ok(Skip) <==> nv.None?
    ensures r == Err(CompareWithNone) <==> nv.Some? && v.None?
    ensures r == Ok(Improve) <==> nv.Some? && v.Some? && nv.value > v.value
    ensures r == Ok(Stop) <==> nv.Some? && v.Some? && nv.value == v.value
    ensures r == Ok(CapNew) <==> nv.Some? && v.Some? && v.value * f <= nv.value < v.value
    ensures r == Ok(RejectNew) <==> nv.Some? && v.Some? && nv.value < v.value && nv.value < v.value * f
  {
    if nv.Some? && v.Some? && nv.value > v.value then Ok(Improve)
    else if nv.None? then Ok(Skip)
    else if v.None? then Err(CompareWithNone)
    else if nv.value == v.value then Ok(Stop)
    else if nv.value >= v.value * f then Ok(CapNew)
    else Ok(RejectNew)
  }

  /** The cap: every reaction the log refers to gets flux bounds [0, 0]. As
      written the log's keys are looked up with `get_by_id`, which raises
      `KeyError` for a key that names no reaction, such as every
      "Transport reaction: <id>" key; as intended the lookup uses the ids the
      log refers to, `targets`. */
  function Cap(fid: Fidelity, m: Model, log: seq<LogEntry>, targets: seq<string>): (r: Result<Model, Crash>)
    ensures fid == Intended ==> r.Ok?
    ensures fid == AsWritten ==> (r.Ok? <==> forall k :: k in Keys(log) ==> k in Ids(m.reactions))
    ensures r.Ok? ==> r.value == m.(reactions := r.value.reactions) && Ids(r.value.reactions) == Ids(m.reactions)
    ensures r.Ok? ==> var ids := if fid == AsWritten then Keys(log) else targets;
      forall i :: 0 <= i < |m.reactions| ==>
        if m.reactions[i].id in ids then r.value.reactions[i] == m.reactions[i].(lower := 0.0, upper := 0.0)
        else r.value.reactions[i] == m.reactions[i]
  {
    match fid
    case AsWritten =>
      if forall k :: k in Keys(log) ==> k in Ids(m.reactions) then Ok(m.(reactions := Bound(m.reactions, Keys(log))))
      else Err(CapLookupFailed)
    case Intended => Ok(m.(reactions := Bound(m.reactions, targets)))
  }

  /** The rejection: the reactions of this iteration leave the model (their
      metabolites stay). As written the ids are read from
      `Model.reactions.log`, an attribute the reaction list does not have, so
      any non-empty log raises; an empty log removes nothing. */
  function Reject(fid: Fidelity, m: Model, log: seq<LogEntry>, targets: seq<string>): (r: Result<Model, Crash>)
    ensures fid == AsWritten ==> (r.Ok? <==> |log| == 0) && (r.Ok? ==> r.value == m)
    ensures fid == Intended ==> r.Ok? && r.value == m.(reactions := r.value.reactions)
    ensures fid == Intended ==> forall q :: q in r.value.reactions <==> q in m.reactions && q.id !in targets
  {
    match fid
    case AsWritten => if |log| == 0 then Ok(m) else Err(RejectLookupFailed)
    case Intended => Ok(m.(reactions := Remove(m.reactions, targets)))
  }

  /** One pass of the loop body for template `t`. A solver failure is caught
      and skips the template, keeping the bridging reactions; any other
      exception escapes. */
  function Step(fid: Fidelity, cfg: Config, optimize: Model -> Option<real>, gapfill: (Model, Model) -> SolveOutcome,
                s: State, t: Model): (r: Result<Flow, Crash>)
    ensures r.Ok? ==> r.value.state.added.Keys <= s.added.Keys + {t.name}
    ensures r.Ok? ==> var m' := r.value.state.model;
      m'.name == s.model.name && m'.compartments == s.model.compartments && m'.objective == s.model.objective
    ensures r.Ok? && r.value.Halt? ==> !cfg.useAllTemplates
    ensures r.Err? ==> r.error in {ExchangeWithoutMetabolite, CompareWithNone, CapLookupFailed, RejectLookupFailed}
    // The exchange injector's exception escapes.
    ensures Bridge(s.model, t, cfg).Err? ==> r == Err(ExchangeWithoutMetabolite)
    // A caught solver failure skips the template but keeps the bridging reactions.
    ensures Bridge(s.model, t, cfg).Ok? && !gapfill(Bridge(s.model, t, cfg).value.0, t).Solved? ==>
      r == Ok(Continue(s.(model := Bridge(s.model, t, cfg).value.0)))
    // A solved pass logs the bridging entries and then the solver's under the
    // template's name, and appends the solver's reactions to the bridged model;
    // with `use_all_templates` that is the whole pass, otherwise `Decide` follows.
    ensures Bridge(s.model, t, cfg).Ok? && gapfill(Bridge(s.model, t, cfg).value.0, t).Solved? ==>
      var (bm, blog) := Bridge(s.model, t, cfg).value;
      var rs := gapfill(bm, t).reactions;
      var added := s.added[t.name := blog + SolverEntries(rs)];
      && (cfg.useAllTemplates ==> r == Ok(Continue(State(AddReactions(bm, rs), s.value, added))))
      && (!cfg.useAllTemplates ==>
            r == Decide(fid, cfg.valueFraction, optimize, s.value, AddReactions(bm, rs), blog + SolverEntries(rs),
                        Ids(bm.reactions[|s.model.reactions|..]) + Ids(rs), added, t.name))
  {
    match Bridge(s.model, t, cfg)
    case Err(e) => Err(e)
    case Ok((bm, blog)) =>
      match gapfill(bm, t)
      case ValidationFailed => Ok(Continue(s.(model := bm)))
      case Infeasible => Ok(Continue(s.(model := bm)))
      case Solved(rs) =>
        var log := blog + SolverEntries(rs);
        var added := s.added[t.name := log];
        var m := AddReactions(bm, rs);
        if cfg.useAllTemplates then Ok(Continue(State(m, s.value, added)))
        else Decide(fid, cfg.valueFraction, optimize, s.value, m, log,
                    Ids(bm.reactions[|s.model.reactions|..]) + Ids(rs), added, t.name)
  }

  /** The default mode's decision once the solver's reactions are in `m`:
      `v` is the running value, `log` this template's log, `targets` the ids
      it refers to and `added` the log map with this template's entry. */
  function Decide(fid: Fidelity, f: real, optimize: Model -> Option<real>, v: Option<real>, m: Model,
                  log: seq<LogEntry>, targets: seq<string>, added: map<string, seq<LogEntry>>, name: string)
    : (r: Result<Flow, Crash>)
    ensures r.Ok? ==> r.value.state.added.Keys <= added.Keys
    ensures r.Ok? ==> var m' := r.value.state.model;
      m'.name == m.name && m'.compartments == m.compartments && m'.objective == m.objective
    ensures r.Ok? && r.value.Halt? ==> r.value.state.value == v
    ensures r.Ok? && r.value.Continue? ==> r.value.state.added == added
    ensures r.Ok? ==> var v' := r.value.state.value;
      v' == v || (v'.Some? && v.Some? && v'.value > v.value) || v' == optimize(r.value.state.model)
    ensures r.Err? ==> r.error in {CompareWithNone, CapLookupFailed, RejectLookupFailed}
    // No new value: the template is passed over, its reactions and entry kept.
    ensures optimize(m).None? ==> r == Ok(Continue(State(m, v, added)))
    // A new value compared with a running value of `None`.
    ensures optimize(m).Some? && v.None? ==> r == Err(CompareWithNone)
    // A higher value becomes the running value.
    ensures optimize(m).Some? && v.Some? && optimize(m).value > v.value ==>
      r == Ok(Continue(State(m, optimize(m), added)))
    // An equal value ends the loop with the template's reactions and entry kept.
    ensures optimize(m).Some? && v.Some? && optimize(m).value == v.value ==> r == Ok(Halt(State(m, v, added)))
    // A moderate drop: the model is capped and its own value becomes the running value.
    ensures optimize(m).Some? && v.Some? && v.value * f <= optimize(m).value < v.value ==>
      && (r.Ok? <==> Cap(fid, m, log, targets).Ok?)
      && (r.Err? ==> r.error == CapLookupFailed)
      && (r.Ok? ==> var c := Cap(fid, m, log, targets).value; r == Ok(Continue(State(c, optimize(c), added))))
    // A larger drop: the additions are taken back, the entry is deleted and the loop ends.
    ensures optimize(m).Some? && v.Some? && optimize(m).value < v.value && optimize(m).value < v.value * f ==>
      && (r.Ok? <==> Reject(fid, m, log, targets).Ok?)
      && (r.Err? ==> r.error == RejectLookupFailed)
      && (r.Ok? ==> r == Ok(Halt(State(Reject(fid, m, log, targets).value, v, added - {name}))))
  {
    var nv := optimize(m);
    match Judge(v, nv, f)
    case Err(e) => Err(e)
    case Ok(Skip) => Ok(Continue(State(m, v, added)))
    case Ok(Improve) => Ok(Continue(State(m, nv, added)))
    case Ok(Stop) => Ok(Halt(State(m, v, added)))
    case Ok(CapNew) =>
      (match Cap(fid, m, log, targets)
       case Err(e) => Err(e)
       case Ok(capped) => Ok(Continue(State(capped, optimize(capped), added))))
    case Ok(RejectNew) =>
      (match Reject(fid, m, log, targets)
       case Err(e) => Err(e)
       case Ok(back) => Ok(Halt(State(back, v, added - {name}))))
  }

  /** The loop over the templates, up to the first `break`. */
  function Loop(fid: Fidelity, cfg: Config, optimize: Model -> Option<real>, gapfill: (Model, Model) -> SolveOutcome,
                s: State, ts: seq<Model>): (r: Result<State, Crash>)
    ensures r.Ok? ==> r.value.added.Keys <= s.added.Keys + Names(ts)
    ensures r.Ok? ==> r.value.model.name == s.model.name
    ensures r.Err? ==> r.error in {ExchangeWithoutMetabolite, CompareWithNone, CapLookupFailed, RejectLookupFailed}
    decreases |ts|
  {
    if |ts| == 0 then Ok(s)
    else
      assert Names(ts[1..]) <= Names(ts) by {
        forall x | x in ts[1..] ensures x in ts { }
      }
      match Step(fid, cfg, optimize, gapfill, s, ts[0])
      case Err(e) => Err(e)
      case Ok(Halt(s')) => Ok(s')
      case Ok(Continue(s')) => Loop(fid, cfg, optimize, gapfill, s', ts[1..])
  }

  /** `homology_gapfilling(model, templates, ...)`: the final query model and
      `added_reactions`. The initial value is the query model's, 0.0 when it
      has none. */
  function Run(fid: Fidelity, cfg: Config, optimize: Model -> Option<real>, gapfill: (Model, Model) -> SolveOutcome,
               m: Model, ts: seq<Model>): (r: Result<(Model, map<string, seq<LogEntry>>), Crash>)
    ensures r.Ok? ==> r.value.1.Keys <= Names(ts)
    ensures r.Ok? ==> r.value.0.name == m.name
  {
    var m0 := LoadQueryModel(m, cfg.modelObjective);
    var loaded := if fid == AsWritten then LoadTemplateModels(ts, cfg.templateObjective)
                  else LoadTemplateModelsIntended(ts, cfg.templateObjective);
    match loaded.templates
    case None => Err(TemplatesNotIterable)
    case Some(templates) =>
      LoadTemplateModelsObjectivesOnly(ts, cfg.templateObjective);
      assert Names(templates) <= Names(ts) by {
        forall x | x in templates ensures x.name in Names(ts) {
          var i :| 0 <= i < |templates| && templates[i] == x;
          assert ts[i] in ts;
        }
      }
      var v0 := optimize(m0);
      var s0 := State(m0, Some(if v0.None? then 0.0 else v0.value), map[]);
      match Loop(fid, cfg, optimize, gapfill, s0, templates)
      case Err(e) => Err(e)
      case Ok(s) => Ok((s.model, s.added))
  }

  /** A query model without a value starts the run at 0.0, not at `None`:
      a first template whose additions bring the value to 0.0 ends the run
      after it, with the template's reactions and entry kept, where a running
      `None` would have raised. */
  lemma NoInitialValueStartsAtZero(fid: Fidelity, cfg: Config, optimize: Model -> Option<real>,
                                   gapfill: (Model, Model) -> SolveOutcome, m: Model, ts: seq<Model>)
    requires cfg.templateObjective.None? && !cfg.useAllTemplates && !cfg.forceExchange && !cfg.forceTransport
    requires |ts| > 0
    requires var m0 := LoadQueryModel(m, cfg.modelObjective);
      && optimize(m0).None?
      && gapfill(m0, ts[0]).Solved?
      && optimize(AddReactions(m0, gapfill(m0, ts[0]).reactions)) == Some(0.0)
    ensures var m0 := LoadQueryModel(m, cfg.modelObjective);
      var rs := gapfill(m0, ts[0]).reactions;
      Run(fid, cfg, optimize, gapfill, m, ts) == Ok((AddReactions(m0, rs), map[ts[0].name := SolverEntries(rs)]))
  {
    var m0 := LoadQueryModel(m, cfg.modelObjective);
    var rs := gapfill(m0, ts[0]).reactions;
    assert Bridge(m0, ts[0], cfg) == Ok((m0, []));
    assert m0.reactions[|m0.reactions|..] == [];
    assert [] + SolverEntries(rs) == SolverEntries(rs);
  }

  /** The bridging injectors keep reaction ids unique. */
  lemma BridgeWellFormed(m: Model, t: Model, cfg: Config)
    requires WellFormed(m)
    requires Bridge(m, t, cfg).Ok?
    ensures WellFormed(Bridge(m, t, cfg).value.0)
  {
    var m1 := m;
    if cfg.forceExchange {
      ExchangeFoldWellFormed(m, t.reactions);
      m1 := AddExchangeReactions(m, t).value.0;
    }
    if cfg.forceTransport {
      TransportFoldWellFormed(m1, t.reactions, Acceptor(Tokens(t.compartments), KnownCompounds(m1), cfg.allCompounds, cfg.ignoreH));
    }
  }

  /** Each pass keeps the query model's reaction ids unique, whichever branch
      it takes. */
  lemma StepWellFormed(fid: Fidelity, cfg: Config, optimize: Model -> Option<real>, gapfill: (Model, Model) -> SolveOutcome,
                       s: State, t: Model)
    requires WellFormed(s.model)
    requires Step(fid, cfg, optimize, gapfill, s, t).Ok?
    ensures WellFormed(Step(fid, cfg, optimize, gapfill, s, t).value.state.model)
  {
    BridgeWellFormed(s.model, t, cfg);
    var (bm, blog) := Bridge(s.model, t, cfg).value;
    if gapfill(bm, t).Solved? {
      var rs := gapfill(bm, t).reactions;
      AddReactionsWellFormed(bm, rs);
      if !cfg.useAllTemplates {
        var log := blog + SolverEntries(rs);
        DecideWellFormed(fid, cfg.valueFraction, optimize, s.value, AddReactions(bm, rs), log,
                         Ids(bm.reactions[|s.model.reactions|..]) + Ids(rs), s.added[t.name := log], t.name);
      }
    }
  }

  lemma DecideWellFormed(fid: Fidelity, f: real, optimize: Model -> Option<real>, v: Option<real>, m: Model,
                         log: seq<LogEntry>, targets: seq<string>, added: map<string, seq<LogEntry>>, name: string)
    requires WellFormed(m)
    requires Decide(fid, f, optimize, v, m, log, targets, added, name).Ok?
    ensures WellFormed(Decide(fid, f, optimize, v, m, log, targets, added, name).value.state.model)
  {
    RemoveDistinct(m.reactions, targets);
  }

  /** The whole loop keeps the query model's reaction ids unique. */
  lemma {:induction false} LoopWellFormed(fid: Fidelity, cfg: Config, optimize: Model -> Option<real>,
                                          gapfill: (Model, Model) -> SolveOutcome, s: State, ts: seq<Model>)
    requires WellFormed(s.model)
    requires Loop(fid, cfg, optimize, gapfill, s, ts).Ok?
    ensures WellFormed(Loop(fid, cfg, optimize, gapfill, s, ts).value.model)
    decreases |ts|
  {
    if |ts| > 0 {
      StepWellFormed(fid, cfg, optimize, gapfill, s, ts[0]);
      var f := Step(fid, cfg, optimize, gapfill, s, ts[0]).value;
      if f.Continue? {
        LoopWellFormed(fid, cfg, optimize, gapfill, f.state, ts[1..]);
      }
    }
  }

  /** A run that returns leaves a query model with unique reaction ids. */
  lemma RunWellFormed(fid: Fidelity, cfg: Config, optimize: Model -> Option<real>, gapfill: (Model, Model) -> SolveOutcome,
                      m: Model, ts: seq<Model>)
    requires WellFormed(m)
    requires Run(fid, cfg, optimize, gapfill, m, ts).Ok?
    ensures WellFormed(Run(fid, cfg, optimize, gapfill, m, ts).value.0)
  {
    var m0 := LoadQueryModel(m, cfg.modelObjective);
    assert Ids(m0.reactions) == Ids(m.reactions);
    var loaded := if fid == AsWritten then LoadTemplateModels(ts, cfg.templateObjective)
                  else LoadTemplateModelsIntended(ts, cfg.templateObjective);
    var v0 := optimize(m0);
    var s0 := State(m0, Some(if v0.None? then 0.0 else v0.value), map[]);
    LoopWellFormed(fid, cfg, optimize, gapfill, s0, loaded.templates.value);
  }

  /** When the solver raises, the template is skipped: `added_reactions` and
      the running value are untouched, but the bridging reactions copied for
      it stay in the model. */
  lemma SolverFailureKeepsBridging(fid: Fidelity, cfg: Config, optimize: Model -> Option<real>,
                                   gapfill: (Model, Model) -> SolveOutcome, s: State, t: Model)
    requires Bridge(s.model, t, cfg).Ok?
    requires !gapfill(Bridge(s.model, t, cfg).value.0, t).Solved?
    ensures var r := Step(fid, cfg, optimize, gapfill, s, t);
      && r.Ok? && r.value.Continue?
      && r.value.state.added == s.added && r.value.state.value == s.value
      && AppendsFrom(s.model, r.value.state.model, t.reactions)
      && |r.value.state.model.reactions| - |s.model.reactions| == |Bridge(s.model, t, cfg).value.1|
  {
  }

  /** Without the transport injector every log key is a reaction id, so the
      as-written pass agrees with the intended one, except that it raises
      where a non-empty set of additions is rejected. */
  lemma StepAgreesWithoutTransport(cfg: Config, optimize: Model -> Option<real>, gapfill: (Model, Model) -> SolveOutcome,
                                   s: State, t: Model)
    requires !cfg.forceTransport
    ensures var w := Step(AsWritten, cfg, optimize, gapfill, s, t);
      w == Step(Intended, cfg, optimize, gapfill, s, t) || w == Err(RejectLookupFailed)
  {
    if Bridge(s.model, t, cfg).Ok? {
      var (bm, blog) := Bridge(s.model, t, cfg).value;
      if gapfill(bm, t).Solved? && !cfg.useAllTemplates {
        SolvedPassAgrees(cfg.valueFraction, optimize, s, bm, blog, gapfill(bm, t).reactions, t.name);
      }
    }
  }

  /** The decision after a solved pass without transport entries: the log's
      keys are the ids of the bridging and solver reactions. */
  lemma SolvedPassAgrees(f: real, optimize: Model -> Option<real>, s: State, bm: Model, blog: seq<LogEntry>,
                         rs: seq<Reaction>, name: string)
    requires Extends(s.model, bm)
    requires Keys(blog) == Ids(bm.reactions[|s.model.reactions|..])
    ensures var log := blog + SolverEntries(rs);
      var targets := Ids(bm.reactions[|s.model.reactions|..]) + Ids(rs);
      var m := AddReactions(bm, rs);
      var w := Decide(AsWritten, f, optimize, s.value, m, log, targets, s.added[name := log], name);
      w == Decide(Intended, f, optimize, s.value, m, log, targets, s.added[name := log], name) || w == Err(RejectLookupFailed)
  {
    var m := AddReactions(bm, rs);
    var log := blog + SolverEntries(rs);
    var targets := Ids(bm.reactions[|s.model.reactions|..]) + Ids(rs);
    assert Keys(log) == targets && Cap(AsWritten, m, log, targets) == Cap(Intended, m, log, targets) by {
      assert Keys(SolverEntries(rs)) == Ids(rs);
      assert Keys(log) == Keys(blog) + Keys(SolverEntries(rs));
      CapAgrees(s.model, bm, rs, log, targets);
    }
    DecideAgrees(f, optimize, s.value, m, log, targets, s.added[name := log], name);
  }

  /** `Decide` on a log whose keys are exactly its targets, all of them
      reaction ids. */
  lemma DecideAgrees(f: real, optimize: Model -> Option<real>, v: Option<real>, m: Model,
                     log: seq<LogEntry>, targets: seq<string>, added: map<string, seq<LogEntry>>, name: string)
    requires Keys(log) == targets
    requires Cap(AsWritten, m, log, targets) == Cap(Intended, m, log, targets)
    ensures var w := Decide(AsWritten, f, optimize, v, m, log, targets, added, name);
      w == Decide(Intended, f, optimize, v, m, log, targets, added, name) || w == Err(RejectLookupFailed)
  {
    match Judge(v, optimize(m), f)
    case Ok(RejectNew) =>
      if |log| == 0 {
        RemoveNothing(m.reactions, targets);
        assert m.(reactions := m.reactions) == m;
      }
    case _ =>
  }

  /** The cap on keys that all name reactions is the intended cap. */
  lemma CapAgrees(pre: Model, bm: Model, rs: seq<Reaction>, log: seq<LogEntry>, targets: seq<string>)
    requires Extends(pre, bm)
    requires targets == Ids(bm.reactions[|pre.reactions|..]) + Ids(rs) && Keys(log) == targets
    ensures Cap(AsWritten, AddReactions(bm, rs), log, targets) == Cap(Intended, AddReactions(bm, rs), log, targets)
  {
    var m := AddReactions(bm, rs);
    AddReactionsCovers(bm, rs);
    AppendedPresent(pre, bm, m);
    assert forall k :: k in Keys(log) ==> k in Ids(m.reactions);
  }

  /** The reactions appended between `pre` and `bm` are still in any
      extension of `bm`. */
  lemma AppendedPresent(pre: Model, bm: Model, m: Model)
    requires Extends(pre, bm) && Extends(bm, m)
    ensures forall k :: k in Ids(bm.reactions[|pre.reactions|..]) ==> k in Ids(m.reactions)
  {
    forall k | k in Ids(bm.reactions[|pre.reactions|..]) ensures k in Ids(m.reactions) {
      var j :| 0 <= j < |bm.reactions[|pre.reactions|..]| && Ids(bm.reactions[|pre.reactions|..])[j] == k;
      assert m.reactions[|pre.reactions| + j] == bm.reactions[|pre.reactions| + j];
      assert Ids(m.reactions)[|pre.reactions| + j] == k;
    }
  }

  /** The intended rejection restores the query model's reactions as they
      were before the template (bridging reactions included) when the solver
      proposed only reactions the model lacked. */
  lemma RejectRestores(pre: Model, bm: Model, rs: seq<Reaction>, pool: seq<Reaction>, log: seq<LogEntry>)
    requires AppendsFrom(pre, bm, pool)
    requires forall x :: x in Ids(rs) ==> x !in Ids(pre.reactions)
    ensures var m := AddReactions(bm, rs);
      Reject(Intended, m, log, Ids(bm.reactions[|pre.reactions|..]) + Ids(rs)) == Ok(m.(reactions := pre.reactions))
  {
    RemoveNew(pre, bm, rs, pool);
  }

  /** Removing the targets from the model after the template leaves the
      reactions it had before. */
  lemma RemoveNew(pre: Model, bm: Model, rs: seq<Reaction>, pool: seq<Reaction>)
    requires AppendsFrom(pre, bm, pool)
    requires forall x :: x in Ids(rs) ==> x !in Ids(pre.reactions)
    ensures Remove(AddReactions(bm, rs).reactions, Ids(bm.reactions[|pre.reactions|..]) + Ids(rs)) == pre.reactions
  {
    var m := AddReactions(bm, rs);
    var targets := Ids(bm.reactions[|pre.reactions|..]) + Ids(rs);
    ExtendsTransitive(pre, bm, m);
    var tail := m.reactions[|pre.reactions|..];
    assert m.reactions == pre.reactions + tail;
    RemoveConcat(pre.reactions, tail, targets);
    NewReactionsTargeted(pre, bm, rs);
    RemoveCovered(tail, targets);
    TargetsFresh(pre, bm, rs, pool);
    RemoveNothing(pre.reactions, targets);
  }

  /** Every reaction added since `pre` is one the targets name. */
  lemma NewReactionsTargeted(pre: Model, bm: Model, rs: seq<Reaction>)
    requires Extends(pre, bm)
    ensures var m := AddReactions(bm, rs);
      |pre.reactions| <= |m.reactions| &&
      forall q :: q in m.reactions[|pre.reactions|..] ==> q.id in Ids(bm.reactions[|pre.reactions|..]) + Ids(rs)
  {
    var m := AddReactions(bm, rs);
    var n := |pre.reactions|;
    var tail := m.reactions[n..];
    forall q | q in tail ensures q.id in Ids(bm.reactions[n..]) + Ids(rs) {
      var i :| 0 <= i < |tail| && tail[i] == q;
      NewReactionTargeted(pre, bm, m, rs, n + i);
    }
  }

  /** The reaction at one position after `pre`, taken from `bm` or from
      the solver's list. */
  lemma NewReactionTargeted(pre: Model, bm: Model, m: Model, rs: seq<Reaction>, k: nat)
    requires Extends(pre, bm) && AppendsFrom(bm, m, rs)
    requires |pre.reactions| <= k < |m.reactions|
    ensures m.reactions[k].id in Ids(bm.reactions[|pre.reactions|..]) + Ids(rs)
  {
    var n := |pre.reactions|;
    if k < |bm.reactions| {
      assert m.reactions[k] == m.reactions[..|bm.reactions|][k] == bm.reactions[k];
      assert Ids(bm.reactions[n..])[k - n] == m.reactions[k].id;
    } else {
      IdsMember(rs, m.reactions[k]);
    }
  }

  /** No target names a reaction the model had before the template. */
  lemma TargetsFresh(pre: Model, bm: Model, rs: seq<Reaction>, pool: seq<Reaction>)
    requires AppendsFrom(pre, bm, pool)
    requires forall x :: x in Ids(rs) ==> x !in Ids(pre.reactions)
    ensures forall x :: x in Ids(bm.reactions[|pre.reactions|..]) + Ids(rs) ==> x !in Ids(pre.reactions)
  {
    var n := |pre.reactions|;
    forall x | x in Ids(bm.reactions[n..]) ensures x !in Ids(pre.reactions) {
      var j :| 0 <= j < |bm.reactions[n..]| && Ids(bm.reactions[n..])[j] == x;
      assert bm.reactions[n + j].id == x;
    }
  }

  /** A concrete cap the as-written code cannot carry out: transport
      reaction "T" was bridged in, its log key is "Transport reaction: T",
      and the new value 0.9 lies between 0.8 and the running 1.0. The
      as-written pass raises `KeyError`; the intended one caps "T" and
      carries on with the capped model's value. */
  lemma CapCrashExample()
    ensures var t := Reaction("T", [("A_c", -1.0), ("A_e", 1.0)], ["g1"], -1000.0, 1000.0);
      var m := Model("query", [t], ["A_c", "A_e"], ["c", "e"], "bio");
      var log := [TransportEntry(t)];
      var added := map["template" := log];
      var optimize := (x: Model) => if |x.reactions| > 0 && x.reactions[0].upper == 0.0 then Some(0.5) else Some(0.9);
      && Decide(AsWritten, 0.8, optimize, Some(1.0), m, log, ["T"], added, "template") == Err(CapLookupFailed)
      && Decide(Intended, 0.8, optimize, Some(1.0), m, log, ["T"], added, "template")
         == Ok(Continue(State(m.(reactions := [t.(lower := 0.0, upper := 0.0)]), Some(0.5), added)))
  {
    var t := Reaction("T", [("A_c", -1.0), ("A_e", 1.0)], ["g1"], -1000.0, 1000.0);
    var m := Model("query", [t], ["A_c", "A_e"], ["c", "e"], "bio");
    var log := [TransportEntry(t)];
    assert TransportEntry(t).key == "Transport reaction: T";
    assert Keys(log) == ["Transport reaction: T"];
    assert Ids(m.reactions) == ["T"];
    assert "Transport reaction: T" != "T";
    assert Bound(m.reactions, ["T"]) == [t.(lower := 0.0, upper := 0.0)];
    var optimize := (x: Model) => if |x.reactions| > 0 && x.reactions[0].upper == 0.0 then Some(0.5) else Some(0.9);
    var added := map["template" := log];
    assert optimize(m) == Some(0.9);
    assert Judge(Some(1.0), Some(0.9), 0.8) == Ok(CapNew);
    assert "Transport reaction: T" in Keys(log) && "Transport reaction: T" !in Ids(m.reactions);
    assert Cap(AsWritten, m, log, ["T"]) == Err(CapLookupFailed);
    var capped := m.(reactions := [t.(lower := 0.0, upper := 0.0)]);
    assert Cap(Intended, m, log, ["T"]) == Ok(capped);
    assert optimize(capped) == Some(0.5);
    assert Decide(AsWritten, 0.8, optimize, Some(1.0), m, log, ["T"], added, "template") == Err(CapLookupFailed);
    assert Decide(Intended, 0.8, optimize, Some(1.0), m, log, ["T"], added, "template")
         == Ok(Continue(State(capped, Some(0.5), added)));
  }

  /** A concrete rejection the as-written code cannot carry out: the
      solver's reaction "R" brings the value down from 1.0 to 0.5, below
      0.8 of it. The as-written pass raises `AttributeError`; the intended
      one removes "R" and drops the template's entry. */
  lemma RejectCrashExample()
    ensures var q := Reaction("R", [("A_c", -1.0)], [], 0.0, 1000.0);
      var m := Model("query", [q], ["A_c"], ["c"], "bio");
      var log := [LogEntry("R", Genes([]))];
      var added := map["template" := log];
      var optimize := (x: Model) => Some(0.5);
      && Decide(AsWritten, 0.8, optimize, Some(1.0), m, log, ["R"], added, "template") == Err(RejectLookupFailed)
      && Decide(Intended, 0.8, optimize, Some(1.0), m, log, ["R"], added, "template")
         == Ok(Halt(State(m.(reactions := []), Some(1.0), map[])))
  {
    var q := Reaction("R", [("A_c", -1.0)], [], 0.0, 1000.0);
    assert Remove([q], ["R"]) == [];
    assert map["template" := [LogEntry("R", Genes([]))]] - {"template"} == map[];
  }

  /** The scenario of `RejectedTemplateExample`: a query model with no
      reactions, two templates each proposing one reaction, an optimiser
      whose value depends only on the number of reactions, and a solver that
      proposes the template's reactions. */
  const ExampleConfig := Config(None, None, false, false, false, false, false, 0.8)
  const ExampleR1 := Reaction("R1", [], ["g1"], 0.0, 1000.0)
  const ExampleR2 := Reaction("R2", [], ["g2"], 0.0, 1000.0)
  const ExampleQuery := Model("query", [], [], [], "bio")
  const ExampleT1 := Model("t1", [ExampleR1], [], [], "bio")
  const ExampleT2 := Model("t2", [ExampleR2], [], [], "bio")
  const ExampleLog1 := [LogEntry("R1", Genes(["g1"]))]
  const ExampleLog2 := [LogEntry("R2", Genes(["g2"]))]

  function ExampleValue(x: Model): Option<real> {
    Some(if |x.reactions| == 0 then 0.0 else if |x.reactions| == 1 then 5.0 else 1.0)
  }

  function ExampleSolve(x: Model, t: Model): SolveOutcome {
    Solved(t.reactions)
  }

  /** The first template raises the value from 0.0 to 5.0 and is kept. */
  lemma ExampleFirstTemplate(fid: Fidelity)
    ensures Step(fid, ExampleConfig, ExampleValue, ExampleSolve, State(ExampleQuery, Some(0.0), map[]), ExampleT1)
      == Ok(Continue(State(ExampleQuery.(reactions := [ExampleR1]), Some(5.0), map["t1" := ExampleLog1])))
  {
    var q := ExampleQuery;
    var m1 := q.(reactions := [ExampleR1]);
    var added := map["t1" := ExampleLog1];
    assert Bridge(q, ExampleT1, ExampleConfig) == Ok((q, []));
    assert ExampleSolve(q, ExampleT1) == Solved([ExampleR1]);
    assert [] + SolverEntries([ExampleR1]) == ExampleLog1;
    assert AddReactions(q, [ExampleR1]) == m1;
    assert Ids(q.reactions[|q.reactions|..]) + Ids([ExampleR1]) == ["R1"];
    assert ExampleValue(m1) == Some(5.0);
    assert Judge(Some(0.0), Some(5.0), 0.8) == Ok(Improve);
    assert Decide(fid, 0.8, ExampleValue, Some(0.0), m1, ExampleLog1, ["R1"], added, "t1")
      == Ok(Continue(State(m1, Some(5.0), added)));
  }

  /** The second template brings the value down to 1.0, below 0.8 of 5.0. */
  lemma ExampleSecondTemplate(fid: Fidelity)
    ensures var m1 := ExampleQuery.(reactions := [ExampleR1]);
      var s1 := State(m1, Some(5.0), map["t1" := ExampleLog1]);
      Step(fid, ExampleConfig, ExampleValue, ExampleSolve, s1, ExampleT2)
      == if fid == Intended then Ok(Halt(State(m1, Some(5.0), map["t1" := ExampleLog1]))) else Err(RejectLookupFailed)
  {
    var m1 := ExampleQuery.(reactions := [ExampleR1]);
    var m2 := ExampleQuery.(reactions := [ExampleR1, ExampleR2]);
    var both := map["t1" := ExampleLog1, "t2" := ExampleLog2];
    assert "R1" != "R2" by { assert "R2"[1] != "R1"[1]; }
    assert Bridge(m1, ExampleT2, ExampleConfig) == Ok((m1, []));
    assert ExampleSolve(m1, ExampleT2) == Solved([ExampleR2]);
    assert [] + SolverEntries([ExampleR2]) == ExampleLog2;
    assert map["t1" := ExampleLog1][ "t2" := ExampleLog2] == both;
    assert AddReactions(m1, [ExampleR2]) == m2 by {
      assert Ids(m1.reactions) == ["R1"];
    }
    assert Ids(m1.reactions[|m1.reactions|..]) + Ids([ExampleR2]) == ["R2"];
    assert ExampleValue(m2) == Some(1.0);
    assert Judge(Some(5.0), Some(1.0), 0.8) == Ok(RejectNew);
    assert Remove([ExampleR1, ExampleR2], ["R2"]) == [ExampleR1] by {
      assert [ExampleR1, ExampleR2][1..] == [ExampleR2];
      assert Remove([ExampleR2], ["R2"]) == [];
    }
    assert both - {"t2"} == map["t1" := ExampleLog1];
    assert Decide(fid, 0.8, ExampleValue, Some(5.0), m2, ExampleLog2, ["R2"], both, "t2")
      == if fid == Intended then Ok(Halt(State(m1, Some(5.0), map["t1" := ExampleLog1]))) else Err(RejectLookupFailed);
  }

  /** A two-template run in the default mode: the first template's reaction
      "R1" raises the value from 0.0 to 5.0; the second's, "R2", brings it to
      1.0, below 0.8 of 5.0. The intended run takes "R2" back and returns the
      model with "R1" and a log for the first template only; the as-written
      run raises `AttributeError` in the rejection. */
  lemma RejectedTemplateExample(fid: Fidelity)
    ensures Run(fid, ExampleConfig, ExampleValue, ExampleSolve, ExampleQuery, [ExampleT1, ExampleT2])
      == if fid == Intended then Ok((ExampleQuery.(reactions := [ExampleR1]), map["t1" := ExampleLog1]))
         else Err(RejectLookupFailed)
  {
    var ts := [ExampleT1, ExampleT2];
    var s0 := State(ExampleQuery, Some(0.0), map[]);
    var m1 := ExampleQuery.(reactions := [ExampleR1]);
    var s1 := State(m1, Some(5.0), map["t1" := ExampleLog1]);
    assert LoadQueryModel(ExampleQuery, None) == ExampleQuery;
    assert LoadTemplateModels(ts, None).templates == Some(ts);
    assert LoadTemplateModelsIntended(ts, None).templates == Some(ts);
    assert ExampleValue(ExampleQuery) == Some(0.0);
    ExampleFirstTemplate(fid);
    ExampleSecondTemplate(fid);
    assert ts[1..] == [ExampleT2];
    assert Loop(fid, ExampleConfig, ExampleValue, ExampleSolve, s1, [ExampleT2])
      == if fid == Intended then Ok(State(m1, Some(5.0), map["t1" := ExampleLog1])) else Err(RejectLookupFailed);
    assert Loop(fid, ExampleConfig, ExampleValue, ExampleSolve, s0, ts)
      == Loop(fid, ExampleConfig, ExampleValue, ExampleSolve, s1, [ExampleT2]);
  }

  /** With `use_all_templates` no pass stops the loop, so the run over
      `ts + [t]` is the run over `ts` followed by one more pass. */
  lemma {:induction false} AllTemplatesSnoc(fid: Fidelity, cfg: Config, optimize: Model -> Option<real>,
                                            gapfill: (Model, Model) -> SolveOutcome, s: State, ts: seq<Model>, t: Model)
    requires cfg.useAllTemplates
    ensures Loop(fid, cfg, optimize, gapfill, s, ts + [t]) ==
      match Loop(fid, cfg, optimize, gapfill, s, ts)
      case Err(e) => Err(e)
      case Ok(s') =>
        match Step(fid, cfg, optimize, gapfill, s', t)
        case Err(e) => Err(e)
        case Ok(f) => Ok(f.state)
    decreases |ts|
  {
    if |ts| == 0 {
      assert [] + [t] == [t];
    } else {
      assert (ts + [t])[0] == ts[0] && (ts + [t])[1..] == ts[1..] + [t];
      match Step(fid, cfg, optimize, gapfill, s, ts[0])
      case Err(e) =>
      case Ok(f) => AllTemplatesSnoc(fid, cfg, optimize, gapfill, f.state, ts[1..], t);
    }
  }

  /** As written, "biomass" as template objective with every template
      having a core-biomass reaction (or no template at all) makes the run
      raise `TypeError` on the `None` it gets back; the intended loading
      never does. */
  lemma AllCoreTemplatesCrash(cfg: Config, optimize: Model -> Option<real>, gapfill: (Model, Model) -> SolveOutcome,
                              m: Model, ts: seq<Model>)
    requires cfg.templateObjective == Some("biomass")
    ensures Run(AsWritten, cfg, optimize, gapfill, m, ts) == Err(TemplatesNotIterable) <==>
      forall i :: 0 <= i < |ts| ==> HasCoreBiomass(ts[i])
    ensures Run(Intended, cfg, optimize, gapfill, m, ts) != Err(TemplatesNotIterable)
  {
    LoadTemplateModelsNone(ts);
  }

}
