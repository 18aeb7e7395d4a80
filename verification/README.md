# Homology gap filling, modelled in Dafny

This project models the core of a metabolic-model gap-filling tool. A query
model is gap filled against a list of template models, one template at a
time. The pieces are:

- objective selection for the query and the templates (`load_query_model`,
  `load_template_models`);
- the two bridging injectors that copy exchange and transport reactions from
  a template before a solve (`add_exchange_reactions`, `add_transport`);
- the transport classifier (`is_transport`);
- the decision logic of `homology_gapfilling` in both revisions of the
  program: the scripts revision (both modes, with capping and rejection) and
  the older revision without bridging, capping or rejection;
- the SEED-to-BiGG id translation (`seed_to_bigg`).

Models and reactions are immutable records (`Network`). The library
operations the code calls become pure functions:

- `add_reaction` is a no-op for an id already present; otherwise it appends
  the reaction and adds its unknown metabolites;
- `remove_reactions` drops reactions by id and keeps their metabolites;
- setting both flux bounds to zero is `Bound`.

The flux-balance optimiser and the gap-fill solver are parameters of the
loop, so every property holds whatever they return:

- `optimize(m)` stands for `m.optimize().objective_value`, `None` when
  there is no value;
- `gapfill(m, t)` stands for the first solution of `GapFiller(m, t)`, or
  one of its two failures.

An exception that escapes a run is an `Err(Crash)` result. Printing, solver
selection and the SBML write/read round trip are left out; the round trip is
taken to give back the same model.

Three defects in the scripts revision make the loop raise where it evidently
meant to act. The loop therefore takes a `Fidelity` argument:
- `AsWritten` follows the code, and the lemmas show where it raises;
- `Intended` does what the code evidently meant to do.

The defects are:

- `load_template_models` with `"biomass"` returns from inside its loop
  (gapfilling/scripts/Gapfilling.py:77). It processes templates only up to
  the first one without a core-biomass reaction. When there is no such
  template, including an empty list, it returns `None`, and the loop then
  raises `TypeError`.
- Transport log keys carry the prefix `"Transport reaction: "` (line 189).
  The cap looks each key up with `get_by_id` (line 245), which raises
  `KeyError` as soon as a transport reaction was bridged in.
- The rejection reads `Model.reactions.log` (line 250). The reaction list has
  no such attribute, so any non-empty log raises. It still raises if a
  reaction named `log` exists, because indexing a reaction fails. An empty
  log removes nothing.

Some behaviours of the code are easy to misread; the model follows the
code:

- `is_transport` without `all_compounds` returns on the first element of its
  loop over the sorted stripped reactants. So only the smallest reactant is
  looked up among the products. Its docstring
  (gapfilling/scripts/Gapfilling.py:111) asks only that some compound be on
  both sides, which a later reactant may satisfy
  (`Transport.OnlySmallestReactantCounts`). With no reactants left it falls
  through to the list comparison.
- The biomass patterns are applied with `re.match`, which is anchored at the
  start. A biomass id therefore starts with "biomass" (ignoring case); one
  that merely contains it does not count.
- The exchange injector compares the first metabolite id of an `EX_`
  reaction as it is, without stripping its suffix. It raises `IndexError`
  for an `EX_` reaction that is new to the model and has no metabolites.
- When the solver raises, the template is skipped, but the bridging
  reactions copied for it stay in the model
  (`Gapfilling.SolverFailureKeepsBridging`).
- After a cap, the running value becomes the capped model's value, which may
  be lower or `None`. A later comparison with `None` raises `TypeError`. So
  the running value of the scripts revision is not monotone. That of the
  older revision is (`GapfillingV1.LoopValueMonotone`).

Files, in dependency order:
- `common.dfy`: `Option` and `Result`.
- `text.dfy`: ASCII case folding, prefixes, `str.replace(token, "")`.
- `string_order.dfy`: Python's string order and `sorted`.
- `network.dfy`: reactions, models, the log and the library operations.
- `objective.dfy`: objective selection.
- `transport.dfy`: the transport classifier.
- `bridging.dfy`: the two injectors.
- `gapfilling.dfy`: the scripts revision's loop.
- `gapfilling_v1.dfy`: the older revision's loop.
- `seed_to_bigg.dfy`: id translation.

## Model

| member | source | states |
|---|---|---|
| Text.RemoveAllTrailing | gapfilling/scripts/Gapfilling.py:123-126 | deleting a compartment token from `x + token` gives back `x` when the token does not start inside `x` |
| Text.RemoveAllAbsent | gapfilling/scripts/Gapfilling.py:123-126 | `str.replace` with a token that never occurs changes nothing |
| StringOrder.SortSpec | gapfilling/scripts/Gapfilling.py:133-134 | `sorted` returns an ordered permutation of its input |
| StringOrder.SortedUnique | gapfilling/scripts/Gapfilling.py:133-134 | two ordered lists with the same elements and multiplicities are equal |
| StringOrder.SortEqualIffSameMultiset | gapfilling/scripts/Gapfilling.py:146 | two lists sort to the same list exactly when they hold the same strings the same number of times |
| StringOrder.BelowTotal | gapfilling/scripts/Gapfilling.py:133-134 | Python's string order compares any two strings |
| StringOrder.BelowTransitive | gapfilling/scripts/Gapfilling.py:133-134 | Python's string order is transitive |
| Transport.IsTransportSpec | gapfilling/scripts/Gapfilling.py:107-149 | with `all_compounds` the classifier decides multiset equality of the stripped sides; without it, whether the least stripped reactant occurs among the stripped products, after one "h" is dropped from each side under `ignore_h`; two empty sides match |
| Transport.RemoveFirstMultiset | gapfilling/scripts/Gapfilling.py:136-140 | `list.remove("h")` drops exactly one occurrence, if there is one |
| Transport.RemoveFirstSorted | gapfilling/scripts/Gapfilling.py:136-140 | removing an element from a sorted list leaves it sorted |
| Transport.OnlySmallestReactantCounts | gapfilling/scripts/Gapfilling.py:141-145 | `A_c + B_c -> B_e` is not transport without `all_compounds`, although `B` crosses the membrane |
| Transport.ProtonSymportExample | gapfilling/scripts/Gapfilling.py:107-149 | `A_c + h_c -> A_e + h_e` is transport with `all_compounds`, with `ignore_h`, and with neither |
| Objective.MatchesCoreBiomassSpec | gapfilling/scripts/Gapfilling.py:25 | the scanner accepts exactly the ids matched by `(biomass){1}.*(core){1}` at the start, ignoring case |
| Objective.CoreIsBiomass | gapfilling/scripts/Gapfilling.py:24-25 | every id the core pattern matches is also matched by the biomass pattern |
| Objective.FirstIndex | gapfilling/scripts/Gapfilling.py:28-30 | the position of `filter(pattern.match, ids)[0]`: `None` exactly when nothing matches, otherwise the first match |
| Objective.SelectBiomassSpec | gapfilling/scripts/Gapfilling.py:23-38 | the first core-biomass id wins; failing that, the first biomass id; nothing is selected exactly when no id is a biomass id |
| Objective.LoadQueryModel | gapfilling/scripts/Gapfilling.py:15-47 | only the objective changes, and only to a reaction of the model; `None` and an explicit id the model lacks leave the model as it is; an id it has becomes the objective; the older revision's copy (gapfilling/Gapfilling.py, lines 6-38) is the same code |
| Objective.LoadQueryModelBiomass | gapfilling/scripts/Gapfilling.py:23-38 | with "biomass" the objective becomes the first core-biomass id, else the first biomass id, else the model is unchanged |
| Objective.LoadTemplateModels | gapfilling/scripts/Gapfilling.py:49-85 | as written: `None` gives the list back unchanged; with an explicit id every template is returned, those that have the reaction with it as objective and the others untouched, and the failures are exactly the names of the latter |
| Objective.LoadTemplateModelsNone | gapfilling/scripts/Gapfilling.py:58-77 | as written, with "biomass" the function returns `None` exactly when every template has a core-biomass reaction, vacuously so for an empty list; the older revision's copy (gapfilling/Gapfilling.py, lines 49-68) has the same defect |
| Objective.LoadTemplateModelsStopsEarly | gapfilling/scripts/Gapfilling.py:61-77 | as written, the templates up to the first one without a core-biomass reaction get their biomass objective; the rest are returned untouched |
| Objective.LoadTemplateModelsIntended | gapfilling/scripts/Gapfilling.py:49-85 | as intended, the whole list is always returned, with its length kept; an explicit id is handled as in the code |
| Objective.LoadTemplateModelsIntendedBiomass | gapfilling/scripts/Gapfilling.py:58-75 | as intended, every template keeps everything but its objective, which becomes the biomass id selected for it, or stays untouched when there is none; the failures are exactly the names of the untouched templates |
| Objective.LoadTemplateModelsObjectivesOnly | gapfilling/scripts/Gapfilling.py:49-85 | both loaders change nothing of a template except its objective, and keep the list's length and order |
| Objective.LackingId | gapfilling/scripts/Gapfilling.py:78-84 | the failures are exactly the names of the templates that lack the reaction |
| Network.AddReaction | gapfilling/scripts/Gapfilling.py:103 | an id already present leaves the model unchanged; otherwise the reaction is appended; afterwards its id is present and the model extends the old one |
| Network.AddReactions | gapfilling/scripts/Gapfilling.py:233 | the result extends the model, and every reaction after the old ones comes from the list and has an id the model lacked |
| Network.AddReactionsFresh | gapfilling/scripts/Gapfilling.py:233 | reactions with distinct ids that the model lacks are appended exactly, in order |
| Network.AddReactionsWellFormed | gapfilling/scripts/Gapfilling.py:233 | adding reactions keeps reaction ids unique |
| Network.AddReactionsClosed | gapfilling/scripts/Gapfilling.py:233 | after adding reactions the model lists every metabolite its reactions use |
| Network.Bound | gapfilling/scripts/Gapfilling.py:244-246 | a chosen reaction becomes the same reaction with bounds [0, 0]; all others are unchanged |
| Network.Remove | gapfilling/scripts/Gapfilling.py:250 | a reaction stays exactly when it was there and its id is not one of those removed |
| Network.RemoveDistinct | gapfilling/scripts/Gapfilling.py:250 | removing reactions keeps reaction ids unique |
| Bridging.AddExchangeReactions | gapfilling/scripts/Gapfilling.py:95-105 | only template reactions are appended; the returned ids are exactly those appended, in order, all starting with "EX_"; the only exception is the one for an exchange without metabolites |
| Bridging.AddExchangeReactionsErr | gapfilling/scripts/Gapfilling.py:99-104 | on a template with distinct ids, the injector raises `IndexError` exactly when one of its `EX_` reactions is new to the model and has no metabolites |
| Bridging.AddExchangeReactionsSpec | gapfilling/scripts/Gapfilling.py:95-105 | on a template with distinct ids and one metabolite per exchange, the result is the model plus exactly the template's `EX_` reactions that the model lacked and whose metabolite it has, in template order |
| Bridging.ExchangeFoldWellFormed | gapfilling/scripts/Gapfilling.py:101-104 | the exchange injector keeps reaction ids unique |
| Bridging.AddTransport | gapfilling/scripts/Gapfilling.py:151-190 | only template reactions are appended, and the log has one "Transport reaction: id" entry with genes per appended reaction, in order |
| Bridging.AddTransportSpec | gapfilling/scripts/Gapfilling.py:151-190 | on a template with distinct ids, exactly the reactions that pass `is_transport` with the template's tokens, are new to the model and have every stripped reactant among the model's stripped metabolites are appended, in template order |
| Bridging.TransportFoldWellFormed | gapfilling/scripts/Gapfilling.py:178-189 | the transport injector keeps reaction ids unique |
| Gapfilling.Bridge | gapfilling/scripts/Gapfilling.py:210-220 | bridging appends only template reactions, logs each appended reaction once and in order, fails exactly when `force_exchange` is set and the exchange injector raises, and does nothing without either flag |
| Gapfilling.BridgeSpec | gapfilling/scripts/Gapfilling.py:210-220 | for a template with distinct ids and one metabolite per exchange, the reactions bridged are the exchange candidates (with `force_exchange`) followed by the transport candidates of the model the exchange injector left (with `force_transport`), logged once each in that order |
| Gapfilling.BridgeErr | gapfilling/scripts/Gapfilling.py:212-213 | for a template with distinct ids, bridging raises exactly when `force_exchange` is set and the template has an `EX_` reaction new to the model and without metabolites |
| Gapfilling.Judge | gapfilling/scripts/Gapfilling.py:235-249 | skip exactly when the new value is `None`; `TypeError` exactly when a new value meets a running value of `None`; improve, stop, cap and reject exactly on `>`, `==`, `[f·v, v)` and `< f·v` |
| Gapfilling.Cap | gapfilling/scripts/Gapfilling.py:243-248 | as written, the cap succeeds exactly when every log key names a reaction, which then gets bounds [0, 0] and nothing else; as intended, the reactions of this iteration are capped in the same way; no other reaction and no other part of the model changes |
| Gapfilling.Reject | gapfilling/scripts/Gapfilling.py:249-252 | as written, the rejection succeeds exactly for an empty log and then changes nothing; as intended, exactly the reactions of this iteration leave the model |
| Gapfilling.Decide | gapfilling/scripts/Gapfilling.py:235-252 | for each branch of the comparison chain: no new value continues with value and log unchanged; a new value against a running `None` raises `TypeError`; a higher value continues with it as running value; an equal value stops with the template's entry kept; a moderate drop continues with the capped model and its own value, or raises where the cap raises; a larger drop stops with the rejected model, the template's entry deleted and the value kept, or raises where the rejection raises |
| Gapfilling.Step | gapfilling/scripts/Gapfilling.py:207-259 | the exchange injector's exception escapes; a caught solver failure continues with the bridged model and the log and value unchanged; a solved pass records the bridging entries and then the solver's under the template's name, appends the solver's reactions to the bridged model, and then either continues (with `use_all_templates`) or decides by the value; a pass keeps the model's name and objective, and of the exceptions the model knows only four escape |
| Gapfilling.Loop | gapfilling/scripts/Gapfilling.py:208-292 | the log's keys are template names and the model keeps its name; of the exceptions the model knows only four escape |
| Gapfilling.Run | gapfilling/scripts/Gapfilling.py:192-206 | a returning run gives a log keyed by template names and a model with the query's name |
| Gapfilling.NoInitialValueStartsAtZero | gapfilling/scripts/Gapfilling.py:204-206 | a query model without a value is judged from 0.0: a first template bringing the value to 0.0 ends the run after it, keeping its reactions and entry, where a running `None` would raise |
| Gapfilling.RunWellFormed | gapfilling/scripts/Gapfilling.py:192-292 | a run that returns leaves the query model with unique reaction ids |
| Gapfilling.StepWellFormed | gapfilling/scripts/Gapfilling.py:207-259 | every branch of a pass keeps reaction ids unique |
| Gapfilling.SolverFailureKeepsBridging | gapfilling/scripts/Gapfilling.py:221-224 | when the solver raises, the pass continues with the log and value untouched, and the bridging reactions stay in the model |
| Gapfilling.StepAgreesWithoutTransport | gapfilling/scripts/Gapfilling.py:244-250 | without the transport injector the as-written pass equals the intended one, or raises in the rejection |
| Gapfilling.CapAgrees | gapfilling/scripts/Gapfilling.py:244-246 | when every log key is a reaction id added in this iteration, the as-written cap is the intended cap |
| Gapfilling.RejectRestores | gapfilling/scripts/Gapfilling.py:249-252 | the intended rejection restores the reactions the model had before the template, bridging reactions included, when the solver proposed only new reactions |
| Gapfilling.CapCrashExample | gapfilling/scripts/Gapfilling.py:243-248 | a bridged transport reaction and a value within the cap band make the as-written pass raise `KeyError`; the intended one caps the reaction and carries on |
| Gapfilling.RejectCrashExample | gapfilling/scripts/Gapfilling.py:250 | a value drop below the fraction makes the as-written pass raise `AttributeError`; the intended one removes the reaction and drops the log entry |
| Gapfilling.RejectedTemplateExample | gapfilling/scripts/Gapfilling.py:235-252 | a template raising the value from 0.0 to 5.0 is kept; a second bringing it to 1.0 is taken back as intended, leaving one reaction and one log entry; as written the run raises |
| Gapfilling.AllTemplatesSnoc | gapfilling/scripts/Gapfilling.py:261-292 | with `use_all_templates` every template is used: running over `ts + [t]` is running over `ts` and then one more pass |
| Gapfilling.AllCoreTemplatesCrash | gapfilling/scripts/Gapfilling.py:200-208 | with "biomass" for the templates, the as-written run raises `TypeError` exactly when every template has a core-biomass reaction; the intended run never does |
| GapfillingV1.Step | gapfilling/Gapfilling.py:91-113 | solver failures escape and a solved pass succeeds; it records the solver's reactions under the template and leaves the model with exactly those reactions added; a higher new value becomes the running value, and otherwise the value stays; the pass halts exactly when the new value equals the running one |
| GapfillingV1.Run | gapfilling/Gapfilling.py:78-114 | with "biomass" for the templates, the run raises `TypeError` exactly when every template has a core-biomass reaction |
| GapfillingV1.NoInitialValueStartsAtZero | gapfilling/Gapfilling.py:88-90 | a query model without a value is judged from 0.0: a first template bringing the value to 0.0 ends the run after it |
| GapfillingV1.LoopValueMonotone | gapfilling/Gapfilling.py:107-113 | the final value is at least the initial one |
| GapfillingV1.LoopOnlyAdds | gapfilling/Gapfilling.py:91-114 | reactions are only added, and log keys are only added or overwritten, each a starting key or a template name |
| GapfillingV1.LoopWellFormed | gapfilling/Gapfilling.py:105 | the loop keeps reaction ids unique |
| GapfillingV1.StepAgreesWithScripts | gapfilling/Gapfilling.py:91-113 | when the solver succeeds and the value does not fall, a pass of the older revision is a pass of the scripts revision without bridging |
| SeedToBigg.Lookup | gapfilling/modelseed_gapfilling.py:64-67 | the lookup misses exactly when no row has the key; otherwise it returns the BiGG id of the first row that has it |
| SeedToBigg.TranslateMetabolite | gapfilling/modelseed_gapfilling.py:57-70 | a miss keeps the id; a hit gives the BiGG id followed by the same two-character suffix |
| SeedToBigg.InReactionIdAgrees | gapfilling/modelseed_gapfilling.py:97-117 | a metabolite is renamed the same way inside reactions as in the model's list |
| SeedToBigg.TranslateReactionId | gapfilling/modelseed_gapfilling.py:72-94 | an exchange id stays an exchange id with the same suffix, and on a hit its stem becomes the metabolite's BiGG id; any other id found in the reaction table becomes the BiGG id of the first row for its stem, with no suffix; a miss keeps the id |
| SeedToBigg.TranslateReaction | gapfilling/modelseed_gapfilling.py:95-125 | the id and every metabolite id are translated; coefficients, their order, genes and bounds are kept |
| SeedToBigg.SeedToBigg | gapfilling/modelseed_gapfilling.py:51-128 | the new model is named after the old one with " (translated)", has every translated metabolite, and gets the translated reactions appended by the no-duplicate rule |
| SeedToBigg.SeedToBiggWellFormed | gapfilling/modelseed_gapfilling.py:51-128 | the translated model has unique reaction ids, lists every metabolite its reactions use, and has a reaction under every translated reaction id |
| SeedToBigg.EmptyTablesKeepReactions | gapfilling/modelseed_gapfilling.py:51-128 | with empty tables, a model with unique reaction ids keeps its reactions exactly |
| SeedToBigg.TranslateExchangeIdRoundTrip | gapfilling/modelseed_gapfilling.py:77-85 | when the metabolite table's BiGG column has no repeats, an exchange id found in it comes back through the table with its columns swapped |
| SeedToBigg.TranslateMetaboliteRoundTrip | gapfilling/modelseed_gapfilling.py:57-70 | when the table's BiGG column has no repeats, a metabolite id found in the table comes back through the table with its columns swapped |

## Left out

- Reading and writing SBML, the temporary files, `fake_copy` and the reload after each template: the reload is taken to give back the same model.
- The gap-fill solver (`GapFiller`, Gurobi, `integer_threshold`, `iterations`): it is the `gapfill` parameter, of which only the first solution is used.
- `Model.optimize()`: it is the `optimize` parameter. Floating-point behaviour (NaN, rounding of `value * value_fraction`) is replaced by exact reals.
- Printing of failures and not-found messages: the failure lists are modelled, the printing is not.
- `get_models`, `modelseed_gapfilling` and the `modelseed` wrapper of gapfilling/modelseed_gapfilling.py: they call the remote ModelSEED service.
- `suppress_stdout` (gapfilling/modelseed_gapfilling.py:17-26): it only redirects standard output while ModelSEED gap filling runs, and printing is outside the model.
- SeedToBigg.SeedToBigg: modelled as a standalone function. As shipped, gapfilling/modelseed_gapfilling.py cannot be imported. The `modelseed` definition at line 130 puts the parameters `M_table` and `R_table`, which have no defaults, after defaulted ones. That is a `SyntaxError`, so `seed_to_bigg` is unreachable until the signature is fixed.
- Gene order: `list(reaction.genes)` iterates a set; the model keeps the genes as a list in the record's order.
- Case folding is ASCII only. Python's `re.IGNORECASE` also folds other letters, which reaction ids do not use.
- Network.AddReaction: a model's compartments are a fixed field. The library derives them from the metabolites' compartments, so a metabolite in a new compartment, brought in by one template, adds that compartment. The transport injector of a later template then strips that compartment's suffix from the query's metabolites; the model does not, and may reject a transport reaction the code would add.
- Bridging.AddExchangeReactionsSpec: the closed form assumes a template with distinct ids whose `EX_` reactions each have exactly one metabolite. With several metabolites, adding one exchange reaction can add metabolites that a later exchange test sees; with none, the injector raises (stated by `Bridging.AddExchangeReactionsErr`).
- Gapfilling.Step and Gapfilling.Loop: the solver can also fail with `Unbounded` or another `OptimizationError`. The code does not catch these, so they end the run; the `gapfill` parameter has only the two caught failures, so these exceptions are outside the model.
- Network.Bound: does not model that recent library versions refuse a lower bound above the upper bound, which makes the cap raise for a reaction whose upper bound is negative.
- SeedToBigg.SeedToBigg: the compartments of the new model are copied from the old one, not derived from the translated metabolites. Two metabolites of one reaction that translate to the same id are kept as two entries, not merged. Table cells are strings, and pandas' missing values are not modelled.
- SeedToBigg.EmptyTablesKeepReactions: states the reactions only, since the metabolite list of a model whose reactions use unlisted metabolites grows.
- Solver selection (`Model.solver` at gapfilling/scripts/Gapfilling.py:199, `template.solver` inside the loop at lines 221 and 274) changes nothing the model observes, and is left out.
- Gapfilling.Loop and Gapfilling.Run: state bounds on the keys and the crash kinds, not the full contents of the log; the per-pass contents are stated by `Gapfilling.Step` and the example lemmas, and the start from 0.0 by `Gapfilling.NoInitialValueStartsAtZero`.
- GapfillingV1.Run: states the `TypeError` of the template loader only; the bounds on the keys are stated by `GapfillingV1.LoopOnlyAdds`, the per-pass contents by `GapfillingV1.Step`, and the start from 0.0 by `GapfillingV1.NoInitialValueStartsAtZero`.
- In-place mutation of the caller's objects. The model returns new values and leaves its inputs alone; the code changes the objects it was given:
  - `load_query_model` returns the caller's model (gapfilling/scripts/Gapfilling.py:22), so the objective change reaches the caller.
  - `load_template_models` returns the caller's list and templates (line 54), which keep their changed objectives.
  - The injectors, `add_reaction` and the cap change the query model in place. So every change made before the first reload at lines 253-255 (lines 285-287 with `use_all_templates`) lands on the caller's model: bridging reactions, solver reactions and capped bounds. A caught solver failure, a `continue` or a `break` skips the reload, so a pass that ends that way leaves its changes on the object in hand; a run that never reaches a reload returns the caller's own model.
  - The older revision never reloads (gapfilling/Gapfilling.py:78-114): it changes the caller's model throughout and returns that same object.

## Findings

| source | as written | input that shows it | evidently intended | confidence | as-written member | corrected member |
|---|---|---|---|---|---|---|
| gapfilling/scripts/Gapfilling.py:77 | `return templates` inside the biomass loop ends it at the first template without a core-biomass reaction, and the function returns `None` when there is none | "biomass" with templates that all have a `biomass_core` reaction, or an empty list | every template gets its biomass objective and the list is returned | not executed | Gapfilling.AllCoreTemplatesCrash | Objective.LoadTemplateModelsIntendedBiomass |
| gapfilling/scripts/Gapfilling.py:245 | the cap looks up log keys, and transport keys carry the prefix "Transport reaction: " | a bridged transport reaction "T", with the value going from 1.0 to 0.9 and `value_fraction` 0.8 | cap the reactions added in this iteration | not executed | Gapfilling.CapCrashExample | Gapfilling.Cap |
| gapfilling/scripts/Gapfilling.py:250 | `Model.reactions.log[i][0]` is not the log; the lookup raises for any non-empty log | two templates, the first raising the value from 0.0 to 5.0 and the second bringing it to 1.0, with `value_fraction` 0.8 | remove the reactions of this iteration and drop the template's entry | not executed | Gapfilling.RejectedTemplateExample | Gapfilling.Reject |
