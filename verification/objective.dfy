/** Objective selection for the query model and the templates
    (`load_query_model`, `load_template_models`; the two revisions of the
    program carry the same code). Reaction ids are matched against the
    patterns `biomass` and `(biomass){1}.*(core){1}` with `re.match`, which is
    anchored at the start, case-insensitively. */
module Objective {
  import opened Common
  import opened Text
  import opened Network

  /** `re.match("biomass", id, re.IGNORECASE)`: the id starts with "biomass". */
  predicate IsBiomass(id: string) {
    StartsWith(Lower(id), "biomass")
  }

  /** The meaning of `re.match("(biomass){1}.*(core){1}", id, re.IGNORECASE)`:
      the id starts with "biomass" and "core" occurs later, with no line break
      in between (`.` does not match a newline). */
  ghost predicate IsCoreBiomass(id: string) {
    var l := Lower(id);
    StartsWith(l, "biomass") && exists k :: 7 <= k && OccursAt(l, "core", k) && '\n' !in l[7..k]
  }

  /** Scans the lowered id from position `k` for "core", giving up at a line
      break. */
  function CoreFrom(l: string, k: nat): bool
    decreases |l| - k
  {
    if k + 4 > |l| then false
    else if l[k..k + 4] == "core" then true
    else if l[k] == '\n' then false
    else CoreFrom(l, k + 1)
  }

  /** The executable core-biomass matcher. */
  predicate MatchesCoreBiomass(id: string) {
    var l := Lower(id);
    StartsWith(l, "biomass") && CoreFrom(l, 7)
  }

  lemma {:induction false} CoreFromSpec(l: string, k: nat)
    requires 7 <= k <= |l|
    requires '\n' !in l[7..k]
    ensures CoreFrom(l, k) <==> exists j :: k <= j && OccursAt(l, "core", j) && '\n' !in l[7..j]
    decreases |l| - k
  {
    if k + 4 > |l| {
    } else if l[k..k + 4] == "core" {
      assert OccursAt(l, "core", k);
    } else if l[k] == '\n' {
      forall j | k <= j && OccursAt(l, "core", j) ensures '\n' in l[7..j] {
        assert j != k;
        assert l[7..j][k - 7] == '\n';
      }
    } else {
      assert l[7..k + 1] == l[7..k] + [l[k]];
      CoreFromSpec(l, k + 1);
      if exists j :: k <= j && OccursAt(l, "core", j) && '\n' !in l[7..j] {
        var j :| k <= j && OccursAt(l, "core", j) && '\n' !in l[7..j];
        assert j != k;
      }
    }
  }

  /** The scanner decides exactly the regular-expression match. */
  lemma MatchesCoreBiomassSpec(id: string)
    ensures MatchesCoreBiomass(id) <==> IsCoreBiomass(id)
  {
    var l := Lower(id);
    if StartsWith(l, "biomass") {
      assert l[7..7] == [];
      CoreFromSpec(l, 7);
    }
  }

  /** A core-biomass id is also a biomass id. */
  lemma CoreIsBiomass(id: string)
    requires IsCoreBiomass(id)
    ensures IsBiomass(id)
  {
  }

  predicate Matches(id: string, core: bool) {
    if core then MatchesCoreBiomass(id) else IsBiomass(id)
  }

  /** The position of `filter(pattern.match, ids)[0]`, or `None` when the
      filtered list is empty. */
  function FirstIndex(ids: seq<string>, core: bool): (r: Option<nat>)
    ensures r.None? <==> forall i :: 0 <= i < |ids| ==> !Matches(ids[i], core)
    ensures r.Some? ==> r.value < |ids| && Matches(ids[r.value], core)
    ensures r.Some? ==> forall j :: 0 <= j < r.value ==> !Matches(ids[j], core)
    decreases |ids|
  {
    if |ids| == 0 then None
    else if Matches(ids[0], core) then Some(0)
    else match FirstIndex(ids[1..], core)
      case None => None
      case Some(i) => Some(i + 1)
  }

  /** The biomass directive: the first core-biomass id, else the first
      biomass id, else nothing. */
  function SelectBiomass(ids: seq<string>): (r: Option<string>)
    ensures r.Some? ==> r.value in ids
  {
    match FirstIndex(ids, true)
    case Some(i) => Some(ids[i])
    case None =>
      match FirstIndex(ids, false)
      case Some(i) => Some(ids[i])
      case None => None
  }

  ghost predicate FirstCore(ids: seq<string>, i: int) {
    0 <= i < |ids| && IsCoreBiomass(ids[i]) && forall j :: 0 <= j < i ==> !IsCoreBiomass(ids[j])
  }

  ghost predicate FirstBiomass(ids: seq<string>, i: int) {
    0 <= i < |ids| && IsBiomass(ids[i]) && forall j :: 0 <= j < i ==> !IsBiomass(ids[j])
  }

  /** Biomass selection in terms of the patterns: the first id, in reaction
      order, that matches the core pattern wins; failing that the first id
      starting with "biomass"; failing that nothing is selected. */
  lemma SelectBiomassSpec(ids: seq<string>)
    ensures forall i :: FirstCore(ids, i) ==> SelectBiomass(ids) == Some(ids[i])
    ensures (forall i :: 0 <= i < |ids| ==> !IsCoreBiomass(ids[i])) ==>
      forall i :: FirstBiomass(ids, i) ==> SelectBiomass(ids) == Some(ids[i])
    ensures SelectBiomass(ids).None? <==> forall i :: 0 <= i < |ids| ==> !IsBiomass(ids[i])
  {
    forall i | 0 <= i < |ids| ensures MatchesCoreBiomass(ids[i]) == IsCoreBiomass(ids[i]) {
      MatchesCoreBiomassSpec(ids[i]);
    }
    forall i | FirstCore(ids, i) ensures SelectBiomass(ids) == Some(ids[i]) {
      var k := FirstIndex(ids, true);
      assert k.Some?;
      assert !(k.value < i) && !(i < k.value);
    }
    forall i | FirstBiomass(ids, i) && (forall j :: 0 <= j < |ids| ==> !IsCoreBiomass(ids[j]))
      ensures SelectBiomass(ids) == Some(ids[i])
    {
      var k := FirstIndex(ids, false);
      assert FirstIndex(ids, true).None?;
      assert k.Some?;
      assert !(k.value < i) && !(i < k.value);
    }
  }

  /** The query model after `load_query_model(model, obj)`: only the objective
      can change, and only to a reaction of the model. `obj = None` and an
      explicit id the model lacks (the caught `ValueError`) leave the model as
      it is; "biomass" applies `SelectBiomass` to the reaction ids. */
  function LoadQueryModel(m: Model, obj: Option<string>): (r: Model)
    ensures r == m.(objective := r.objective)
    ensures r.objective != m.objective ==> r.objective in Ids(m.reactions)
    ensures obj.None? ==> r == m
    ensures obj.Some? && obj.value != "biomass" ==>
      r.objective == (if obj.value in Ids(m.reactions) then obj.value else m.objective)
  {
    match obj
    case None => m
    case Some(o) =>
      if o == "biomass" then WithBiomass(m)
      else if o in Ids(m.reactions) then m.(objective := o)
      else m
  }

  /** One model after the biomass directive. */
  function WithBiomass(m: Model): (r: Model)
    ensures r == m.(objective := r.objective)
  {
    match SelectBiomass(Ids(m.reactions))
    case Some(x) => m.(objective := x)
    case None => m
  }

  /** The biomass directive on the query model, in terms of the patterns. */
  lemma LoadQueryModelBiomass(m: Model)
    ensures var ids := Ids(m.reactions);
      && (forall i :: FirstCore(ids, i) ==> LoadQueryModel(m, Some("biomass")).objective == ids[i])
      && ((forall i :: 0 <= i < |ids| ==> !IsCoreBiomass(ids[i])) ==>
            forall i :: FirstBiomass(ids, i) ==> LoadQueryModel(m, Some("biomass")).objective == ids[i])
      && ((forall i :: 0 <= i < |ids| ==> !IsBiomass(ids[i])) ==> LoadQueryModel(m, Some("biomass")) == m)
  {
    SelectBiomassSpec(Ids(m.reactions));
  }

  /** What `load_template_models` hands back: the template list, or `None`
      when the function falls off its end, and the names of the templates
      whose objective could not be set. */
  datatype Loaded = Loaded(templates: Option<seq<Model>>, failures: seq<string>)

  predicate HasCoreBiomass(t: Model) {
    FirstIndex(Ids(t.reactions), true).Some?
  }

  /** `load_template_models(template_list, obj)` as written. With "biomass"
      the `return` sits inside the loop: templates are visited in order while
      each has a core-biomass reaction, processing ends with (and includes)
      the first one that has none, and if there is no such template the
      function returns `None`. */
  function LoadTemplateModels(ts: seq<Model>, obj: Option<string>): (r: Loaded)
    ensures obj.None? ==> r == Loaded(Some(ts), [])
    ensures obj.Some? && obj.value != "biomass" ==> ExplicitId(ts, obj.value, r)
  {
    match obj
    case None => Loaded(Some(ts), [])
    case Some(o) =>
      if o == "biomass" then BiomassUntilFirstMiss(ts)
      else Loaded(Some(SetObjective(ts, o)), LackingId(ts, o))
  }

  function BiomassUntilFirstMiss(ts: seq<Model>): Loaded
    decreases |ts|
  {
    if |ts| == 0 then Loaded(None, [])
    else if HasCoreBiomass(ts[0]) then
      var rest := BiomassUntilFirstMiss(ts[1..]);
      match rest.templates
      case Some(l) => Loaded(Some([WithBiomass(ts[0])] + l), rest.failures)
      case None => Loaded(None, rest.failures)
    else
      Loaded(Some([WithBiomass(ts[0])] + ts[1..]),
             if SelectBiomass(Ids(ts[0].reactions)).None? then [ts[0].name] else [])
  }

  /** `r` is `ts` with at most the objectives changed. */
  predicate ObjectivesOnly(ts: seq<Model>, r: seq<Model>) {
    |r| == |ts| && forall i :: 0 <= i < |ts| ==> r[i] == ts[i].(objective := r[i].objective)
  }

  /** Both revisions of `load_template_models`, and the intended one, change
      nothing of a template but its objective. */
  lemma LoadTemplateModelsObjectivesOnly(ts: seq<Model>, obj: Option<string>)
    ensures LoadTemplateModels(ts, obj).templates.Some? ==> ObjectivesOnly(ts, LoadTemplateModels(ts, obj).templates.value)
    ensures ObjectivesOnly(ts, LoadTemplateModelsIntended(ts, obj).templates.value)
  {
    BiomassObjectivesOnly(ts);
  }

  lemma {:induction false} BiomassObjectivesOnly(ts: seq<Model>)
    ensures BiomassUntilFirstMiss(ts).templates.Some? ==> ObjectivesOnly(ts, BiomassUntilFirstMiss(ts).templates.value)
    decreases |ts|
  {
    if |ts| > 0 && HasCoreBiomass(ts[0]) {
      BiomassObjectivesOnly(ts[1..]);
      var rest := BiomassUntilFirstMiss(ts[1..]);
      if rest.templates.Some? {
        var l := rest.templates.value;
        assert forall i :: 1 <= i < |ts| ==> ts[i] == ts[1..][i - 1] && ([WithBiomass(ts[0])] + l)[i] == l[i - 1];
      }
    }
  }

  /** Every template that has reaction `id` gets it as objective. */
  function SetObjective(ts: seq<Model>, id: string): (r: seq<Model>)
    ensures |r| == |ts|
    ensures forall i :: 0 <= i < |ts| ==>
      r[i] == if id in Ids(ts[i].reactions) then ts[i].(objective := id) else ts[i]
  {
    seq(|ts|, i requires 0 <= i < |ts| => if id in Ids(ts[i].reactions) then ts[i].(objective := id) else ts[i])
  }

  /** The names of the templates that lack reaction `id`, in order. */
  function LackingId(ts: seq<Model>, id: string): (r: seq<string>)
    ensures forall i :: 0 <= i < |ts| && id !in Ids(ts[i].reactions) ==> ts[i].name in r
    ensures forall x :: x in r ==> exists i :: 0 <= i < |ts| && id !in Ids(ts[i].reactions) && ts[i].name == x
    decreases |ts|
  {
    if |ts| == 0 then []
    else
      var rest := LackingId(ts[1..], id);
      assert forall i :: 1 <= i < |ts| ==> ts[i] == ts[1..][i - 1];
      if id in Ids(ts[0].reactions) then rest else [ts[0].name] + rest
  }

  /** An explicit reaction id as objective: every template is returned,
      those that have the reaction with it as objective and the others
      untouched (the caught `ValueError`), and the failures are exactly the
      names of the latter. */
  ghost predicate ExplicitId(ts: seq<Model>, id: string, r: Loaded) {
    && r.templates.Some? && |r.templates.value| == |ts|
    && (forall i :: 0 <= i < |ts| ==>
          r.templates.value[i] == if id in Ids(ts[i].reactions) then ts[i].(objective := id) else ts[i])
    && (forall x :: x in r.failures <==> exists i :: 0 <= i < |ts| && id !in Ids(ts[i].reactions) && ts[i].name == x)
  }

  /** `load_template_models` as evidently intended: every template gets the
      biomass treatment and the function returns the whole list. */
  function LoadTemplateModelsIntended(ts: seq<Model>, obj: Option<string>): (r: Loaded)
    ensures r.templates.Some? && |r.templates.value| == |ts|
    ensures obj.Some? && obj.value != "biomass" ==> ExplicitId(ts, obj.value, r)
  {
    match obj
    case None => Loaded(Some(ts), [])
    case Some(o) =>
      if o == "biomass" then Loaded(Some(AllWithBiomass(ts)), NoBiomass(ts))
      else Loaded(Some(SetObjective(ts, o)), LackingId(ts, o))
  }

  function AllWithBiomass(ts: seq<Model>): (r: seq<Model>)
    ensures |r| == |ts| && forall i :: 0 <= i < |ts| ==> r[i] == WithBiomass(ts[i])
  {
    seq(|ts|, i requires 0 <= i < |ts| => WithBiomass(ts[i]))
  }

  function NoBiomass(ts: seq<Model>): seq<string>
    decreases |ts|
  {
    if |ts| == 0 then []
    else (if SelectBiomass(Ids(ts[0].reactions)).None? then [ts[0].name] else []) + NoBiomass(ts[1..])
  }

  /** The as-written biomass loop returns `None` exactly when every template
      has a core-biomass reaction (vacuously so for an empty list). */
  lemma {:induction false} LoadTemplateModelsNone(ts: seq<Model>)
    ensures LoadTemplateModels(ts, Some("biomass")).templates.None? <==>
      forall i :: 0 <= i < |ts| ==> HasCoreBiomass(ts[i])
    decreases |ts|
  {
    if |ts| > 0 {
      LoadTemplateModelsNone(ts[1..]);
      assert forall i :: 1 <= i < |ts| ==> ts[i] == ts[1..][i - 1];
    }
  }

  /** Otherwise, with `k` the first template without a core-biomass
      reaction, the list it returns is the intended result on templates
      `0..k` followed by the untouched rest. */
  lemma LoadTemplateModelsStopsEarly(ts: seq<Model>, k: nat)
    requires k < |ts| && !HasCoreBiomass(ts[k])
    requires forall j :: 0 <= j < k ==> HasCoreBiomass(ts[j])
    ensures LoadTemplateModels(ts, Some("biomass")).templates ==
      Some(AllWithBiomass(ts)[..k + 1] + ts[k + 1..])
  {
    BiomassPrefix(ts, k);
  }

  lemma {:induction false} BiomassPrefix(ts: seq<Model>, k: nat)
    requires k < |ts| && !HasCoreBiomass(ts[k])
    requires forall j :: 0 <= j < k ==> HasCoreBiomass(ts[j])
    ensures BiomassUntilFirstMiss(ts).templates == Some(AllWithBiomass(ts)[..k + 1] + ts[k + 1..])
    decreases k
  {
    var all := AllWithBiomass(ts);
    if k == 0 {
      assert all[..1] == [WithBiomass(ts[0])];
      assert BiomassUntilFirstMiss(ts).templates == Some([WithBiomass(ts[0])] + ts[1..]);
    } else {
      var tail := ts[1..];
      assert tail[k - 1] == ts[k];
      forall j | 0 <= j < k - 1 ensures HasCoreBiomass(tail[j]) { assert tail[j] == ts[j + 1]; }
      BiomassPrefix(tail, k - 1);
      var l := AllWithBiomass(tail)[..k] + tail[k..];
      assert BiomassUntilFirstMiss(ts).templates == Some([WithBiomass(ts[0])] + l) by {
        assert HasCoreBiomass(ts[0]);
      }
      PrefixShift(ts, k);
    }
  }

  lemma PrefixShift(ts: seq<Model>, k: nat)
    requires 0 < k < |ts|
    ensures [WithBiomass(ts[0])] + (AllWithBiomass(ts[1..])[..k] + ts[1..][k..]) == AllWithBiomass(ts)[..k + 1] + ts[k + 1..]
  {
    var all := AllWithBiomass(ts);
    assert AllWithBiomass(ts[1..]) == all[1..];
    assert ts[1..][k..] == ts[k + 1..];
    assert all[..k + 1] == [all[0]] + all[1..][..k];
  }

  /** With the intended loop every template is returned, each with the
      biomass objective `SelectBiomass` picks for it or, when there is none,
      untouched; the failures are exactly the names of the latter. */
  lemma LoadTemplateModelsIntendedBiomass(ts: seq<Model>)
    ensures var l := LoadTemplateModelsIntended(ts, Some("biomass"));
      var r := l.templates.value;
      && (forall i :: 0 <= i < |ts| ==>
            r[i] == ts[i].(objective := r[i].objective) &&
            (SelectBiomass(Ids(ts[i].reactions)).Some? ==> r[i].objective == SelectBiomass(Ids(ts[i].reactions)).value) &&
            (SelectBiomass(Ids(ts[i].reactions)).None? ==> r[i] == ts[i]))
      && (forall x :: x in l.failures <==>
            exists i :: 0 <= i < |ts| && SelectBiomass(Ids(ts[i].reactions)).None? && ts[i].name == x)
  {
    NoBiomassSpec(ts);
  }

  lemma {:induction false} NoBiomassSpec(ts: seq<Model>)
    ensures forall x :: x in NoBiomass(ts) <==>
      exists i :: 0 <= i < |ts| && SelectBiomass(Ids(ts[i].reactions)).None? && ts[i].name == x
    decreases |ts|
  {
    if |ts| > 0 {
      NoBiomassSpec(ts[1..]);
      assert forall i :: 1 <= i < |ts| ==> ts[i] == ts[1..][i - 1];
      forall x | x in NoBiomass(ts[1..])
        ensures exists i :: 0 <= i < |ts| && SelectBiomass(Ids(ts[i].reactions)).None? && ts[i].name == x
      {
        var j :| 0 <= j < |ts[1..]| && SelectBiomass(Ids(ts[1..][j].reactions)).None? && ts[1..][j].name == x;
        assert ts[j + 1] == ts[1..][j];
      }
    }
  }
}
