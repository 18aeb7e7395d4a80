/** The abstract metabolic network the gap-filling core works on: reactions
    and models as immutable records, the library's add/remove/bound operations
    as pure functions, the added-reactions log, the gap-fill solver's outcome
    and the exceptions that escape a run. */
module Network {
  import opened Common
  import opened Text

  /** A reaction: its id, its metabolites in dictionary order with their
      stoichiometric coefficients (negative for reactants, positive for
      products), its gene ids and its flux bounds. */
  datatype Reaction = Reaction(
    id: string,
    metabolites: seq<(string, real)>,
    genes: seq<string>,
    lower: real,
    upper: real)

  /** A model: its name (what `str(model)` prints), its reactions in
      insertion order, its metabolite ids, the keys of its compartment
      dictionary and its objective (the id of the objective reaction). */
  datatype Model = Model(
    name: string,
    reactions: seq<Reaction>,
    metabolites: seq<string>,
    compartments: seq<string>,
    objective: string)

  /** Where a logged reaction came from: the literal tag
      "Exchange reaction", or the reaction's gene ids. */
  datatype Provenance = ExchangeTag | Genes(genes: seq<string>)

  /** One `(id, provenance)` pair of a template's entry in `added_reactions`. */
  datatype LogEntry = LogEntry(key: string, provenance: Provenance)

  /** What the gap-fill solver returns for one template: the reactions of its
      first solution, or one of its two failures (a `RuntimeError` when the
      solution fails re-validation, `Infeasible` when there is none). */
  datatype SolveOutcome = Solved(reactions: seq<Reaction>) | ValidationFailed | Infeasible

  /** The exceptions that end a gap-filling run instead of being caught. */
  datatype Crash =
    | ExchangeWithoutMetabolite   // IndexError on `list(reaction.metabolites.keys())[0]`
    | TemplatesNotIterable        // TypeError: iterating the `None` template list
    | CompareWithNone             // TypeError: a float compared with a `None` running value
    | CapLookupFailed             // KeyError from `get_by_id` on a logged key
    | RejectLookupFailed          // reading the rejected ids through `Model.reactions.log` fails
    | SolverValidationFailed      // RuntimeError from the solver, not caught
    | SolverInfeasible            // Infeasible from the solver, not caught

  function Ids(rs: seq<Reaction>): seq<string> {
    seq(|rs|, i requires 0 <= i < |rs| => rs[i].id)
  }

  predicate Distinct(xs: seq<string>) {
    forall i, j :: 0 <= i < j < |xs| ==> xs[i] != xs[j]
  }

  /** The library keeps reaction ids unique within a model. */
  predicate WellFormed(m: Model) {
    Distinct(Ids(m.reactions))
  }

  function MetaboliteIds(r: Reaction): seq<string> {
    seq(|r.metabolites|, i requires 0 <= i < |r.metabolites| => r.metabolites[i].0)
  }

  /** Every metabolite a reaction of the model uses is a model metabolite. */
  predicate Closed(m: Model) {
    forall q, x :: q in m.reactions && x in MetaboliteIds(q) ==> x in m.metabolites
  }

  lemma IdsConcat(a: seq<Reaction>, b: seq<Reaction>)
    ensures Ids(a + b) == Ids(a) + Ids(b)
  {
    assert |Ids(a + b)| == |Ids(a) + Ids(b)|;
    forall i | 0 <= i < |a + b| ensures Ids(a + b)[i] == (Ids(a) + Ids(b))[i] {
      if i >= |a| { assert (a + b)[i] == b[i - |a|]; }
    }
  }

  lemma IdsMember(rs: seq<Reaction>, q: Reaction)
    requires q in rs
    ensures q.id in Ids(rs)
  {
    var i :| 0 <= i < |rs| && rs[i] == q;
    assert Ids(rs)[i] == q.id;
  }

  /** Dropping the first reaction keeps ids distinct, and the first id does
      not recur in the rest. */
  lemma DistinctTail(rs: seq<Reaction>)
    requires |rs| > 0 && Distinct(Ids(rs))
    ensures Distinct(Ids(rs[1..]))
    ensures rs[0].id !in Ids(rs[1..])
  {
    var tail := rs[1..];
    forall i, j | 0 <= i < j < |Ids(tail)| ensures Ids(tail)[i] != Ids(tail)[j] {
      assert Ids(tail)[i] == Ids(rs)[i + 1] && Ids(tail)[j] == Ids(rs)[j + 1];
    }
    forall k | 0 <= k < |tail| ensures Ids(tail)[k] != rs[0].id {
      assert Ids(tail)[k] == Ids(rs)[k + 1] && Ids(rs)[0] == rs[0].id;
    }
  }

  /** The library's `add_metabolites`: ids already present are skipped, new
      ones are appended in order. */
  function Include(known: seq<string>, ids: seq<string>): (r: seq<string>)
    ensures |known| <= |r| && r[..|known|] == known
    ensures forall x :: x in r <==> x in known || x in ids
    ensures Distinct(known) ==> Distinct(r)
    decreases |ids|
  {
    if |ids| == 0 then known
    else if ids[0] in known then Include(known, ids[1..])
    else
      var r := Include(known + [ids[0]], ids[1..]);
      assert r[..|known|] == (r[..|known| + 1])[..|known|];
      r
  }

  /** The library's `add_reaction`: a reaction whose id is already in the
      model is ignored; otherwise it is appended and its metabolites join the
      model's. */
  function AddReaction(m: Model, r: Reaction): (m': Model)
    ensures r.id in Ids(m.reactions) ==> m' == m
    ensures r.id !in Ids(m.reactions) ==> m'.reactions == m.reactions + [r]
    ensures r.id in Ids(m'.reactions)
    ensures Extends(m, m')
  {
    if r.id in Ids(m.reactions) then m
    else
      var m' := m.(reactions := m.reactions + [r], metabolites := Include(m.metabolites, MetaboliteIds(r)));
      assert Ids(m'.reactions)[|m.reactions|] == r.id;
      m'
  }

  lemma AddReactionMetabolites(m: Model, r: Reaction)
    ensures forall x :: x in AddReaction(m, r).metabolites <==>
      x in m.metabolites || (r.id !in Ids(m.reactions) && x in MetaboliteIds(r))
    ensures Distinct(m.metabolites) ==> Distinct(AddReaction(m, r).metabolites)
  {
  }

  lemma AddReactionWellFormed(m: Model, r: Reaction)
    requires WellFormed(m)
    ensures WellFormed(AddReaction(m, r))
  {
    if r.id !in Ids(m.reactions) { IdsConcat(m.reactions, [r]); }
  }

  lemma AddReactionClosed(m: Model, r: Reaction)
    requires Closed(m)
    ensures Closed(AddReaction(m, r))
  {
    AddReactionMetabolites(m, r);
  }

  /** Ids of a prefix are ids of the whole. */
  lemma IdsPrefix(a: seq<Reaction>, b: seq<Reaction>)
    requires |a| <= |b| && b[..|a|] == a
    ensures forall x :: x in Ids(a) ==> x in Ids(b)
  {
    forall x | x in Ids(a) ensures x in Ids(b) {
      var k :| 0 <= k < |a| && Ids(a)[k] == x;
      assert b[k] == a[k];
      assert Ids(b)[k] == x;
    }
  }

  /** `m'` is `m` with reactions appended: the name, compartments and
      objective are kept and no metabolite is lost. */
  predicate Extends(m: Model, m': Model) {
    && |m.reactions| <= |m'.reactions|
    && m'.reactions[..|m.reactions|] == m.reactions
    && m'.name == m.name && m'.compartments == m.compartments && m'.objective == m.objective
    && (forall x :: x in m.metabolites ==> x in m'.metabolites)
  }

  lemma ExtendsTransitive(a: Model, b: Model, c: Model)
    requires Extends(a, b) && Extends(b, c)
    ensures Extends(a, c)
  {
    assert c.reactions[..|a.reactions|] == c.reactions[..|b.reactions|][..|a.reactions|];
  }

  /** Every reaction `m'` has beyond those of `m` is new to `m` and is drawn
      from `pool`. */
  predicate AppendsFrom(m: Model, m': Model, pool: seq<Reaction>) {
    && Extends(m, m')
    && forall i :: |m.reactions| <= i < |m'.reactions| ==>
         m'.reactions[i] in pool && m'.reactions[i].id !in Ids(m.reactions)
  }

  lemma AppendsFromTransitive(a: Model, b: Model, c: Model, p: seq<Reaction>, q: seq<Reaction>)
    requires AppendsFrom(a, b, p) && AppendsFrom(b, c, q)
    ensures AppendsFrom(a, c, p + q)
  {
    ExtendsTransitive(a, b, c);
    IdsPrefix(a.reactions, b.reactions);
    forall i | |a.reactions| <= i < |c.reactions|
      ensures c.reactions[i] in p + q && c.reactions[i].id !in Ids(a.reactions)
    {
      if i < |b.reactions| { assert c.reactions[i] == b.reactions[i]; }
    }
  }

  /** Adding a reaction whose id is new appends exactly that reaction. */
  lemma AddReactionAppends(m: Model, r: Reaction)
    requires r.id !in Ids(m.reactions)
    ensures AppendsFrom(m, AddReaction(m, r), [r])
    ensures AddReaction(m, r).reactions[|m.reactions|..] == [r]
  {
  }

  /** Adding a new reaction `q` and then reactions from `pool` appends `q`
      followed by reactions from `pool`. */
  lemma AppendFirst(m: Model, q: Reaction, m': Model, pool: seq<Reaction>)
    requires q.id !in Ids(m.reactions)
    requires AppendsFrom(AddReaction(m, q), m', pool)
    ensures AppendsFrom(m, m', [q] + pool)
    ensures m'.reactions[|m.reactions|..] == [q] + m'.reactions[|m.reactions| + 1..]
  {
    var m1 := AddReaction(m, q);
    AddReactionAppends(m, q);
    AppendsFromTransitive(m, m1, m', [q], pool);
    assert m'.reactions[|m.reactions|] == m1.reactions[|m.reactions|] == q;
  }

  /** `[model.add_reaction(r.copy()) for r in rs]`. */
  function AddReactions(m: Model, rs: seq<Reaction>): (m': Model)
    ensures AppendsFrom(m, m', rs)
    decreases |rs|
  {
    if |rs| == 0 then m
    else
      var m1 := AddReaction(m, rs[0]);
      var m' := AddReactions(m1, rs[1..]);
      ExtendsTransitive(m, m1, m');
      IdsPrefix(m.reactions, m1.reactions);
      forall i | |m.reactions| <= i < |m'.reactions|
        ensures m'.reactions[i] in rs && m'.reactions[i].id !in Ids(m.reactions)
      {
        if i >= |m1.reactions| {
          assert m'.reactions[i] in rs[1..];
        } else {
          assert m'.reactions[i] == m1.reactions[i];
        }
      }
      m'
  }

  lemma {:induction false} AddReactionsWellFormed(m: Model, rs: seq<Reaction>)
    requires WellFormed(m)
    ensures WellFormed(AddReactions(m, rs))
    decreases |rs|
  {
    if |rs| > 0 {
      AddReactionWellFormed(m, rs[0]);
      AddReactionsWellFormed(AddReaction(m, rs[0]), rs[1..]);
    }
  }

  lemma {:induction false} AddReactionsClosed(m: Model, rs: seq<Reaction>)
    requires Closed(m)
    ensures Closed(AddReactions(m, rs))
    decreases |rs|
  {
    if |rs| > 0 {
      AddReactionClosed(m, rs[0]);
      AddReactionsClosed(AddReaction(m, rs[0]), rs[1..]);
    }
  }

  /** After the additions every id of `rs` names a reaction of the model. */
  lemma {:induction false} AddReactionsCovers(m: Model, rs: seq<Reaction>)
    ensures forall x :: x in Ids(rs) ==> x in Ids(AddReactions(m, rs).reactions)
    decreases |rs|
  {
    if |rs| > 0 {
      var m1 := AddReaction(m, rs[0]);
      var m' := AddReactions(m1, rs[1..]);
      AddReactionsCovers(m1, rs[1..]);
      forall x | x in Ids(rs) ensures x in Ids(m'.reactions) {
        var i :| 0 <= i < |rs| && Ids(rs)[i] == x;
        if i > 0 {
          assert Ids(rs[1..])[i - 1] == x;
        } else {
          var k :| 0 <= k < |m1.reactions| && Ids(m1.reactions)[k] == x;
          assert m'.reactions[k] == m1.reactions[k];
          assert Ids(m'.reactions)[k] == x;
        }
      }
    }
  }

  /** When every id is new and they are pairwise distinct, each reaction is
      appended, in order. */
  lemma {:induction false} AddReactionsFresh(m: Model, rs: seq<Reaction>)
    requires Distinct(Ids(m.reactions + rs))
    ensures AddReactions(m, rs).reactions == m.reactions + rs
    decreases |rs|
  {
    if |rs| > 0 {
      IdsConcat(m.reactions, rs);
      var m1 := AddReaction(m, rs[0]);
      assert Ids(m.reactions + rs)[|m.reactions|] == rs[0].id;
      forall k | 0 <= k < |m.reactions| ensures Ids(m.reactions)[k] != rs[0].id {
        assert Ids(m.reactions + rs)[k] == Ids(m.reactions)[k];
      }
      assert rs == [rs[0]] + rs[1..];
      assert m1.reactions + rs[1..] == m.reactions + rs;
      AddReactionsFresh(m1, rs[1..]);
    }
  }

  /** Every reaction whose id is listed gets flux bounds [0, 0]. */
  function Bound(rs: seq<Reaction>, ids: seq<string>): (r: seq<Reaction>)
    ensures |r| == |rs|
    ensures Ids(r) == Ids(rs)
    ensures forall i :: 0 <= i < |rs| && rs[i].id in ids ==> r[i] == rs[i].(lower := 0.0, upper := 0.0)
    ensures forall i :: 0 <= i < |rs| && rs[i].id !in ids ==> r[i] == rs[i]
  {
    seq(|rs|, i requires 0 <= i < |rs| => if rs[i].id in ids then rs[i].(lower := 0.0, upper := 0.0) else rs[i])
  }

  /** The library's `remove_reactions`: every reaction whose id is listed
      leaves the model; its metabolites stay. */
  function Remove(rs: seq<Reaction>, ids: seq<string>): (r: seq<Reaction>)
    ensures forall q :: q in r <==> q in rs && q.id !in ids
    decreases |rs|
  {
    if |rs| == 0 then []
    else if rs[0].id in ids then Remove(rs[1..], ids)
    else [rs[0]] + Remove(rs[1..], ids)
  }

  lemma {:induction false} RemoveConcat(a: seq<Reaction>, b: seq<Reaction>, ids: seq<string>)
    ensures Remove(a + b, ids) == Remove(a, ids) + Remove(b, ids)
    decreases |a|
  {
    if |a| > 0 {
      assert (a + b)[0] == a[0];
      assert (a + b)[1..] == a[1..] + b;
      RemoveConcat(a[1..], b, ids);
    } else {
      assert a + b == b;
    }
  }

  /** Removing every listed reaction of a list whose ids are all listed
      leaves nothing. */
  lemma RemoveCovered(rs: seq<Reaction>, ids: seq<string>)
    requires forall q :: q in rs ==> q.id in ids
    ensures Remove(rs, ids) == []
  {
    if |Remove(rs, ids)| > 0 { assert Remove(rs, ids)[0] in Remove(rs, ids); }
  }

  /** Removing ids none of which is present changes nothing. */
  lemma {:induction false} RemoveNothing(rs: seq<Reaction>, ids: seq<string>)
    requires forall x :: x in ids ==> x !in Ids(rs)
    ensures Remove(rs, ids) == rs
    decreases |rs|
  {
    if |rs| > 0 {
      assert Ids(rs)[0] == rs[0].id;
      assert forall x :: x in Ids(rs[1..]) ==> x in Ids(rs) by {
        forall x | x in Ids(rs[1..]) ensures x in Ids(rs) {
          var i :| 0 <= i < |rs[1..]| && Ids(rs[1..])[i] == x;
          assert Ids(rs)[i + 1] == x;
        }
      }
      RemoveNothing(rs[1..], ids);
      assert rs == [rs[0]] + rs[1..];
    }
  }

  /** Removing reactions keeps the ids of the rest distinct. */
  lemma {:induction false} RemoveDistinct(rs: seq<Reaction>, ids: seq<string>)
    requires Distinct(Ids(rs))
    ensures Distinct(Ids(Remove(rs, ids)))
    decreases |rs|
  {
    if |rs| > 0 {
      assert Distinct(Ids(rs[1..])) by {
        forall i, j | 0 <= i < j < |Ids(rs[1..])| ensures Ids(rs[1..])[i] != Ids(rs[1..])[j] {
          assert Ids(rs[1..])[i] == Ids(rs)[i + 1] && Ids(rs[1..])[j] == Ids(rs)[j + 1];
        }
      }
      RemoveDistinct(rs[1..], ids);
      if rs[0].id !in ids {
        var t := Remove(rs[1..], ids);
        IdsConcat([rs[0]], t);
        forall k | 0 <= k < |t| ensures t[k].id != rs[0].id {
          assert t[k] in rs[1..];
          var j :| 0 <= j < |rs[1..]| && rs[1..][j] == t[k];
          assert Ids(rs)[j + 1] == t[k].id && Ids(rs)[0] == rs[0].id;
        }
      }
    }
  }

  /** The log entries for the solver's reactions, in solver order: exchange
      reactions tagged "Exchange reaction", the others with their genes. */
  function SolverEntries(rs: seq<Reaction>): (log: seq<LogEntry>)
    ensures |log| == |rs|
  {
    seq(|rs|, i requires 0 <= i < |rs| =>
      LogEntry(rs[i].id, if StartsWith(rs[i].id, "EX_") then ExchangeTag else Genes(rs[i].genes)))
  }

  function Keys(log: seq<LogEntry>): seq<string> {
    seq(|log|, i requires 0 <= i < |log| => log[i].key)
  }
}
