/** The bridging injectors run before each solve: `add_exchange_reactions`
    copies the template's exchange reactions whose metabolite the model
    already has, `add_transport` copies the template's transport reactions
    whose compounds the model already has. Membership is decided by id. */
module Bridging {
  import opened Common
  import opened Text
  import opened Network
  import opened Transport

  /** `add_exchange_reactions(model, template)`: the returned ids are those of
      the reactions appended to the model, all of them `EX_` reactions of the
      template that the model lacked. */
  function AddExchangeReactions(m: Model, t: Model): (r: Result<(Model, seq<string>), Crash>)
    ensures r.Ok? ==> AppendsFrom(m, r.value.0, t.reactions)
    ensures r.Ok? ==> Ids(r.value.0.reactions[|m.reactions|..]) == r.value.1
    ensures r.Ok? ==> forall x :: x in r.value.1 ==> StartsWith(x, "EX_")
    ensures r.Err? ==> r.error == ExchangeWithoutMetabolite
  {
    ExchangeFold(m, t.reactions)
  }

  /** The loop of `add_exchange_reactions` over the remaining reactions `rs`.
      A reaction absent from the model with no metabolites raises the
      IndexError of `list(reaction.metabolites.keys())[0]`. */
  function ExchangeFold(m: Model, rs: seq<Reaction>): (r: Result<(Model, seq<string>), Crash>)
    ensures r.Ok? ==> AppendsFrom(m, r.value.0, rs)
    ensures r.Ok? ==> Ids(r.value.0.reactions[|m.reactions|..]) == r.value.1
    ensures r.Ok? ==> forall x :: x in r.value.1 ==> StartsWith(x, "EX_")
    ensures r.Err? ==> r.error == ExchangeWithoutMetabolite
    decreases |rs|
  {
    if |rs| == 0 then Ok((m, []))
    else
      var q := rs[0];
      assert rs == [q] + rs[1..];
      if !StartsWith(q.id, "EX_") || q.id in Ids(m.reactions) then ExchangeFold(m, rs[1..])
      else if |q.metabolites| == 0 then Err(ExchangeWithoutMetabolite)
      else if q.metabolites[0].0 !in m.metabolites then ExchangeFold(m, rs[1..])
      else
        var m1 := AddReaction(m, q);
        match ExchangeFold(m1, rs[1..])
        case Err(e) => Err(e)
        case Ok((m', ids)) =>
          ExchangeFoldPrepend(m, q, m', rs[1..], ids);
          Ok((m', [q.id] + ids))
  }

  /** Prepending the copied reaction `q` to what the rest of the fold
      appended. */
  lemma ExchangeFoldPrepend(m: Model, q: Reaction, m': Model, pool: seq<Reaction>, ids: seq<string>)
    requires q.id !in Ids(m.reactions) && StartsWith(q.id, "EX_")
    requires AppendsFrom(AddReaction(m, q), m', pool)
    requires Ids(m'.reactions[|m.reactions| + 1..]) == ids
    requires forall x :: x in ids ==> StartsWith(x, "EX_")
    ensures AppendsFrom(m, m', [q] + pool)
    ensures Ids(m'.reactions[|m.reactions|..]) == [q.id] + ids
    ensures forall x :: x in [q.id] + ids ==> StartsWith(x, "EX_")
  {
    AppendFirst(m, q, m', pool);
    IdsConcat([q], m'.reactions[|m.reactions| + 1..]);
  }

  /** A template reaction the exchange injector copies into a model whose
      reaction ids are `present` and whose metabolites are `mets`. */
  predicate ExchangeCandidate(present: seq<string>, mets: seq<string>, q: Reaction) {
    && StartsWith(q.id, "EX_")
    && q.id !in present
    && |q.metabolites| > 0
    && q.metabolites[0].0 in mets
  }

  function ExchangeCandidates(present: seq<string>, mets: seq<string>, rs: seq<Reaction>): seq<Reaction>
    decreases |rs|
  {
    if |rs| == 0 then []
    else (if ExchangeCandidate(present, mets, rs[0]) then [rs[0]] else []) + ExchangeCandidates(present, mets, rs[1..])
  }

  lemma {:induction false} ExchangeCandidatesSkip(present: seq<string>, mets: seq<string>, x: string, rs: seq<Reaction>)
    requires x !in Ids(rs)
    ensures ExchangeCandidates(present + [x], mets, rs) == ExchangeCandidates(present, mets, rs)
    decreases |rs|
  {
    if |rs| > 0 {
      assert Ids(rs)[0] == rs[0].id;
      assert x !in Ids(rs[1..]) by {
        forall k | 0 <= k < |rs[1..]| ensures Ids(rs[1..])[k] != x { assert Ids(rs[1..])[k] == Ids(rs)[k + 1]; }
      }
      ExchangeCandidatesSkip(present, mets, x, rs[1..]);
    }
  }

  predicate SingleMetaboliteExchanges(rs: seq<Reaction>) {
    forall q :: q in rs && StartsWith(q.id, "EX_") ==> |q.metabolites| == 1
  }

  /** The exchange injector as a filter: for a template with distinct ids
      whose exchange reactions each carry one metabolite, it succeeds, and
      the ids it returns are exactly those of the template's `EX_` reactions,
      in template order, that the model lacked and whose metabolite the model
      has; they are appended to the model's reactions and nothing else
      changes. */
  lemma {:induction false} AddExchangeReactionsSpec(m: Model, t: Model)
    requires Distinct(Ids(t.reactions))
    requires SingleMetaboliteExchanges(t.reactions)
    ensures var c := ExchangeCandidates(Ids(m.reactions), m.metabolites, t.reactions);
      AddExchangeReactions(m, t) == Ok((m.(reactions := m.reactions + c), Ids(c)))
  {
    ExchangeFoldSpec(m, t.reactions);
  }

  lemma {:induction false} ExchangeFoldSpec(m: Model, rs: seq<Reaction>)
    requires Distinct(Ids(rs))
    requires SingleMetaboliteExchanges(rs)
    ensures var c := ExchangeCandidates(Ids(m.reactions), m.metabolites, rs);
      ExchangeFold(m, rs) == Ok((m.(reactions := m.reactions + c), Ids(c)))
    decreases |rs|
  {
    if |rs| == 0 {
      assert m.(reactions := m.reactions + []) == m;
    } else {
      var q := rs[0];
      var tail := rs[1..];
      DistinctTail(rs);
      assert SingleMetaboliteExchanges(tail) by {
        forall p | p in tail && StartsWith(p.id, "EX_") ensures |p.metabolites| == 1 { assert p in rs; }
      }
      if ExchangeCandidate(Ids(m.reactions), m.metabolites, q) {
        ExchangeFoldAdd(m, rs);
      } else {
        assert q in rs;
        assert ExchangeFold(m, rs) == ExchangeFold(m, tail);
        assert ExchangeCandidates(Ids(m.reactions), m.metabolites, rs) == ExchangeCandidates(Ids(m.reactions), m.metabolites, tail);
        ExchangeFoldSpec(m, tail);
      }
    }
  }

  /** An `EX_` reaction new to the model and without metabolites. */
  predicate BareExchange(present: seq<string>, q: Reaction) {
    StartsWith(q.id, "EX_") && q.id !in present && |q.metabolites| == 0
  }

  /** For a template with distinct ids, the exchange injector raises exactly
      when one of the template's `EX_` reactions is new to the model and has
      no metabolites. */
  lemma AddExchangeReactionsErr(m: Model, t: Model)
    requires Distinct(Ids(t.reactions))
    ensures AddExchangeReactions(m, t).Err? <==> exists q :: q in t.reactions && BareExchange(Ids(m.reactions), q)
  {
    ExchangeFoldErr(m, t.reactions);
  }

  lemma {:induction false} ExchangeFoldErr(m: Model, rs: seq<Reaction>)
    requires Distinct(Ids(rs))
    ensures ExchangeFold(m, rs).Err? <==> exists q :: q in rs && BareExchange(Ids(m.reactions), q)
    decreases |rs|
  {
    if |rs| > 0 {
      var q := rs[0];
      DistinctTail(rs);
      assert forall x :: x in rs <==> x == q || x in rs[1..];
      if !StartsWith(q.id, "EX_") || q.id in Ids(m.reactions) {
        ExchangeFoldErr(m, rs[1..]);
      } else if |q.metabolites| == 0 {
        assert BareExchange(Ids(m.reactions), q);
      } else if q.metabolites[0].0 !in m.metabolites {
        ExchangeFoldErr(m, rs[1..]);
      } else {
        var m1 := AddReaction(m, q);
        ExchangeFoldErr(m1, rs[1..]);
        assert Ids(m1.reactions) == Ids(m.reactions) + [q.id] by { IdsConcat(m.reactions, [q]); }
        forall x | x in rs[1..] ensures BareExchange(Ids(m1.reactions), x) <==> BareExchange(Ids(m.reactions), x) {
          IdsMember(rs[1..], x);
        }
      }
    }
  }

  /** Copying an exchange reaction whose one metabolite the model already
      lists leaves the metabolite list as it was. */
  lemma KnownExchangeKeepsMetabolites(m: Model, q: Reaction)
    requires |q.metabolites| == 1 && q.metabolites[0].0 in m.metabolites
    ensures AddReaction(m, q).metabolites == m.metabolites
  {
    assert MetaboliteIds(q) == [q.metabolites[0].0];
    assert Include(m.metabolites, [q.metabolites[0].0]) == Include(m.metabolites, []);
  }

  /** The step of `ExchangeFoldSpec` where the first reaction is copied. */
  lemma {:induction false} ExchangeFoldAdd(m: Model, rs: seq<Reaction>)
    requires |rs| > 0 && Distinct(Ids(rs))
    requires SingleMetaboliteExchanges(rs)
    requires ExchangeCandidate(Ids(m.reactions), m.metabolites, rs[0])
    ensures var c := ExchangeCandidates(Ids(m.reactions), m.metabolites, rs);
      ExchangeFold(m, rs) == Ok((m.(reactions := m.reactions + c), Ids(c)))
    decreases |rs|, 0
  {
    var q := rs[0];
    var tail := rs[1..];
    var m1 := AddReaction(m, q);
    var c := ExchangeCandidates(Ids(m.reactions), m.metabolites, tail);
    assert ExchangeCandidates(Ids(m.reactions), m.metabolites, rs) == [q] + c;
    assert ExchangeFold(m1, tail) == Ok((m1.(reactions := m1.reactions + c), Ids(c))) by {
      DistinctTail(rs);
      assert SingleMetaboliteExchanges(tail) by {
        forall p | p in tail && StartsWith(p.id, "EX_") ensures |p.metabolites| == 1 { assert p in rs; }
      }
      assert q in rs;
      KnownExchangeKeepsMetabolites(m, q);
      IdsConcat(m.reactions, [q]);
      assert Ids([q]) == [q.id];
      ExchangeCandidatesSkip(Ids(m.reactions), m.metabolites, q.id, tail);
      ExchangeFoldSpec(m1, tail);
    }
    assert ExchangeFold(m, rs) == Ok((m1.(reactions := m1.reactions + c), [q.id] + Ids(c)));
    IdsConcat([q], c);
    assert m1.(reactions := m1.reactions + c) == m.(reactions := m.reactions + ([q] + c)) by {
      assert q in rs;
      KnownExchangeKeepsMetabolites(m, q);
    }
  }

  /** `"_" + c` for every compartment key. */
  function Tokens(compartments: seq<string>): seq<string> {
    seq(|compartments|, i requires 0 <= i < |compartments| => "_" + compartments[i])
  }

  /** The model's metabolite ids with its own compartment tokens stripped,
      computed once before the loop (`dict.fromkeys` only removes repeats,
      which membership does not see). */
  function KnownCompounds(m: Model): seq<string> {
    StripAll(m.metabolites, Tokens(m.compartments))
  }

  predicate AllKnown(xs: seq<string>, known: seq<string>) {
    forall i :: 0 <= i < |xs| ==> xs[i] in known
  }

  /** The test `add_transport` applies to a template reaction, apart from
      its absence from the model: `is_transport` with the template's tokens,
      and every stripped reactant among the model's stripped metabolites as
      they were before the loop. */
  predicate Accepts(q: Reaction, tokens: seq<string>, known: seq<string>, allCompounds: bool, ignoreH: bool) {
    && IsTransport(q, tokens, allCompounds, ignoreH)
    && AllKnown(StripAll(Reactants(q), tokens), known)
  }

  function Acceptor(tokens: seq<string>, known: seq<string>, allCompounds: bool, ignoreH: bool): Reaction -> bool {
    q => Accepts(q, tokens, known, allCompounds, ignoreH)
  }

  function TransportEntry(q: Reaction): LogEntry {
    LogEntry("Transport reaction: " + q.id, Genes(q.genes))
  }

  function TransportEntries(qs: seq<Reaction>): seq<LogEntry> {
    seq(|qs|, i requires 0 <= i < |qs| => TransportEntry(qs[i]))
  }

  /** `add_transport(model, template, all_compounds, ignore_h)`: the log lists
      one "Transport reaction: <id>" entry, with the reaction's genes, per
      reaction appended to the model, in order. */
  function AddTransport(m: Model, t: Model, allCompounds: bool, ignoreH: bool): (r: (Model, seq<LogEntry>))
    ensures AppendsFrom(m, r.0, t.reactions)
    ensures r.1 == TransportEntries(r.0.reactions[|m.reactions|..])
  {
    TransportFold(m, t.reactions, Acceptor(Tokens(t.compartments), KnownCompounds(m), allCompounds, ignoreH))
  }

  /** The loop of `add_transport` over the remaining reactions `rs`. */
  function TransportFold(m: Model, rs: seq<Reaction>, accept: Reaction -> bool): (r: (Model, seq<LogEntry>))
    ensures AppendsFrom(m, r.0, rs)
    ensures r.1 == TransportEntries(r.0.reactions[|m.reactions|..])
    decreases |rs|
  {
    if |rs| == 0 then (m, [])
    else
      var q := rs[0];
      assert rs == [q] + rs[1..];
      if accept(q) && q.id !in Ids(m.reactions) then
        var m1 := AddReaction(m, q);
        var (m', log) := TransportFold(m1, rs[1..], accept);
        TransportFoldPrepend(m, q, m', rs[1..], log);
        (m', [TransportEntry(q)] + log)
      else TransportFold(m, rs[1..], accept)
  }

  /** Prepending the copied reaction `q` to what the rest of the fold
      appended and logged. */
  lemma TransportFoldPrepend(m: Model, q: Reaction, m': Model, pool: seq<Reaction>, log: seq<LogEntry>)
    requires q.id !in Ids(m.reactions)
    requires AppendsFrom(AddReaction(m, q), m', pool)
    requires log == TransportEntries(m'.reactions[|m.reactions| + 1..])
    ensures AppendsFrom(m, m', [q] + pool)
    ensures [TransportEntry(q)] + log == TransportEntries(m'.reactions[|m.reactions|..])
  {
    AppendFirst(m, q, m', pool);
  }

  function TransportCandidates(present: seq<string>, rs: seq<Reaction>, accept: Reaction -> bool): seq<Reaction>
    decreases |rs|
  {
    if |rs| == 0 then []
    else (if accept(rs[0]) && rs[0].id !in present then [rs[0]] else []) + TransportCandidates(present, rs[1..], accept)
  }

  lemma {:induction false} TransportCandidatesSkip(present: seq<string>, x: string, rs: seq<Reaction>, accept: Reaction -> bool)
    requires x !in Ids(rs)
    ensures TransportCandidates(present + [x], rs, accept) == TransportCandidates(present, rs, accept)
    decreases |rs|
  {
    if |rs| > 0 {
      assert Ids(rs)[0] == rs[0].id;
      assert x !in Ids(rs[1..]) by {
        forall k | 0 <= k < |rs[1..]| ensures Ids(rs[1..])[k] != x { assert Ids(rs[1..])[k] == Ids(rs)[k + 1]; }
      }
      TransportCandidatesSkip(present, x, rs[1..], accept);
    }
  }

  /** The transport injector as a filter: for a template with distinct ids,
      the reactions appended are exactly the template's reactions, in order,
      that `is_transport` accepts with the template's `"_" + compartment`
      tokens, that the model lacked, and whose stripped reactants all occur
      among the model's stripped metabolites as they were before the loop;
      each gets one "Transport reaction: <id>" log entry. */
  lemma AddTransportSpec(m: Model, t: Model, allCompounds: bool, ignoreH: bool)
    requires Distinct(Ids(t.reactions))
    ensures var c := TransportCandidates(Ids(m.reactions), t.reactions,
                                         Acceptor(Tokens(t.compartments), KnownCompounds(m), allCompounds, ignoreH));
      && AddTransport(m, t, allCompounds, ignoreH).0.reactions == m.reactions + c
      && AddTransport(m, t, allCompounds, ignoreH).1 == TransportEntries(c)
      && forall q :: q in c ==> Accepts(q, Tokens(t.compartments), KnownCompounds(m), allCompounds, ignoreH)
  {
    var accept := Acceptor(Tokens(t.compartments), KnownCompounds(m), allCompounds, ignoreH);
    TransportFoldSpec(m, t.reactions, accept);
    TransportCandidatesAccepted(Ids(m.reactions), t.reactions, accept);
  }

  lemma {:induction false} TransportCandidatesAccepted(present: seq<string>, rs: seq<Reaction>, accept: Reaction -> bool)
    ensures forall q :: q in TransportCandidates(present, rs, accept) ==> q in rs && accept(q) && q.id !in present
    decreases |rs|
  {
    if |rs| > 0 {
      TransportCandidatesAccepted(present, rs[1..], accept);
    }
  }

  lemma {:induction false} TransportFoldSpec(m: Model, rs: seq<Reaction>, accept: Reaction -> bool)
    requires Distinct(Ids(rs))
    ensures TransportFold(m, rs, accept).0.reactions == m.reactions + TransportCandidates(Ids(m.reactions), rs, accept)
    decreases |rs|
  {
    if |rs| > 0 {
      DistinctTail(rs);
      var q := rs[0];
      if accept(q) && q.id !in Ids(m.reactions) {
        TransportFoldAdd(m, rs, accept);
      } else {
        TransportFoldSpec(m, rs[1..], accept);
      }
    }
  }

  /** The step of `TransportFoldSpec` where the first reaction is copied. */
  lemma {:induction false} TransportFoldAdd(m: Model, rs: seq<Reaction>, accept: Reaction -> bool)
    requires |rs| > 0 && Distinct(Ids(rs))
    requires accept(rs[0]) && rs[0].id !in Ids(m.reactions)
    ensures TransportFold(m, rs, accept).0.reactions == m.reactions + TransportCandidates(Ids(m.reactions), rs, accept)
    decreases |rs|, 0
  {
    var q := rs[0];
    var tail := rs[1..];
    var m1 := AddReaction(m, q);
    var c := TransportCandidates(Ids(m.reactions), tail, accept);
    assert TransportCandidates(Ids(m.reactions), rs, accept) == [q] + c;
    assert TransportFold(m1, tail, accept).0.reactions == m1.reactions + c by {
      DistinctTail(rs);
      IdsConcat(m.reactions, [q]);
      assert Ids([q]) == [q.id];
      TransportCandidatesSkip(Ids(m.reactions), q.id, tail, accept);
      TransportFoldSpec(m1, tail, accept);
    }
    assert TransportFold(m, rs, accept).0 == TransportFold(m1, tail, accept).0;
    assert m1.reactions + c == m.reactions + ([q] + c);
  }

  /** The exchange injector keeps reaction ids unique. */
  lemma {:induction false} ExchangeFoldWellFormed(m: Model, rs: seq<Reaction>)
    requires WellFormed(m)
    requires ExchangeFold(m, rs).Ok?
    ensures WellFormed(ExchangeFold(m, rs).value.0)
    decreases |rs|
  {
    if |rs| > 0 {
      var q := rs[0];
      if !StartsWith(q.id, "EX_") || q.id in Ids(m.reactions) || q.metabolites[0].0 !in m.metabolites {
        ExchangeFoldWellFormed(m, rs[1..]);
      } else {
        AddReactionWellFormed(m, q);
        ExchangeFoldWellFormed(AddReaction(m, q), rs[1..]);
      }
    }
  }

  /** The transport injector keeps reaction ids unique. */
  lemma {:induction false} TransportFoldWellFormed(m: Model, rs: seq<Reaction>, accept: Reaction -> bool)
    requires WellFormed(m)
    ensures WellFormed(TransportFold(m, rs, accept).0)
    decreases |rs|
  {
    if |rs| > 0 {
      var q := rs[0];
      if accept(q) && q.id !in Ids(m.reactions) {
        AddReactionWellFormed(m, q);
        TransportFoldWellFormed(AddReaction(m, q), rs[1..], accept);
      } else {
        TransportFoldWellFormed(m, rs[1..], accept);
      }
    }
  }
}
