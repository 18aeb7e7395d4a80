/** `seed_to_bigg(model, m_table, r_table)`: a copy of a ModelSEED model with
    metabolite and reaction ids translated to BiGG names through two
    tables. A metabolite id is a SEED stem followed by a two-character
    compartment suffix; the stem is looked up and the suffix re-attached.
    Exchange reactions "EX_<stem><suffix>" are translated through the
    metabolite table, other reactions through the reaction table, whose
    BiGG ids carry no suffix. A lookup that misses keeps the id. */
module SeedToBigg {
  import opened Common
  import opened Text
  import opened Network

  /** A translation table: its rows, in order, as (SEED id, BiGG id). */
  type Table = seq<(string, string)>

  /** `table[table["SEED"] == key]["BiGG"].values[0]`, `None` for the
      `IndexError` of an empty selection. */
  function Lookup(t: Table, key: string): (r: Option<string>)
    ensures r.None? <==> forall i :: 0 <= i < |t| ==> t[i].0 != key
    ensures r.Some? ==> exists i :: 0 <= i < |t| && t[i] == (key, r.value) && forall j :: 0 <= j < i ==> t[j].0 != key
    decreases |t|
  {
    if |t| == 0 then None
    else if t[0].0 == key then Some(t[0].1)
    else
      var r := Lookup(t[1..], key);
      assert forall i :: 1 <= i < |t| ==> t[i] == t[1..][i - 1];
      if r.Some? then
        var i :| 0 <= i < |t[1..]| && t[1..][i] == (key, r.value) && forall j :: 0 <= j < i ==> t[1..][j].0 != key;
        assert t[i + 1] == (key, r.value);
        r
      else r
  }

  /** Python's `id[-2:]`: the last two characters, or all of a shorter id. */
  function Compartment(id: string): string {
    if |id| >= 2 then id[|id| - 2..] else id
  }

  /** Python's `id[:-2]`: all but the last two characters. */
  function Stem(id: string): string {
    if |id| >= 2 then id[..|id| - 2] else []
  }

  /** Python's `id[3:-2]` on an exchange id: the stem between "EX_" and
      the suffix. */
  function ExchangeStem(id: string): string {
    if |id| >= 5 then id[3..|id| - 2] else []
  }

  lemma StemCompartment(id: string)
    ensures Stem(id) + Compartment(id) == id
  {
  }

  /** An exchange id long enough to carry a stem splits into "EX_", its
      stem and its suffix. */
  lemma ExchangeSplit(id: string)
    requires |id| >= 5 && StartsWith(id, "EX_")
    ensures "EX_" + ExchangeStem(id) + Compartment(id) == id
  {
    assert id == id[..3] + id[3..|id| - 2] + id[|id| - 2..];
  }

  /** The id a model metabolite gets. A translated id of a metabolite with
      a suffix splits again into the BiGG id and the same suffix. */
  function TranslateMetabolite(id: string, mt: Table): (r: string)
    ensures Lookup(mt, Stem(id)).None? ==> r == id
    ensures |id| >= 2 ==> Compartment(r) == Compartment(id)
    ensures |id| >= 2 && Lookup(mt, Stem(id)).Some? ==> Stem(r) == Lookup(mt, Stem(id)).value
  {
    match Lookup(mt, Stem(id))
    case Some(b) => b + Compartment(id)
    case None => id
  }

  /** The id a metabolite gets inside a reaction: the looked-up BiGG id, or
      on a miss the stem itself, with the suffix re-attached. */
  function InReactionId(id: string, mt: Table): string {
    var stem := Stem(id);
    (match Lookup(mt, stem) case Some(b) => b case None => stem) + Compartment(id)
  }

  /** The two metabolite paths of the function agree: a metabolite is
      renamed the same way in the model's list and inside its reactions. */
  lemma InReactionIdAgrees(id: string, mt: Table)
    ensures InReactionId(id, mt) == TranslateMetabolite(id, mt)
  {
    StemCompartment(id);
  }

  /** The id a reaction gets. An exchange reaction stays an exchange
      reaction whose stem is the metabolite's BiGG id and whose suffix is the
      old one; any other reaction found in the reaction table takes the BiGG
      id of the first row for its stem, suffix dropped; a miss keeps the id. */
  function TranslateReactionId(id: string, mt: Table, rt: Table): (r: string)
    ensures StartsWith(id, "EX_") ==> StartsWith(r, "EX_") && Compartment(r) == Compartment(id)
    ensures StartsWith(id, "EX_") && Lookup(mt, ExchangeStem(id)).Some? ==>
      ExchangeStem(r) == Lookup(mt, ExchangeStem(id)).value
    ensures !StartsWith(id, "EX_") && Lookup(rt, Stem(id)).Some? ==>
      exists i :: 0 <= i < |rt| && rt[i] == (Stem(id), r) && forall j :: 0 <= j < i ==> rt[j].0 != Stem(id)
    ensures (if StartsWith(id, "EX_") then Lookup(mt, ExchangeStem(id)) else Lookup(rt, Stem(id))).None? ==> r == id
  {
    if StartsWith(id, "EX_") then
      match Lookup(mt, ExchangeStem(id))
      case Some(b) => "EX_" + b + Compartment(id)
      case None => id
    else
      match Lookup(rt, Stem(id))
      case Some(b) => b
      case None => id
  }

  /** A reaction with its id and its metabolites' ids translated; the
      coefficients, their order, the genes and the bounds are kept. */
  function TranslateReaction(q: Reaction, mt: Table, rt: Table): (r: Reaction)
    ensures r.id == TranslateReactionId(q.id, mt, rt)
    ensures r.genes == q.genes && r.lower == q.lower && r.upper == q.upper
    ensures |r.metabolites| == |q.metabolites|
    ensures forall i :: 0 <= i < |q.metabolites| ==>
      r.metabolites[i] == (TranslateMetabolite(q.metabolites[i].0, mt), q.metabolites[i].1)
  {
    var ms := seq(|q.metabolites|, i requires 0 <= i < |q.metabolites| =>
      (InReactionId(q.metabolites[i].0, mt), q.metabolites[i].1));
    forall i | 0 <= i < |q.metabolites| ensures ms[i].0 == TranslateMetabolite(q.metabolites[i].0, mt) {
      InReactionIdAgrees(q.metabolites[i].0, mt);
    }
    q.(id := TranslateReactionId(q.id, mt, rt), metabolites := ms)
  }

  function TranslateMetabolites(ids: seq<string>, mt: Table): (r: seq<string>)
    ensures |r| == |ids| && forall i :: 0 <= i < |ids| ==> r[i] == TranslateMetabolite(ids[i], mt)
  {
    seq(|ids|, i requires 0 <= i < |ids| => TranslateMetabolite(ids[i], mt))
  }

  function TranslateReactions(rs: seq<Reaction>, mt: Table, rt: Table): (r: seq<Reaction>)
    ensures |r| == |rs| && forall i :: 0 <= i < |rs| ==> r[i] == TranslateReaction(rs[i], mt, rt)
  {
    seq(|rs|, i requires 0 <= i < |rs| => TranslateReaction(rs[i], mt, rt))
  }

  /** The empty model `cobra.Model(str(model) + " (translated)")` after the
      metabolite loop: translated ids, a repeat skipped. */
  function Base(m: Model, mt: Table): (b: Model)
    ensures b.reactions == [] && b.objective == [] && b.compartments == m.compartments
    ensures forall x :: x in b.metabolites <==> x in TranslateMetabolites(m.metabolites, mt)
    ensures Distinct(b.metabolites)
  {
    Model(m.name + " (translated)", [], Include([], TranslateMetabolites(m.metabolites, mt)), m.compartments, [])
  }

  /** `seed_to_bigg(model, m_table, r_table)`: the new model, named after the
      old one, holds every reaction of the old one translated, the first of
      any that translate to the same id, in order. */
  function SeedToBigg(m: Model, mt: Table, rt: Table): (r: Model)
    ensures r.name == m.name + " (translated)" && r.objective == [] && r.compartments == m.compartments
    ensures AppendsFrom(Base(m, mt), r, TranslateReactions(m.reactions, mt, rt))
    ensures forall x :: x in TranslateMetabolites(m.metabolites, mt) ==> x in r.metabolites
  {
    AddReactions(Base(m, mt), TranslateReactions(m.reactions, mt, rt))
  }

  /** The translated model has unique reaction ids, lists every metabolite
      its reactions use, and contains a reaction under every translated id. */
  lemma SeedToBiggWellFormed(m: Model, mt: Table, rt: Table)
    ensures WellFormed(SeedToBigg(m, mt, rt))
    ensures Closed(SeedToBigg(m, mt, rt))
    ensures forall i :: 0 <= i < |m.reactions| ==>
      TranslateReactionId(m.reactions[i].id, mt, rt) in Ids(SeedToBigg(m, mt, rt).reactions)
  {
    var b := Base(m, mt);
    var ts := TranslateReactions(m.reactions, mt, rt);
    AddReactionsWellFormed(b, ts);
    AddReactionsClosed(b, ts);
    AddReactionsCovers(b, ts);
    forall i | 0 <= i < |m.reactions| ensures TranslateReactionId(m.reactions[i].id, mt, rt) in Ids(ts) {
      assert Ids(ts)[i] == ts[i].id;
    }
  }

  /** With empty tables nothing is renamed: a model with unique reaction ids
      keeps its reactions exactly, in order. */
  lemma EmptyTablesKeepReactions(m: Model)
    requires WellFormed(m)
    ensures SeedToBigg(m, [], []).reactions == m.reactions
  {
    var b := Base(m, []);
    var ts := TranslateReactions(m.reactions, [], []);
    forall i | 0 <= i < |m.reactions| ensures ts[i] == m.reactions[i] {
      EmptyTablesKeepReaction(m.reactions[i]);
    }
    assert ts == m.reactions;
    assert b.reactions + ts == ts;
    AddReactionsFresh(b, ts);
  }

  lemma EmptyTablesKeepReaction(q: Reaction)
    ensures TranslateReaction(q, [], []) == q
  {
    assert TranslateReaction(q, [], []).metabolites == q.metabolites;
  }

  /** Swapping a table's columns. */
  function Swap(t: Table): (r: Table)
    ensures |r| == |t| && forall i :: 0 <= i < |t| ==> r[i] == (t[i].1, t[i].0)
  {
    seq(|t|, i requires 0 <= i < |t| => (t[i].1, t[i].0))
  }

  /** The lookup returns the BiGG id of the first row with the key. */
  lemma {:induction false} LookupFirst(t: Table, key: string, i: nat)
    requires i < |t| && t[i].0 == key
    requires forall j :: 0 <= j < i ==> t[j].0 != key
    ensures Lookup(t, key) == Some(t[i].1)
    decreases i
  {
    if i > 0 {
      assert t[1..][i - 1] == t[i];
      forall j | 0 <= j < i - 1 ensures t[1..][j].0 != key { assert t[1..][j] == t[j + 1]; }
      LookupFirst(t[1..], key, i - 1);
    }
  }

  /** An exchange id that was translated comes back through the swapped
      metabolite table when no BiGG id occurs twice in it. */
  lemma TranslateExchangeIdRoundTrip(id: string, mt: Table, rt: Table, rt': Table)
    requires |id| >= 5 && StartsWith(id, "EX_") && Lookup(mt, ExchangeStem(id)).Some?
    requires forall i, j :: 0 <= i < j < |mt| ==> mt[i].1 != mt[j].1
    ensures TranslateReactionId(TranslateReactionId(id, mt, rt), Swap(mt), rt') == id
  {
    var stem := ExchangeStem(id);
    var b := Lookup(mt, stem).value;
    var x := TranslateReactionId(id, mt, rt);
    var i :| 0 <= i < |mt| && mt[i] == (stem, b) && forall j :: 0 <= j < i ==> mt[j].0 != stem;
    var sw := Swap(mt);
    forall j | 0 <= j < i ensures sw[j].0 != b { assert sw[j].0 == mt[j].1; }
    LookupFirst(sw, b, i);
    assert ExchangeStem(x) == b && Compartment(x) == Compartment(id);
    ExchangeSplit(id);
  }

  /** A metabolite id that was translated comes back through the swapped
      table when no BiGG id occurs twice in it. */
  lemma TranslateMetaboliteRoundTrip(id: string, mt: Table)
    requires |id| >= 2 && Lookup(mt, Stem(id)).Some?
    requires forall i, j :: 0 <= i < j < |mt| ==> mt[i].1 != mt[j].1
    ensures TranslateMetabolite(TranslateMetabolite(id, mt), Swap(mt)) == id
  {
    var b := Lookup(mt, Stem(id)).value;
    var x := TranslateMetabolite(id, mt);
    var i :| 0 <= i < |mt| && mt[i] == (Stem(id), b) && forall j :: 0 <= j < i ==> mt[j].0 != Stem(id);
    var sw := Swap(mt);
    forall j | 0 <= j < i ensures sw[j].0 != b { assert sw[j].0 == mt[j].1; }
    LookupFirst(sw, b, i);
    assert Stem(x) == b && Compartment(x) == Compartment(id);
    StemCompartment(id);
  }
}
