/** The transport classifier `is_transport`: compartment tokens are deleted
    from every reactant and product id (all occurrences, as `str.replace`
    does), both lists are sorted, and then either the whole lists are compared
    or only the smallest reactant is looked up among the products. */
module Transport {
  import opened Text
  import opened Network
  import opened StringOrder

  /** `reaction.reactants`: metabolites with a negative coefficient, in order. */
  function Reactants(r: Reaction): seq<string> {
    Side(r.metabolites, true)
  }

  /** `reaction.products`: metabolites with a positive coefficient, in order. */
  function Products(r: Reaction): seq<string> {
    Side(r.metabolites, false)
  }

  function Side(ms: seq<(string, real)>, reactants: bool): seq<string>
    decreases |ms|
  {
    if |ms| == 0 then []
    else
      var keep := if reactants then ms[0].1 < 0.0 else ms[0].1 > 0.0;
      (if keep then [ms[0].0] else []) + Side(ms[1..], reactants)
  }

  /** `for e in tokens: i = i.replace(e, "")`. */
  function StripTokens(id: string, tokens: seq<string>): string
    decreases |tokens|
  {
    if |tokens| == 0 then id else StripTokens(RemoveAll(id, tokens[0]), tokens[1..])
  }

  function StripAll(ids: seq<string>, tokens: seq<string>): seq<string> {
    seq(|ids|, i requires 0 <= i < |ids| => StripTokens(ids[i], tokens))
  }

  /** `if x in s: s.remove(x)`: drops the first occurrence. */
  function RemoveFirst(s: seq<string>, x: string): seq<string>
    decreases |s|
  {
    if |s| == 0 then s
    else if s[0] == x then s[1..]
    else [s[0]] + RemoveFirst(s[1..], x)
  }

  /** `is_transport(reaction, tokens, all_compounds, ignore_h)` as written.
      Without `all_compounds` the loop over the sorted reactants returns on
      its first element, so only the smallest reactant is looked up; with no
      reactants left the function falls through to the list comparison. */
  predicate IsTransport(r: Reaction, tokens: seq<string>, allCompounds: bool, ignoreH: bool) {
    var R := Sort(StripAll(Reactants(r), tokens));
    var P := Sort(StripAll(Products(r), tokens));
    if !allCompounds then
      var R' := if ignoreH then RemoveFirst(R, "h") else R;
      var P' := if ignoreH then RemoveFirst(P, "h") else P;
      if |R'| > 0 then R'[0] in P' else R' == P'
    else R == P
  }

  /** The least element of `R` also occurs in `P`; two empty sides count as
      a match. */
  ghost predicate SmallestShared(R: multiset<string>, P: multiset<string>) {
    if |R| == 0 then |P| == 0
    else exists x :: x in R && x in P && forall y :: y in R ==> Below(x, y)
  }

  /** What the classifier decides, stated on the multisets of stripped ids. */
  ghost predicate TransportSpec(r: Reaction, tokens: seq<string>, allCompounds: bool, ignoreH: bool) {
    var R := multiset(StripAll(Reactants(r), tokens));
    var P := multiset(StripAll(Products(r), tokens));
    if allCompounds then R == P
    else if ignoreH then SmallestShared(R - multiset{"h"}, P - multiset{"h"})
    else SmallestShared(R, P)
  }

  lemma {:induction false} RemoveFirstMultiset(s: seq<string>, x: string)
    ensures multiset(RemoveFirst(s, x)) == multiset(s) - multiset{x}
    decreases |s|
  {
    if |s| > 0 {
      assert s == [s[0]] + s[1..];
      assert multiset(s) == multiset{s[0]} + multiset(s[1..]);
      if s[0] != x { RemoveFirstMultiset(s[1..], x); }
    }
  }

  lemma {:induction false} RemoveFirstSorted(s: seq<string>, x: string)
    requires Sorted(s)
    ensures Sorted(RemoveFirst(s, x))
    decreases |s|
  {
    if |s| > 0 && s[0] != x {
      RemoveFirstSorted(s[1..], x);
      RemoveFirstMultiset(s[1..], x);
      var t := RemoveFirst(s[1..], x);
      forall y | y in t ensures Below(s[0], y) {
        assert y in multiset(t);
        assert y in multiset(s[1..]);
        var k :| 0 <= k < |s[1..]| && s[1..][k] == y;
        assert s[k + 1] == y;
      }
      SortedCons(s[0], t);
    }
  }

  /** On an ordered list, "the first element occurs in `P`" is the same as
      "the least element of the multiset occurs in `P`". */
  lemma HeadShared(R: seq<string>, P: seq<string>)
    requires Sorted(R) && Sorted(P)
    ensures (if |R| > 0 then R[0] in P else R == P) <==> SmallestShared(multiset(R), multiset(P))
  {
    if |R| == 0 {
      assert multiset(R) == multiset{};
      if |P| == 0 { assert P == []; }
      if |multiset(P)| == 0 { assert P == []; }
    } else {
      forall y | y in multiset(R) ensures Below(R[0], y) { SortedHeadLeast(R, y); }
      assert R[0] in multiset(R);
      if SmallestShared(multiset(R), multiset(P)) {
        var x :| x in multiset(R) && x in multiset(P) && forall y :: y in multiset(R) ==> Below(x, y);
        assert Below(x, R[0]);
        BelowAntisymmetric(x, R[0]);
      }
    }
  }

  /** The classifier agrees with its multiset reading: with `all_compounds`
      it decides multiset equality of the stripped sides (and `ignore_h` has
      no effect); without it, it decides whether the smallest stripped
      reactant (after one "h" is dropped from each side under `ignore_h`)
      occurs among the stripped products. */
  lemma IsTransportSpec(r: Reaction, tokens: seq<string>, allCompounds: bool, ignoreH: bool)
    ensures IsTransport(r, tokens, allCompounds, ignoreH) <==> TransportSpec(r, tokens, allCompounds, ignoreH)
  {
    var a := StripAll(Reactants(r), tokens);
    var b := StripAll(Products(r), tokens);
    SortSpec(a);
    SortSpec(b);
    if allCompounds {
      SortEqualIffSameMultiset(a, b);
    } else if ignoreH {
      RemoveFirstSorted(Sort(a), "h");
      RemoveFirstMultiset(Sort(a), "h");
      RemoveFirstSorted(Sort(b), "h");
      RemoveFirstMultiset(Sort(b), "h");
      HeadShared(RemoveFirst(Sort(a), "h"), RemoveFirst(Sort(b), "h"));
    } else {
      HeadShared(Sort(a), Sort(b));
    }
  }

  /** Only the smallest reactant counts: `A_c + B_c -> B_e` shares `B` across
      the membrane but is not classified as transport, since `A` sorts first. */
  lemma OnlySmallestReactantCounts()
    ensures var r := Reaction("r", [("A_c", -1.0), ("B_c", -1.0), ("B_e", 1.0)], [], 0.0, 1000.0);
      !IsTransport(r, ["_c", "_e"], false, false)
  {
    var r := Reaction("r", [("A_c", -1.0), ("B_c", -1.0), ("B_e", 1.0)], [], 0.0, 1000.0);
    assert Reactants(r) == ["A_c", "B_c"];
    assert Products(r) == ["B_e"];
    StripCytosol();
    StripB();
    assert StripAll(Reactants(r), ["_c", "_e"]) == ["A", "B"];
    assert StripAll(Products(r), ["_c", "_e"]) == ["B"];
    assert Sort(["A", "B"]) == ["A", "B"] by {
      assert Sort(["B"]) == ["B"];
      assert Below("A", "B");
    }
  }

  lemma StripB()
    ensures StripTokens("B_c", ["_c", "_e"]) == "B" && StripTokens("B_e", ["_c", "_e"]) == "B"
  {
    assert RemoveAll("B_c", "_c") == "B";
    assert RemoveAll("B", "_e") == "B";
    assert RemoveAll("_e", "_c") == "_e" by { assert RemoveAll("e", "_c") == "e"; }
    assert RemoveAll("B_e", "_c") == "B_e";
    assert RemoveAll("B_e", "_e") == "B";
  }

  /** A proton symport, `A_c + h_c -> A_e + h_e`, is transport in every
      mode: both stripped sides are `A, h`. */
  lemma ProtonSymportExample()
    ensures var r := Reaction("r", [("A_c", -1.0), ("h_c", -1.0), ("A_e", 1.0), ("h_e", 1.0)], [], -1000.0, 1000.0);
      && IsTransport(r, ["_c", "_e"], false, false)
      && IsTransport(r, ["_c", "_e"], false, true)
      && IsTransport(r, ["_c", "_e"], true, false)
  {
    var r := Reaction("r", [("A_c", -1.0), ("h_c", -1.0), ("A_e", 1.0), ("h_e", 1.0)], [], -1000.0, 1000.0);
    ProtonSymportSides();
    assert Sort(["A", "h"]) == ["A", "h"] by {
      assert Sort(["h"]) == ["h"];
      assert Below("A", "h");
    }
    assert RemoveFirst(["A", "h"], "h") == ["A"];
  }

  lemma ProtonSymportSides()
    ensures var r := Reaction("r", [("A_c", -1.0), ("h_c", -1.0), ("A_e", 1.0), ("h_e", 1.0)], [], -1000.0, 1000.0);
      StripAll(Reactants(r), ["_c", "_e"]) == ["A", "h"] && StripAll(Products(r), ["_c", "_e"]) == ["A", "h"]
  {
    var r := Reaction("r", [("A_c", -1.0), ("h_c", -1.0), ("A_e", 1.0), ("h_e", 1.0)], [], -1000.0, 1000.0);
    SymportSides();
    StripCytosol();
    StripExtracellular();
    assert StripAll(["A_c", "h_c"], ["_c", "_e"]) == ["A", "h"];
    assert StripAll(["A_e", "h_e"], ["_c", "_e"]) == ["A", "h"];
  }

  lemma StripCytosol()
    ensures StripTokens("A_c", ["_c", "_e"]) == "A" && StripTokens("h_c", ["_c", "_e"]) == "h"
  {
    assert RemoveAll("A_c", "_c") == "A";
    assert RemoveAll("A", "_e") == "A";
    assert RemoveAll("h_c", "_c") == "h";
    assert RemoveAll("h", "_e") == "h";
  }

  lemma StripExtracellular()
    ensures StripTokens("A_e", ["_c", "_e"]) == "A" && StripTokens("h_e", ["_c", "_e"]) == "h"
  {
    assert RemoveAll("_e", "_c") == "_e" by { assert RemoveAll("e", "_c") == "e"; }
    assert RemoveAll("A_e", "_c") == "A_e";
    assert RemoveAll("A_e", "_e") == "A";
    assert RemoveAll("h_e", "_c") == "h_e";
    assert RemoveAll("h_e", "_e") == "h";
  }

  lemma SymportSides()
    ensures var r := Reaction("r", [("A_c", -1.0), ("h_c", -1.0), ("A_e", 1.0), ("h_e", 1.0)], [], -1000.0, 1000.0);
      Reactants(r) == ["A_c", "h_c"] && Products(r) == ["A_e", "h_e"]
  {
    var ms := [("A_c", -1.0), ("h_c", -1.0), ("A_e", 1.0), ("h_e", 1.0)];
    assert Side(ms[3..], true) == [] && Side(ms[3..], false) == ["h_e"];
    assert Side(ms[2..], true) == [] && Side(ms[2..], false) == ["A_e", "h_e"];
    assert Side(ms[1..], true) == ["h_c"] && Side(ms[1..], false) == ["A_e", "h_e"];
  }
}
