/** Worked examples of the load and highlight actions on small inputs. */
module Scenarios {
  import opened Options
  import opened Structures
  import opened SortedSets
  import opened Text
  import opened ExclusionSet
  import opened ChainResolution
  import opened Highlight
  import opened ResidueTool

  /**
   * Rows (1, 5), (0, 6) and (1, -1): the second fails the `Matched` threshold and
   * the third carries the "no match" index, so the set is {5}.
   */
  lemma LoadThreeRows(previous: set<int>)
    ensures LoadResult(previous, Opened(CsvFile(Some(["Matched", "Residue Index"]),
              [Row(Parsed(1.0), Parsed(5)), Row(Parsed(0.0), Parsed(6)), Row(Parsed(1.0), Parsed(-1))])))
            == LoadState({5}, Loaded(1))
  {
    var records := [Row(Parsed(1.0), Parsed(5)), Row(Parsed(0.0), Parsed(6)), Row(Parsed(1.0), Parsed(-1))];
    assert ReadableCount(records[3..]) == 0;
    assert ReadableCount(records[2..]) == 1;
    assert ReadableCount(records[1..]) == 2;
    assert ReadableCount(records) == 3;
    assert records[..3] == records;
    assert records[..1][..0] == [];
    assert Excluded(records[..1]) == {5};
    assert records[..2][..1] == records[..1];
    assert Excluded(records[..2]) == {5};
    assert records[..3][..2] == records[..2];
    assert Excluded(records) == {5};
  }

  /** Chain `id` with residues numbered 1, 2, 3. */
  function OneToThree(id: string): Chain {
    Chain(id, [Residue(Some(1)), Residue(Some(2)), Residue(Some(3))])
  }

  lemma OneToThreeNumbers(id: string)
    ensures DefinedNumbers(OneToThree(id)) == {1, 2, 3}
  {
    var c := OneToThree(id);
    assert c.residues[0].number == Some(1);
    assert c.residues[1].number == Some(2);
    assert c.residues[2].number == Some(3);
    assert 1 in DefinedNumbers(c) && 2 in DefinedNumbers(c) && 3 in DefinedNumbers(c);
  }

  /** Chain `A` with residues numbered 1 to 5. */
  function OneToFive(): Chain {
    Chain("A", [Residue(Some(1)), Residue(Some(2)), Residue(Some(3)), Residue(Some(4)), Residue(Some(5))])
  }

  lemma OneToFiveNumbers()
    ensures DefinedNumbers(OneToFive()) == {1, 2, 3, 4, 5}
  {
    var c := OneToFive();
    assert c.residues[0].number == Some(1);
    assert c.residues[1].number == Some(2);
    assert c.residues[2].number == Some(3);
    assert c.residues[3].number == Some(4);
    assert c.residues[4].number == Some(5);
    assert 1 in DefinedNumbers(c) && 2 in DefinedNumbers(c) && 3 in DefinedNumbers(c);
    assert 4 in DefinedNumbers(c) && 5 in DefinedNumbers(c);
  }

  lemma SortedOneToFour()
    ensures SortedElements({1, 2, 3, 4}) == [1, 2, 3, 4]
  {
    SortedElementsUnique({1, 2, 3, 4}, [1, 2, 3, 4]);
  }

  lemma SortedOneThree()
    ensures SortedElements({1, 3}) == [1, 3]
  {
    SortedElementsUnique({1, 3}, [1, 3]);
  }

  lemma NumberListOneToFour()
    ensures NumberList([1, 2, 3, 4]) == "1,2,3,4"
  {
    assert Decimals([1, 2, 3, 4]) == ["1", "2", "3", "4"];
  }

  lemma NumberListOneThree()
    ensures NumberList([1, 3]) == "1,3"
  {
    assert Decimals([1, 3]) == ["1", "3"];
  }

  lemma MonomerSelections()
    ensures HighlightSet(OneToFive(), {5}) == {1, 2, 3, 4}
    ensures Selections({1, 2, 3, 4}, [OneToFive()]) == [Selection("A", [1, 2, 3, 4])]
  {
    var c := OneToFive();
    OneToFiveNumbers();
    var t: set<int> := {1, 2, 3, 4};
    assert HighlightSet(c, {5}) == t by {
      forall n ensures n in HighlightSet(c, {5}) <==> n in t { }
    }
    assert t * DefinedNumbers(c) == t by {
      forall n ensures n in t * DefinedNumbers(c) <==> n in t { }
    }
    SortedOneToFour();
    assert SelectionOf(t, c) == Selection("A", [1, 2, 3, 4]);
    assert ChainSelection(t, c) == Some(Selection("A", [1, 2, 3, 4]));
    assert [c][..0] == [];
    assert Selections(t, []) == [];
  }

  /** Once chains are selected and the reference chain has numbers left, a host that accepts everything sees the highlight through. */
  lemma HighlightAccepted(exclusions: set<int>, modelSpec: string, highlight: string,
                          accepts: string -> bool, operating: seq<Chain>)
    requires forall command :: accepts(command)
    requires |operating| > 0 && HighlightSet(operating[0], exclusions) != {}
    ensures var selections := Selections(HighlightSet(operating[0], exclusions), operating);
      PlanAfterBackground(exclusions, modelSpec, Operating(operating), highlight, accepts)
      == Plan([HighlightCommand(ChainSelectors(modelSpec, selections), highlight)],
              Highlighted(TotalCount(selections), |operating|))
  {
    var toHighlight := HighlightSet(operating[0], exclusions);
    ReferenceContributes(operating[0], exclusions, operating);
    assert |Selections(toHighlight, operating)| > 0;
  }

  /** The plan of a highlight that reaches the host's second command. */
  lemma PlanHighlighted(exclusions: set<int>, s: Structure, mode: string, background: string,
                        highlight: string, accepts: string -> bool, operating: seq<Chain>)
    requires forall command :: accepts(command)
    requires |s.chains| > 0
    requires ResolveChains(mode, s.chains) == Operating(operating) && |operating| > 0
    requires HighlightSet(operating[0], exclusions) != {}
    ensures var selections := Selections(HighlightSet(operating[0], exclusions), operating);
      HighlightPlan(exclusions, Some(s), mode, background, highlight, accepts)
      == Plan([BackgroundCommand(ModelSpec(s.idString), background),
               HighlightCommand(ChainSelectors(ModelSpec(s.idString), selections), highlight)],
              Highlighted(TotalCount(selections), |operating|))
  {
    HighlightAccepted(exclusions, ModelSpec(s.idString), highlight, accepts, operating);
  }

  lemma MonomerSelectorText(sel: Selection)
    requires sel == Selection("A", [1, 2, 3, 4])
    ensures ChainSelector("#1", sel) == "#1/A:1,2,3,4"
  {
    NumberListOneToFour();
  }

  lemma MonomerTexts(sel: seq<Selection>, background: string, highlight: string)
    requires sel == [Selection("A", [1, 2, 3, 4])]
    ensures BackgroundCommand(ModelSpec("1"), background) == "color #1 " + background
    ensures HighlightCommand(ChainSelectors("#1", sel), highlight) == "color #1/A:1,2,3,4 " + highlight
    ensures TotalCount(sel) == 4
  {
    MonomerSelectorText(sel[0]);
    assert ChainSelectors("#1", sel) == ["#1/A:1,2,3,4"];
    assert sel[..0] == [];
  }

  /**
   * "Monomer" on model `#1` whose chain `A` numbers residues 1 to 5, with 5
   * excluded: the background command, then residues 1 to 4 of chain `A`.
   */
  lemma MonomerScenario(s: Structure, exclusions: set<int>, background: string, highlight: string,
                        accepts: string -> bool)
    requires s == Structure("1", [OneToFive()]) && exclusions == {5}
    requires forall command :: accepts(command)
    ensures HighlightPlan(exclusions, Some(s), MonomerMode, background, highlight, accepts)
            == Plan(["color #1 " + background, "color #1/A:1,2,3,4 " + highlight], Highlighted(4, 1))
  {
    MonomerSelections();
    assert FirstWithId(s.chains, "A") == Some(0);
    assert ResolveChains(MonomerMode, s.chains) == Operating(s.chains);
    PlanHighlighted(exclusions, s, MonomerMode, background, highlight, accepts, s.chains);
    var t := HighlightSet(s.chains[0], exclusions);
    assert t == {1, 2, 3, 4};
    var selections := Selections(t, s.chains);
    assert selections == [Selection("A", [1, 2, 3, 4])];
    assert ModelSpec(s.idString) == "#1";
    MonomerTexts(selections, background, highlight);
  }

  /** A chain numbered 1 to 3 contributes residues 1 and 3 when 2 is excluded. */
  lemma OneToThreeSelection(id: string)
    ensures HighlightSet(OneToThree(id), {2}) == {1, 3}
    ensures ChainSelection({1, 3}, OneToThree(id)) == Some(Selection(id, [1, 3]))
  {
    var c := OneToThree(id);
    OneToThreeNumbers(id);
    var t: set<int> := {1, 3};
    assert HighlightSet(c, {2}) == t by {
      forall n ensures n in HighlightSet(c, {2}) <==> n in t { }
    }
    assert t * DefinedNumbers(c) == t by {
      forall n ensures n in t * DefinedNumbers(c) <==> n in t { }
    }
    SortedOneThree();
    assert SelectionOf(t, c) == Selection(id, [1, 3]);
  }

  lemma DimerSelections()
    ensures HighlightSet(OneToThree("A"), {2}) == {1, 3}
    ensures Selections({1, 3}, [OneToThree("A"), OneToThree("B")])
            == [Selection("A", [1, 3]), Selection("B", [1, 3])]
  {
    var a, b := OneToThree("A"), OneToThree("B");
    var t: set<int> := {1, 3};
    OneToThreeSelection("A");
    OneToThreeSelection("B");
    assert [a][..0] == [];
    assert Selections(t, [a]) == [Selection("A", [1, 3])];
    assert [a, b][..1] == [a];
  }

  lemma JoinTwo(x: string, y: string, sep: char)
    ensures Join([x, y], sep) == x + [sep] + y
  {
    assert [x, y][1..] == [y];
  }

  lemma DimerTexts(sel: seq<Selection>, highlight: string)
    requires sel == [Selection("A", [1, 3]), Selection("B", [1, 3])]
    ensures HighlightCommand(ChainSelectors("#1", sel), highlight) == "color #1/A:1,3 #1/B:1,3 " + highlight
  {
    NumberListOneThree();
    var x, y := ChainSelector("#1", sel[0]), ChainSelector("#1", sel[1]);
    assert x == "#1/A:1,3";
    assert y == "#1/B:1,3";
    var texts := ChainSelectors("#1", sel);
    assert texts == [x, y];
    JoinTwo(x, y, ' ');
    assert Join(texts, ' ') == "#1/A:1,3 #1/B:1,3";
  }

  lemma DimerCount(sel: seq<Selection>)
    requires sel == [Selection("A", [1, 3]), Selection("B", [1, 3])]
    ensures TotalCount(sel) == 4
  {
    assert sel[..1] == [sel[0]];
    assert sel[..1][..0] == [];
    assert TotalCount(sel[..1]) == 2;
  }

  /** Chains `A` then `B`: "Dimer" keeps both, in that order. */
  lemma DimerResolution(chains: seq<Chain>)
    requires chains == [OneToThree("A"), OneToThree("B")]
    ensures ResolveChains(DimerMode, chains) == Operating(chains)
  {
    assert chains[..1] == [chains[0]];
    assert LastWithId(chains, "A") == Some(0);
    assert LastWithId(chains, "B") == Some(1);
  }

  /**
   * "Dimer" on model `#1` with chains `A` and `B` both numbering residues 1 to 3,
   * with 2 excluded: both chains get residues 1 and 3, four residues in all.
   */
  lemma DimerScenario(s: Structure, exclusions: set<int>, background: string, highlight: string,
                      accepts: string -> bool)
    requires s == Structure("1", [OneToThree("A"), OneToThree("B")]) && exclusions == {2}
    requires forall command :: accepts(command)
    ensures HighlightPlan(exclusions, Some(s), DimerMode, background, highlight, accepts)
            == Plan(["color #1 " + background, "color #1/A:1,3 #1/B:1,3 " + highlight], Highlighted(4, 2))
  {
    DimerSelections();
    DimerResolution(s.chains);
    PlanHighlighted(exclusions, s, DimerMode, background, highlight, accepts, s.chains);
    var t := HighlightSet(s.chains[0], exclusions);
    assert t == {1, 3};
    var selections := Selections(t, s.chains);
    assert selections == [Selection("A", [1, 3]), Selection("B", [1, 3])];
    assert ModelSpec(s.idString) == "#1";
    assert BackgroundCommand(ModelSpec(s.idString), background) == "color #1 " + background;
    DimerTexts(selections, highlight);
    DimerCount(selections);
  }

  /**
   * When the exclusion set covers the reference chain the host still receives
   * the background command; nothing else is sent.
   */
  lemma AllExcludedScenario(background: string, highlight: string, accepts: string -> bool)
    requires forall command :: accepts(command)
    ensures HighlightPlan({1, 2, 3}, Some(Structure("1", [OneToThree("A")])),
                          MonomerMode, background, highlight, accepts)
            == Plan(["color #1 " + background], NothingToHighlight)
  {
    var c := OneToThree("A");
    OneToThreeNumbers("A");
    assert HighlightSet(c, {1, 2, 3}) == {};
    assert BackgroundCommand(ModelSpec("1"), background) == "color #1 " + background;
    assert FirstWithId([c], "A") == Some(0);
    assert ResolveChains(MonomerMode, [c]) == Operating([c]);
  }
}
