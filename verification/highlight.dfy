/**
 * The residues to highlight: the reference chain's numbered residues minus the
 * exclusion set, intersected with each operating chain's own numbers, listed in
 * ascending order per chain and rendered as `#<model>/<chain>:<n1,n2,...>`.
 */
module Highlight {
  import opened Options
  import opened Structures
  import opened SortedSets
  import opened Text

  /** One chain's part of the highlight: its id and its highlighted numbers in ascending order. */
  datatype Selection = Selection(chainId: string, numbers: seq<int>)

  /** The numbers to highlight: those of the reference chain that are not excluded. */
  function HighlightSet(reference: Chain, exclusions: set<int>): (r: set<int>)
    ensures r <= DefinedNumbers(reference) && r !! exclusions
    ensures forall n :: n in DefinedNumbers(reference) && n !in exclusions ==> n in r
  {
    DefinedNumbers(reference) - exclusions
  }

  /** Chain `c` with the numbers it shares with `toHighlight`, in ascending order. */
  function SelectionOf(toHighlight: set<int>, c: Chain): Selection {
    Selection(c.chainId, SortedElements(toHighlight * DefinedNumbers(c)))
  }

  /** The selection for one chain, or `None` when it shares no number with `toHighlight`. */
  function ChainSelection(toHighlight: set<int>, c: Chain): Option<Selection> {
    if toHighlight * DefinedNumbers(c) == {} then None else Some(SelectionOf(toHighlight, c))
  }

  /** The selections of `chains`, in chain order, leaving out chains with nothing to highlight. */
  function Selections(toHighlight: set<int>, chains: seq<Chain>): seq<Selection> {
    if chains == [] then []
    else
      var front := Selections(toHighlight, chains[..|chains| - 1]);
      match ChainSelection(toHighlight, chains[|chains| - 1])
      case None => front
      case Some(s) => front + [s]
  }

  /** The positions of the chains that contribute a selection, in ascending order. */
  function Contributing(toHighlight: set<int>, chains: seq<Chain>): seq<nat> {
    if chains == [] then []
    else
      var front := Contributing(toHighlight, chains[..|chains| - 1]);
      if toHighlight * DefinedNumbers(chains[|chains| - 1]) == {} then front else front + [|chains| - 1]
  }

  /** The number of highlighted residues: the sum of the lengths of the selections' lists. */
  function TotalCount(selections: seq<Selection>): (n: nat)
    ensures forall k :: 0 <= k < |selections| ==> |selections[k].numbers| <= n
  {
    if selections == [] then 0
    else TotalCount(selections[..|selections| - 1]) + |selections[|selections| - 1].numbers|
  }

  /** `#<id>`, the whole-model selector. */
  function ModelSpec(idString: string): string {
    "#" + idString
  }

  /** `#<model>/<chain>:` followed by the comma-separated residue numbers. */
  function ChainSelector(modelSpec: string, s: Selection): string {
    modelSpec + "/" + s.chainId + ":" + NumberList(s.numbers)
  }

  function ChainSelectors(modelSpec: string, selections: seq<Selection>): (r: seq<string>)
    ensures |r| == |selections|
    ensures forall k :: 0 <= k < |r| ==> r[k] == ChainSelector(modelSpec, selections[k])
  {
    if selections == [] then []
    else ChainSelectors(modelSpec, selections[..|selections| - 1])
         + [ChainSelector(modelSpec, selections[|selections| - 1])]
  }

  /** `color <model> <background>`, issued first. */
  function BackgroundCommand(modelSpec: string, background: string): string {
    "color " + modelSpec + " " + background
  }

  /** `color <selectors joined by spaces> <highlight>`, issued second. */
  function HighlightCommand(selectors: seq<string>, highlight: string): string {
    "color " + Join(selectors, ' ') + " " + highlight
  }

  lemma TotalCountAppend(selections: seq<Selection>, s: Selection)
    ensures TotalCount(selections + [s]) == TotalCount(selections) + |s.numbers|
  {
    assert (selections + [s])[..|selections|] == selections;
  }

  /**
   * The loop over the operating chains: for each chain, the numbers of `toHighlight`
   * it holds; a chain with none is skipped, the others add one selector and their
   * count to the total.
   */
  method CollectSelectors(modelSpec: string, toHighlight: set<int>, chains: seq<Chain>)
    returns (selectors: seq<string>, total: nat)
    ensures selectors == ChainSelectors(modelSpec, Selections(toHighlight, chains))
    ensures total == TotalCount(Selections(toHighlight, chains))
  {
    selectors, total := [], 0;
    for i := 0 to |chains|
      invariant selectors == ChainSelectors(modelSpec, Selections(toHighlight, chains[..i]))
      invariant total == TotalCount(Selections(toHighlight, chains[..i]))
    {
      assert chains[..i + 1][..i] == chains[..i];
      var actual := DefinedNumbers(chains[i]);
      var valid := toHighlight * actual;
      if valid != {} {
        var numbers := SortedElements(valid);
        var spec := modelSpec + "/" + chains[i].chainId + ":" + NumberList(numbers);
        ghost var s := Selection(chains[i].chainId, numbers);
        TotalCountAppend(Selections(toHighlight, chains[..i]), s);
        selectors := selectors + [spec];
        total := total + |valid|;
      }
    }
    assert chains[..|chains|] == chains;
  }

  /**
   * The positions of the contributing chains ascend, and a chain is among them
   * exactly when it shares a number with `toHighlight`.
   */
  lemma {:induction false} ContributingChains(toHighlight: set<int>, chains: seq<Chain>)
    ensures forall k :: 0 <= k < |Contributing(toHighlight, chains)| ==>
      Contributing(toHighlight, chains)[k] < |chains|
    ensures forall k, l :: 0 <= k < l < |Contributing(toHighlight, chains)| ==>
      Contributing(toHighlight, chains)[k] < Contributing(toHighlight, chains)[l]
    ensures forall j :: 0 <= j < |chains| ==>
      (j in Contributing(toHighlight, chains) <==> toHighlight * DefinedNumbers(chains[j]) != {})
  {
    if chains != [] {
      var front := chains[..|chains| - 1];
      ContributingChains(toHighlight, front);
      forall j | 0 <= j < |front| ensures chains[j] == front[j] { }
    }
  }

  /**
   * Selection `k` belongs to the chain at `Contributing(...)[k]` and lists exactly
   * the numbers that chain shares with `toHighlight`, in ascending order.
   */
  lemma {:induction false} SelectionsFollowChains(toHighlight: set<int>, chains: seq<Chain>)
    ensures |Selections(toHighlight, chains)| == |Contributing(toHighlight, chains)|
    ensures forall k :: 0 <= k < |Contributing(toHighlight, chains)| ==>
      Contributing(toHighlight, chains)[k] < |chains|
      && Selections(toHighlight, chains)[k]
         == SelectionOf(toHighlight, chains[Contributing(toHighlight, chains)[k]])
  {
    if chains != [] {
      var front := chains[..|chains| - 1];
      SelectionsFollowChains(toHighlight, front);
      forall j | 0 <= j < |front| ensures chains[j] == front[j] { }
    }
  }

  /**
   * What each emitted selection lists: a non-empty, strictly ascending list of
   * numbers that are in `toHighlight` and are numbers of a chain with that id.
   */
  lemma SelectionsSound(toHighlight: set<int>, chains: seq<Chain>)
    ensures forall k :: 0 <= k < |Selections(toHighlight, chains)| ==>
      var s := Selections(toHighlight, chains)[k];
      |s.numbers| > 0 && StrictlyIncreasing(s.numbers)
      && (forall n :: n in s.numbers ==> n in toHighlight)
      && exists j :: 0 <= j < |chains| && chains[j].chainId == s.chainId
                     && forall n :: n in s.numbers ==> n in DefinedNumbers(chains[j])
  {
    SelectionsFollowChains(toHighlight, chains);
    ContributingChains(toHighlight, chains);
    var idx := Contributing(toHighlight, chains);
    forall k | 0 <= k < |Selections(toHighlight, chains)|
      ensures var s := Selections(toHighlight, chains)[k];
        |s.numbers| > 0 && StrictlyIncreasing(s.numbers)
        && (forall n :: n in s.numbers ==> n in toHighlight)
        && exists j :: 0 <= j < |chains| && chains[j].chainId == s.chainId
                       && forall n :: n in s.numbers ==> n in DefinedNumbers(chains[j])
    {
      var j := idx[k];
      assert j in idx;
    }
  }

  /** No emitted number is excluded, and each one is a number of the reference chain. */
  lemma ExcludedNeverSelected(reference: Chain, exclusions: set<int>, chains: seq<Chain>)
    ensures forall k, n ::
      (0 <= k < |Selections(HighlightSet(reference, exclusions), chains)|
       && n in Selections(HighlightSet(reference, exclusions), chains)[k].numbers) ==>
      n !in exclusions && n in DefinedNumbers(reference)
  {
    SelectionsSound(HighlightSet(reference, exclusions), chains);
  }

  /**
   * When the reference chain is the first operating chain and it has numbers to
   * highlight, it contributes the first selection, holding all of them; so the
   * list of selections is never empty at that point.
   */
  lemma ReferenceContributes(reference: Chain, exclusions: set<int>, chains: seq<Chain>)
    requires |chains| > 0 && chains[0] == reference
    requires HighlightSet(reference, exclusions) != {}
    ensures |Selections(HighlightSet(reference, exclusions), chains)| > 0
    ensures Selections(HighlightSet(reference, exclusions), chains)[0]
            == Selection(reference.chainId, SortedElements(HighlightSet(reference, exclusions)))
  {
    var t := HighlightSet(reference, exclusions);
    assert t * DefinedNumbers(reference) == t;
    FirstChainFirst(t, chains);
  }

  lemma {:induction false} FirstChainFirst(toHighlight: set<int>, chains: seq<Chain>)
    requires |chains| > 0 && toHighlight * DefinedNumbers(chains[0]) != {}
    ensures |Selections(toHighlight, chains)| > 0
    ensures Selections(toHighlight, chains)[0] == SelectionOf(toHighlight, chains[0])
  {
    if |chains| > 1 {
      var front := chains[..|chains| - 1];
      assert front[0] == chains[0];
      FirstChainFirst(toHighlight, front);
    }
  }
}
