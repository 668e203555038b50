/**
 * The tool instance: the exclusion set it keeps between actions, the load action
 * that replaces that set from a CSV file, and the highlight action that sends
 * the host its two `color` commands. The host's command runner is the function
 * `accepts`, which says whether a command ran without raising an error; every
 * command handed to the runner is appended to `commands`.
 */
module ResidueTool {
  import opened Options
  import opened Structures
  import opened SortedSets
  import opened Text
  import opened ExclusionSet
  import opened ChainResolution
  import opened Highlight

  datatype HighlightOutcome =
    | NoModelSelected
    | ModelHasNoChains
    | BackgroundFailed
    | NoSuitableChain
    | InsufficientChains
    | NoChainsForMode
    | NothingToHighlight
    | NotFoundInChains
    | HighlightFailed
    | Highlighted(residueCount: nat, chainCount: nat)

  /** The commands one highlight action hands to the host, and how the action ends. */
  datatype Plan = Plan(commands: seq<string>, outcome: HighlightOutcome)

  /** What the highlight action does, step by step, for the given tool state and host. */
  function HighlightPlan(exclusions: set<int>, model: Option<Structure>, mode: string,
                         background: string, highlight: string, accepts: string -> bool): Plan
  {
    if model.None? then Plan([], NoModelSelected)
    else if |model.value.chains| == 0 then Plan([], ModelHasNoChains)
    else
      var modelSpec := ModelSpec(model.value.idString);
      var bgCommand := BackgroundCommand(modelSpec, background);
      if !accepts(bgCommand) then Plan([bgCommand], BackgroundFailed)
      else
        var rest := PlanAfterBackground(exclusions, modelSpec, ResolveChains(mode, model.value.chains),
                                        highlight, accepts);
        Plan([bgCommand] + rest.commands, rest.outcome)
  }

  /** The rest of the highlight action once the host accepted the background command. */
  function PlanAfterBackground(exclusions: set<int>, modelSpec: string, resolution: Resolution,
                               highlight: string, accepts: string -> bool): Plan
  {
    match resolution
    case NoChainForMonomer => Plan([], NoSuitableChain)
    case TooFewChainsForDimer => Plan([], InsufficientChains)
    case Operating(operating) =>
      if |operating| == 0 then Plan([], NoChainsForMode)
      else
        var toHighlight := HighlightSet(operating[0], exclusions);
        if toHighlight == {} then Plan([], NothingToHighlight)
        else
          var selections := Selections(toHighlight, operating);
          if |selections| == 0 then Plan([], NotFoundInChains)
          else
            var hlCommand := HighlightCommand(ChainSelectors(modelSpec, selections), highlight);
            Plan([hlCommand], if accepts(hlCommand) then Highlighted(TotalCount(selections), |operating|)
                              else HighlightFailed)
  }

  /**
   * The command sequence: at most two commands; none exactly when no model is
   * selected or it has no chains; the background command always first; and when
   * the host rejects it, nothing follows.
   */
  lemma PlanCommandOrder(exclusions: set<int>, model: Option<Structure>, mode: string,
                         background: string, highlight: string, accepts: string -> bool)
    ensures var plan := HighlightPlan(exclusions, model, mode, background, highlight, accepts);
      |plan.commands| <= 2
      && (|plan.commands| == 0 <==> model.None? || |model.value.chains| == 0)
      && (|plan.commands| > 0 ==>
            plan.commands[0] == BackgroundCommand(ModelSpec(model.value.idString), background))
      && (|plan.commands| > 0 && !accepts(plan.commands[0]) ==>
            plan == Plan([plan.commands[0]], BackgroundFailed))
  {
  }

  /**
   * The outcomes: a second command is sent only after the host accepted the
   * first, and the action reports success exactly when the host accepts the
   * second. The "Monomer" failure and the "not found in the chains" outcomes
   * never occur, because a model without chains is turned away first and the
   * reference chain always contributes its own numbers.
   */
  lemma PlanOutcomes(exclusions: set<int>, model: Option<Structure>, mode: string,
                     background: string, highlight: string, accepts: string -> bool)
    ensures var plan := HighlightPlan(exclusions, model, mode, background, highlight, accepts);
      (|plan.commands| == 2 ==>
         accepts(plan.commands[0]) && (plan.outcome.Highlighted? <==> accepts(plan.commands[1])))
      && (plan.outcome.Highlighted? ==> |plan.commands| == 2 && accepts(plan.commands[1]))
      && plan.outcome != NotFoundInChains
      && (mode == MonomerMode ==> plan.outcome != NoSuitableChain)
  {
    if model.Some? && |model.value.chains| > 0 {
      ResolutionShape(mode, model.value.chains);
      match ResolveChains(mode, model.value.chains)
      case Operating(operating) =>
        if |operating| > 0 && HighlightSet(operating[0], exclusions) != {} {
          ReferenceContributes(operating[0], exclusions, operating);
        }
      case _ =>
    }
  }

  /**
   * Once the host accepted the background command and the mode selected chains,
   * the highlight command is sent exactly when the first chain has a number
   * outside the exclusion set. It then colours the selectors of the chains that
   * hold such numbers, in chain order, and the first is the reference chain with
   * all of them (`ExcludedNeverSelected` shows that none of them is excluded).
   */
  lemma HighlightCommandContents(exclusions: set<int>, s: Structure, mode: string, background: string,
                                 highlight: string, accepts: string -> bool, operating: seq<Chain>)
    requires |s.chains| > 0
    requires ResolveChains(mode, s.chains) == Operating(operating) && |operating| > 0
    requires accepts(BackgroundCommand(ModelSpec(s.idString), background))
    ensures var plan := HighlightPlan(exclusions, Some(s), mode, background, highlight, accepts);
      var toHighlight := HighlightSet(operating[0], exclusions);
      var selections := Selections(toHighlight, operating);
      (toHighlight == {} ==>
         plan == Plan([BackgroundCommand(ModelSpec(s.idString), background)], NothingToHighlight))
      && (toHighlight != {} ==>
            |plan.commands| == 2
            && plan.commands[1] == HighlightCommand(ChainSelectors(ModelSpec(s.idString), selections), highlight)
            && selections[0] == Selection(operating[0].chainId, SortedElements(toHighlight)))
  {
    AfterBackgroundContents(exclusions, ModelSpec(s.idString), highlight, accepts, operating);
  }

  /** `HighlightCommandContents` for the steps after the background command. */
  lemma AfterBackgroundContents(exclusions: set<int>, modelSpec: string, highlight: string,
                                accepts: string -> bool, operating: seq<Chain>)
    requires |operating| > 0
    ensures var rest := PlanAfterBackground(exclusions, modelSpec, Operating(operating), highlight, accepts);
      var toHighlight := HighlightSet(operating[0], exclusions);
      var selections := Selections(toHighlight, operating);
      (toHighlight == {} ==> rest == Plan([], NothingToHighlight))
      && (toHighlight != {} ==>
            rest.commands == [HighlightCommand(ChainSelectors(modelSpec, selections), highlight)]
            && selections[0] == Selection(operating[0].chainId, SortedElements(toHighlight)))
  {
    if HighlightSet(operating[0], exclusions) != {} {
      ReferenceContributes(operating[0], exclusions, operating);
    }
  }

  /**
   * A "Dimer" highlight on a model with a single chain hands the host the
   * background command before it finds that there are too few chains.
   */
  lemma DimerFailureAfterBackground(exclusions: set<int>, s: Structure, background: string,
                                    highlight: string, accepts: string -> bool)
    requires |s.chains| == 1
    requires accepts(BackgroundCommand(ModelSpec(s.idString), background))
    ensures HighlightPlan(exclusions, Some(s), DimerMode, background, highlight, accepts)
            == Plan([BackgroundCommand(ModelSpec(s.idString), background)], InsufficientChains)
  {
    ResolutionShape(DimerMode, s.chains);
  }

  class ExDFinderTool {
    /** The residue indices loaded from the last CSV file. */
    var residueIndices: set<int>
    /** Every command handed to the host, in order. */
    var commands: seq<string>

    /** The set never holds the "no match" index. */
    ghost predicate Valid()
      reads this
    {
      NoMatch !in residueIndices
    }

    constructor ()
      ensures Valid()
      ensures residueIndices == {} && commands == []
    {
      residueIndices := {};
      commands := [];
    }

    /** The load action: choose a file, clear the set, scan the rows. */
    method LoadFile(choice: FileChoice) returns (outcome: LoadOutcome)
      requires Valid()
      modifies this`residueIndices
      ensures Valid()
      ensures LoadState(residueIndices, outcome) == LoadResult(old(residueIndices), choice)
    {
      if choice.Cancelled? {
        return NoFileChosen;
      }
      residueIndices := {};
      if choice.CannotOpen? {
        return ReadError;
      }
      var file := choice.file;
      if file.fieldnames.None? {
        // Testing membership in a missing header raises, and the error handler ends the load.
        return ReadError;
      }
      if !(MatchedColumn in file.fieldnames.value && ResidueIndexColumn in file.fieldnames.value) {
        return MissingColumns;
      }
      var records := file.records;
      var i := 0;
      while i < |records|
        invariant 0 <= i <= |records|
        invariant forall j :: 0 <= j < i ==> records[j].Row?
        invariant residueIndices == Excluded(records[..i])
        invariant Valid()
      {
        assert records[..i + 1][..i] == records[..i];
        match records[i]
        case Unreadable =>
          assert i == ReadableCount(records);
          NoMatchNeverExcluded(records[..i]);
          return ReadError;
        case Row(matched, index) =>
          if matched.Blank? || index.Blank? {
            // skipped: missing value
          } else if matched.Malformed? || index.Malformed? {
            // skipped: invalid number format
          } else if matched.value >= 1.0 && index.value != NoMatch {
            residueIndices := residueIndices + {index.value};
          }
        i := i + 1;
      }
      assert i == ReadableCount(records);
      assert records[..i] == records;
      outcome := Loaded(|residueIndices|);
    }

    /** The highlight action for the selected model, mode and colours. */
    method HighlightResidues(model: Option<Structure>, mode: string, background: string,
                             highlight: string, accepts: string -> bool)
      returns (outcome: HighlightOutcome)
      requires Valid()
      modifies this`commands
      ensures Valid()
      ensures commands
              == old(commands) + HighlightPlan(residueIndices, model, mode, background, highlight, accepts).commands
      ensures outcome == HighlightPlan(residueIndices, model, mode, background, highlight, accepts).outcome
    {
      if model.None? {
        return NoModelSelected;
      }
      var structure := model.value;
      if |structure.chains| == 0 {
        return ModelHasNoChains;
      }
      var modelSpec := ModelSpec(structure.idString);
      var bgCommand := BackgroundCommand(modelSpec, background);
      commands := commands + [bgCommand];
      if !accepts(bgCommand) {
        return BackgroundFailed;
      }
      var resolution := ResolveOperatingChains(mode, structure.chains);
      if resolution.NoChainForMonomer? {
        return NoSuitableChain;
      }
      if resolution.TooFewChainsForDimer? {
        return InsufficientChains;
      }
      var operating := resolution.chains;
      if |operating| == 0 {
        return NoChainsForMode;
      }
      var toHighlight := HighlightSet(operating[0], residueIndices);
      if toHighlight == {} {
        return NothingToHighlight;
      }
      var selectors, total := CollectSelectors(modelSpec, toHighlight, operating);
      if |selectors| == 0 {
        return NotFoundInChains;
      }
      var hlCommand := HighlightCommand(selectors, highlight);
      commands := commands + [hlCommand];
      if accepts(hlCommand) {
        outcome := Highlighted(total, |operating|);
      } else {
        outcome := HighlightFailed;
      }
    }
  }
}
