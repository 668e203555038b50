# ExDFinder residue highlighting — a Dafny model

ExDFinder is a ChimeraX tool. It reads a CSV file of residue indices to exclude, then colours a
structure: the whole model in a background colour, then, in a highlight colour, the residues of
the operating chains that are not excluded. This project models the two actions of the tool's
`ExDFinderTool` class and proves what they do:

- **the load action** (`_load_file`). A cancelled dialog leaves the exclusion set alone. Otherwise
  the set is cleared and rebuilt from the rows read before any read error. A row contributes its
  `Residue Index` exactly when `Matched` is at least 1 and the index is not the "no match" value
  -1. Blank and malformed cells skip their row. A header without `Matched` or `Residue Index`
  ends the load with an empty set.
- **the highlight action** (`_highlight_residues`). It checks that a model is selected and has
  chains, then sends `color #<model> <background>` to the host. Next it picks the operating
  chains:
  - "Monomer" picks the first chain `A`, or else the first chain.
  - "Dimer" picks the last `A` and the last `B`, or else the first two chains.
  - Any other mode picks none.

  The numbers to highlight are the first operating chain's residue numbers minus the exclusion
  set. For each operating chain holding some of them, the action builds a selector
  `#<model>/<chain>:<n1,n2,...>` with the numbers in ascending order. It joins the selectors with
  spaces and sends `color <selectors> <highlight>`.

Modules:

- `Structures`: the host's chains and residues as values.
- `ExclusionSet`: the exclusion set and the load result.
- `ChainResolution`: the choice of operating chains.
- `Highlight`: the highlight set, the per-chain selections and the command texts.
- `SortedSets`: ascending listing of a set.
- `Text`: Python's `str` on integers and `join`, with their inverses.
- `ResidueTool`: the whole highlight action as a plan of commands, and the class `ExDFinderTool`
  whose methods `LoadFile` and `HighlightResidues` update the tool's exclusion set and the log of
  commands handed to the host.
- `Scenarios`: worked examples.

The host's command runner is a parameter `accepts: string -> bool`: whether running the command
raised no error.

Two consequences of the order of the code's steps:

- The code sends the background command (src/residue_tool.py:251) before it resolves the
  chains (:256-293) and before it checks for an empty highlight set (:307-309). So a "Dimer"
  request on a one-chain model, or an exclusion set covering the whole reference chain, still
  colours the model in the background colour. `DimerFailureAfterBackground` and
  `AllExcludedScenario` state this.
- The code never reaches its "no suitable chain for Monomer" branch (:272-274): a model without
  chains is turned away earlier (:240-242). It never reaches its "residues not found in the
  target chains" branch (:327-329) either: the reference chain always contributes its own
  numbers. `PlanOutcomes` proves both.

## Model

| member | source | states |
|---|---|---|
| `ExclusionSet.Qualifies` | src/residue_tool.py:211-219 | a row contributes its index when neither cell is blank, both convert, `Matched` is at least 1 and the index is not -1 |
| `ExclusionSet.Excluded` | src/residue_tool.py:205-219 | the set of indices added while scanning the given rows front to back |
| `ExclusionSet.ReadableCount` | src/residue_tool.py:205-232 | the rows read before the first read error: every earlier record is a row, and reading stops at an unreadable record |
| `ExclusionSet.LoadResult` | src/residue_tool.py:190-232 | the exclusion set and outcome after a load: unchanged on cancel; otherwise empty with a read error on an unopenable file or a missing header, empty on a missing column, else the rows read before the first read error |
| `ExclusionSet.ExcludedMembership` | src/residue_tool.py:205-223 | an index is in the set built from the rows exactly when some row has a parsed `Matched` >= 1 and that parsed index, not -1 |
| `ExclusionSet.NoMatchNeverExcluded` | src/residue_tool.py:218-219 | the "no match" index -1 never enters the exclusion set |
| `ExclusionSet.ExcludedOrderIndependent` | src/residue_tool.py:205-219 | the set depends only on which rows occur, not on their order or how often each repeats |
| `ExclusionSet.LoadReplacesSet` | src/residue_tool.py:190-232 | a cancelled dialog keeps the previous set; any other load drops it, never holds -1, holds exactly the qualifying rows read before a read error when both columns are present, and is empty when a column is missing or the file cannot be read |
| `ExclusionSet.LoadIdempotent` | src/residue_tool.py:194-219 | loading the same file twice gives the same set and outcome as loading it once |
| `ResidueTool.ExDFinderTool.LoadFile` | src/residue_tool.py:181-232 | the row-scanning loop leaves exactly the set and outcome of `LoadResult` on the previous set, and keeps -1 out of the set |
| `ChainResolution.FirstWithId` | src/residue_tool.py:262-265 | the position of the first chain with the id, or none exactly when no chain has it |
| `ChainResolution.LastWithId` | src/residue_tool.py:279-283 | the position of the last chain with the id (the later match overwrites), or none exactly when no chain has it |
| `ChainResolution.ResolveChains` | src/residue_tool.py:256-293 | the operating chains for the mode: first `A` or else the first chain for "Monomer"; last `A` and last `B` or else the first two chains for "Dimer"; none for any other mode; the two failures when there are too few chains |
| `ChainResolution.ResolveOperatingChains` | src/residue_tool.py:256-293 | the two chain-scanning loops compute the operating chains `ResolveChains` specifies for the mode |
| `ChainResolution.ResolutionShape` | src/residue_tool.py:259-297 | "Monomer" yields one chain, chain `A` if any, and fails only without chains; "Dimer" yields two chains, `A` then `B` when both exist, and fails exactly when one is missing and there are fewer than two chains; other modes yield none |
| `SortedSets.Minimum` | src/residue_tool.py:321 | the least element of a non-empty set |
| `SortedSets.SortedElements` | src/residue_tool.py:321 | `sorted(list(s))`: strictly increasing, the same length as the set, with exactly its elements |
| `SortedSets.SortedElementsUnique` | src/residue_tool.py:321 | any strictly increasing listing of a set's elements is that ascending listing |
| `Text.IntToString` | src/residue_tool.py:321 | Python's `str` on an integer: non-empty, starting with `-` exactly for negative numbers |
| `Text.Join` | src/residue_tool.py:322 | Python's `sep.join(parts)`: the parts with one separator between neighbours |
| `Text.NumberList` | src/residue_tool.py:321-322 | the comma-joined decimal texts of the numbers |
| `Text.NatToDecimal` | src/residue_tool.py:321 | the decimal digits of a natural number: non-empty, all digits, no leading zero |
| `Text.DecimalRoundTrip` | src/residue_tool.py:321 | reading the digits back gives the number |
| `Text.IntToStringRoundTrip` | src/residue_tool.py:321 | `str(n)` of any integer, negative ones included, reads back as `n` |
| `Text.IntToStringHasNoSeparator` | src/residue_tool.py:321-322 | a residue number's text holds no comma and no space, so the joined lists stay unambiguous |
| `Text.SplitJoin` | src/residue_tool.py:322 | splitting a comma-joined list of comma-free parts gives the parts back |
| `Text.NumberListRoundTrip` | src/residue_tool.py:321-322 | the comma-separated residue list of a selector reads back as the numbers it was built from |
| `Structures.DefinedNumbers` | src/residue_tool.py:302 | the residue numbers of a chain, skipping residues without a number (also :317) |
| `Highlight.HighlightSet` | src/residue_tool.py:301-305 | the largest set of the reference chain's numbers that avoids the exclusion set |
| `Highlight.Selections` | src/residue_tool.py:315-324 | one selection per operating chain that shares a number with the highlight set, in chain order, listing those numbers in ascending order |
| `Highlight.TotalCount` | src/residue_tool.py:313-325 | the sum of the selections' lengths; no single selection is longer than the total |
| `Highlight.ModelSpec` | src/residue_tool.py:247 | the whole-model selector `#<id>` |
| `Highlight.ChainSelector` | src/residue_tool.py:321-323 | the selector `#<model>/<chain>:<comma-separated numbers>` of one chain |
| `Highlight.BackgroundCommand` | src/residue_tool.py:251 | `color <model> <background>` |
| `Highlight.HighlightCommand` | src/residue_tool.py:331-334 | `color` followed by the selectors joined by single spaces and the highlight colour |
| `Highlight.ChainSelectors` | src/residue_tool.py:323-324 | one selector per selection, the k-th being `#<model>/<chain>:<list>` for the k-th selection |
| `Highlight.TotalCountAppend` | src/residue_tool.py:325 | adding a chain's selection adds its number of residues to the total |
| `Highlight.CollectSelectors` | src/residue_tool.py:312-325 | the per-chain loop builds the selectors of `Selections` in chain order and counts the residues they list |
| `Highlight.ContributingChains` | src/residue_tool.py:315-320 | the contributing chains are listed in ascending position, and a chain is among them exactly when it holds a number to highlight |
| `Highlight.SelectionsFollowChains` | src/residue_tool.py:315-324 | the k-th selection belongs to the k-th contributing chain and lists exactly the numbers to highlight it holds, ascending |
| `Highlight.SelectionsSound` | src/residue_tool.py:315-324 | every selection lists a non-empty, strictly ascending set of numbers that are to be highlighted and that a chain with that id holds |
| `Highlight.ExcludedNeverSelected` | src/residue_tool.py:299-324 | no highlighted number is in the exclusion set, and every one is a residue number of the reference chain |
| `Highlight.ReferenceContributes` | src/residue_tool.py:301-329 | with something to highlight, the reference chain gives the first selection with all the numbers, so the selector list is never empty |
| `ResidueTool.HighlightPlan` | src/residue_tool.py:234-337 | the commands the highlight action hands the host and how it ends: nothing without a model or chains, then the background command, then the steps of `PlanAfterBackground` if the host accepted it |
| `ResidueTool.PlanAfterBackground` | src/residue_tool.py:256-337 | after the background command: the resolution failures, nothing for an empty mode or empty highlight set, else the highlight command with success or failure as the host answers |
| `ResidueTool.PlanCommandOrder` | src/residue_tool.py:236-254 | at most two commands; none exactly when no model is selected or it has no chains; the background command first; nothing after a rejected background command |
| `ResidueTool.PlanOutcomes` | src/residue_tool.py:240-337 | a second command is sent only after the first was accepted; success is reported exactly when a second command was sent and the host accepted it; the "Monomer" failure and the "not found in the chains" outcome never occur |
| `ResidueTool.HighlightCommandContents` | src/residue_tool.py:299-334 | after an accepted background command, the highlight command is sent exactly when the reference chain has a number outside the exclusion set; it colours the selectors of the chains holding such numbers, in chain order, the reference chain's with all of them first |
| `ResidueTool.AfterBackgroundContents` | src/residue_tool.py:299-331 | the same, for the steps after the background command |
| `ResidueTool.DimerFailureAfterBackground` | src/residue_tool.py:246-293 | "Dimer" on a one-chain model sends the background command and then ends with "too few chains" |
| `ResidueTool.ExDFinderTool.HighlightResidues` | src/residue_tool.py:234-337 | the action appends to the command log exactly the commands of `HighlightPlan` and returns its outcome |
| `Scenarios.LoadThreeRows` | src/residue_tool.py:205-228 | rows (1, 5), (0, 6), (1, -1) load the set {5} |
| `Scenarios.HighlightAccepted` | src/residue_tool.py:311-335 | with a host that accepts everything, the steps after the background command end in success with the total residue count and the number of operating chains |
| `Scenarios.PlanHighlighted` | src/residue_tool.py:247-335 | with a host that accepts everything and numbers to highlight, exactly two commands are sent and the action reports success |
| `Scenarios.MonomerScenario` | src/residue_tool.py:247-335 | "Monomer" on model 1 with chain `A` numbered 1 to 5 and 5 excluded sends `color #1 <bg>` and `color #1/A:1,2,3,4 <hl>`, 4 residues on 1 chain |
| `Scenarios.DimerScenario` | src/residue_tool.py:247-335 | "Dimer" on chains `A` and `B` numbered 1 to 3 with 2 excluded sends `color #1/A:1,3 #1/B:1,3 <hl>`, 4 residues on 2 chains |
| `Scenarios.DimerResolution` | src/residue_tool.py:276-286 | chains `A` then `B` are both kept by "Dimer", in that order |
| `Scenarios.AllExcludedScenario` | src/residue_tool.py:247-309 | excluding every number of the reference chain sends only the background command and ends with nothing to highlight |

## Left out

- The Qt interface is not modelled: the window, the buttons, the colour dialogs, the model
  and mode drop-downs and the file label. The selected model, the mode text and the two colour
  names are parameters of `HighlightResidues`. The colour names are opaque strings.
- The file dialog, `open` and CSV tokenising are not modelled. The chosen file arrives as a
  `FileChoice`: cancelled, unopenable, or a header plus records. A failure while reading the
  header counts as unopenable. A failure while reading rows is an `Unreadable` record.
- Python's `float` and `int` conversions are abstracted: each cell is blank, malformed (the
  conversion raises `ValueError`) or a parsed value. A `Matched` value of NaN is not modelled,
  because `Matched` is a `real`.
- Logger messages are not modelled. Each action returns an outcome value naming the message it
  ends with; `Loaded(0)` stands for the "no valid residue indices" warning. The row-skip warnings
  (src/residue_tool.py:212, :222), the chain fallback notes (:268, :289-290) and the progress
  lines (:250, :333) are not represented.
- The host's `run` is not modelled beyond the `accepts` parameter. Every command handed to it
  is logged in `commands`, accepted or not. What the colouring does to the display is not
  modelled.
- Truth tests on host objects (`if chain_a and chain_b`, `if monomer_chain`) are taken to hold
  for every chain object found. The host's chain class is not part of this model.
- Model ids and chain ids are plain strings. Residue numbers are unbounded integers, as in
  Python.
- `src/__init__.py` (the bundle registration) and the tool's other methods (window setup, model
  list refresh, deletion) are not part of this model.
