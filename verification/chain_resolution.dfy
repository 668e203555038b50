/**
 * Choosing the chains to operate on. "Monomer" takes the first chain named
 * `A`, else the first chain; "Dimer" takes the last `A` and the last `B`, else
 * the first two chains; any other mode selects no chain.
 */
module ChainResolution {
  import opened Options
  import opened Structures

  const MonomerMode := "Monomer"
  const DimerMode := "Dimer"

  datatype Resolution = Operating(chains: seq<Chain>) | NoChainForMonomer | TooFewChainsForDimer

  /** The position of the first chain named `id`. */
  function FirstWithId(chains: seq<Chain>, id: string): (r: Option<nat>)
    ensures r.Some? ==> r.value < |chains| && chains[r.value].chainId == id
    ensures r.Some? ==> forall j :: 0 <= j < r.value ==> chains[j].chainId != id
    ensures r.None? ==> forall j :: 0 <= j < |chains| ==> chains[j].chainId != id
  {
    if chains == [] then None
    else if chains[0].chainId == id then Some(0)
    else match FirstWithId(chains[1..], id)
      case None => None
      case Some(i) => Some(i + 1)
  }

  /** The position of the last chain named `id`. */
  function LastWithId(chains: seq<Chain>, id: string): (r: Option<nat>)
    ensures r.Some? ==> r.value < |chains| && chains[r.value].chainId == id
    ensures r.Some? ==> forall j :: r.value < j < |chains| ==> chains[j].chainId != id
    ensures r.None? ==> forall j :: 0 <= j < |chains| ==> chains[j].chainId != id
  {
    if chains == [] then None
    else if chains[|chains| - 1].chainId == id then Some(|chains| - 1)
    else LastWithId(chains[..|chains| - 1], id)
  }

  /** The chains the highlight works on, for the mode shown in the mode selector. */
  function ResolveChains(mode: string, chains: seq<Chain>): Resolution {
    if mode == MonomerMode then
      match FirstWithId(chains, "A")
      case Some(i) => Operating([chains[i]])
      case None => if |chains| > 0 then Operating([chains[0]]) else NoChainForMonomer
    else if mode == DimerMode then
      var a, b := LastWithId(chains, "A"), LastWithId(chains, "B");
      if a.Some? && b.Some? then Operating([chains[a.value], chains[b.value]])
      else if |chains| >= 2 then Operating([chains[0], chains[1]])
      else TooFewChainsForDimer
    else Operating([])
  }

  /** The chain scans of the highlight action, as the loops that build `operating_chains`. */
  method ResolveOperatingChains(mode: string, chains: seq<Chain>) returns (r: Resolution)
    ensures r == ResolveChains(mode, chains)
  {
    var operating: seq<Chain> := [];
    if mode == MonomerMode {
      var monomer: Option<Chain> := None;
      var i := 0;
      while i < |chains|
        invariant 0 <= i <= |chains|
        invariant monomer.None?
        invariant forall j :: 0 <= j < i ==> chains[j].chainId != "A"
      {
        if chains[i].chainId == "A" {
          monomer := Some(chains[i]);
          break;
        }
        i := i + 1;
      }
      if monomer.None? && |chains| > 0 {
        monomer := Some(chains[0]);
      }
      if monomer.Some? {
        operating := [monomer.value];
      } else {
        return NoChainForMonomer;
      }
    } else if mode == DimerMode {
      var chainA: Option<Chain> := None;
      var chainB: Option<Chain> := None;
      ghost var ia: nat, ib: nat := 0, 0;
      for i := 0 to |chains|
        invariant chainA.None? ==> forall j :: 0 <= j < i ==> chains[j].chainId != "A"
        invariant chainA.Some? ==> ia < i && chains[ia] == chainA.value && chains[ia].chainId == "A"
        invariant chainA.Some? ==> forall j :: ia < j < i ==> chains[j].chainId != "A"
        invariant chainB.None? ==> forall j :: 0 <= j < i ==> chains[j].chainId != "B"
        invariant chainB.Some? ==> ib < i && chains[ib] == chainB.value && chains[ib].chainId == "B"
        invariant chainB.Some? ==> forall j :: ib < j < i ==> chains[j].chainId != "B"
      {
        if chains[i].chainId == "A" {
          chainA, ia := Some(chains[i]), i;
        } else if chains[i].chainId == "B" {
          chainB, ib := Some(chains[i]), i;
        }
      }
      if chainA.Some? {
        assert LastWithId(chains, "A") == Some(ia);
      }
      if chainB.Some? {
        assert LastWithId(chains, "B") == Some(ib);
      }
      if chainA.Some? && chainB.Some? {
        operating := [chainA.value, chainB.value];
      } else if |chains| >= 2 {
        operating := [chains[0], chains[1]];
      } else {
        return TooFewChainsForDimer;
      }
    }
    r := Operating(operating);
  }

  /**
   * Shape of the resolution: "Monomer" yields one chain (one named `A` when there
   * is one) and fails only without chains; "Dimer" yields two chains (`A` then `B`
   * when both exist) and fails only when `A` or `B` is missing and there are fewer
   * than two chains; any other mode yields no chain.
   */
  lemma ResolutionShape(mode: string, chains: seq<Chain>)
    ensures mode == MonomerMode ==>
      (ResolveChains(mode, chains).NoChainForMonomer? <==> |chains| == 0)
    ensures mode == MonomerMode && |chains| > 0 ==>
      ResolveChains(mode, chains).Operating? && |ResolveChains(mode, chains).chains| == 1
    ensures mode == MonomerMode && (exists j :: 0 <= j < |chains| && chains[j].chainId == "A") ==>
      ResolveChains(mode, chains) == Operating([chains[FirstWithId(chains, "A").value]])
      && ResolveChains(mode, chains).chains[0].chainId == "A"
    ensures mode == DimerMode ==>
      (ResolveChains(mode, chains).TooFewChainsForDimer? <==>
         (LastWithId(chains, "A").None? || LastWithId(chains, "B").None?) && |chains| < 2)
    ensures mode == DimerMode && ResolveChains(mode, chains).Operating? ==>
      |ResolveChains(mode, chains).chains| == 2
    ensures mode == DimerMode && LastWithId(chains, "A").Some? && LastWithId(chains, "B").Some? ==>
      ResolveChains(mode, chains).Operating?
      && ResolveChains(mode, chains).chains[0].chainId == "A"
      && ResolveChains(mode, chains).chains[1].chainId == "B"
    ensures mode != MonomerMode && mode != DimerMode ==> ResolveChains(mode, chains) == Operating([])
  {
  }
}
