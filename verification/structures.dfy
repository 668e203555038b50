/**
 * A read-only snapshot of the host's structural data: a structure is an ordered
 * list of chains, a chain an identifier and an ordered list of residues, and a
 * residue an optional sequence number.
 */
module Structures {
  import opened Options

  datatype Residue = Residue(number: Option<int>)

  datatype Chain = Chain(chainId: string, residues: seq<Residue>)

  /** `idString` is the host's model id (`1`, `1.2`, ...), used in `#<id>` selectors. */
  datatype Structure = Structure(idString: string, chains: seq<Chain>)

  /** The residue numbers of `c`, skipping residues whose number is `None`. */
  function DefinedNumbers(c: Chain): set<int> {
    set i | 0 <= i < |c.residues| && c.residues[i].number.Some? :: c.residues[i].number.value
  }
}
