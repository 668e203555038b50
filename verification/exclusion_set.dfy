/**
 * The exclusion set: the residue indices read from a CSV file whose `Matched`
 * value is at least 1 and whose `Residue Index` is not the "no match" value -1.
 * The file arrives already split into a header and rows of cells; each cell is
 * blank, malformed (the number conversion raises `ValueError`) or a parsed value.
 */
module ExclusionSet {
  import opened Options

  const MatchedColumn := "Matched"
  const ResidueIndexColumn := "Residue Index"
  /** The `Residue Index` value that means "no match". */
  const NoMatch := -1

  /** A CSV cell after conversion: `Blank` is an empty or absent value. */
  datatype Cell<T> = Blank | Malformed | Parsed(value: T)

  /** A row of the file, or the point where reading the file raised an error. */
  datatype Record = Row(matched: Cell<real>, residueIndex: Cell<int>) | Unreadable

  /** `fieldnames` is `None` for a file without a header line. */
  datatype CsvFile = CsvFile(fieldnames: Option<seq<string>>, records: seq<Record>)

  /** What the file dialog and `open` gave: nothing chosen, an unopenable file, or a file. */
  datatype FileChoice = Cancelled | CannotOpen | Opened(file: CsvFile)

  datatype LoadOutcome = NoFileChosen | MissingColumns | ReadError | Loaded(count: nat)

  /** The exclusion set after a load, and how the load ended. */
  datatype LoadState = LoadState(indices: set<int>, outcome: LoadOutcome)

  predicate HasRequiredColumns(names: seq<string>) {
    MatchedColumn in names && ResidueIndexColumn in names
  }

  /** A chosen file whose header names both required columns, so that its rows are scanned. */
  predicate ScansRows(choice: FileChoice) {
    choice.Opened? && choice.file.fieldnames.Some? && HasRequiredColumns(choice.file.fieldnames.value)
  }

  /** A row whose residue index goes into the exclusion set. */
  predicate Qualifies(r: Record) {
    r.Row? && r.matched.Parsed? && r.residueIndex.Parsed?
    && r.matched.value >= 1.0 && r.residueIndex.value != NoMatch
  }

  /** The indices contributed by the rows of `records`, scanned front to back. */
  function Excluded(records: seq<Record>): set<int> {
    if records == [] then {}
    else
      var last := records[|records| - 1];
      Excluded(records[..|records| - 1]) + (if Qualifies(last) then {last.residueIndex.value} else {})
  }

  /** The number of rows read before the first read error. */
  function ReadableCount(records: seq<Record>): (n: nat)
    ensures n <= |records|
    ensures forall j :: 0 <= j < n ==> records[j].Row?
    ensures n < |records| ==> records[n].Unreadable?
  {
    if records == [] || records[0].Unreadable? then 0 else 1 + ReadableCount(records[1..])
  }

  /** What loading `choice` does to the exclusion set `previous`, and how it ends. */
  function LoadResult(previous: set<int>, choice: FileChoice): LoadState {
    match choice
    case Cancelled => LoadState(previous, NoFileChosen)
    case CannotOpen => LoadState({}, ReadError)
    case Opened(f) =>
      if f.fieldnames.None? then LoadState({}, ReadError)
      else if !HasRequiredColumns(f.fieldnames.value) then LoadState({}, MissingColumns)
      else
        var n := ReadableCount(f.records);
        var indices := Excluded(f.records[..n]);
        if n < |f.records| then LoadState(indices, ReadError) else LoadState(indices, Loaded(|indices|))
  }

  /** An index is excluded exactly when some qualifying row carries it. */
  lemma {:induction false} ExcludedMembership(records: seq<Record>, x: int)
    ensures x in Excluded(records) <==>
      exists j :: 0 <= j < |records| && Qualifies(records[j]) && records[j].residueIndex.value == x
  {
    if records != [] {
      var front := records[..|records| - 1];
      ExcludedMembership(front, x);
      if x in Excluded(records) && x !in Excluded(front) {
        assert Qualifies(records[|records| - 1]);
      }
      if exists j :: 0 <= j < |front| && Qualifies(front[j]) && front[j].residueIndex.value == x {
        var j :| 0 <= j < |front| && Qualifies(front[j]) && front[j].residueIndex.value == x;
        assert records[j] == front[j];
      }
      if exists j :: 0 <= j < |records| && Qualifies(records[j]) && records[j].residueIndex.value == x {
        var j :| 0 <= j < |records| && Qualifies(records[j]) && records[j].residueIndex.value == x;
        if j < |front| {
          assert front[j] == records[j];
        }
      }
    }
  }

  /** The "no match" index -1 never enters the set. */
  lemma NoMatchNeverExcluded(records: seq<Record>)
    ensures NoMatch !in Excluded(records)
  {
    ExcludedMembership(records, NoMatch);
  }

  /** The set depends only on which rows the file holds, not on their order or repetition count. */
  lemma ExcludedOrderIndependent(a: seq<Record>, b: seq<Record>)
    requires forall r :: r in a <==> r in b
    ensures Excluded(a) == Excluded(b)
  {
    forall x ensures x in Excluded(a) <==> x in Excluded(b) {
      ExcludedMembership(a, x);
      ExcludedMembership(b, x);
      if x in Excluded(a) {
        var j :| 0 <= j < |a| && Qualifies(a[j]) && a[j].residueIndex.value == x;
        assert a[j] in b;
        var k :| 0 <= k < |b| && b[k] == a[j];
      }
      if x in Excluded(b) {
        var j :| 0 <= j < |b| && Qualifies(b[j]) && b[j].residueIndex.value == x;
        assert b[j] in a;
        var k :| 0 <= k < |a| && a[k] == b[j];
      }
    }
  }

  /**
   * After a load the set no longer depends on the previous one: it is exactly the
   * indices of the qualifying rows read before any read error, it never holds -1,
   * and it is empty when the file lacks a required column or cannot be read at all.
   * A cancelled dialog leaves the set as it was.
   */
  lemma LoadReplacesSet(previous: set<int>, choice: FileChoice, x: int)
    ensures choice.Cancelled? ==> LoadResult(previous, choice) == LoadState(previous, NoFileChosen)
    ensures !choice.Cancelled? ==> LoadResult(previous, choice) == LoadResult({}, choice)
    ensures !choice.Cancelled? ==> NoMatch !in LoadResult(previous, choice).indices
    ensures ScansRows(choice) ==>
      (x in LoadResult(previous, choice).indices <==>
         exists j :: 0 <= j < ReadableCount(choice.file.records) && Qualifies(choice.file.records[j])
                     && choice.file.records[j].residueIndex.value == x)
    ensures !ScansRows(choice) && !choice.Cancelled? ==> LoadResult(previous, choice).indices == {}
  {
    if ScansRows(choice) {
      var records := choice.file.records;
      var n := ReadableCount(records);
      ExcludedMembership(records[..n], x);
      NoMatchNeverExcluded(records[..n]);
      if exists j :: 0 <= j < n && Qualifies(records[j]) && records[j].residueIndex.value == x {
        var j :| 0 <= j < n && Qualifies(records[j]) && records[j].residueIndex.value == x;
        assert records[..n][j] == records[j];
      }
    }
  }

  /** Loading the same file twice leaves the same set as loading it once. */
  lemma LoadIdempotent(previous: set<int>, choice: FileChoice)
    ensures LoadResult(LoadResult(previous, choice).indices, choice) == LoadResult(previous, choice)
  {
  }
}
