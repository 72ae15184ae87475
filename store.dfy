/** The record store as a value: the list of year groups that the database
    field holds, in the order the groups were created, and the two operations
    on it — looking a year up (first matching group) and ingesting one record. */
module Store {
  import opened Records

  datatype Option<T> = None | Some(value: T)

  /** One SFYear: its year and its records in insertion order. */
  datatype Group = Group(year: int, records: seq<SFRecord>)

  /** No two groups share a year. */
  ghost predicate DistinctYears(gs: seq<Group>) {
    forall i, j :: 0 <= i < j < |gs| ==> gs[i].year != gs[j].year
  }

  /** Every group holds at least one record (a group is created together with its first record). */
  ghost predicate NonEmptyGroups(gs: seq<Group>) {
    forall i :: 0 <= i < |gs| ==> gs[i].records != []
  }

  /** The index of the first group whose year is `year`, if any. */
  function Find(gs: seq<Group>, year: int): (r: Option<nat>)
    ensures r.None? <==> forall i :: 0 <= i < |gs| ==> gs[i].year != year
    ensures r.Some? ==> r.value < |gs| && gs[r.value].year == year
    ensures r.Some? ==> forall i :: 0 <= i < r.value ==> gs[i].year != year
  {
    if gs == [] then None
    else if gs[0].year == year then Some(0)
    else match Find(gs[1..], year)
      case None => None
      case Some(i) => Some(i + 1)
  }

  /** The records held for `year`; empty when no group has that year. */
  function RecordsOf(gs: seq<Group>, year: int): (rs: seq<SFRecord>)
    ensures Find(gs, year).Some? && NonEmptyGroups(gs) ==> rs != []
  {
    match Find(gs, year)
    case Some(i) => gs[i].records
    case None => []
  }

  /** The grouping step of readFile: append `r` to the group of `year`, or
      append a new group holding just `r` when there is none. */
  function Ingest(gs: seq<Group>, year: int, r: SFRecord): seq<Group> {
    match Find(gs, year)
    case Some(i) => gs[i := Group(year, gs[i].records + [r])]
    case None => gs + [Group(year, [r])]
  }

  /** After ingestion exactly one group has the year (given distinct years
      before), the invariants are kept, and that group's records are the old
      ones followed by `r`. */
  lemma IngestTarget(gs: seq<Group>, year: int, r: SFRecord)
    requires DistinctYears(gs) && NonEmptyGroups(gs)
    ensures DistinctYears(Ingest(gs, year, r)) && NonEmptyGroups(Ingest(gs, year, r))
    ensures Find(Ingest(gs, year, r), year).Some?
    ensures RecordsOf(Ingest(gs, year, r), year) == RecordsOf(gs, year) + [r]
  {
    var gs' := Ingest(gs, year, r);
    match Find(gs, year)
    case Some(i) =>
      assert Find(gs', year) == Some(i) by {
        assert forall k :: 0 <= k < |gs| ==> gs'[k].year == gs[k].year;
      }
    case None =>
      assert forall k :: 0 <= k < |gs| ==> gs'[k] == gs[k];
      assert gs'[|gs|].year == year;
  }

  /** A year not seen before gets a new group appended at the end; a year seen
      before keeps the length and position of every group. */
  lemma IngestShape(gs: seq<Group>, year: int, r: SFRecord)
    ensures Find(gs, year).None? ==> Ingest(gs, year, r) == gs + [Group(year, [r])]
    ensures Find(gs, year).Some? ==>
      |Ingest(gs, year, r)| == |gs| &&
      forall k :: 0 <= k < |gs| ==> Ingest(gs, year, r)[k].year == gs[k].year
  {
  }

  /** Every other year's group is left as it was. */
  lemma IngestOthers(gs: seq<Group>, year: int, r: SFRecord, other: int)
    requires other != year
    ensures Find(Ingest(gs, year, r), other) == Find(gs, other)
    ensures RecordsOf(Ingest(gs, year, r), other) == RecordsOf(gs, other)
  {
    var gs' := Ingest(gs, year, r);
    assert |gs'| >= |gs|;
    assert forall k :: 0 <= k < |gs| ==> gs'[k].year == gs[k].year;
    match Find(gs, other)
    case Some(j) =>
      assert Find(gs', other) == Some(j);
      assert gs'[j] == gs[j];
    case None =>
      assert Find(gs', other) == None by {
        assert forall k :: 0 <= k < |gs'| ==> gs'[k].year != other by {
          forall k | 0 <= k < |gs'| ensures gs'[k].year != other {
            if k >= |gs| { assert gs'[k].year == year; }
          }
        }
      }
  }

  /** readFile's line loop: ingest a batch of (year, record) pairs in order. */
  function IngestAll(gs: seq<Group>, batch: seq<(int, SFRecord)>): seq<Group> {
    if batch == [] then gs
    else Ingest(IngestAll(gs, batch[..|batch| - 1]), batch[|batch| - 1].0, batch[|batch| - 1].1)
  }

  /** The records of a batch that carry year `year`, in batch order. */
  function RecordsFor(batch: seq<(int, SFRecord)>, year: int): (rs: seq<SFRecord>)
    ensures |rs| <= |batch|
  {
    if batch == [] then []
    else
      var last := batch[|batch| - 1];
      RecordsFor(batch[..|batch| - 1], year) + (if last.0 == year then [last.1] else [])
  }

  /** After ingesting a batch, each year's group holds what it held before
      followed by exactly that year's records of the batch, in batch order: no
      loss, no reordering, no duplication. The invariants are kept. */
  lemma {:induction false} IngestAllRecords(gs: seq<Group>, batch: seq<(int, SFRecord)>, year: int)
    requires DistinctYears(gs) && NonEmptyGroups(gs)
    ensures DistinctYears(IngestAll(gs, batch)) && NonEmptyGroups(IngestAll(gs, batch))
    ensures RecordsOf(IngestAll(gs, batch), year) == RecordsOf(gs, year) + RecordsFor(batch, year)
    decreases |batch|
  {
    if batch == [] {
      assert RecordsOf(gs, year) + [] == RecordsOf(gs, year);
    } else {
      var init := batch[..|batch| - 1];
      var (y, r) := batch[|batch| - 1];
      IngestAllRecords(gs, init, year);
      var before := IngestAll(gs, init);
      IngestTarget(before, y, r);
      if y == year {
        assert RecordsOf(gs, year) + RecordsFor(init, year) + [r]
          == RecordsOf(gs, year) + (RecordsFor(init, year) + [r]);
      } else {
        IngestOthers(before, y, r, year);
        assert RecordsFor(init, year) + [] == RecordsFor(init, year);
      }
    }
  }
}
