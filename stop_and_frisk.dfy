/** The StopAndFrisk class: the database of year groups that readFile fills in
    place, and the five queries that read it. Every method is proved against
    the value-level definitions of modules Store and Statistics. */
module StopAndFrisk {
  import opened Text
  import opened Records
  import opened Counting
  import opened Store
  import opened Statistics

  /** SFYear: the records of one year, appended to in place. */
  class SFYear {
    const year: int
    var records: seq<SFRecord>

    constructor (year: int)
      ensures this.year == year && records == []
    {
      this.year := year;
      records := [];
    }

    method AddRecord(r: SFRecord)
      modifies this
      ensures records == old(records) + [r]
    {
      records := records + [r];
    }
  }

  class StopAndFrisk {
    var database: seq<SFYear>

    /** The database as a value: each group's year and records, in database order. */
    ghost function Groups(): (gs: seq<Group>)
      reads this, database
      ensures |gs| == |database|
      ensures forall i :: 0 <= i < |database| ==> gs[i] == Group(database[i].year, database[i].records)
    {
      seq(|database|, i reads this, database requires 0 <= i < |database| =>
        Group(database[i].year, database[i].records))
    }

    /** No two groups share a year (so no SFYear object appears twice) and no group is empty. */
    ghost predicate Valid()
      reads this, database
    {
      DistinctYears(Groups()) && NonEmptyGroups(Groups())
    }

    ghost predicate HasYear(year: int)
      reads this, database
    {
      Find(Groups(), year).Some?
    }

    ghost function YearRecords(year: int): seq<SFRecord>
      reads this, database
    {
      RecordsOf(Groups(), year)
    }

    constructor ()
      ensures Valid() && Groups() == []
    {
      database := [];
    }

    /** The grouping step of readFile: a linear search for the record's year;
        append to that group, or create a new group at the end of the database. */
    method AddRecord(year: int, information: SFRecord)
      requires Valid()
      modifies this, database
      ensures Valid()
      ensures Groups() == Ingest(old(Groups()), year, information)
      ensures forall k :: 0 <= k < |database| ==> database[k] in old(database) || fresh(database[k])
    {
      ghost var before := Groups();
      var yearIsPresent := false;
      for i := 0 to |database|
        invariant forall k :: 0 <= k < i ==> database[k].year != year
        invariant !yearIsPresent && Groups() == before
      {
        var sfyear := database[i];
        if year == sfyear.year {
          assert Find(before, year) == Some(i);
          AppendToGroup(i, information);
          assert Groups() == Ingest(before, year, information);
          yearIsPresent := true;
          break;
        }
      }
      if !yearIsPresent {
        assert Find(before, year) == None;
        AppendYear(year, information);
        assert Groups() == Ingest(before, year, information);
      }
      IngestTarget(before, year, information);
    }

    /** The found branch of readFile's grouping step: the record is added to
        the i-th SFYear, which no other index shares since the years are distinct. */
    method AppendToGroup(i: nat, information: SFRecord)
      requires i < |database| && DistinctYears(Groups())
      modifies database[i]
      ensures Groups() == old(Groups())[i := Group(old(Groups())[i].year, old(Groups())[i].records + [information])]
    {
      ghost var before := Groups();
      var sfyear := database[i];
      assert forall k :: 0 <= k < |database| && k != i ==> database[k] != sfyear by {
        forall k | 0 <= k < |database| && k != i ensures database[k] != sfyear {
          assert before[k].year != before[i].year;
        }
      }
      sfyear.AddRecord(information);
      assert forall k :: 0 <= k < |before| ==> Groups()[k] == before[i := Group(before[i].year, before[i].records + [information])][k];
    }

    /** The tail of readFile's grouping step: a new SFYear holding the record,
        added at the end of the database. */
    method AppendYear(year: int, information: SFRecord)
      modifies this
      ensures Groups() == old(Groups()) + [Group(year, [information])]
      ensures database[..|database| - 1] == old(database) && fresh(database[|database| - 1])
    {
      ghost var before := Groups();
      var newSFYear := new SFYear(year);
      newSFYear.AddRecord(information);
      database := database + [newSFYear];
      assert forall k :: 0 <= k < |before| ==> Groups()[k] == before[k];
      assert Groups()[|before|] == Group(year, [information]);
    }

    /** readFile's line loop, after parsing: ingest each (year, record) in turn. */
    method ReadRecords(batch: seq<(int, SFRecord)>)
      requires Valid()
      modifies this, database
      ensures Valid()
      ensures Groups() == IngestAll(old(Groups()), batch)
    {
      for n := 0 to |batch|
        invariant Valid()
        invariant Groups() == IngestAll(old(Groups()), batch[..n])
        invariant forall k :: 0 <= k < |database| ==> database[k] in old(database) || fresh(database[k])
      {
        AddRecord(batch[n].0, batch[n].1);
        assert batch[..n + 1][..n] == batch[..n];
      }
      assert batch[..|batch|] == batch;
    }

    /** getSFYear: the first group whose year matches, or null. */
    method GetSFYear(year: int) returns (sfyear: SFYear?)
      ensures sfyear == null <==> Find(Groups(), year).None?
      ensures sfyear != null ==> sfyear == database[Find(Groups(), year).value]
    {
      for i := 0 to |database|
        invariant forall k :: 0 <= k < i ==> database[k].year != year
      {
        if year == database[i].year {
          assert Find(Groups(), year) == Some(i);
          return database[i];
        }
      }
      return null;
    }

    /** The year's records whose race is exactly `race`, in order. */
    method PopulationStopped(year: int, race: string) returns (sfrecords: seq<SFRecord>)
      requires HasYear(year)
      ensures sfrecords == RacePopulation(YearRecords(year), race)
    {
      sfrecords := [];
      var specificYear := GetSFYear(year);
      var recordsForYear := specificYear.records;
      for i := 0 to |recordsForYear|
        invariant sfrecords == RacePopulation(recordsForYear[..i], race)
      {
        var record := recordsForYear[i];
        assert recordsForYear[..i + 1][..i] == recordsForYear[..i];
        if race == record.race {
          sfrecords := sfrecords + [record];
        }
      }
      assert recordsForYear[..|recordsForYear|] == recordsForYear;
    }

    /** The percentages of the year's records that were frisked and that were arrested. */
    method FriskedVSArrested(year: int) returns (friskedPercent: real, arrestedPercent: real)
      requires Valid() && HasYear(year)
      ensures YearRecords(year) != []
      ensures friskedPercent == PercentOf(CountWhere(YearRecords(year), IsFrisked), |YearRecords(year)|)
      ensures arrestedPercent == PercentOf(CountWhere(YearRecords(year), IsArrested), |YearRecords(year)|)
    {
      var specificYear := GetSFYear(year);
      var records := specificYear.records;
      assert records == YearRecords(year);
      var total := |records|;
      var frisked, arrested := 0, 0;
      for i := 0 to |records|
        invariant frisked == CountWhere(records[..i], IsFrisked)
        invariant arrested == CountWhere(records[..i], IsArrested)
      {
        var record := records[i];
        CountWherePrefix(records, i, IsFrisked);
        CountWherePrefix(records, i, IsArrested);
        if record.frisked {
          frisked := frisked + 1;
        }
        if record.arrested {
          arrested := arrested + 1;
        }
      }
      assert records[..|records|] == records;
      friskedPercent := PercentOf(frisked, total);
      arrestedPercent := PercentOf(arrested, total);
    }

    /** The 2x3 table of within-race female and male shares, halved, with row totals. */
    method GenderBias(year: int) returns (table: seq<seq<Percent>>)
      requires HasYear(year)
      ensures table == GenderBiasTable(YearRecords(year))
    {
      var specificYear := GetSFYear(year);
      var records := specificYear.records;
      assert records == YearRecords(year);
      var blackTotal, whiteTotal, blackMale, whiteMale, blackFemale, whiteFemale := CountRaceAndGender(records);
      GenderCountBounds(records);
      var blackFemalePercent := HalfShare(blackFemale, blackTotal);
      var whiteFemalePercent := HalfShare(whiteFemale, whiteTotal);
      var blackMalePercent := HalfShare(blackMale, blackTotal);
      var whiteMalePercent := HalfShare(whiteMale, whiteTotal);
      var totalFemalePercent := Add(whiteFemalePercent, blackFemalePercent);
      var totalMalePercent := Add(whiteMalePercent, blackMalePercent);
      table := [[blackFemalePercent, whiteFemalePercent, totalFemalePercent],
                [blackMalePercent, whiteMalePercent, totalMalePercent]];
    }

    /** The counting loop of genderBias: the records of race "B" and "W", and of
        each of them with gender "M" and "F". */
    static method CountRaceAndGender(records: seq<SFRecord>)
      returns (blackTotal: nat, whiteTotal: nat, blackMale: nat, whiteMale: nat, blackFemale: nat, whiteFemale: nat)
      ensures blackTotal == CountWhere(records, IsBlack) && whiteTotal == CountWhere(records, IsWhite)
      ensures blackMale == CountWhere(records, IsBlackMale) && whiteMale == CountWhere(records, IsWhiteMale)
      ensures blackFemale == CountWhere(records, IsBlackFemale) && whiteFemale == CountWhere(records, IsWhiteFemale)
    {
      blackTotal, whiteTotal := 0, 0;
      blackMale, whiteMale, blackFemale, whiteFemale := 0, 0, 0, 0;
      assert "B" != "W" && "M" != "F" by {
        assert "B"[0] != "W"[0] && "M"[0] != "F"[0];
      }
      for i := 0 to |records|
        invariant blackTotal == CountWhere(records[..i], IsBlack)
        invariant whiteTotal == CountWhere(records[..i], IsWhite)
        invariant blackMale == CountWhere(records[..i], IsBlackMale)
        invariant whiteMale == CountWhere(records[..i], IsWhiteMale)
        invariant blackFemale == CountWhere(records[..i], IsBlackFemale)
        invariant whiteFemale == CountWhere(records[..i], IsWhiteFemale)
      {
        var record := records[i];
        var race := record.race;
        var gender := record.gender;
        CountWherePrefix(records, i, IsBlack);
        CountWherePrefix(records, i, IsWhite);
        CountWherePrefix(records, i, IsBlackMale);
        CountWherePrefix(records, i, IsWhiteMale);
        CountWherePrefix(records, i, IsBlackFemale);
        CountWherePrefix(records, i, IsWhiteFemale);
        if "B" == race {
          blackTotal := blackTotal + 1;
        } else if "W" == race {
          whiteTotal := whiteTotal + 1;
        }
        if "M" == gender {
          if "B" == race {
            blackMale := blackMale + 1;
          } else if "W" == race {
            whiteMale := whiteMale + 1;
          }
        } else if "F" == gender {
          if "B" == race {
            blackFemale := blackFemale + 1;
          } else if "W" == race {
            whiteFemale := whiteFemale + 1;
          }
        }
      }
      assert records[..|records|] == records;
    }

    /** The change in the share of records mentioning `crimeDescription` from
        year1 to year2; 0 when year1 comes after year2, without any lookup. */
    method CrimeIncrease(crimeDescription: string, year1: int, year2: int) returns (percentChange: real)
      requires Valid()
      requires year1 <= year2 ==> HasYear(year1) && HasYear(year2)
      ensures year1 > year2 ==> percentChange == 0.0
      ensures year1 <= year2 ==>
        YearRecords(year1) != [] && YearRecords(year2) != [] &&
        percentChange == CrimeTrend(YearRecords(year1), YearRecords(year2), crimeDescription)
      ensures year1 == year2 ==> percentChange == 0.0
    {
      if year1 > year2 {
        return 0.0;
      }
      var sfyear1 := GetSFYear(year1);
      var sfyear2 := GetSFYear(year2);
      ghost var gs := Groups();
      ghost var rs1, rs2 := RecordsOf(gs, year1), RecordsOf(gs, year2);
      assert sfyear1.records == rs1 && sfyear2.records == rs2;
      assert rs1 != [] && rs2 != [];
      var crimes1 := CountCrimeOccurrences(sfyear1.records, crimeDescription);
      var crimes2 := CountCrimeOccurrences(sfyear2.records, crimeDescription);
      assert Groups() == gs;
      var percentYear1 := PercentOf(crimes1, |sfyear1.records|);
      var percentYear2 := PercentOf(crimes2, |sfyear2.records|);
      percentChange := percentYear2 - percentYear1;
      assert percentChange == CrimeTrend(rs1, rs2, crimeDescription);
      if year1 == year2 {
        CrimeTrendSameYear(rs1, crimeDescription);
      }
    }

    /** The number of records whose description contains `crimeDescription`. */
    method CountCrimeOccurrences(records: seq<SFRecord>, crimeDescription: string) returns (count: nat)
      ensures count == CrimeCount(records, crimeDescription)
    {
      count := 0;
      for i := 0 to |records|
        invariant count == CrimeCount(records[..i], crimeDescription)
      {
        var record := records[i];
        CrimeCountPrefix(records, i, crimeDescription);
        if IndexOf(record.description, crimeDescription) != -1 {
          count := count + 1;
        }
      }
      assert records[..|records|] == records;
    }

    /** The borough with the most records in the year (case-insensitive exact
        match of the location), ties going to the one listed first. */
    method MostCommonBorough(year: int) returns (borough: string)
      requires HasYear(year)
      ensures borough == Boroughs[Leader(BoroughCounts(YearRecords(year)))]
    {
      var specificYear := GetSFYear(year);
      var records := specificYear.records;
      ghost var gs := Groups();
      assert records == RecordsOf(gs, year);
      var counts := CountBoroughs(records);
      var maxIndex := MaxIndex(counts);
      EarliestMaxUnique(counts[..], maxIndex, Leader(counts[..]));
      borough := Boroughs[maxIndex];
      assert Groups() == gs;
    }

    /** The counting loops of mostCommonBorough: for each record, raise the
        counter of the first borough its location equals ignoring case. */
    method CountBoroughs(records: seq<SFRecord>) returns (counts: array<int>)
      ensures fresh(counts) && counts[..] == BoroughCounts(records)
    {
      counts := new int[5](_ => 0);
      for i := 0 to |records|
        invariant forall j :: 0 <= j < 5 ==> counts[j] == BoroughCount(records[..i], j)
      {
        var location := records[i].location;
        ghost var k := BoroughIndex(location);
        forall m | 0 <= m < 5
          ensures BoroughCount(records[..i + 1], m) == BoroughCount(records[..i], m) + (if k == m then 1 else 0)
        {
          BoroughCountPrefix(records, i, m);
        }
        for j := 0 to |Boroughs|
          invariant forall m :: 0 <= m < j ==> !EqualsIgnoreCase(location, Boroughs[m])
          invariant forall m :: 0 <= m < 5 ==> counts[m] == BoroughCount(records[..i], m)
        {
          if EqualsIgnoreCase(location, Boroughs[j]) {
            assert k == j;
            counts[j] := counts[j] + 1;
            assert forall m :: 0 <= m < 5 ==> counts[m] == BoroughCount(records[..i + 1], m);
            break;
          }
        }
      }
      assert records[..|records|] == records;
      assert counts[..] == BoroughCounts(records) by {
        forall j | 0 <= j < 5 ensures counts[..][j] == BoroughCounts(records)[j] {
          assert counts[j] == BoroughCount(records, j);
        }
      }
    }

    /** The scan at the end of mostCommonBorough: the first index of the greatest count. */
    method MaxIndex(counts: array<int>) returns (maxIndex: int)
      requires counts.Length > 0
      ensures EarliestMax(counts[..], maxIndex)
    {
      maxIndex := 0;
      for k := 1 to counts.Length
        invariant 0 <= maxIndex < k
        invariant EarliestMax(counts[..k], maxIndex)
      {
        if counts[k] > counts[maxIndex] {
          maxIndex := k;
        }
      }
      assert counts[..counts.Length] == counts[..];
    }
  }
}
