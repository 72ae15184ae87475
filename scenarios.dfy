/** Worked examples: small concrete years and what each query gives on them. */
module Scenarios {
  import opened Text
  import opened Records
  import opened Counting
  import opened Statistics

  function Rec(race: string, gender: string, frisked: bool, arrested: bool, description: string, location: string): SFRecord {
    SFRecord(description, arrested, frisked, gender, race, location)
  }

  /** Races B, W, B: the race-B population is the first and third record, in that order. */
  lemma PopulationExample()
    ensures var rs := [Rec("B", "M", false, false, "", ""), Rec("W", "M", false, false, "", ""), Rec("B", "F", false, false, "", "")];
      RacePopulation(rs, "B") == [rs[0], rs[2]]
  {
    var rs := [Rec("B", "M", false, false, "", ""), Rec("W", "M", false, false, "", ""), Rec("B", "F", false, false, "", "")];
    assert rs[..2][..1] == rs[..1];
    assert rs[..1][..0] == [];
    assert "W" != "B" by { assert "W"[0] != "B"[0]; }
    assert RacePopulation(rs[..1], "B") == [rs[0]];
    assert RacePopulation(rs[..2], "B") == [rs[0]];
  }

  /** Frisked flags T, F, T, F and arrested flags T, F, F, F give 50% frisked and 25% arrested. */
  lemma FriskedVSArrestedExample()
    ensures var rs := [Rec("B", "M", true, true, "", ""), Rec("B", "M", false, false, "", ""),
                       Rec("B", "M", true, false, "", ""), Rec("B", "M", false, false, "", "")];
      PercentOf(CountWhere(rs, IsFrisked), |rs|) == 50.0 && PercentOf(CountWhere(rs, IsArrested), |rs|) == 25.0
  {
    var rs := [Rec("B", "M", true, true, "", ""), Rec("B", "M", false, false, "", ""),
               Rec("B", "M", true, false, "", ""), Rec("B", "M", false, false, "", "")];
    assert rs[..3][..2] == rs[..2] && rs[..2][..1] == rs[..1] && rs[..1][..0] == [];
    assert CountWhere(rs[..1], IsFrisked) == 1 && CountWhere(rs[..1], IsArrested) == 1;
    assert CountWhere(rs[..2], IsFrisked) == 1 && CountWhere(rs[..2], IsArrested) == 1;
    assert CountWhere(rs[..3], IsFrisked) == 2 && CountWhere(rs[..3], IsArrested) == 1;
    assert CountWhere(rs, IsFrisked) == 2 && CountWhere(rs, IsArrested) == 1;
  }

  /** Descriptions ROBBERY, ASSAULT in year 1 and ROBBERY, ROBBERY in year 2:
      searching ROBBERY gives 50% then 100%, a change of 50. */
  lemma CrimeTrendExample()
    ensures CrimeTrend([Rec("B", "M", false, false, "ROBBERY", ""), Rec("B", "M", false, false, "ASSAULT", "")],
                       [Rec("B", "M", false, false, "ROBBERY", ""), Rec("B", "M", false, false, "ROBBERY", "")],
                       "ROBBERY") == 50.0
  {
    var robbery := Rec("B", "M", false, false, "ROBBERY", "");
    var assault := Rec("B", "M", false, false, "ASSAULT", "");
    var y1, y2 := [robbery, assault], [robbery, robbery];
    assert OccursAt("ROBBERY", "ROBBERY", 0);
    assert Matches(robbery, "ROBBERY");
    assert !Matches(assault, "ROBBERY") by {
      assert "ASSAULT"[0] != "ROBBERY"[0];
    }
    assert y1[..0] == [] && y2[..0] == [] && y1[..2] == y1 && y2[..2] == y2;
    CrimeCountPrefix(y1, 0, "ROBBERY");
    CrimeCountPrefix(y1, 1, "ROBBERY");
    CrimeCountPrefix(y2, 0, "ROBBERY");
    CrimeCountPrefix(y2, 1, "ROBBERY");
    assert CrimeCount(y1, "ROBBERY") == 1;
    assert CrimeCount(y2, "ROBBERY") == 2;
  }

  /** The count over four records, spelled out record by record. */
  lemma CountFour(rs: seq<SFRecord>, p: SFRecord -> bool)
    requires |rs| == 4
    ensures CountWhere(rs, p) ==
      (if p(rs[0]) then 1 else 0) + (if p(rs[1]) then 1 else 0) + (if p(rs[2]) then 1 else 0) + (if p(rs[3]) then 1 else 0)
  {
    assert rs[..0] == [] && rs[..4] == rs;
    CountWherePrefix(rs, 0, p);
    CountWherePrefix(rs, 1, p);
    CountWherePrefix(rs, 2, p);
    CountWherePrefix(rs, 3, p);
  }

  /** One black and one white female, one black and one white male: every
      race cell is 25 and both row totals are 50. */
  lemma GenderBiasExample()
    ensures GenderBiasTable([Rec("B", "F", false, false, "", ""), Rec("B", "M", false, false, "", ""),
                             Rec("W", "F", false, false, "", ""), Rec("W", "M", false, false, "", "")])
         == [[Finite(25.0), Finite(25.0), Finite(50.0)], [Finite(25.0), Finite(25.0), Finite(50.0)]]
  {
    var rs := [Rec("B", "F", false, false, "", ""), Rec("B", "M", false, false, "", ""),
               Rec("W", "F", false, false, "", ""), Rec("W", "M", false, false, "", "")];
    assert "B" != "W" && "M" != "F" by {
      assert "B"[0] != "W"[0] && "M"[0] != "F"[0];
    }
    CountFour(rs, IsBlack);
    CountFour(rs, IsWhite);
    CountFour(rs, IsBlackFemale);
    CountFour(rs, IsBlackMale);
    CountFour(rs, IsWhiteFemale);
    CountFour(rs, IsWhiteMale);
    assert CountWhere(rs, IsBlack) == 2 && CountWhere(rs, IsWhite) == 2;
    assert CountWhere(rs, IsBlackFemale) == 1 && CountWhere(rs, IsBlackMale) == 1;
    assert CountWhere(rs, IsWhiteFemale) == 1 && CountWhere(rs, IsWhiteMale) == 1;
  }

  /** Matching is case-insensitive and on the whole string. */
  lemma ExampleLocations()
    ensures BoroughIndex("brooklyn") == 0 && BoroughIndex("BROOKLYN") == 0 && BoroughIndex("Queens") == 3
    ensures BoroughIndex("Brooklyn Heights") == |Boroughs|
  {
    assert !EqualsIgnoreCase("Queens", Boroughs[0]) && !EqualsIgnoreCase("Queens", Boroughs[1]);
    assert !EqualsIgnoreCase("Queens", Boroughs[2]) && EqualsIgnoreCase("Queens", Boroughs[3]);
  }

  /** Locations brooklyn, Queens, BROOKLYN: two case-insensitive matches make Brooklyn the answer. */
  lemma MostCommonBoroughExample()
    ensures var rs := [Rec("B", "M", false, false, "", "brooklyn"), Rec("B", "M", false, false, "", "Queens"),
                       Rec("B", "M", false, false, "", "BROOKLYN")];
      Boroughs[Leader(BoroughCounts(rs))] == "Brooklyn"
  {
    var rs := [Rec("B", "M", false, false, "", "brooklyn"), Rec("B", "M", false, false, "", "Queens"),
               Rec("B", "M", false, false, "", "BROOKLYN")];
    ExampleLocations();
    var c := BoroughCounts(rs);
    assert rs[..3] == rs && rs[..0] == [];
    forall j | 0 <= j < 5
      ensures c[j] == (if j == 0 then 2 else if j == 3 then 1 else 0)
    {
      BoroughCountPrefix(rs, 0, j);
      BoroughCountPrefix(rs, 1, j);
      BoroughCountPrefix(rs, 2, j);
    }
    assert EarliestMax(c, 0);
    EarliestMaxUnique(c, 0, Leader(c));
  }
}
