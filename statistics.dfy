/** What the five analytic queries compute, stated over the record sequence of
    one year group, with the properties each promises. The imperative queries
    of class StopAndFrisk are proved equal to these. Percentages are exact
    reals; IEEE double rounding is not modelled. */
module Statistics {
  import opened Text
  import opened Records
  import opened Counting

  // ---------------------------------------------------------------- populationStopped

  /** The records whose race is exactly `race`, in their original order. */
  function RacePopulation(rs: seq<SFRecord>, race: string): (r: seq<SFRecord>)
    ensures |r| <= |rs|
    ensures forall i :: 0 <= i < |r| ==> r[i].race == race
  {
    if rs == [] then []
    else
      var last := rs[|rs| - 1];
      RacePopulation(rs[..|rs| - 1], race) + (if last.race == race then [last] else [])
  }

  /** `a` is `b` with some elements removed and the rest kept in order. */
  ghost predicate IsSubsequence<T>(a: seq<T>, b: seq<T>)
    decreases |b|
  {
    if a == [] then true
    else if b == [] then false
    else
      (a[|a| - 1] == b[|b| - 1] && IsSubsequence(a[..|a| - 1], b[..|b| - 1])) ||
      IsSubsequence(a, b[..|b| - 1])
  }

  /** The result keeps the order of the group. */
  lemma {:induction false} RacePopulationIsSubsequence(rs: seq<SFRecord>, race: string)
    ensures IsSubsequence(RacePopulation(rs, race), rs)
  {
    if rs != [] {
      var init := rs[..|rs| - 1];
      RacePopulationIsSubsequence(init, race);
      var f := RacePopulation(init, race);
      if rs[|rs| - 1].race == race {
        assert (f + [rs[|rs| - 1]])[..|f|] == f;
      } else {
        assert f + [] == f;
      }
    }
  }

  /** No matching record is left out, none is duplicated and no other record is
      let in: each record occurs in the result exactly as often as it occurs in
      the group if its race matches, and not at all otherwise. */
  lemma {:induction false} RacePopulationComplete(rs: seq<SFRecord>, race: string, x: SFRecord)
    ensures multiset(RacePopulation(rs, race))[x] == if x.race == race then multiset(rs)[x] else 0
  {
    if rs != [] {
      var init := rs[..|rs| - 1];
      RacePopulationComplete(init, race, x);
      assert rs == init + [rs[|rs| - 1]];
    }
  }

  // ---------------------------------------------------------------- friskedVSArrested

  /** `part` out of `whole` as a percentage. */
  function PercentOf(part: nat, whole: nat): (p: real)
    requires whole > 0
    ensures 0.0 <= p
    ensures part <= whole ==> p <= 100.0
    ensures part == whole ==> p == 100.0
  {
    (part as real * 100.0) / whole as real
  }

  /** Frisked and arrested are counted independently: a record may count for
      both, one or neither, so the two counts together equal the records
      frisked or arrested plus those frisked and arrested, and never exceed
      twice the group size. Each percentage lies in [0, 100]. */
  lemma {:induction false} FriskedVSArrestedBounds(rs: seq<SFRecord>)
    requires rs != []
    ensures CountWhere(rs, IsFrisked) + CountWhere(rs, IsArrested)
         == CountWhere(rs, IsFriskedOrArrested) + CountWhere(rs, IsFriskedAndArrested)
    ensures CountWhere(rs, IsFrisked) + CountWhere(rs, IsArrested) <= 2 * |rs|
    ensures 0.0 <= PercentOf(CountWhere(rs, IsFrisked), |rs|) <= 100.0
    ensures 0.0 <= PercentOf(CountWhere(rs, IsArrested), |rs|) <= 100.0
  {
    CountInclusionExclusion(rs, IsFrisked, IsArrested, IsFriskedOrArrested, IsFriskedAndArrested);
  }

  // ---------------------------------------------------------------- genderBias

  /** A Java double as far as genderBias needs it: a finite value, or the NaN
      that 0 / 0.0 produces when a race has no records. */
  datatype Percent = Finite(value: real) | NaN

  /** Double addition: NaN absorbs. */
  function Add(a: Percent, b: Percent): (c: Percent)
    ensures c.NaN? <==> a.NaN? || b.NaN?
    ensures c.Finite? ==> c.value == a.value + b.value
  {
    if a.NaN? || b.NaN? then NaN else Finite(a.value + b.value)
  }

  /** (part / (double) whole) * 0.5 * 100 for a part of its whole: NaN when
      `whole` (and so `part`) is 0. */
  function HalfShare(part: nat, whole: nat): (p: Percent)
    requires part <= whole
    ensures p.NaN? <==> whole == 0
    ensures p.Finite? ==> 0.0 <= p.value <= 50.0
  {
    if whole == 0 then NaN else Finite((part as real / whole as real) * 0.5 * 100.0)
  }

  /** The 2x3 table of genderBias: row 0 holds the black, white and total
      female shares, row 1 the same for males. */
  function GenderBiasTable(rs: seq<SFRecord>): seq<seq<Percent>> {
    GenderCountBounds(rs);
    var blackTotal := CountWhere(rs, IsBlack);
    var whiteTotal := CountWhere(rs, IsWhite);
    var blackFemale := HalfShare(CountWhere(rs, IsBlackFemale), blackTotal);
    var whiteFemale := HalfShare(CountWhere(rs, IsWhiteFemale), whiteTotal);
    var blackMale := HalfShare(CountWhere(rs, IsBlackMale), blackTotal);
    var whiteMale := HalfShare(CountWhere(rs, IsWhiteMale), whiteTotal);
    [[blackFemale, whiteFemale, Add(whiteFemale, blackFemale)],
     [blackMale, whiteMale, Add(whiteMale, blackMale)]]
  }

  /** Within a race, the male and female counts together do not exceed the race total. */
  lemma {:induction false} GenderCountBounds(rs: seq<SFRecord>)
    ensures CountWhere(rs, IsBlackMale) + CountWhere(rs, IsBlackFemale) <= CountWhere(rs, IsBlack)
    ensures CountWhere(rs, IsWhiteMale) + CountWhere(rs, IsWhiteFemale) <= CountWhere(rs, IsWhite)
  {
    CountDisjointBound(rs, IsBlackMale, IsBlackFemale, IsBlack);
    CountDisjointBound(rs, IsWhiteMale, IsWhiteFemale, IsWhite);
  }

  /** The table is 2x3 and column 2 of each row is the sum of columns 0 and 1. */
  lemma GenderBiasSumIdentity(rs: seq<SFRecord>)
    ensures var t := GenderBiasTable(rs);
      |t| == 2 && |t[0]| == 3 && |t[1]| == 3 &&
      t[0][2] == Add(t[0][0], t[0][1]) && t[1][2] == Add(t[1][0], t[1][1])
  {
  }

  /** A race's two cells are NaN exactly when no record has that race. */
  lemma GenderBiasNaN(rs: seq<SFRecord>)
    ensures var t := GenderBiasTable(rs);
      (t[0][0].NaN? <==> CountWhere(rs, IsBlack) == 0) && (t[1][0].NaN? <==> CountWhere(rs, IsBlack) == 0) &&
      (t[0][1].NaN? <==> CountWhere(rs, IsWhite) == 0) && (t[1][1].NaN? <==> CountWhere(rs, IsWhite) == 0)
  {
  }

  /** A finite race cell lies in [0, 50], and a race's female and male cells
      together are at most 50. */
  lemma {:induction false} GenderBiasBounds(rs: seq<SFRecord>)
    ensures var t := GenderBiasTable(rs);
      forall row, col :: 0 <= row < 2 && 0 <= col < 2 && t[row][col].Finite? ==> t[row][col].value <= 50.0
    ensures var t := GenderBiasTable(rs);
      forall col :: 0 <= col < 2 && t[0][col].Finite? ==> t[0][col].value + t[1][col].value <= 50.0
  {
    GenderCountBounds(rs);
    var bt, wt := CountWhere(rs, IsBlack), CountWhere(rs, IsWhite);
    if bt > 0 {
      ShareSum(CountWhere(rs, IsBlackFemale), CountWhere(rs, IsBlackMale), bt);
    }
    if wt > 0 {
      ShareSum(CountWhere(rs, IsWhiteFemale), CountWhere(rs, IsWhiteMale), wt);
    }
  }

  lemma ShareSum(a: nat, b: nat, whole: nat)
    requires whole > 0 && a + b <= whole
    ensures HalfShare(a, whole).value + HalfShare(b, whole).value <= 50.0
  {
    var w := whole as real;
    assert a as real / w + b as real / w == (a + b) as real / w;
    assert (a + b) as real / w <= 1.0;
  }

  /** Only records of race B or W with gender M or F reach the four gender
      cells: a record of any other race, wherever it stands, changes nothing at
      all, and one of any other gender changes none of the four gender counts. */
  lemma GenderBiasIgnoresOthers(before: seq<SFRecord>, x: SFRecord, after: seq<SFRecord>)
    ensures x.race != "B" && x.race != "W" ==>
      GenderBiasTable(before + [x] + after) == GenderBiasTable(before + after)
    ensures x.gender != "M" && x.gender != "F" ==>
      CountWhere(before + [x] + after, IsBlackMale) == CountWhere(before + after, IsBlackMale) &&
      CountWhere(before + [x] + after, IsWhiteMale) == CountWhere(before + after, IsWhiteMale) &&
      CountWhere(before + [x] + after, IsBlackFemale) == CountWhere(before + after, IsBlackFemale) &&
      CountWhere(before + [x] + after, IsWhiteFemale) == CountWhere(before + after, IsWhiteFemale)
  {
    if x.race != "B" && x.race != "W" {
      CountWhereSkip(before, x, after, IsBlack);
      CountWhereSkip(before, x, after, IsWhite);
    }
    if (x.race != "B" && x.race != "W") || (x.gender != "M" && x.gender != "F") {
      CountWhereSkip(before, x, after, IsBlackMale);
      CountWhereSkip(before, x, after, IsWhiteMale);
      CountWhereSkip(before, x, after, IsBlackFemale);
      CountWhereSkip(before, x, after, IsWhiteFemale);
    }
  }

  // ---------------------------------------------------------------- crimeIncrease

  predicate Matches(r: SFRecord, crime: string) { IndexOf(r.description, crime) != -1 }

  /** countCrimeOccurrences: the records whose description contains `crime`. */
  function CrimeCount(rs: seq<SFRecord>, crime: string): (n: nat)
    ensures n <= |rs|
  {
    CountWhere(rs, (r: SFRecord) => Matches(r, crime))
  }

  lemma CrimeCountPrefix(rs: seq<SFRecord>, i: int, crime: string)
    requires 0 <= i < |rs|
    ensures CrimeCount(rs[..i + 1], crime) == CrimeCount(rs[..i], crime) + (if Matches(rs[i], crime) then 1 else 0)
  {
    assert rs[..i + 1][..i] == rs[..i];
  }

  /** The count is the number of records whose description has `crime` as a
      case-sensitive substring. */
  lemma {:induction false} CrimeCountIsSubstringCount(rs: seq<SFRecord>, crime: string)
    ensures CrimeCount(rs, crime) == CountWhere(rs, (r: SFRecord) => Contains(r.description, crime))
  {
    if rs != [] {
      CrimeCountIsSubstringCount(rs[..|rs| - 1], crime);
    }
  }

  /** The empty search string matches every description. */
  lemma {:induction false} CrimeCountEmpty(rs: seq<SFRecord>)
    ensures CrimeCount(rs, "") == |rs|
  {
    if rs != [] {
      CrimeCountEmpty(rs[..|rs| - 1]);
      ContainsEmpty(rs[|rs| - 1].description);
    }
  }

  /** crimeIncrease for year1 <= year2: the year-2 percentage minus the year-1 percentage. */
  function CrimeTrend(rs1: seq<SFRecord>, rs2: seq<SFRecord>, crime: string): (d: real)
    requires rs1 != [] && rs2 != []
    ensures -100.0 <= d <= 100.0
  {
    PercentOf(CrimeCount(rs2, crime), |rs2|) - PercentOf(CrimeCount(rs1, crime), |rs1|)
  }

  /** Comparing a year with itself gives no change. */
  lemma CrimeTrendSameYear(rs: seq<SFRecord>, crime: string)
    requires rs != []
    ensures CrimeTrend(rs, rs, crime) == 0.0
  {
  }

  // ---------------------------------------------------------------- mostCommonBorough

  const Boroughs: seq<string> := ["Brooklyn", "Manhattan", "Bronx", "Queens", "Staten Island"]

  /** The first borough that `location` equals ignoring case, or |Boroughs| when none does. */
  function BoroughIndex(location: string): (j: nat)
    ensures j <= |Boroughs|
    ensures j < |Boroughs| ==> EqualsIgnoreCase(location, Boroughs[j])
    ensures forall k :: 0 <= k < j && k < |Boroughs| ==> !EqualsIgnoreCase(location, Boroughs[k])
  {
    BoroughIndexFrom(location, 0)
  }

  function BoroughIndexFrom(location: string, from: nat): (j: nat)
    requires from <= |Boroughs|
    ensures from <= j <= |Boroughs|
    ensures j < |Boroughs| ==> EqualsIgnoreCase(location, Boroughs[j])
    ensures forall k :: from <= k < j && k < |Boroughs| ==> !EqualsIgnoreCase(location, Boroughs[k])
    decreases |Boroughs| - from
  {
    if from == |Boroughs| then from
    else if EqualsIgnoreCase(location, Boroughs[from]) then from
    else BoroughIndexFrom(location, from + 1)
  }

  /** The number of records counted for borough `j`. */
  function BoroughCount(rs: seq<SFRecord>, j: int): (n: nat)
    ensures n <= |rs|
  {
    CountWhere(rs, (r: SFRecord) => BoroughIndex(r.location) == j)
  }

  lemma BoroughCountPrefix(rs: seq<SFRecord>, i: int, j: int)
    requires 0 <= i < |rs|
    ensures BoroughCount(rs[..i + 1], j) == BoroughCount(rs[..i], j) + (if BoroughIndex(rs[i].location) == j then 1 else 0)
  {
    assert rs[..i + 1][..i] == rs[..i];
  }

  lemma {:induction false} BoroughCountNone(rs: seq<SFRecord>, j: int)
    requires forall i :: 0 <= i < |rs| ==> BoroughIndex(rs[i].location) != j
    ensures BoroughCount(rs, j) == 0
  {
    if rs != [] {
      BoroughCountNone(rs[..|rs| - 1], j);
      BoroughCountPrefix(rs, |rs| - 1, j);
      assert rs[..|rs| - 1 + 1] == rs;
    }
  }

  /** The five counters. */
  function BoroughCounts(rs: seq<SFRecord>): (c: seq<int>)
    ensures |c| == |Boroughs|
  {
    seq(|Boroughs|, j => BoroughCount(rs, j))
  }

  /** Each record raises at most one counter: the five counts add up to at most the group size. */
  lemma {:induction false} BoroughCountsSum(rs: seq<SFRecord>)
    ensures BoroughCount(rs, 0) + BoroughCount(rs, 1) + BoroughCount(rs, 2)
          + BoroughCount(rs, 3) + BoroughCount(rs, 4) <= |rs|
  {
    if rs != [] {
      BoroughCountsSum(rs[..|rs| - 1]);
    }
  }

  /** `k` holds the greatest count, and every earlier index a strictly smaller one. */
  ghost predicate EarliestMax(c: seq<int>, k: int) {
    0 <= k < |c| &&
    (forall j :: 0 <= j < |c| ==> c[j] <= c[k]) &&
    (forall j :: 0 <= j < k ==> c[j] < c[k])
  }

  /** The greatest element. */
  function MaxOf(c: seq<int>): (m: int)
    requires c != []
    ensures m in c
    ensures forall j :: 0 <= j < |c| ==> c[j] <= m
  {
    if |c| == 1 then c[0]
    else
      var m := MaxOf(c[..|c| - 1]);
      if c[|c| - 1] > m then c[|c| - 1] else m
  }

  /** The first index holding `m`. */
  function FirstIndexOf(c: seq<int>, m: int): (k: nat)
    requires m in c
    ensures k < |c| && c[k] == m
    ensures forall j :: 0 <= j < k ==> c[j] != m
  {
    if c[0] == m then 0 else 1 + FirstIndexOf(c[1..], m)
  }

  /** The first position of the greatest element. */
  function Leader(c: seq<int>): (k: nat)
    requires c != []
    ensures EarliestMax(c, k)
  {
    FirstIndexOf(c, MaxOf(c))
  }

  /** At most one index is an earliest maximum. */
  lemma EarliestMaxUnique(c: seq<int>, k1: int, k2: int)
    requires EarliestMax(c, k1) && EarliestMax(c, k2)
    ensures k1 == k2
  {
    assert c[k1] == c[k2];
  }

  /** mostCommonBorough's answer is one of the five boroughs; its count is at
      least every other's and strictly greater than every earlier borough's, so
      ties go to the borough listed first. */
  lemma {:induction false} MostCommonBoroughIsEarliestMax(rs: seq<SFRecord>)
    ensures var k := Leader(BoroughCounts(rs));
      k < |Boroughs| &&
      (forall j :: 0 <= j < |Boroughs| ==> BoroughCount(rs, j) <= BoroughCount(rs, k)) &&
      (forall j :: 0 <= j < k ==> BoroughCount(rs, j) < BoroughCount(rs, k))
  {
    var c := BoroughCounts(rs);
    var k := Leader(c);
    assert EarliestMax(c, k);
    forall j | 0 <= j < |Boroughs| ensures BoroughCount(rs, j) <= BoroughCount(rs, k) {
      assert c[j] == BoroughCount(rs, j);
    }
    forall j | 0 <= j < k ensures BoroughCount(rs, j) < BoroughCount(rs, k) {
      assert c[j] == BoroughCount(rs, j);
    }
  }

  /** When no location names a borough, all counts are 0 and the answer is Brooklyn. */
  lemma {:induction false} NoBoroughMeansBrooklyn(rs: seq<SFRecord>)
    requires forall i :: 0 <= i < |rs| ==> BoroughIndex(rs[i].location) == |Boroughs|
    ensures Boroughs[Leader(BoroughCounts(rs))] == "Brooklyn"
  {
    var c := BoroughCounts(rs);
    forall j | 0 <= j < |Boroughs| ensures c[j] == 0 {
      BoroughCountNone(rs, j);
    }
    assert EarliestMax(c, 0);
    EarliestMaxUnique(c, 0, Leader(c));
  }
}
