# Stop-and-frisk record store and queries, in Dafny

This project models the core of `StopAndFrisk.java`. It covers the in-memory database of
stop-and-frisk records grouped by year (`SFYear` objects, created lazily as records are ingested)
and the five analytic queries built on it:

- `populationStopped`: the year's records of one race.
- `friskedVSArrested`: the percentage of the year's records that were frisked, and the percentage that were arrested.
- `genderBias`: a 2x3 table of halved within-race female and male shares.
- `crimeIncrease`: the change in the share of records whose description mentions a crime, from one year to another.
- `mostCommonBorough`: the borough with the most stops in a year.

Layout, one module per concern:

| file | module | contents |
|---|---|---|
| `text.dfy` | `Text` | `String.indexOf` and `String.equalsIgnoreCase` (ASCII), with their meaning proved |
| `records.dfy` | `Records` | the `SFRecord` value and the record tests the counters use |
| `counting.dfy` | `Counting` | `CountWhere`, the count behind every counter loop, and its laws |
| `store.dfy` | `Store` | the database as a value (`seq<Group>`): lookup (`Find`), ingestion (`Ingest`, `IngestAll`) and their properties |
| `statistics.dfy` | `Statistics` | what each query computes over a year's record sequence, and the properties each promises |
| `stop_and_frisk.dfy` | `StopAndFrisk` | classes `SFYear` and `StopAndFrisk`: the imperative code, with the loops of the source, proved equal to the definitions above |
| `scenarios.dfy` | `Scenarios` | worked examples: small concrete years and the value each query definition gives on them |

Class `StopAndFrisk` keeps `database: seq<SFYear>`. `AddRecord` and `ReadRecords` reassign this field. `SFYear.records` is appended to in place. The ghost function `Groups()` reads the database as a `seq<Group>`. The invariant `Valid()` has two parts: no two groups share a year, and no group is empty. Each state-changing method states its new `Groups()` as a function of the old one: `AddRecord` as `Ingest`, `ReadRecords` as `IngestAll`, and the two helpers `AppendToGroup` and `AppendYear` as an update of one group and an append at the end. The properties of `Ingest` and `IngestAll` are proved as lemmas in `Store`. Each query reads the group of its year and returns exactly a function from `Statistics` applied to that group's records. The properties of those functions are lemmas in `Statistics`.

Arithmetic. Counts are unbounded naturals. The source's `int` counters cannot overflow either: each is at most the size of a record list, which is at most `Integer.MAX_VALUE`. Percentages are exact `real`s. `friskedVSArrested` and `crimeIncrease` divide by the size of a group. A group built by `readFile` always holds at least one record: it is created together with its first record. The model's invariant `Valid()` records this, and these two queries require it, so they divide by a non-zero size. A caller could still add an empty `SFYear` through `getDatabase`; that case is excluded, not impossible (see "## Left out"). `genderBias` divides by a race total, which may be 0. The counts it divides are never larger than their total, so a zero total only ever gives `0 / 0.0`. In Java that is NaN. The model captures this with `Percent = Finite(real) | NaN`, where `NaN` absorbs in addition.

Two behaviours of the code are kept as written:

- The store is an ordered list searched linearly. Lookup returns the first matching group. It is not a keyed map.
- An absent year is not reported as a "year not found" error. The code calls `getRecordsForYear()` on the `null` returned by `getSFYear` and fails with a `NullPointerException`. The model makes "the year is present" a precondition of each query. For `crimeIncrease` this applies only when `year1 <= year2`, since the code returns 0 before any lookup otherwise.

## Model

| member | source | states |
|---|---|---|
| `Text.IndexOf` | StopAndFrisk.java:263 | `indexOf` is -1 exactly when the search string is not a substring of the description; otherwise it is the first index where it occurs |
| `Text.ContainsEmpty` | StopAndFrisk.java:263 | every description contains the empty search string |
| `Text.EqualsIgnoreCaseIsLowerEquality` | StopAndFrisk.java:292 | `equalsIgnoreCase` (ASCII letters) holds exactly when both strings are equal after lowering |
| `Store.Find` | StopAndFrisk.java:113-121 | lookup gives the first group with the year, and gives none exactly when no group has it |
| `Store.RecordsOf` | StopAndFrisk.java:101-102 | a year that is present, in a store with no empty group, has a non-empty record list |
| `Store.IngestTarget` | StopAndFrisk.java:71-84 | after adding a record, the year has a group, no two groups share a year, no group is empty, and the year's records are its old records followed by the new one |
| `Store.IngestShape` | StopAndFrisk.java:71-84 | a year not seen before gets a new group holding just the record, appended at the end; a year seen before keeps the number and the years of all groups |
| `Store.IngestOthers` | StopAndFrisk.java:71-84 | adding a record leaves every other year's lookup position and records unchanged |
| `Store.IngestAllRecords` | StopAndFrisk.java:60-85 | after ingesting a batch, each year's group holds its earlier records followed by exactly that year's records of the batch, in batch order (no loss, no reordering, no duplication), and the store invariants still hold |
| `StopAndFrisk.SFYear.constructor` | StopAndFrisk.java:81 | a new year group has the given year and no records |
| `StopAndFrisk.SFYear.AddRecord` | StopAndFrisk.java:75 | `addRecord` appends the record to the group's records |
| `StopAndFrisk.StopAndFrisk.constructor` | StopAndFrisk.java:23-25 | the database starts empty and valid |
| `StopAndFrisk.StopAndFrisk.AddRecord` | StopAndFrisk.java:71-84 | the grouping step keeps the invariant, and the new database is `Ingest` of the old one |
| `StopAndFrisk.StopAndFrisk.AppendToGroup` | StopAndFrisk.java:73-75 | adding to the i-th group appends the record to that group's records and changes no other group, since the years are distinct |
| `StopAndFrisk.StopAndFrisk.AppendYear` | StopAndFrisk.java:80-84 | a new group holding just the record is added at the end of the database, and every earlier group is unchanged |
| `StopAndFrisk.StopAndFrisk.ReadRecords` | StopAndFrisk.java:60-85 | ingesting parsed lines in file order keeps the invariant and gives `IngestAll` of the old database |
| `StopAndFrisk.StopAndFrisk.GetSFYear` | StopAndFrisk.java:113-121 | returns null exactly when no group has the year; otherwise returns the first group that has it |
| `StopAndFrisk.StopAndFrisk.PopulationStopped` | StopAndFrisk.java:98-111 | returns the year's records filtered on exact race equality, in order |
| `Statistics.RacePopulationIsSubsequence` | StopAndFrisk.java:104-110 | the filtered list keeps the group's order |
| `Statistics.RacePopulationComplete` | StopAndFrisk.java:104-110 | each record occurs in the result as often as in the group when its race matches, and not at all otherwise |
| `StopAndFrisk.StopAndFrisk.FriskedVSArrested` | StopAndFrisk.java:132-159 | returns the frisked count and the arrested count, each as a percentage of the year's non-empty record list |
| `Statistics.PercentOf` | StopAndFrisk.java:152-153 | a percentage is at least 0; it is at most 100 when the part is at most the whole; it is 100 when they are equal |
| `Statistics.FriskedVSArrestedBounds` | StopAndFrisk.java:141-153 | the two counts are independent: their sum is the frisked-or-arrested count plus the frisked-and-arrested count, at most twice the total; each percentage lies in [0, 100] |
| `StopAndFrisk.StopAndFrisk.GenderBias` | StopAndFrisk.java:170-224 | the six counters are the race and race-and-gender counts; the table is `GenderBiasTable` of the year's records |
| `StopAndFrisk.StopAndFrisk.CountRaceAndGender` | StopAndFrisk.java:175-206 | the six counters end as the counts of race B, race W, and of each of these races with gender M and with gender F |
| `Statistics.HalfShare` | StopAndFrisk.java:208-211 | for a count at most its race total, a halved share is NaN exactly when the total is 0 (Java's 0 / 0.0), and otherwise lies in [0, 50] |
| `Statistics.GenderCountBounds` | StopAndFrisk.java:187-205 | black male + black female <= black total, and white male + white female <= white total |
| `Statistics.GenderBiasSumIdentity` | StopAndFrisk.java:212-221 | the table is 2x3, and column 2 of each row is the sum of columns 0 and 1 |
| `Statistics.GenderBiasNaN` | StopAndFrisk.java:208-211 | a race's two cells are NaN exactly when that race's total is 0 |
| `Statistics.GenderBiasBounds` | StopAndFrisk.java:208-211 | a finite race cell (columns 0 and 1) is at most 50, and a race's female and male cells sum to at most 50 |
| `Statistics.GenderBiasIgnoresOthers` | StopAndFrisk.java:187-205 | a record of a race other than B/W, at any position in the year, changes no cell; a record of a gender other than M/F changes none of the four race-and-gender counters |
| `StopAndFrisk.StopAndFrisk.CrimeIncrease` | StopAndFrisk.java:239-257 | returns 0 when year1 > year2; otherwise returns the year-2 percentage minus the year-1 percentage, which is 0 when the two years are equal |
| `StopAndFrisk.StopAndFrisk.CountCrimeOccurrences` | StopAndFrisk.java:259-268 | returns the number of records whose description contains the search string |
| `Statistics.CrimeCountIsSubstringCount` | StopAndFrisk.java:263 | the count equals the number of records whose description has the search string as a case-sensitive substring |
| `Statistics.CrimeCountEmpty` | StopAndFrisk.java:259-268 | with the empty search string, every record is counted |
| `Statistics.CrimeTrend` | StopAndFrisk.java:251-254 | the change in percentage lies in [-100, 100] |
| `Statistics.CrimeTrendSameYear` | StopAndFrisk.java:245-254 | comparing a year with itself gives 0 |
| `Statistics.BoroughIndex` | StopAndFrisk.java:291-295 | a location counts for the first borough it equals ignoring case, and for none when it equals none |
| `Statistics.BoroughCountsSum` | StopAndFrisk.java:287-296 | each record raises at most one counter, so the five counts sum to at most the number of records |
| `StopAndFrisk.StopAndFrisk.CountBoroughs` | StopAndFrisk.java:284-296 | the counters hold, for each borough, the number of records whose location matches it first |
| `StopAndFrisk.StopAndFrisk.MaxIndex` | StopAndFrisk.java:298-303 | the scan ends at an index holding the greatest count, with every earlier index holding a strictly smaller count |
| `Statistics.MaxOf` | StopAndFrisk.java:298-303 | the maximum is an element and bounds every element |
| `Statistics.Leader` | StopAndFrisk.java:298-303 | the earliest position of the maximum is an earliest maximum |
| `Statistics.EarliestMaxUnique` | StopAndFrisk.java:298-303 | at most one index is an earliest maximum, so the scan's answer is determined |
| `StopAndFrisk.StopAndFrisk.MostCommonBorough` | StopAndFrisk.java:279-306 | returns the borough at the earliest maximum of the five counts |
| `Statistics.MostCommonBoroughIsEarliestMax` | StopAndFrisk.java:298-305 | the answer is one of the five boroughs; its count is at least every other borough's, and strictly greater than the count of every borough listed before it |
| `Statistics.NoBoroughMeansBrooklyn` | StopAndFrisk.java:298-305 | when no location matches a borough, the answer is "Brooklyn" |
| `Scenarios.PopulationExample` | StopAndFrisk.java:98-111 | on a three-record year, the query for one race returns exactly that race's records, in order |
| `Scenarios.FriskedVSArrestedExample` | StopAndFrisk.java:132-159 | on a four-record year with two frisked and one arrested, the result is 50 and 25 |
| `Scenarios.GenderBiasExample` | StopAndFrisk.java:170-224 | on a year with one black and one white female and male each, every race cell is 25 and every total is 50 |
| `Scenarios.CrimeTrendExample` | StopAndFrisk.java:239-268 | a crime found in half of year 1's records and in all of year 2's records gives a change of 50 |
| `Scenarios.ExampleLocations` | StopAndFrisk.java:291-295 | borough matching ignores case, and a location that only starts with a borough's name matches none |
| `Scenarios.MostCommonBoroughExample` | StopAndFrisk.java:279-306 | with two Brooklyn stops (in mixed case) and one Queens stop, the answer is "Brooklyn" |

## Left out

- CSV reading and parsing (StopAndFrisk.java:57-69): opening the file, skipping the header, `split(",")`, `Integer.parseInt`, positional field extraction and the `"Y"` test. These are I/O and library parsing. `ReadRecords` takes the already-extracted `(year, record)` pairs in file order.
- IEEE-754 doubles: rounding of `* 100.0`, `/` and `* 0.5 * 100` is not modelled; percentages are exact reals. Java's `(n * 100.0) / total` and `(n / (double) total) * 100` are the same real, `PercentOf`. The NaN that `genderBias` produces for a zero race total is modelled. Infinity never arises, because no counted part exceeds its total; `HalfShare` requires exactly that (`GenderCountBounds` proves it for every call).
- The `NullPointerException` for an absent year (StopAndFrisk.java:101-102, 134-136, 172-174, 245-249, 281-283) is not modelled as a behaviour. Each query requires the year to be present.
- `equalsIgnoreCase` is modelled for ASCII letters only. Java's full Unicode case folding is not modelled.
- `SFRecord` and `SFYear`: only the fields behind the getters used here, and `SFYear`'s constructor and `addRecord`, are modelled. Their source files are not part of this model.
- `StopAndFrisk.StopAndFrisk.FriskedVSArrested` and `StopAndFrisk.StopAndFrisk.CrimeIncrease` require `Valid()`, so no group is empty. `readFile` never builds an empty group, but a caller can add an `SFYear` with no records through the list that `getDatabase` returns. Java then divides by zero and yields NaN (StopAndFrisk.java:152-153, 251-252). The model does not cover that case.
- `getDatabase` (StopAndFrisk.java:31-33) returns the list itself. In the model, `database` is a field that callers read directly.
- The `double[]` and `double[][]` results are returned as a pair of reals and as a `seq<seq<Percent>>` with two rows of three cells. The local `String[] boroughs` array is the constant sequence `Boroughs`.
- `StopAndFrisk.StopAndFrisk.AddRecord`: its two branches, adding to a found group and appending a new group, are written as the helper methods `AppendToGroup` and `AppendYear`. The search loop, its `break` and the `yearispresent` flag stay in `AddRecord`.
- `StopAndFrisk.StopAndFrisk.GenderBias`: its counting loop is the helper method `CountRaceAndGender`, with the source's six counters and its nested `if` structure.
- `StopAndFrisk.StopAndFrisk.MostCommonBorough`: its counting loops and its final arg-max scan are written as two helper methods, `CountBoroughs` and `MaxIndex`. They keep the source's loops, its `int[5]` counter array and its `break`.
