# Olympics analysis: a verified model of the aggregation layer

`helper.py` holds the aggregation queries that the Olympics analysis app
calls on its dataset of participation records. There is one record per athlete, event
and edition. Each record has the team, NOC code, games, year, city, sport,
event, name and sex. It also has an optional region, looked up from the
NOC code, an optional medal, and 0/1 Gold/Silver/Bronze indicator columns
derived from the medal.

The queries are pipelines of a few table operations:
- `drop_duplicates` on a column subset (the first record of each key tuple is kept);
- boolean-mask filters;
- `groupby` with `sum`, `count` or `size`;
- `value_counts`, a left `merge`, `sort_values` and `head`;
- `pivot_table` with `fillna(0)` (helper.py:104-106).

This project models those operations in Dafny as functions on sequences
of records, builds each query of helper.py from them, and proves what
each query returns.

Modules:
- `Olympics` (`olympics.dfy`): the record, its columns and cells, the
  masks (`Cond`), and the `Overall` sentinel as `Choice<T>`.
- `Frames` (`frames.dfy`): the table operations and their laws. Laws
  include "deduplication is idempotent", "filtering commutes with
  deduplication on a key the mask respects" and "a sum of indicators
  counts rows".
- `MedalTally` (`medal_tally.dfy`): `fetch_medal_tally`,
  `yearwise_medal_tally` and `country_event_heatmap`.
- `Overview` (`overview.dfy`): `country_year_list` and `data_over_time`.
- `Rankings` (`rankings.dfy`): `most_successful` and
  `most_successful_countrywise`.
- `Athletes` (`athletes.dfy`): `weight_v_height` and `men_vs_women`.

A few lemmas need the dataset as the preprocessor delivers it
(`Preprocessed`): the indicator columns agree with `Medal`, and records
with the same NOC have the same region.

In a few places helper.py behaves differently from what its function
names suggest; the model follows helper.py:
- `fetch_medal_tally` groups by year only when the year is `Overall` and
  a country is chosen. With both a year and a country it groups by region,
  like the other cases (helper.py:13-37).
- `men_vs_women` is a left merge on the years whose first-time athletes
  include a man. A year whose new athletes are all women has no row
  (helper.py:141).
- `data_over_time` deduplicates with `drop_duplicates`, which treats
  missing values as equal. So a missing value of the column counts as one
  value of its year (helper.py:61-62).
- In both rankings the merge runs against the whole dataset. The
  sport/region columns therefore come from the athlete's first record in
  the dataset, which may belong to another sport (helper.py:77, 118).
- `weight_v_height` and `men_vs_women` both start from each athlete's
  first (Name, region) record in dataset order (helper.py:125, 136), not
  from all of an athlete's records. So `men_vs_women` does not count the
  distinct athletes of each year: an athlete of 2000 and 2004 counts in
  2000 only, and a year whose athletes all appeared earlier has no row.
  Likewise a (Name, region) pair whose first record is of another sport is
  absent from the sport-filtered `weight_v_height`, even when a later
  record of that pair has the chosen sport.
- `fetch_medal_tally` does not drop rows without a medal. Every
  non-missing region of the selection gets a row, possibly all zeros
  (helper.py:7-37).

## Model

| member | source | states |
|---|---|---|
| Frames.Where | helper.py:17-21 | a mask filter keeps exactly the records satisfying the mask, in order, and never lengthens the table |
| Frames.DropDuplicates | helper.py:7-9 | `drop_duplicates(subset)` yields a subsequence whose key tuples are pairwise distinct and are exactly the key tuples of the input |
| Frames.DropDuplicatesKeepsFirst | helper.py:7-9 | every kept record is the first record of the input with its key tuple |
| Frames.DropDuplicatesIdempotent | helper.py:87-89 | deduplicating twice on the same subset gives the same table as deduplicating once |
| Frames.DropDuplicatesWhere | helper.py:86-91 | filtering and deduplicating commute when records with equal key tuples agree on the mask |
| Frames.MedalSumCounts | helper.py:27 | the sum of a Gold/Silver/Bronze indicator column is the number of records that won that medal |
| Frames.SizeByYear | helper.py:62 | `groupby('Year').size()` has strictly ascending years, exactly the years present, each with its positive number of records |
| Frames.SizeByYearCount | helper.py:62 | reading a year's count from the grouped table, with 0 for a missing year, gives the number of records of that year |
| Frames.SortDesc | helper.py:35 | a descending sort yields a non-increasing permutation of its input |
| Frames.SortDescDistinct | helper.py:35 | sorting keeps group keys distinct |
| Frames.Head | helper.py:80 | `head(n)` is a prefix of length `n`, or the whole table when it is shorter |
| Frames.SortedYears | helper.py:50 | the sorted unique years are strictly ascending and are exactly the years of the dataset |
| Frames.SortedRegions | helper.py:53 | the sorted unique regions, missing ones dropped, are strictly ascending in string order and are exactly the non-missing regions |
| MedalTally.SelectedSpec | helper.py:13-21 | with `Overall` the axis is unrestricted; otherwise the kept rows are the deduplicated rows with that year and/or region, in order |
| MedalTally.FetchMedalTally | helper.py:40-44 | every row's total is the sum of its gold, silver and bronze |
| MedalTally.FetchMedalTallyByYear | helper.py:15-30 | with a country and year `Overall`: one row per year of the selection, ascending, each holding that year's indicator sums |
| MedalTally.FetchMedalTallyByRegion | helper.py:31-37 | in every other case: one row per non-missing region of the selection, regions distinct, gold non-increasing, each row holding that region's indicator sums |
| MedalTally.TallyCountsDistinctAwards | helper.py:5-37 | each medal count of a tally row is the number of distinct medal tuples of that group that won that medal, so a team medal counts once |
| MedalTally.TeamGoldCountsOnce | helper.py:5-46 | three teammates sharing one gold medal give the country one row with Gold = 1 and total 1 |
| MedalTally.YearwiseMedalTally | helper.py:85-93 | one row per year in which the country won a distinct medal, ascending, each counting that year's distinct medals |
| MedalTally.YearwiseMatchesTally | helper.py:85-93 | the per-year medal count equals the total of the same year in the country's `fetch_medal_tally` |
| MedalTally.CountryEventHeatmap | helper.py:96-108 | the pivot has the sorted sports as rows and the sorted years as columns, a cell for every pair, each cell counting that sport's distinct medals in that year and 0 where there are none |
| MedalTally.HeatmapColumnTotals | helper.py:96-108 | each pivot column sums to the country's yearwise medal count of that year |
| Overview.YearChoices | helper.py:50-51 | the year list starts with `Overall`, followed by every year of the dataset once, ascending |
| Overview.CountryChoices | helper.py:53-54 | the country list starts with `Overall`, followed by every non-missing region once, in string order |
| Overview.DataOverTimeSpec | helper.py:59-63 | one row per year of the dataset, ascending, each counting the distinct values of the column among that year's records |
| Overview.NationsOverTimeScenario | helper.py:59-63 | one nation in each of 2000, 2004 and 2008 gives the rows (2000, 1), (2004, 1), (2008, 1) |
| Rankings.ValueCounts | helper.py:73-74 | `value_counts` gives every name exactly once with its number of rows, counts non-increasing |
| Rankings.DedupMerge | helper.py:77 | a left merge on `Name` followed by `drop_duplicates('Name')` keeps each count row in order, with the further columns of the first dataset record of that name, or none when there is none |
| Rankings.TopAthletesSpec | helper.py:73-80 | the ranking has at most `n` rows, distinct names, non-increasing counts, each count the number of rows of that name, and any name left out ranks no higher than every kept one, with the table then full |
| Rankings.SportMedals | helper.py:67-70 | the rows ranked are the medal-bearing records, of the chosen sport unless `Overall`, in dataset order; each name keeps as many rows as the dataset has medal rows of it in that sport |
| Rankings.MostSuccessfulSpec | helper.py:66-82 | `most_successful` is the top-15 ranking of those rows, each with the sport and region of the athlete's first record |
| Rankings.CountryMedals | helper.py:112-113 | the rows ranked are the medal-bearing records of the country, in dataset order; each name keeps as many rows as the dataset has medal rows of it in that country |
| Rankings.MostSuccessfulCountrywiseSpec | helper.py:111-121 | `most_successful_countrywise` is the top-10 ranking of those rows, each with the sport of the athlete's first record |
| Athletes.SportRowsRecode | helper.py:126-130 | filtering on the sport after recoding the medal is recoding after filtering |
| Athletes.WeightVHeightSpec | helper.py:124-132 | the rows are, in order, the first record of every (Name, region) pair, kept when that first record has the chosen sport; each row's medal reads "No Medal" exactly where the medal is missing, and the medal itself otherwise |
| Athletes.MenVsWomenSpec | helper.py:135-145 | one row per year that is the first year of some male (Name, region) pair, ascending; male and female count the athletes of each sex whose first record is of that year, female 0 when there is none; no other year has a row |
| Athletes.MenVsWomenTotals | helper.py:136-139 | a row's male and female counts add up to all athletes whose first record is of that year |

## Left out

- app.py (the Streamlit page, its widgets and the charts) is not part of this model. This includes the views app.py computes itself: the edition, city, sport, event, athlete and nation counts, the inline sport × year pivot, the country and sport selector lists and the age distributions.
- Loading the CSV files and the preprocessor are not part of this model. They are file I/O and code that is not shown. Their guarantees enter as the `Preprocessed` precondition of the lemmas that need them.
- Age, Height and Weight are carried as opaque optional values. No query computes with them.
- `int(year)`, the parsing of the year filter from text, is not modelled. The year filter is an integer or `Overall`.
- Column names, `reset_index`, `rename` and the dtype casts are not modelled. Each output table is a sequence of rows of a datatype.
- The `astype(int)` loop of `fetch_medal_tally` is not modelled, since the sums are integers there already.
- The `fillna(0)` of `men_vs_women` and of the pivot yields floats in pandas. Here it yields natural numbers.
- `count()['Medal']` and `count()['Name']` count non-missing cells. They are modelled as the group size, because these columns are never missing in the rows counted. Names are never missing in the model.
- Rankings.ValueCounts: the order of equal counts is not stated, since pandas does not specify it. The model's sort happens to be stable, but no contract relies on that. The same holds for the gold ranking of `fetch_medal_tally`.
- Rankings.DedupMerge: a left merge is taken to list a name's dataset records in dataset order. The first of them supplies the further columns.
