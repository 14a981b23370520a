# Placement dashboard: the aggregation layer

The placement analytics dashboard loads a table of placement offers, either
from a CSV file or from a MySQL database. It then draws five charts from that
table:

- students placed per branch;
- average package per branch;
- the top companies by students placed;
- the salary distribution;
- a branch-by-company heatmap.

Each chart can be limited to one offer year.

This project models the part of the program that decides what those charts
show. It covers:

- the year filter each analysis applies first;
- the four summaries: distinct-student counts per branch, mean package per
  branch, the top companies, and the branch-by-company cross-tabulation;
- the file name each chart is saved under;
- the dispatch on the run mode in `main`.

The table is a sequence of `Offer` values holding the columns the analyses
read. The pandas operations (mask filter, `groupby().nunique()`, `.mean()`,
`sort_values(ascending=False)`, `head(n)` and `pivot_table(..., fill_value=0)`)
are written out as functions. Their contracts and lemmas state what each
summary contains and how it is ordered.

Modules:

- `Wrappers`: `Option` and `Result`.
- `Offers`: the row type, the boolean-mask filter, the year filter, and
  grouping by branch or company.
- `Ranking`: summary tables as `(label, value)` sequences, the descending sort
  (an insertion sort proved sorted and a permutation), and `head`.
- `Aggregates`: the four summaries.
- `OutputNames`: `f"{kind}_{year if year else 'all'}.png"`, including the
  decimal rendering of the year and its round trip through `int(...)`.
- `Dashboard`: the loaders as functions of what the file system and the
  database would return, and `main`.
- `Scenarios`: small worked tables run through the filter, the averages and
  the top companies.

A year of `0` behaves as the code is written. The filter still keeps only
offers dated year 0, because it tests `year is not None`. The file name says
`all`, because it tests the truthiness of `year`. `Dashboard.ZeroYearOverwritesAllCharts`
states the consequence.

Every analysis filters the table it is given, and `main` passes the same
unfiltered table to all five, so the filter runs five times. The model follows
the code here. The filter is a function of the table and the year alone, so
all five analyses see the same filtered rows.

## Model

| member | source | states |
|---|---|---|
| Offers.Where | dashboard.py:91 | the mask keeps exactly the rows satisfying the condition, each as often as in the input, and never more rows |
| Offers.WhereConcat | dashboard.py:91 | masking a concatenation masks each part and keeps their order |
| Offers.WhereIdempotent | dashboard.py:91 | applying the same mask twice equals applying it once |
| Offers.FilterYear | dashboard.py:89-91 | with a year, exactly the rows whose offer year equals it, with their multiplicities; with no year, the table unchanged |
| Offers.FilterYearConcat | dashboard.py:90-91 | the filter keeps the surviving rows of each part in their original order |
| Offers.FilterYearIdempotent | dashboard.py:90-91 | filtering twice by the same year equals filtering once |
| Offers.Group | dashboard.py:92 | a group holds exactly the rows with that key, each as often as in the table, is non-empty exactly when the key occurs, and its students are the key's distinct students |
| Offers.GroupConcat | dashboard.py:92 | grouping distributes over concatenation: each group keeps the rows of each part, in their original order |
| Offers.GroupKeys | dashboard.py:92 | the group keys are exactly the values present in the column, each listed once |
| Offers.StudentIdsBounds | dashboard.py:92 | `nunique` of student ids is at most the number of rows and at least 1 for a non-empty group |
| Ranking.InsertDesc | dashboard.py:92 | inserting into a descending table keeps it descending, adds exactly the new entry and keeps labels distinct when the new one is fresh |
| Ranking.SortDesc | dashboard.py:92 | `sort_values(ascending=False)` yields a descending permutation of the entries with the same labels |
| Ranking.DistinctKeysCount | dashboard.py:92 | a table with distinct labels has as many labels as entries |
| Ranking.Head | dashboard.py:126 | `head(n)` is the prefix of length `min(n, len)`, or of length `len + n` (at least 0) for a negative `n` |
| Ranking.HeadOfSorted | dashboard.py:126 | the prefix of a sorted table is sorted, has distinct labels, and no entry cut off ranks above one kept |
| Aggregates.CountTable | dashboard.py:92 | each listed key in order with the number of distinct students of its group |
| Ranking.TableOfKeys | dashboard.py:92 | a table built from a list of keys has exactly those labels, distinct when the keys are |
| Aggregates.DistinctStudentCounts | dashboard.py:92 | the unsorted `nunique` table has one entry per group present, each with the group's distinct-student count |
| Aggregates.RankedDistinctCounts | dashboard.py:92 | every group exactly once with its distinct-student count, counts non-increasing |
| Aggregates.PlacementsPerBranch | dashboard.py:88-92 | each branch of the filtered rows once, with its distinct-student count; absent branches have no entry; counts non-increasing |
| Aggregates.PlacementsPerBranchBounds | dashboard.py:92 | each branch's count is at least 1 and at most that branch's row count |
| Aggregates.TotalCountCovers | dashboard.py:92 | per-group distinct counts over distinct labels sum to at least the students of those groups, and exactly that when no student is in two groups |
| Aggregates.PlacementsPerBranchCoverStudents | dashboard.py:92 | the branch counts add up to at least the distinct students of the filtered rows, and exactly that when each student has one branch |
| Aggregates.HeadOfCounts | dashboard.py:126 | the first entries of a ranked count table stay sorted and distinct and keep each group's own count |
| Aggregates.HeadOfCountsExcluded | dashboard.py:126 | no group cut from a ranked count table has a larger count than one kept |
| Aggregates.TopOfRankedValues | dashboard.py:126 | the kept companies are sorted, distinct, present in the table, each with its own distinct-student count |
| Aggregates.TopOfRankedExcluded | dashboard.py:126 | no company left out has more distinct students than one kept |
| Aggregates.TopCompaniesByOffers | dashboard.py:122-126 | length `min(top_n, companies present)` (the `head` rule for negative `top_n`), counts non-increasing and each a company's own, and no excluded company outranks an included one |
| Aggregates.Minimum | dashboard.py:109 | the smallest package of a group is one of them and is at most each |
| Aggregates.Maximum | dashboard.py:109 | the largest package of a group is one of them and is at least each |
| Aggregates.SumAtLeast | dashboard.py:109 | n packages none below `lo` sum to at least `n * lo` |
| Aggregates.SumAtMost | dashboard.py:109 | n packages none above `hi` sum to at most `n * hi` |
| Aggregates.Mean | dashboard.py:109 | `mean()` times the number of values is their sum |
| Aggregates.MeanBounds | dashboard.py:109 | a mean lies between the smallest and the largest value |
| Aggregates.Packages | dashboard.py:109 | the `package_lpa` column: one value per row, in row order |
| Aggregates.MeanTable | dashboard.py:109 | each listed key in order with the mean package of its non-empty group |
| Aggregates.GroupMeans | dashboard.py:109 | the unsorted `mean` table has one entry per group present, each with the mean package of its non-empty group |
| Aggregates.RankedMeans | dashboard.py:109 | every group exactly once with the mean of its packages, means non-increasing |
| Aggregates.AvgPackagePerBranch | dashboard.py:105-109 | each branch of the filtered rows once with the exact mean of its packages, means non-increasing |
| Aggregates.AvgPackageWithinRange | dashboard.py:109 | each branch's average lies between that branch's smallest and largest package |
| Aggregates.PairStudentsEmpty | dashboard.py:158-159 | a pair has no students exactly when no row has that branch and that company |
| Aggregates.CrossTabulate | dashboard.py:158-159 | rows are the branches present, columns the companies present, one cell per pair holding the pair's distinct students |
| Aggregates.HeatmapBranchCompany | dashboard.py:154-159 | the cross-tab of the filtered rows, with a cell of 0 exactly where the pair never occurs |
| Aggregates.CellWithinHeadcounts | dashboard.py:158-159 | a cell never exceeds its branch's headcount nor its company's |
| Aggregates.BranchRow | dashboard.py:158-159 | the cells of one branch's row, one per listed company, in that order |
| Aggregates.RowCoversStudents | dashboard.py:158-159 | a branch's row of a cross-tab, summed over every company once, is at least the branch's distinct students, and equal when no student of the branch has two companies |
| Aggregates.BranchRowCoversStudents | dashboard.py:154-159 | the same for the heatmap of the filtered rows |
| OutputNames.NatToDecimal | dashboard.py:100 | `str(n)` of a natural number is a non-empty string of digits with no leading zero: the only text starting with `0` is `"0"` |
| OutputNames.NatDecimalRoundTrip | dashboard.py:100 | reading back the digits written for `n` gives `n` |
| OutputNames.IntToDecimal | dashboard.py:100 | `str(n)` of an integer: a minus sign exactly for a negative number, then at least one digit, with no leading zero (the only text starting with `0` is `"0"`, and no `-0`) |
| OutputNames.DecimalToInt | dashboard.py:100 | `int(s)` on decimal text (an optional minus sign, then at least one digit): not positive after a minus sign, otherwise not negative |
| OutputNames.IntDecimalRoundTrip | dashboard.py:100 | `int(str(n)) == n` for every integer year |
| OutputNames.Truthy | dashboard.py:100 | Python truthiness of `year`: present and non-zero (a predicate, no contract of its own) |
| OutputNames.YearLabel | dashboard.py:100 | `year if year else 'all'` is "all" exactly for a falsy year, otherwise text that `int` reads back as the year |
| OutputNames.OutputName | dashboard.py:100 | the name is the kind, `_`, the year label and `.png`, and `kind_all.png` for a falsy year |
| OutputNames.OutputNameSameFile | dashboard.py:100 | two runs write the same file for a kind exactly when both years are falsy or both are the same non-zero year |
| OutputNames.ZeroYearNamedAll | dashboard.py:100 | a year of 0 is named `all`, like no year |
| OutputNames.ChartNamesDistinct | dashboard.py:100-168 | the five charts of one run go to five different files |
| Dashboard.LoadFromCsv | dashboard.py:40-48 | succeeds exactly when the CSV file exists and parses; a missing file is reported first, a file that does not parse as a parse failure |
| Dashboard.LoadFromMysql | dashboard.py:50-85 | succeeds exactly when the client library is installed and the query returns rows; a missing library is reported first, a failed query as a connection failure |
| Dashboard.Charts | dashboard.py:182-187 | a run reports the rows loaded, and each chart is the matching analysis of the same table and year: placements per branch, average package per branch, the top 6 companies, the packages of the filtered rows for the histogram, and the branch-by-company heatmap; the five files are named by chart kind and year, in drawing order, and are pairwise different |
| Dashboard.Main | dashboard.py:174-187 | an unsupported mode is an error; a loader failure aborts with that error; otherwise all five charts come from the loaded table with the same year and 6 top companies |
| Dashboard.UnsupportedModeLoadsNothing | dashboard.py:175-180 | an unsupported mode is rejected whatever the file system and the database hold |
| Dashboard.ZeroYearOverwritesAllCharts | dashboard.py:88-100 | with a year of 0 the files are those of an unfiltered run while the data is filtered |
| Scenarios.FilterYearScenario | dashboard.py:88-91 | offers dated 2024, 2025 and 2025 filtered by 2025 keep the last two, in order |
| Scenarios.AvgPackageScenario | dashboard.py:105-109 | CS offers of 10 and 12 and one EE offer of 8 give CS 11 then EE 8 |
| Scenarios.TopTwoScenario | dashboard.py:122-126 | with company counts 5, 3, 3 and 1 the top two are the company counted 5 and one of those counted 3 |

## Left out

- The loaders' I/O (dashboard.py:40-85). This covers reading the CSV file,
  importing the MySQL client, connecting and querying. They are functions of a
  `Sources` value that says whether the file exists, what reading it gives
  (its rows, or why `read_csv` or the `offer_date` year extraction fails),
  whether the client is installed, and what the query returns or why it fails.
  The reasons are opaque text: which malformed files fail is not modelled.
- Date parsing and the derived `offer_year` column. `offerYear` is a field
  that is already filled in.
- Columns the analyses never read: roll number, name, CGPA, batch year, role
  and offer date.
- `DB_CONFIG` and the MySQL connection parameters: they only reach the
  database.
- All matplotlib rendering: figure sizes, titles, axis labels, plot kinds,
  `savefig` and the `print` calls. A run's output is a `Report` value that
  holds each chart's data and file name.
- Creating the `plots` directory. File names are modelled without the
  directory prefix.
- The salary histogram's binning (`bins=12`). The report carries the package
  values handed to `plt.hist`.
- Missing values: `dropna`, and NaN in `nunique` and `mean`. Every row has a
  student id and a package.
- Floating point: means are exact `real` quotients.
- Command-line parsing with `argparse`: `main` takes the mode and an optional
  year directly.
- `int(year)` in the filter: the year is already an integer, as `argparse`
  with `type=int` delivers it.
- Tie order in `sort_values`. The contracts state that values are
  non-increasing and the entries are a permutation, not how equal values are
  ordered. The model's sort puts an inserted entry before the entries it ties
  with.
- The order of group keys before sorting, and the cross-tab's row and column
  labels. pandas sorts them lexicographically. The model keeps them as sets
  because every chart either re-sorts by value or looks cells up by pair.
- The default `top_n=5` of the top-companies analysis: `TopCompaniesByOffers`
  takes `top_n` as an argument for every integer, and its only caller, `main`,
  always passes 6, so the default is never used.
- Raising exceptions: failures are `Err` values of `Dashboard.Error`.
