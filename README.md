# Crimes in Boston: a Dafny model of the district report

The job reads a Boston crime-incident log and an offense-code table and
writes one row per police district. Each row holds the number of distinct
incidents, the median number of incidents per month, the mean latitude and
longitude, and the three most frequent crime types. This project restates the
relational core of that job as pure Dafny functions over finite sequences of
typed rows, and proves what each stage promises.

Modules, in the job's dependency order:

- `Wrappers` and `Records` hold the nullable value (`Option`) and the two
  typed input tables. `Incident.otherColumns` stands for the columns the
  report never reads. `distinct()` still compares them.
- `Relational` defines `distinct()` (`Distinct`), a column projection, and
  the count of a group over a duplicate-free table.
- `Codes` is the offense-code normaliser. It sorts by CODE with a stable
  insertion sort, keeps the first row of each code, and sets CRIME_TYPE to
  the part of NAME before the first `" - "`.
- `DistrictTotals` builds the `crimes_total` view: the count per DISTRICT
  over distinct rows, and `avg(Lat)` / `avg(Long)` over `real`.
- `MonthlyMedian` builds the per-(DISTRICT, YEAR, MONTH) counts over
  distinct rows, then the `crimes_median` view (the lower median per
  district).
- `FrequentCrimes` builds the `frequent_crimes` view. It left-joins the raw
  incident rows to the codes, counts per (DISTRICT, CRIME_TYPE), numbers the
  groups by descending count, keeps numbers 1 to 3 and joins the labels with
  `","`.
- `Report` is the two LEFT JOINs on DISTRICT and the `IS NOT NULL` filter.
  `Report.Pipeline` is the whole job.
- `Scenarios` proves the stages' contracts on a small worked example: two
  offense codes, and three incidents of district A, two of which are copies
  of one Larceny row.

Modelling decisions, each fixed where the engine leaves a choice open:

- Row order. `distinct()` and `groupBy` produce groups in order of first
  appearance. `dropDuplicates(['CODE'])` after `orderBy` keeps the first row
  of each code in the sorted order. The sort is stable, so this is the first
  row of that code in the input.
- Ranking. `ROW_NUMBER() OVER (PARTITION BY DISTRICT ORDER BY COUNT(*) DESC)`
  breaks ties by crime type: NULL first, then labels in lexicographic order.
  `collect_list` lists the kept labels in that numbering order.
- Median. `percentile_approx(crimes_total, 0.5)` is the exact lower median:
  the element at position (n - 1) / 2 of the ascending order. On exact data
  this is the smallest value with at least half of the values at or below it.
- Left join. It returns every matching right-hand row, or one NULL row when
  nothing matches. SQL equality never matches NULL, but NULL districts are
  filtered out of the report anyway.

Two consequences of the code that are easy to miss:

- Unlike the totals and the median, the ranker reads the raw `crimes` view
  (crimes-in-boston.py:35), so a copied incident row counts again there. In
  the worked example the copied Larceny row counts twice, and the labels
  come out as "Larceny,Assault" by count, not by tie-break
  (`Scenarios.ReportOfExample`). `Scenarios.DeduplicatedRankerTies` shows
  that a ranker over distinct rows would give "Assault,Larceny".
- A NULL crime type (an unmatched offense code, or a code row whose NAME is
  NULL) can take one of the three numbers and leave no label, so a district
  with three or more crime types can get fewer than three labels. Exactly three labels are proved only
  when none of the kept groups is NULL.

## Model

| member | source | states |
|---|---|---|
| `Relational.Distinct` | crimes-in-boston.py:37 | `distinct()` yields each row of the input exactly once and nothing else |
| `Relational.DistinctAbsorbsCopy` | crimes-in-boston.py:37 | appending a copy of a row that is already present does not change `distinct()` |
| `Relational.DistinctIdempotent` | crimes-in-boston.py:37 | applying `distinct()` twice is the same as once |
| `Relational.CountMatching` | crimes-in-boston.py:38 | over a duplicate-free table, `count("*")` of a group is the number of different rows with that key |
| `Codes.CrimeTypeOf` | crimes-in-boston.py:32 | `split(NAME, ' - ')[0]` is a prefix of NAME with no separator starting inside it, ending at the first separator or at the end of NAME |
| `Codes.CrimeTypeUnique` | crimes-in-boston.py:32 | those three conditions determine the crime type uniquely |
| `Codes.CrimeTypeWholeName` | crimes-in-boston.py:32 | the crime type is the whole name exactly when the name holds no `" - "` |
| `Codes.CrimeType` | crimes-in-boston.py:32 | a NULL name gives a NULL crime type; otherwise the crime type is a prefix of the name |
| `Codes.SortByCode` | crimes-in-boston.py:30 | `orderBy(CODE.asc())` returns a permutation of the code rows in ascending code order |
| `Codes.SortByCodeStable` | crimes-in-boston.py:30 | the sort keeps the input order of rows that share a code |
| `Codes.DropDuplicateCodes` | crimes-in-boston.py:31 | `dropDuplicates(['CODE'])` keeps one input row per code, for every code of the input |
| `Codes.DropDuplicateCodesKeepsFirst` | crimes-in-boston.py:31 | the surviving row of a code is the first row with that code |
| `Codes.DropDuplicateCodesSorted` | crimes-in-boston.py:30-31 | deduplicating a table sorted by code leaves it sorted |
| `Codes.Normalize` | crimes-in-boston.py:29-33 | `offense_codes` holds every input code exactly once, with CRIME_TYPE derived from its NAME |
| `Codes.NormalizeKeepsFirstRow` | crimes-in-boston.py:29-31 | each row of `offense_codes` is the first input row with its code |
| `Codes.NormalizeAscending` | crimes-in-boston.py:30-31 | `offense_codes` is strictly ascending by code |
| `DistrictTotals.Mean` | crimes-in-boston.py:39-40 | `avg` of a nullable column is NULL exactly when every value is NULL |
| `DistrictTotals.MeanWithinBounds` | crimes-in-boston.py:39-40 | the mean lies between any lower and upper bound of the non-NULL values it averages |
| `DistrictTotals.MeanSkipsNull` | crimes-in-boston.py:39 | `avg` of 10, NULL and 30 is 20: a NULL value is neither summed nor counted |
| `DistrictTotals.NullMean` | crimes-in-boston.py:39-40 | the mean of a district's Lat (Long) column is NULL exactly when every row of the district has a NULL there |
| `DistrictTotals.ColumnInValues` | crimes-in-boston.py:39-40 | the averaged column holds the value of every row of the district and of no other row |
| `DistrictTotals.ColumnInCounts` | crimes-in-boston.py:37-40 | over duplicate-free rows (the `distinct()` of line 37), the averaged column holds one entry per row of the district: a value occurs as often as there are rows of the district carrying it |
| `DistrictTotals.Totals` | crimes-in-boston.py:37-41 | `crimes_total` has one row per district of the log (NULL included); each count is at least one and equals the district's entries among the distinct rows |
| `DistrictTotals.TotalsRowOf` | crimes-in-boston.py:37-41 | the aggregate row of a district carries that district, and over distinct rows its count is the number of rows of the district |
| `DistrictTotals.TotalsRowCoordinates` | crimes-in-boston.py:39-40 | a district's `lat` (`lng`) is NULL exactly when none of its rows has a Lat (Long) |
| `DistrictTotals.TotalsRowFor` | crimes-in-boston.py:37-41 | every district of the log has its totals row, computed from the distinct rows of that district |
| `DistrictTotals.CrimesTotalCountsDistinctRows` | crimes-in-boston.py:37-38 | `crimes_total` of a district is the number of different incident rows of that district |
| `DistrictTotals.TotalsOfDistinct` | crimes-in-boston.py:37 | the totals of a deduplicated log equal the totals of the log |
| `DistrictTotals.TotalsIgnoreCopies` | crimes-in-boston.py:37-38 | appending a copy of an existing incident row leaves the totals unchanged |
| `MonthlyMedian.MonthlyTotals` | crimes-in-boston.py:43-44 | the per-month table has one row per (district, year, month) key of the log, each with a count of at least one |
| `MonthlyMedian.MonthlyCountCountsDistinctRows` | crimes-in-boston.py:43-44 | each monthly count is the number of different incident rows in that month of that district |
| `MonthlyMedian.MonthlyDistrictsOf` | crimes-in-boston.py:44 | the districts of the per-month table are the districts of the log |
| `MonthlyMedian.SortAscending` | crimes-in-boston.py:45 | the values in ascending order, as a permutation |
| `MonthlyMedian.LowerMedian` | crimes-in-boston.py:45 | the percentile is one of the values; at most (n - 1) / 2 values lie below it, and more than (n - 1) / 2 lie at or below it |
| `MonthlyMedian.LowerMedianUnique` | crimes-in-boston.py:45 | any value meeting those two rank conditions is the lower median |
| `MonthlyMedian.Medians` | crimes-in-boston.py:43-46 | `crimes_median` has exactly one row per district of the log |
| `MonthlyMedian.MedianRowOf` | crimes-in-boston.py:44-45 | a district with monthly counts has the lower median of those counts as its row |
| `MonthlyMedian.CountsOfPerMonth` | crimes-in-boston.py:43-45 | over a duplicate-free per-month table, a district's counts hold one entry per month: a count occurs as often as there are months of the district with that count |
| `MonthlyMedian.MonthlyCountsPerMonth` | crimes-in-boston.py:43-45 | the counts a district's median is taken over are those of all its (year, month) rows of `crimes_monthly`, each once |
| `MonthlyMedian.MedianIsMonthlyCount` | crimes-in-boston.py:43-45 | a district's median is the lower median of its monthly counts and one of them, hence between their smallest and largest |
| `MonthlyMedian.MediansIgnoreCopies` | crimes-in-boston.py:43 | appending a copy of an existing incident row leaves the medians unchanged |
| `MonthlyMedian.MediansOfDistinct` | crimes-in-boston.py:43 | the medians of a deduplicated log equal the medians of the log |
| `MonthlyMedian.MedianOfTwoFiveNine` | crimes-in-boston.py:43-45 | a district whose monthly counts are 2, 5 and 9, in any order, has median 5 |
| `FrequentCrimes.CrimeTypeFor` | crimes-in-boston.py:52-53 | the left join gives NULL when no code row has the offense code, and a non-NULL crime type only from a code row with that code |
| `FrequentCrimes.CrimeTypeForMatch` | crimes-in-boston.py:52-53 | over a table with unique codes, the join picks the crime type of the one matching row |
| `FrequentCrimes.Join` | crimes-in-boston.py:52-53 | the join yields exactly one (district, crime type) row per incident row |
| `FrequentCrimes.JoinedCrimeType` | crimes-in-boston.py:29-33 | an incident whose code is missing from the code table gets a NULL crime type; otherwise it gets the crime type of the normalised row of its code |
| `FrequentCrimes.Labels` | crimes-in-boston.py:52-53 | the LEFT JOIN of the raw incident log gives one row per incident, carrying its district |
| `FrequentCrimes.Groups` | crimes-in-boston.py:49-54 | the groups of a district hold each crime type once, with its count over the raw, undeduplicated incident rows |
| `FrequentCrimes.CopyCountsAgain` | crimes-in-boston.py:35 | appending a copy of an incident row adds one to its group's count in this stage |
| `FrequentCrimes.RanksBefore` | crimes-in-boston.py:51 | `ORDER BY COUNT(*) DESC`: a larger count always comes first, and a group never comes before one with a larger count |
| `FrequentCrimes.RanksBeforeAntisymmetric` | crimes-in-boston.py:51 | with the crime-type tie-break, two different groups are never tied, so the numbering is determined |
| `FrequentCrimes.Rank` | crimes-in-boston.py:51 | the numbering order is a permutation of the groups, by descending count with a fixed tie-break |
| `FrequentCrimes.Kept` | crimes-in-boston.py:51-55 | `rank <= 3` keeps at most three groups, in numbering order |
| `FrequentCrimes.KeptOutrankDropped` | crimes-in-boston.py:51-55 | kept and dropped groups together are the district's groups; three are kept unless fewer exist; no dropped group has a larger count than a kept one |
| `FrequentCrimes.MostFrequentKept` | crimes-in-boston.py:48-55 | each kept crime type occurs in at least as many raw incident rows of the district as any dropped crime type |
| `FrequentCrimes.LabelsOf` | crimes-in-boston.py:48 | `collect_list` gives no more labels than there are kept groups |
| `FrequentCrimes.LabelsOfTypes` | crimes-in-boston.py:48 | the labels are exactly the non-NULL crime types of the kept groups |
| `FrequentCrimes.LabelsOfInOrder` | crimes-in-boston.py:48-51 | `collect_list` keeps the numbering order: of two labels, the earlier comes from an earlier kept group |
| `FrequentCrimes.NullTakesSlotWithoutLabel` | crimes-in-boston.py:48-51 | a kept NULL crime type takes a number but yields no label; without one, every kept group yields a label |
| `FrequentCrimes.TopLabelsCount` | crimes-in-boston.py:48-56 | a district has at most three labels, exactly three when it has three or more crime types and no kept NULL, and each label is a kept crime type |
| `FrequentCrimes.TopLabels` | crimes-in-boston.py:48-56 | a district has at most three labels, each a crime type that occurs among the district's joined rows |
| `FrequentCrimes.TopLabelsByCount` | crimes-in-boston.py:48-56 | the labels are listed by descending frequency: an earlier label occurs in at least as many raw incident rows of the district as a later one |
| `FrequentCrimes.JoinLabels` | crimes-in-boston.py:48 | `CONCAT_WS(',', …)` of no labels is empty; otherwise it starts with the first label and adds one comma per gap between labels |
| `FrequentCrimes.SplitJoinLabels` | crimes-in-boston.py:48 | cutting the `CONCAT_WS(',', …)` string at its commas gives back labels that hold no comma |
| `FrequentCrimes.Frequent` | crimes-in-boston.py:48-57 | `frequent_crimes` has exactly one row per district of the log |
| `FrequentCrimes.FrequentRowOf` | crimes-in-boston.py:48-57 | each row holds its district's labels joined with commas, and every district has its row |
| `Report.MedianMatches` | crimes-in-boston.py:67-68 | the median rows that join to a district are exactly those with that district |
| `Report.FrequentMatches` | crimes-in-boston.py:69-70 | the frequent-crime rows that join to a district are exactly those with that district |
| `Report.OrNull` | crimes-in-boston.py:67-70 | a LEFT JOIN keeps a row with NULL when nothing matches, and every match otherwise |
| `Report.Combine` | crimes-in-boston.py:59-70 | a totals row joins to one report row per pair of matches, each carrying the totals row's values |
| `Report.CombineHasEveryPair` | crimes-in-boston.py:66-70 | every (median, frequent) pair of the two LEFT JOINs appears as a report row |
| `Report.RowsFor` | crimes-in-boston.py:66-71 | a totals row of a NULL district gives no report row; any other gives at least one |
| `Report.Assemble` | crimes-in-boston.py:59-71 | every report row comes from a totals row of a non-NULL district, and every such totals row gives a report row |
| `Report.RowsForUniqueKeys` | crimes-in-boston.py:66-70 | with unique keys on the right, a totals row gives exactly one report row |
| `Report.AssembleDistricts` | crimes-in-boston.py:59-71 | with unique keys on the right, the report's districts are the non-NULL districts of the totals, in order |
| `Report.AssembleRows` | crimes-in-boston.py:59-71 | with unique keys on the right, each report row carries its totals row, its matching median and labels, or NULL where nothing matches |
| `Report.MedianForMatch` | crimes-in-boston.py:67-68 | on unique keys, the join finds the district's one median row |
| `Report.FrequentForMatch` | crimes-in-boston.py:69-70 | on unique keys, the join finds the district's one frequent-crime row |
| `Report.PipelineOneRowPerDistrict` | crimes-in-boston.py:59-71 | the report has exactly one row per non-NULL district of the incident log and no other rows |
| `Report.Pipeline` | crimes-in-boston.py:29-71 | the whole job: every report row is for a non-NULL district of the incident log |
| `Report.PipelineRow` | crimes-in-boston.py:37-71 | each report row holds the district's distinct-row count, its means, the lower median of its monthly counts and its joined top-3 labels; median and labels are never NULL |
| `Scenarios.JoinedLog` | crimes-in-boston.py:29-33 | in the example, both copies of the Larceny incident join to crime type Larceny and the Assault incident to Assault |
| `Scenarios.GroupsOfA` | crimes-in-boston.py:35 | in the example, district A has a Larceny group of count two (the copy counts again) and an Assault group of count one |
| `Scenarios.TopLabelsOfA` | crimes-in-boston.py:48-56 | with those groups, the labels of district A are "Larceny,Assault" |
| `Scenarios.DeduplicatedRankerTies` | crimes-in-boston.py:35 | a ranker fed the deduplicated example would count each type once and, by the tie-break, give "Assault,Larceny" |
| `Scenarios.TotalOfA` | crimes-in-boston.py:37-38 | in the example, district A holds two different incident rows |
| `Scenarios.MedianOfA` | crimes-in-boston.py:43-45 | in the example, each month of district A holds one distinct incident, so the median is one |
| `Scenarios.ReportHasOneRow` | crimes-in-boston.py:59-71 | a log whose only district is A gives a report of exactly one row, for A |
| `Scenarios.ReportOfExample` | crimes-in-boston.py:29-71 | the report of the example is the single row (A, 2, 1, NULL, NULL, "Larceny,Assault") |

## Left out

- Argument parsing, the Spark session and the CSV reading with schema
  inference (crimes-in-boston.py:6-27) are I/O. The model takes the two
  tables already typed. OFFENSE_CODE, CODE, YEAR and MONTH are integers, and
  DISTRICT, NAME, Lat and Long are nullable.
- `coalesce(1)` and the Parquet write in overwrite mode
  (crimes-in-boston.py:72-75) are output I/O. `Report.Pipeline` is the table
  that would be written.
- `avg(Lat)` / `avg(Long)` are computed over `real`. The model makes no
  claim about floating-point rounding.
- The sketch algorithm inside `percentile_approx` is replaced by the exact
  lower median, which is what it returns on small data.
- Distributed evaluation and the engine's free choice of row order in
  `distinct()`, `groupBy`, `dropDuplicates`, `ROW_NUMBER` ties and
  `collect_list` are not modelled. The model fixes one deterministic order,
  described above.
- A NULL OFFENSE_CODE or CODE, and a NULL YEAR or MONTH, are not
  represented. These columns are plain integers in the model.
