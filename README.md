# Statistics JSON view, modelled in Dafny

The statistics server's JSON view (`StatsJsonView`) turns telemetry rows
into the `data` payload of a response. The rows come from the statistics table.
Each row has a count and some of the five columns (`php_version`, `db_type`,
`db_version`, `cms_version`, `server_os`); the model does not fix which.
The view's settings are:

- `authorizedRaw`: return raw counts instead of percentages;
- `recent`: read the recently updated rows instead of all rows;
- `source`: one column, the combined `cms_php` report, or nothing for the whole dataset.

`render` picks one of three reports:

- **Whole dataset** (a false `source`: `""` or `"0"`). Every group of rows is scanned. Each row is
  stored, per category (`php_version`, `db_type`, `db_version`, `cms_version`,
  `server_os`), under its value in that column. `totalItems` starts again from 0
  with each group.
- **Single source** (any other truthy `source`). Each row is stored under its
  value in the source column, and `totalItems` sums every count.
  The placeholder `[${$this->source} = []]` also assigns `[]` to the local variable
  the source names. The source `items` therefore empties the fetched rows, and the
  report is a total of 0 alone; the source `this` fails, since PHP refuses to
  reassign `$this`.
- **Combined** (`source === 'cms_php'`). A table of CMS version by PHP version, plus
  the total. It is never sanitized.

In the first two reports, `buildResponseData` does two things:

- it flattens every category into `{name, count}` rows, dropping names PHP reads as false;
- unless raw data is authorized, `sanitizeData` then replaces each category by percentages of `totalItems`.

Sanitizing groups the names into buckets first:

- versions by their `major.minor` branch;
- operating systems by their first word;
- `db_type` and anything else by the name itself.

The aggregation loops of `render`, `processSingleSource` and `processCombined`
**assign** the count of the row they read. A later row with the same value replaces
the earlier count, while `totalItems` adds both. Only the regrouping loops of
sanitizing add counts with `+=`.

The project has these modules:

| module | file | holds |
|---|---|---|
| `PhpArrays` | `php_arrays.dfy` | PHP's ordered arrays with string keys: assignment in place or at the end, `+=` into a counter, their sums |
| `PhpStrings` | `php_strings.dfy` | truthiness of a string, `trim`, `explode` |
| `Telemetry` | `telemetry.dfy` | rows, the `data` payload, the five data sources |
| `Bucketing` | `bucketing.dfy` | the three bucketing rules of sanitizing |
| `Aggregation` | `aggregation.dfy` | the three aggregation loops as functions of the rows read |
| `Response` | `response.dfy` | `buildResponseData` and `sanitizeData` as functions |
| `Stats` | `stats_json_view.dfy` | the class `StatsJsonView`: its fields and methods, each loop proved against the functions above |
| `Reports` | `reports.dfy` | what a caller of `render` gets, report by report |

A division by a zero total ends the response with `Failure(DivisionByZero)`. This is
how PHP 8 behaves. The view has no guard against it: without raw data, a zero total
and a surviving row always fail. This is proved per report in `Reports`.

The whole-dataset report is modelled as written: the total is reset per group,
while the five category arrays carry over. `Reports.FullResetFails` exhibits the
consequence. A row followed by an empty group leaves a stored count but a total of
0, so the report fails when raw data is not authorized. The bound "counts kept ≤
total" therefore holds for one group (`Aggregation.FullStoredBound`), not across
groups.

Shares are percentages of `totalItems`. For the single-source report, and for
the whole-dataset report over one group, every share lies in [0, 100] when the
counts are non-negative and the total is positive (`Reports.SingleSharesWithin`,
`Reports.FullSharesWithin`). Across groups the reset breaks this bound:
`Reports.FullShareOverflow` reports a share of 1000% for a stored count of 10
over a total of 1.

## Model

| member | source | states |
|---|---|---|
| Stats.StatsJsonView.constructor | src/Views/Stats/StatsJsonView.php:19-52 | a new view is not raw, not recent, has the empty source and a total of 0 |
| Stats.StatsJsonView.IsAuthorizedRaw | src/Views/Stats/StatsJsonView.php:71-74 | sets `authorizedRaw` and nothing else |
| Stats.StatsJsonView.IsRecent | src/Views/Stats/StatsJsonView.php:83-86 | sets `recent` and nothing else |
| Stats.StatsJsonView.SetSource | src/Views/Stats/StatsJsonView.php:173-176 | sets `source` and nothing else |
| Stats.StatsJsonView.Render | src/Views/Stats/StatsJsonView.php:93-164 | the payload (or failure) and the new `totalItems` are the report the fetch and source select; full-dataset loops keep the per-category arrays equal to `FullData` of the groups read and the total equal to the last group's count |
| Stats.StatsJsonView.BuildResponseData | src/Views/Stats/StatsJsonView.php:185-211 | returns the flattened categories, sanitized unless raw data is authorized |
| Stats.StatsJsonView.FlattenCategories | src/Views/Stats/StatsJsonView.php:189-201 | the outer loop of the flattening yields the flattened categories |
| Stats.StatsJsonView.AppendCategory | src/Views/Stats/StatsJsonView.php:191-200 | appends one `{name, count}` row per truthy name of a category, in the category's order |
| Stats.StatsJsonView.SanitizeData | src/Views/Stats/StatsJsonView.php:256-339 | replaces every category in turn by its shares; the first failing category makes the whole result a failure |
| Stats.StatsJsonView.SanitizeCase | src/Views/Stats/StatsJsonView.php:260-335 | the shares of one category under the rule its key selects, or a failure on the first division by 0 |
| Stats.StatsJsonView.CountBuckets | src/Views/Stats/StatsJsonView.php:266-309 | the counters built by `+=` over the rows' buckets |
| Stats.StatsJsonView.AddCount | src/Views/Stats/StatsJsonView.php:273-279 | creating a missing counter at 0 and then adding is one `AddTo` |
| Stats.StatsJsonView.BucketName | src/Views/Stats/StatsJsonView.php:270-271 | the bucket of a name: `major.minor` (minor `0` when missing), or the first word for the OS (lines 299-300) |
| Stats.StatsJsonView.ProcessSingleSource | src/Views/Stats/StatsJsonView.php:220-247 | the payload and new `totalItems` are the single-source report over the rows read: counts assigned per name, total the sum of every count; source `items` reads no row and source `this` fails with `totalItems` unchanged |
| Stats.StatsJsonView.ReadSingleSource | src/Views/Stats/StatsJsonView.php:222-238 | the single-source loop leaves the data of the rows read and `totalItems` the sum of their counts |
| Stats.StatsJsonView.ProcessCombined | src/Views/Stats/StatsJsonView.php:347-364 | the payload and new `totalItems` are the combined report: the cross table under the source, then the total |
| Reports.RecentSelectsFetch | src/Views/Stats/StatsJsonView.php:95-102 | `recent` only chooses which fetch the report is built from |
| Reports.OtherSourcesSelected | src/Views/Stats/StatsJsonView.php:107-116 | a truthy source other than `cms_php` gives the single-source report, a false source the full-dataset report |
| Reports.SingleSourceLocals | src/Views/Stats/StatsJsonView.php:220-237 | through `${$this->source} = []`, source `this` fails leaving `totalItems` as it was, source `items` gives exactly `{total: 0}`, and any other source reads every fetched row |
| Reports.CombinedSelected | src/Views/Stats/StatsJsonView.php:107-113 | `cms_php` gives the combined report, whatever `authorizedRaw` and the prior total |
| Reports.CombinedReport | src/Views/Stats/StatsJsonView.php:347-363 | the combined report always succeeds, holds exactly `cms_php` (with a row) and `total`, in that order, the total being the sum of all counts |
| Reports.CombinedStoredBound | src/Views/Stats/StatsJsonView.php:353-357 | with non-negative counts the cells of the combined table sum to at most the reported total |
| Reports.SingleZeroRows | src/Views/Stats/StatsJsonView.php:222-224 | the placeholder array under key 0 never yields a row |
| Reports.TruthyKeys | src/Views/Stats/StatsJsonView.php:191-194 | after assigning pairs into an empty array, some key is truthy exactly when some assigned key is |
| Reports.SingleNamesTruthy | src/Views/Stats/StatsJsonView.php:228-236 | the single-source counts have a truthy name exactly when some row's stored name is truthy |
| Reports.SingleSurvivingKeys | src/Views/Stats/StatsJsonView.php:222-236 | the single-source response lists the source alone when it has a surviving row, and nothing otherwise |
| Reports.SingleSurvives | src/Views/Stats/StatsJsonView.php:228-237 | a single-source row survives exactly when some row's stored name is truthy |
| Reports.SingleCategory | src/Views/Stats/StatsJsonView.php:228-240 | the source's surviving rows are those of the counts assigned per name in row order |
| Reports.SingleReportFails | src/Views/Stats/StatsJsonView.php:220-242 | `totalItems` is the sum of all counts; the report fails exactly without raw data, with a zero total and a truthy name |
| Reports.SingleResponseKeys | src/Views/Stats/StatsJsonView.php:185-211 | before the total is added, the single-source response lists the source alone when a row survives, and nothing otherwise |
| Reports.SingleReportPayload | src/Views/Stats/StatsJsonView.php:220-246 | a built single-source report lists exactly the source (when a row survives) and then `total` (only `total` for the source `total`), never key 0, and under the source its rows (raw) or their shares |
| Reports.SingleSharesWithin | src/Views/Stats/StatsJsonView.php:220-246 | without raw data, a single-source report with non-negative counts and a positive total is built, and the source's shares lie in [0, 100] |
| Reports.FullCategoryRows | src/Views/Stats/StatsJsonView.php:125-157 | the five categories, in order, and each category's surviving rows are those of the assignments made to it over all groups |
| Reports.FullReportFails | src/Views/Stats/StatsJsonView.php:125-159 | `totalItems` is the last group's count per counted category (unchanged with no group); the report fails exactly without raw data, with a zero total and some surviving row |
| Reports.FullReportPayload | src/Views/Stats/StatsJsonView.php:149-161 | a built full-dataset report lists exactly the categories with a surviving row, in `$data` order, then `total`; per category it holds its rows (raw) or shares, nothing when no row survives |
| Reports.FullResetFails | src/Views/Stats/StatsJsonView.php:125-128 | a row followed by an empty group makes the unauthorized report fail although a row was stored |
| Reports.FullSharesWithin | src/Views/Stats/StatsJsonView.php:120-161 | without raw data, a one-group whole-dataset report with non-negative counts and a positive total is built, and every category's shares lie in [0, 100] |
| Reports.CategorySharesWithin | src/Views/Stats/StatsJsonView.php:141-143 | one category of one group keeps at most the total, so it sanitizes to shares in [0, 100] |
| Reports.OverflowRows | src/Views/Stats/StatsJsonView.php:125-143 | two one-row groups of distinct `db_type`s: the total is the second row's count, while `db_type` keeps both rows |
| Reports.OverflowShares | src/Views/Stats/StatsJsonView.php:125-161 | then the first name's share is its count over the second group's count alone |
| Reports.DbTypeShares | src/Views/Stats/StatsJsonView.php:322-333 | `db_type` rows with distinct names get each its own share of the total |
| Reports.FullShareOverflow | src/Views/Stats/StatsJsonView.php:125-161 | a row of count 10, then a group with a row of count 1, gives a total of 1 and a share of 1000% |
| Aggregation.ServerOsNames | src/Views/Stats/StatsJsonView.php:133-139 | an empty `server_os` is stored as `unknown`: after trimming on the single-source path (lines 231-234), as `""` or `"0"` only on the full path, where a missing column is skipped; other categories keep their value |
| Aggregation.BlankServerOs | src/Views/Stats/StatsJsonView.php:231-234 | a `server_os` of one space is `unknown` on the single-source path and kept on the full path |
| Aggregation.SingleStartShape | src/Views/Stats/StatsJsonView.php:222-224 | the starting data is one empty array under key 0 |
| Aggregation.SingleDataShape | src/Views/Stats/StatsJsonView.php:222-238 | after the loop the data is the start plus, once a row is read, the counts assigned per name in row order under the source |
| Aggregation.SingleDataKeys | src/Views/Stats/StatsJsonView.php:222-236 | the data lists key 0, then the source once a row is read; key 0 stays empty |
| Aggregation.SingleSourceShape | src/Views/Stats/StatsJsonView.php:222-236 | assigning the source's counts after the placeholder yields exactly keys 0 and source |
| Aggregation.SingleDataNested | src/Views/Stats/StatsJsonView.php:222-236 | every level of the single-source data lists each key once |
| Aggregation.SingleCounts | src/Views/Stats/StatsJsonView.php:236 | names appear in order of first occurrence, and a name holds the count of the last row with that name |
| Aggregation.SinglePairsSum | src/Views/Stats/StatsJsonView.php:236-237 | the assigned counts sum to the total, and are non-negative when the rows' counts are |
| Aggregation.SingleStoredBound | src/Views/Stats/StatsJsonView.php:236-237 | with non-negative counts the counts kept sum to at most the total |
| Aggregation.InitialCategories | src/Views/Stats/StatsJsonView.php:118-122 | the five empty category arrays, keyed in the order of `$data` (lines 149-155) |
| Aggregation.StoreInGet | src/Views/Stats/StatsJsonView.php:141 | storing into category `c` changes that category's array alone |
| Aggregation.ItemStepShape | src/Views/Stats/StatsJsonView.php:131-145 | the loop over data sources keeps the categories and their order |
| Aggregation.ItemStepGet | src/Views/Stats/StatsJsonView.php:131-145 | after `n` data sources, each of them holds the row's count under its name when the row is counted, the rest are unchanged |
| Aggregation.FullPairsAppend | src/Views/Stats/StatsJsonView.php:129-145 | one more row assigns its count under its name in each category that counts it |
| Aggregation.ScanGet | src/Views/Stats/StatsJsonView.php:129-146 | scanning rows assigns, per category, the rows' counts under their names in row order |
| Aggregation.ScanConcat | src/Views/Stats/StatsJsonView.php:125-147 | scanning two runs of rows equals scanning them joined: the category arrays carry over between groups |
| Aggregation.FullDataScan | src/Views/Stats/StatsJsonView.php:125-147 | scanning group after group equals one scan of all rows |
| Aggregation.FullDataGet | src/Views/Stats/StatsJsonView.php:125-155 | each of the five categories, in order, holds the assignments of every row of every group |
| Aggregation.FullDataNested | src/Views/Stats/StatsJsonView.php:149-155 | every level of the full data lists each key once |
| Aggregation.FullCategory | src/Views/Stats/StatsJsonView.php:141 | names of a category appear in order of first occurrence, and a name holds the count of the last row with that name |
| Aggregation.CategorySumsStep | src/Views/Stats/StatsJsonView.php:143 | one more row adds its count once per category that counts it |
| Aggregation.GroupTotalSplits | src/Views/Stats/StatsJsonView.php:127-146 | a group's total is the sum, over the five categories, of the counts of the rows counted in each |
| Aggregation.CategorySumsEmpty | src/Views/Stats/StatsJsonView.php:127 | an empty group leaves the total at 0 |
| Aggregation.FullPairsNonNegative | src/Views/Stats/StatsJsonView.php:141 | non-negative row counts give non-negative assignments |
| Aggregation.KeptSumsBound | src/Views/Stats/StatsJsonView.php:141-143 | with non-negative counts, what the categories keep sums to at most what the total adds |
| Aggregation.KeptNonNegative | src/Views/Stats/StatsJsonView.php:141 | with non-negative counts, what one category keeps sums to at least 0 |
| Aggregation.KeptSumsPart | src/Views/Stats/StatsJsonView.php:141 | with non-negative counts, what one category keeps is at most what all five keep |
| Aggregation.FullStoredBound | src/Views/Stats/StatsJsonView.php:125-147 | with one group and non-negative counts, the counts kept sum to at most `totalItems` |
| Aggregation.FullResetExample | src/Views/Stats/StatsJsonView.php:125-129 | a row then an empty group: `totalItems` is 0 while the row's count is still stored |
| Aggregation.DbTypeOnly | src/Views/Stats/StatsJsonView.php:131-143 | a row with `db_type` alone is counted once, under its name |
| Aggregation.CombinedDataShape | src/Views/Stats/StatsJsonView.php:349-357 | the combined data is empty without rows, otherwise the cross table alone, under the source |
| Aggregation.PhpPairsAbsent | src/Views/Stats/StatsJsonView.php:355 | a CMS version no row has receives no assignment |
| Aggregation.CrossTableShape | src/Views/Stats/StatsJsonView.php:355 | one table row per CMS version, in order of first occurrence |
| Aggregation.CrossTableGet | src/Views/Stats/StatsJsonView.php:355 | each CMS version holds the assignments of its PHP versions in row order; other versions have no row |
| Aggregation.CrossTableCell | src/Views/Stats/StatsJsonView.php:355 | a CMS/PHP pair holds the count of the last row with that pair |
| Aggregation.TableSumPut | src/Views/Stats/StatsJsonView.php:355 | replacing one CMS row of the table changes its sum by the row's sum |
| Aggregation.PutInBound | src/Views/Stats/StatsJsonView.php:355 | one more cell assigned grows the table's sum by at most the count |
| Aggregation.CrossTableBound | src/Views/Stats/StatsJsonView.php:353-357 | with non-negative counts the cross table sums to at most the sum of all counts |
| Response.AppendGroupPrefix | src/Views/Stats/StatsJsonView.php:191-199 | one more pair appends a row exactly when its name is truthy |
| Response.SurvivorsNone | src/Views/Stats/StatsJsonView.php:191-199 | a category yields no row exactly when each of its names is false |
| Response.AppendGroupFresh | src/Views/Stats/StatsJsonView.php:195 | a category is created only when one of its rows survives, holding exactly the survivors |
| Response.AppendGroupFreshKeys | src/Views/Stats/StatsJsonView.php:189-200 | the flattening appends the category's key at the end, or nothing when no row survives |
| Response.BuildRowsFresh | src/Views/Stats/StatsJsonView.php:189-201 | a category not yet visited is not in the response |
| Response.BuildRowsStep | src/Views/Stats/StatsJsonView.php:189-201 | visiting one more category adds its surviving rows, or nothing |
| Response.BuildRowsKeys | src/Views/Stats/StatsJsonView.php:189-201 | the response lists exactly the categories with a surviving row, in the input's order |
| Response.BuildRowsNonEmpty | src/Views/Stats/StatsJsonView.php:189-201 | every category in the response has at least one row |
| Response.BuildRowsRead | src/Views/Stats/StatsJsonView.php:189-201 | no key outside the input appears in the response |
| Response.BuildRowsGet | src/Views/Stats/StatsJsonView.php:189-201 | each category visited holds its surviving rows, or is absent |
| Response.SurvivingKeysNonEmpty | src/Views/Stats/StatsJsonView.php:189-201 | some category survives exactly when one of them has a surviving row |
| Response.CategoryRowsNonEmpty | src/Views/Stats/StatsJsonView.php:191-199 | a category has a surviving row exactly when one of its names is truthy |
| Response.FlattenedGet | src/Views/Stats/StatsJsonView.php:187-201 | the flattening holds exactly the categories with a surviving row, in order, each with its rows |
| Response.SanitizeUpToNext | src/Views/Stats/StatsJsonView.php:258-336 | one more category either fails the whole sanitizing or has its rows replaced by its shares |
| Response.SanitizeGroupFails | src/Views/Stats/StatsJsonView.php:266-333 | one category fails exactly when it has a row and the total is 0 |
| Response.SharesOfCounts | src/Views/Stats/StatsJsonView.php:282-289 | one share per counter, in the counters' order, each its count's share of the total |
| Response.SanitizeGroupBuckets | src/Views/Stats/StatsJsonView.php:266-318 | a regrouping case yields one share per bucket in first-occurrence order, each the share of the summed counts of its rows |
| Response.SanitizeGroupByName | src/Views/Stats/StatsJsonView.php:322-333 | the default case yields one share per row, in order, under the row's name |
| Response.SanitizeUpToFails | src/Views/Stats/StatsJsonView.php:258-336 | sanitizing the first `n` categories fails exactly when the total is 0 and one of them has a row |
| Response.SanitizeUpToValid | src/Views/Stats/StatsJsonView.php:258-338 | sanitizing keeps every category where it was |
| Response.SanitizeUpToKeeps | src/Views/Stats/StatsJsonView.php:258-338 | categories already visited hold their shares, the rest their rows |
| Response.SanitizeUpToPersists | src/Views/Stats/StatsJsonView.php:258-336 | once sanitizing has failed it stays failed |
| Response.SanitizeStaysFailed | src/Views/Stats/StatsJsonView.php:258-336 | a failing category makes the whole of sanitizing fail |
| Response.SanitizeGet | src/Views/Stats/StatsJsonView.php:256-339 | sanitizing fails exactly when the total is 0 and some category has a row; otherwise every category, in place, holds its shares |
| Response.WithTotal | src/Views/Stats/StatsJsonView.php:159 | adding the total keeps success and the failure's error; a built response then holds the total, appended last, or in place when a category is already named `total` |
| Response.BuildResponseFails | src/Views/Stats/StatsJsonView.php:205-207 | without raw data, building fails exactly when the total is 0 and some row survives |
| Response.BuildResponseKeys | src/Views/Stats/StatsJsonView.php:185-211 | a built response lists the categories with a surviving row, in the input's order |
| Response.SurvivorsSum | src/Views/Stats/StatsJsonView.php:191-199 | with non-negative counts, the surviving rows are non-negative and sum to at most the category's counts |
| Response.BucketPairsSum | src/Views/Stats/StatsJsonView.php:266-279 | bucketing a category's rows keeps their counts: the bucketed pairs sum to the rows' sum |
| Response.PercentWithin | src/Views/Stats/StatsJsonView.php:286 | a count between 0 and a positive total has a share between 0 and 100 |
| Response.SharesWithin | src/Views/Stats/StatsJsonView.php:260-335 | with a positive total that bounds the sum of non-negative rows, sanitizing one category succeeds and every share lies in [0, 100], under each rule |
| Response.BuildResponseCategories | src/Views/Stats/StatsJsonView.php:185-211 | a built response holds exactly the categories with a surviving row, in order: their rows when raw data is authorized, their shares otherwise |
| Bucketing.VersionBucketOf | src/Views/Stats/StatsJsonView.php:270-271 | a version with a dot is bucketed on its first two pieces (`7.4.3` and `7.4` in `7.4`) |
| Bucketing.VersionBucketNoDot | src/Views/Stats/StatsJsonView.php:270-271 | a version without a dot is in branch `.0` (`7` in `7.0`) |
| Bucketing.VersionBucketIdempotent | src/Views/Stats/StatsJsonView.php:270-271 | a branch label is its own branch |
| Bucketing.OsBucketOf | src/Views/Stats/StatsJsonView.php:299-300 | an OS name is bucketed on the text before its first space (`Linux 5.10` in `Linux`) |
| Bucketing.OsBucketSplit | src/Views/Stats/StatsJsonView.php:299-300 | every name is its OS bucket followed by nothing or a space, and a bucket is its own bucket |
| PhpStrings.TrimEmpty | src/Views/Stats/StatsJsonView.php:231 | `trim` yields `""` exactly on strings of stripped characters |
| PhpStrings.ExplodeSpec | src/Views/Stats/StatsJsonView.php:270 | the pieces of `explode` have no separator and join back to the string |
| PhpStrings.ExplodeImplode | src/Views/Stats/StatsJsonView.php:270 | exploding joined separator-free pieces gives the pieces back |
| PhpStrings.ExplodeFirst | src/Views/Stats/StatsJsonView.php:299 | the first piece is the longest separator-free prefix |
| PhpArrays.AssignAllKeys | src/Views/Stats/StatsJsonView.php:141 | repeated assignment lists each key once, in order of first occurrence |
| PhpArrays.AssignAllLastWins | src/Views/Stats/StatsJsonView.php:236 | a key holds the value of its last assignment |
| PhpArrays.AssignAllSumBound | src/Views/Stats/StatsJsonView.php:236-237 | with non-negative values, what assignment keeps sums to at most what was assigned |
| PhpArrays.AccumulateTotals | src/Views/Stats/StatsJsonView.php:273-279 | `+=` counters list each bucket once in first-occurrence order and hold the sum of its counts |
| PhpArrays.AccumulateSum | src/Views/Stats/StatsJsonView.php:273-279 | `+=` counters lose nothing: they sum to everything added |
| PhpArrays.CountEntriesSum | src/Views/Stats/StatsJsonView.php:191-194 | the pairs read from an array sum to its values, and are non-negative when its values are |
| PhpArrays.SumForBound | src/Views/Stats/StatsJsonView.php:273-279 | with non-negative values, what `+=` adds for one key is between 0 and everything added |
| PhpArrays.AssignAllWithin | src/Views/Stats/StatsJsonView.php:286 | assigning values within a range keeps every value of the array within it |
| PhpArrays.FirstOccurrencesSpec | src/Views/Stats/StatsJsonView.php:284 | first occurrences are distinct, the same set, and ordered by first position |

## Left out

- The `StatsModel` fetches (`getItems`, `getRecentlyUpdatedItems`) are database reads. They are inputs: `Render` receives both datasets. It requires the chosen one to have the shape of its path: rows for a truthy source, groups of rows otherwise.
- The model field and its release (`$this->model = null`), `unset($data)`, `addData` and `parent::render()` from the JSON view library, and the JSON encoding are not modelled. A method returns the `data` payload it would hand to `addData`.
- `round(..., 2)` is not modelled: a share is the exact rational `count / total * 100`.
- A division by a zero total is modelled as PHP 8's `DivisionByZeroError`, ending the response with `Failure(DivisionByZero)`. PHP 7's warning with an infinite result is not modelled.
- PHP turns numeric string keys into integers. The model keeps every key as a string, with the placeholder of the single-source data under `"0"`. `ProcessSingleSource` therefore requires a source other than `"0"`; `render` never calls it with one, since `"0"` is false.
- Of the local variables `${$this->source}` can name, only `$items` and `$this` change the outcome: `$data`, `$item` and `$responseData` are assigned again before they are read. The "Cannot re-assign $this" error is PHP 7.1's and later; it ends the response with `Failure(ReassignThis)`.
- The `switch ($key)` in sanitizing compares loosely, and PHP stores a numeric source such as `"123"` as an integer key. The model keeps the key as a string and compares it strictly. This changes nothing: every case label is a non-numeric string, so no key that reaches sanitizing matches a label loosely that it would not match strictly.
- The five local arrays of the whole-dataset loop are one keyed array of categories from the start. It has the same keys, in the same order, as the `$data` the view assembles from them.
- Row counts are unbounded integers; PHP's integer overflow to float is not modelled. A missing or NULL column is a key absent from the row. The single-source path reads it as `""`.
- A source named `total` would have its category overwritten by the total. The model does the same; `Reports.SingleReportPayload` states the source's entry only for other sources, and for `total` only that the key list is `["total"]`.
- Aggregation.SingleCounts, Aggregation.FullCategory, Aggregation.CrossTableCell and PhpArrays.AssignAllLastWins state the stored count only for the last row carrying a name. Earlier rows with that name are overwritten, and AssignAllKeys states where each name sits.
- Response.SanitizeGroupByName requires distinct names. The rows it is applied to come from one array's keys, so they are distinct.
- Response.SanitizeGroupBuckets, Response.SanitizeGroupByName: a share is in [0, 100] only for non-negative counts whose sum is at most a positive total. That holds for the single-source report and for one group of the whole dataset (Reports.SingleSharesWithin, Reports.FullSharesWithin). Across groups the reset of `totalItems` breaks it: Reports.FullShareOverflow gives a share of 1000%, and Reports.FullResetFails a failure.
