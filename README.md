# Job-market demand analysis, modelled in Dafny

`SgJobDataAnalysis.py` loads a table of Singapore job postings and charts
where the demand is. Most of the script loads, prints and plots data. Its
logic is one pipeline, which this project models and proves properties of:

1. **Required columns** (lines 42-45). The script lists the required
   columns that are absent. Only when none is absent does it compute the
   demand per position level and per title (lines 48, 51). The title chart
   keeps the 20 largest titles (line 65).
2. **Category extraction** (lines 75-95). `extract_category` turns each
   posting's `categories` cell into a list of display names. A string cell
   goes through `ast.literal_eval` first. A parse failure gives `None`, and
   so does any cell that is not a list. Each list item becomes
   `category_map.get(item['id'], item['category'])`, where `category_map`
   is the dict of lines 75-81. `apply` fills the new column
   `flattened_categories` of the frame `df`.
3. **Explode** (line 98). A posting with k names becomes k rows. A `None`
   cell or an empty list gives one row with a missing category.
4. **Group-by-sum** (line 101). Rows are grouped on (category, level,
   title) and `metadata_totalNumberJobApplication` is summed. Rows with a
   missing key component are dropped (`dropna=True`), and missing counts
   add 0.
5. **Top 10** (line 104). The groups are sorted by descending total and the
   first 10 are kept. The sort gives ties no fixed order.
6. **Heatmap pivot** (lines 124-130). Categories are crossed with levels.
   Each cell holds the summed applications, and absent combinations hold 0.
7. **Name lookup by left join** (lines 143-149, 162). The ids of a second
   table are looked up in a table of id/name rows.

## Layout

| file | module | what |
|---|---|---|
| `wrappers.dfy` | `Wrappers` | `Option` and `Result` |
| `frame.dfy` | `Frame` | cell values, the Python objects a `categories` cell can hold, the exceptions, one posting, the dict of lines 75-81 |
| `categories.dfy` | `Categories` | `extract_category` and the column `apply` computes |
| `jobframe.dfy` | `JobTable` | the frame `df`, a class that line 95 changes in place |
| `explosion.dfy` | `Explosion` | `explode` and the key of an exploded row |
| `groupby.dfy` | `GroupBy` | group-by-sum over any key, with its sum lemmas |
| `ranking.dfy` | `Ranking` | `sort_values(ascending=False).head(k)` |
| `pivot.dfy` | `Pivot` | the category-by-level `pivot_table` |
| `merge.dfy` | `Merge` | the left merge on `categories == id` |
| `demand.dfy` | `Demand` | the pipeline assembled, its end-to-end sums, and a worked example |

Python values are modelled as `Value = Missing | Int | Str`. `Missing`
stands for `None` and `NaN`, the values pandas drops from group keys.
`ast.literal_eval` is a parameter `parse: string -> Option<PyObject>`, where
`None` means that it raised. An exception that escapes `extract_category`
is the `Failure` of a `Result`, and aborts the whole `apply`. The first
record that raises decides which exception escapes.

## Model

| member | source | states |
|---|---|---|
| `Merge.ItemNameAgrees` | SgJobDataAnalysis.py:92 | An item with both keys resolves to the name the id table of lines 143-149 gives its id, and keeps its own `'category'` exactly when the table has no row for that id (an unmapped integer, a string, a missing id). |
| `Categories.ResolveAll` | SgJobDataAnalysis.py:91-92 | The list comprehension succeeds exactly when every item resolves; the names keep the items' length and order, with no deduplication and no dropping; on failure the exception is that of the first failing item. |
| `Categories.ExtractCategory` | SgJobDataAnalysis.py:84-93 | A string the parser rejects gives `None` and raises nothing; a string that parses to a non-list gives `None`; a cell that is neither a string nor a list gives `None`; a list gives the comprehension's names or its exception; only a list can raise. |
| `Categories.ExtractColumn` | SgJobDataAnalysis.py:95 | `apply` succeeds exactly when every record's cell does; the column has one entry per record, each that record's `extract_category` result; on failure the exception is the first failing record's. |
| `JobTable.JobFrame.constructor` | SgJobDataAnalysis.py:7 | A new frame holds the given postings and has no `flattened_categories` column. |
| `JobTable.JobFrame.AddFlattenedCategories` | SgJobDataAnalysis.py:95 | Calls `extract_category` record by record. On success the new column is exactly `ExtractColumn`'s; when a record raises, that exception is returned and the frame is unchanged. The postings are never changed. |
| `JobTable.JobFrame.Exploded` | SgJobDataAnalysis.py:98 | Exploding the frame gives at least one row per posting and every row's non-category fields come from a posting; posting i's rows are exactly `ExplodeOne`'s rows for it, placed right after the rows of the postings before it; the frame has exactly as many rows as these blocks together, and nothing more. |
| `Explosion.ExplodeOne` | SgJobDataAnalysis.py:98 | k ≥ 1 names give exactly k rows in list order; `None` or `[]` gives one row with a missing category; every row copies the posting unchanged (the list case is built by the helper `RowsFor`). |
| `Explosion.Explode` | SgJobDataAnalysis.py:98 | The exploded frame has the sum of the per-posting row counts, at least one row per posting, and only rows of the given postings; `ExplodeBlock` places each posting's rows. |
| `Explosion.ExplodeBlock` | SgJobDataAnalysis.py:98 | Posting i's rows form one block of the exploded frame, starting right after the rows of postings 0 to i-1, and that block is exactly `ExplodeOne`'s rows for it: explode keeps posting order and gives each posting its own rows, nothing more. |
| `Explosion.ExplodeBlocks` | SgJobDataAnalysis.py:98 | The same for every posting at once. |
| `GroupBy.Accumulate` | SgJobDataAnalysis.py:101 | Adding one row to the running groups adds its key to the key set and keeps the keys distinct. |
| `GroupBy.AccumulateAppends` | SgJobDataAnalysis.py:101 | A key not yet grouped opens a new group holding the row's count. |
| `GroupBy.AccumulateUpdates` | SgJobDataAnalysis.py:101 | A key already grouped adds the count to its group and changes no other group. |
| `GroupBy.AccumulateSum` | SgJobDataAnalysis.py:101 | Adding a row raises the total of any set of groups that contains its key by its count, and leaves other totals unchanged. |
| `GroupBy.GroupSum` | SgJobDataAnalysis.py:101 | The groups have distinct keys, and their keys are exactly the keys of the rows that have one (rows with a missing key component form no group). |
| `GroupBy.GroupSumSnoc` | SgJobDataAnalysis.py:101 | The unfolding of `GroupSum` for one more row: the row is added to the groups of the rows before it, or ignored when its key is missing. It serves the worked example. |
| `GroupBy.GroupSumPreservesSums` | SgJobDataAnalysis.py:101 | For any set of keys, the group totals in it add up to the counts of the rows whose key is in it. |
| `GroupBy.GroupSumRowTotal` | SgJobDataAnalysis.py:101 | Each group's total is the sum of the counts of exactly the rows with that key. In the pipeline the count is the helper `RecordApplications`, so a missing application count adds 0. |
| `GroupBy.GroupSumTotal` | SgJobDataAnalysis.py:101 | All group totals together equal the total count of the rows with no missing key component. |
| `GroupBy.SumAggAbsent` | SgJobDataAnalysis.py:101 | A key with no group has total 0. |
| `GroupBy.SumAggOne` | SgJobDataAnalysis.py:101 | With distinct keys, the total selected by one key is the total of its one group. |
| `GroupBy.SumAggSplit` | SgJobDataAnalysis.py:128 | Summing groups over two disjoint sets of keys adds up to summing over their union. |
| `GroupBy.SumRowsAppend` | SgJobDataAnalysis.py:101 | The count of a concatenation of row blocks is the sum of the blocks' counts. |
| `Ranking.Insert` | SgJobDataAnalysis.py:104 | Inserting a row into a sorted frame keeps it sorted by descending total and adds exactly that row. |
| `Ranking.SortDesc` | SgJobDataAnalysis.py:48 | `sort_values(ascending=False)` gives a permutation of the rows, ordered by non-increasing total. |
| `Ranking.TopK` | SgJobDataAnalysis.py:104 | The head has min(k, n) rows, ordered by non-increasing total, taken from the frame as a sub-multiset, and no row left out has a larger total than the smallest kept. |
| `Ranking.SortedPrefixIsTopK` | SgJobDataAnalysis.py:104 | The first k rows of any sorted permutation meet that description, however ties were ordered. |
| `Ranking.SortedIntsUnique` | SgJobDataAnalysis.py:104 | Two sorted permutations of the same totals are equal. |
| `Ranking.MeasuresPerm` | SgJobDataAnalysis.py:104 | Permuting rows permutes their totals. |
| `Ranking.IsTopKMeasures` | SgJobDataAnalysis.py:104 | Any admissible head shows the k largest totals of the frame, in order. |
| `Ranking.TopKMeasuresDetermined` | SgJobDataAnalysis.py:104 | Two admissible heads of the same frame show the same totals: ties change which rows appear, never the totals. |
| `Pivot.Distinct` | SgJobDataAnalysis.py:125-126 | The row or column labels hold every observed value once. |
| `Pivot.PivotDemand` | SgJobDataAnalysis.py:124-130 | Row labels are exactly the observed categories and column labels exactly the observed levels, each once; the table is dense; cell (r, c) is the sum of the totals of the groups with category r and level c (each row of cells is built by the helper `CellRow`). |
| `Pivot.CellAbsentIsZero` | SgJobDataAnalysis.py:129 | A category and level that never occur together have cell 0 (`fill_value=0`). |
| `Pivot.RowTotal` | SgJobDataAnalysis.py:124-130 | A heatmap row adds up to the totals of its category over the listed levels. |
| `Pivot.PivotPreservesTotal` | SgJobDataAnalysis.py:124-130 | All cells together add up to the total of all groups. |
| `Merge.Matches` | SgJobDataAnalysis.py:162 | The right rows matched by an id are exactly the rows carrying that id. |
| `Merge.MatchesCount` | SgJobDataAnalysis.py:162 | In any right table, duplicates included, each row carrying the id is matched exactly as often as it occurs, and no other row is matched. |
| `Merge.JoinOne` | SgJobDataAnalysis.py:162 | A left row gives one output row per match, or one row when nothing matches. |
| `Merge.JoinOneRows` | SgJobDataAnalysis.py:162 | Every output row of a left row carries that row; with no match its `id` and `category` are missing, otherwise output row i carries match i's `id` and `category`. |
| `Merge.LeftJoin` | SgJobDataAnalysis.py:162 | A left merge has at least as many rows as the left table. |
| `Merge.MatchesUnique` | SgJobDataAnalysis.py:162 | With unique ids, an id matches at most one row, and it matches none exactly when no row carries it and its name is missing. |
| `Merge.JoinOneUnique` | SgJobDataAnalysis.py:162 | With unique ids, a left row gives exactly one output row, carrying the looked-up name. |
| `Merge.LeftJoinLength` | SgJobDataAnalysis.py:162 | With unique ids, the merge keeps the number of rows. |
| `Merge.LeftJoinAt` | SgJobDataAnalysis.py:162 | With unique ids, output row i is left row i with its id's name, or a missing name when the id is absent. |
| `Merge.LeftJoinUnique` | SgJobDataAnalysis.py:162 | The same for all rows at once: row count and order are kept, and each row carries its looked-up name. |
| `Merge.CategoryTableAgrees` | SgJobDataAnalysis.py:143-149 | The id table of lines 143-149 has unique ids and names every value exactly as the dict of lines 75-81 does: an integer key of the dict gets its name, and any other value (another integer, a string, a missing id) gets none. |
| `Demand.MissingColumns` | SgJobDataAnalysis.py:42-43 | `missing` holds exactly the required columns absent from the frame, in the order they are listed, each as often as it is listed. |
| `Demand.LevelAndTitleDemand` | SgJobDataAnalysis.py:42-65 | It reports the missing columns exactly when some required column is absent. Otherwise the level demand is a sorted permutation of the groups by level, and the titles shown are an admissible top 20 of the groups by title. |
| `Demand.Summarize` | SgJobDataAnalysis.py:98-101 | The summary has one group per distinct (category, level, title) among the exploded rows with no missing component. |
| `Demand.DemandSummary` | SgJobDataAnalysis.py:95-101 | The summary exists exactly when flattening raises nothing; otherwise the first exception escapes. It is then the grouping of the exploded frame, its groups for any one category add up to that category's demand (each posting with a level and a title counts its applications once per listing of the category), and all its groups add up to the demand over every present name. |
| `Demand.TopDemand` | SgJobDataAnalysis.py:104 | `top_demand` is an admissible top 10 of the summary. |
| `Demand.RowsForSum` | SgJobDataAnalysis.py:98-101 | The rows of a posting with a list of names contribute its count once per present name that is selected, when its level and title are present. |
| `Demand.ExplodeOneSum` | SgJobDataAnalysis.py:98-101 | The same for one cell: `None` or `[]` contribute nothing, since the row's category is missing. A row enters a group only when its category, level and title are all present (the helper `DemandKeyOf`), and a missing application count adds 0. |
| `Demand.ExplodedDemand` | SgJobDataAnalysis.py:98-101 | Over all postings, the grouped rows count each posting's applications once per selected category name, when the posting's level and title are present. |
| `Demand.SummaryCategoryTotal` | SgJobDataAnalysis.py:95-101 | The summary's groups for one category add up to that demand of the postings. |
| `Demand.SummaryGrandTotal` | SgJobDataAnalysis.py:95-101 | All groups add up to each posting's count times its number of present names (postings with a missing level or title count 0). |
| `Demand.HeatmapCell` | SgJobDataAnalysis.py:124-130 | Each heatmap cell is the sum of the counts of the exploded rows with that category and level and a present title. |
| `Demand.HeatmapTotal` | SgJobDataAnalysis.py:124-130 | All heatmap cells add up to the grand total of the postings. |
| `Demand.ExampleFlattened` | SgJobDataAnalysis.py:75-95 | Names come from the dict, not the items: category 14 of an item named "Events" becomes "Events / Promotions". |
| `Demand.ExampleExploded` | SgJobDataAnalysis.py:98 | A posting with two names becomes two rows. |
| `Demand.ExampleGrouped` | SgJobDataAnalysis.py:101 | The two postings give Consulting 100 + 50 and Events / Promotions 50. |
| `Demand.ExampleSummary` | SgJobDataAnalysis.py:95-101 | The whole summary of the two example postings. |
| `Demand.ExampleTop` | SgJobDataAnalysis.py:104 | Its top group is Consulting. |
| `Demand.IdOnlyItemsRaise` | SgJobDataAnalysis.py:92 | An item with a mapped id but no `'category'` key makes the whole analysis raise `KeyError('category')`. |

## Left out

- Loading the CSV (line 7) and all printing (lines 10-37). These are I/O. The postings are a parameter.
- Date coercion with `pd.to_datetime` (lines 15-17). It is a library call the pipeline never reads.
- `average_salary` (line 20). It is floating-point arithmetic the pipeline never reads.
- All charts: the bar charts (lines 54-71, 107-121, 183-188), the heatmaps drawn (lines 132-138, 194-198) and the treemap (lines 172-180). The data handed to them is modelled, but some of these charts aggregate it further inside the plotting libraries, and that is not modelled: `sns.barplot` (lines 108-115, 185) takes no `estimator`, so each bar is the mean of the rows sharing its label and hue (the same title and level under two categories become one averaged bar); `px.treemap` (lines 172-180) sums the values along each path. The sort of the merged demonstration frame into `top_titles` (line 184) is not modelled either.
- The grammar of `ast.literal_eval` (line 88). The parser is a parameter. The model only assumes it returns an object or raises.
- The mock frame of lines 154-159, `drop` (line 163) and `rename` (lines 166-169). The merge itself is modelled over any left table whose keys are integers or missing (string keys: see `Merge.LeftJoin` below). The rest is demonstration data and column labels.
- The second pivot (lines 191-193). It is the same operation as lines 124-130 without `fill_value`.
- Which column is missing after line 42. The frame's columns are a parameter of the required-column check only. The category pipeline (lines 75-104) does not depend on the check at line 44, because it is not inside the `else`. A frame without `categories`, `positionLevels`, `title` or the application count would raise `KeyError` there, and the model assumes those columns exist.
- `Frame.RecordApplications`: application counts are unbounded integers. pandas sums them as 64-bit integers, which wrap around, or as 64-bit floats when the column has `NaN`, which round above 2^53. The model does not capture either; real counts stay far below both limits.
- Cell values that are floats, or non-scalar values inside an item dict. Ids are integers, strings or missing; a string id never hits the dict, so its item keeps its own `'category'`. A float id such as `7.0` would hit the dict in Python, and the model does not cover it.
- `GroupBy.GroupSum`: pandas sorts the group keys (`sort=True`). The model keeps first-appearance order. Every property stated here is about which groups exist and their totals, which do not depend on order.
- `Ranking.TopK`: the sort at line 104 is not stable and leaves ties in no fixed order. `TopK` is one admissible answer. The properties are stated for every admissible answer (`IsTopK`), and `TopKMeasuresDetermined` shows that all of them show the same totals.
- `Pivot.PivotDemand`: `pivot_table` sorts its row and column labels. The model keeps the order in which categories and levels first appear in the summary. The labels present, and the value of each (category, level) cell, do not depend on that order.
- `Merge.LeftJoin`: its own contract only bounds the row count from below, since a left row with several matches gives several rows. pandas matches missing keys with missing keys. The model compares ids as plain values, so a missing id matches a missing id in the same way. Row order and looked-up names are proved for tables with unique ids, which the table of lines 143-149 has (`CategoryTableAgrees`). The left key is any `Value`, and a string key gets a missing name. pandas instead raises `ValueError` when the left key column holds only strings (or strings and missing values) and the right `id` column holds integers, so line 162 would abort; the model does not capture that error. The left table of lines 154-159 has integer keys.

Where the code behaves differently from what its names suggest, the model follows the code:

- Items that the dict does not resolve keep their own `'category'`; they are not dropped.
- `item['category']` is read even when the id is in the dict. An item with only an id therefore raises (`IdOnlyItemsRaise`).
- Rows with a missing category, level or title are dropped by the grouping. This is also where postings without categories disappear.
- Ties in the top 10 and top 20 are not broken.
- `extract_category` uses the dict of lines 75-81. The name `category_map` is rebound to a frame only at line 143, after line 95.
