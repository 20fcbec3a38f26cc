# PPMI data dashboard: filter-and-aggregate model

A Dafny model of the data logic behind a single-page clinical dashboard (`dashboard.py`). The
dashboard loads a table of RNA-seq samples, one row per sample of a subject (`PATNO`), offers
nine sidebar dropdowns (Sex, Race, Age Bin, Disease Status, Genetic Status, Diagnosis, Case
Control, Month, Drug Category), narrows the table by the chosen values, and derives from the
narrowed view three headline numbers, the samples per diagnosis, the samples per month, the
subjects per drug category, and the per-bin input of a box plot of median exposure time.

Modules, one per component:

- `Wrappers`: `Option`, standing for a cell that may be missing (NaN in the data library).
- `Records`: the row (`Record`, every cell optional, numbers as exact `real`), the nine facets,
  the dropdown selection, and Python's ordering of text (`Less`, lexicographic on code points).
- `Vocabulary`: the dropdown option lists.
- `Filters`: the nine conditional equality filters; `ApplyFilters` is the step-by-step narrowing,
  a loop over the facets in source order, proved equal to the reference definition `Filtered`.
- `Metrics`: distinct and non-missing subject counts, the missing-medication count, value counts
  per diagnosis and per month, distinct subjects per drug category.
- `DrugBins`: the six right-closed Total_Drugs intervals, keep-last deduplication by subject,
  and the per-bin partition behind the box plot.

Missing values follow the data library where it matters: the distinct count, the non-missing
count, value counts and grouping skip missing cells; an equality filter never keeps a missing
cell; deduplication by subject treats all missing subject ids as one key, as the data library's
duplicate detection does.

## Model

| member | source | states |
|---|---|---|
| `Vocabulary.DropMissing` | dashboard.py:34-47 | the present values of a column: a text is among them exactly when the column holds it |
| `Vocabulary.SortedDistinctCorrect` | dashboard.py:34-47 | sorting the distinct values gives a strictly ascending list holding exactly the input's values |
| `Vocabulary.SortedOptionsCorrect` | dashboard.py:34-47 | a sorted dropdown lists "All", then each present value of its column once, in ascending order, and nothing else |
| `Vocabulary.UniqueCorrect` | dashboard.py:48 | the distinct values hold each input value once, nothing else, ordered by first appearance |
| `Vocabulary.DrugCategoryOptionsCorrect` | dashboard.py:48 | the drug-category dropdown lists "All", then every value of the column once (a missing one included), in order of first appearance |
| `Filters.WhereMembership` | dashboard.py:52 | one equality filter keeps a row exactly when its cell is present and equals the choice |
| `Filters.ApplyFilters` | dashboard.py:51-68 | the nine conditional steps, in source order, produce exactly the reference view `Filtered` |
| `Filters.StepKeep` | dashboard.py:51-68 | one more conditional step narrows the view for a set of facets to the view for that set plus one |
| `Filters.KeepMembership` | dashboard.py:51-68 | a row is in the view exactly when it is a row of the table passing every dropdown (at "All" or equal) |
| `Filters.KeepIsSubsequence` | dashboard.py:51-68 | the view is an order-preserving subsequence of the table |
| `Filters.NoFilterIsIdentity` | dashboard.py:51-68 | with every dropdown at "All" the view is the whole table |
| `Filters.ViewAgreesWithSelection` | dashboard.py:51-68 | every row of the view has a present cell equal to each active choice, so a missing cell under an active filter is never kept |
| `Filters.MissingChoiceKeepsNothing` | dashboard.py:48-68 | choosing the missing drug category the dropdown offers yields an empty view |
| `Filters.KeepKeep` | dashboard.py:51-68 | filtering a view again by more facets is filtering once by the union of both facet sets |
| `Filters.StepIsKeep` | dashboard.py:51-68 | a single conditional step is the view for that one facet |
| `Filters.ApplyInOrderIsKeep` | dashboard.py:51-68 | the steps applied in any order keep exactly the rows passing every facet of that order |
| `Filters.FiltersCommute` | dashboard.py:51-68 | the steps applied in any order that mentions all nine facets give the filtered view, the same one `ApplyFilters` computes in source order |
| `Filters.StepsCommute` | dashboard.py:51-68 | any two single steps commute |
| `Filters.FilterIdempotent` | dashboard.py:51-68 | re-applying the selection to the view changes nothing |
| `Metrics.PatnoSet` | dashboard.py:72 | the set of subject ids holds exactly the present ids of the rows |
| `Metrics.CountBounds` | dashboard.py:72-73 | distinct subject count <= non-missing subject count <= number of rows |
| `Metrics.PatnoSetMonotone` | dashboard.py:72 | a view whose rows are all rows of another has no subject the other lacks |
| `Metrics.RowsMissingMedicationMembership` | dashboard.py:74-77 | a row is selected exactly when it is a row of the view with all six medication columns missing |
| `Metrics.MissingMedicationSubjects` | dashboard.py:74-77 | a subject is counted exactly when one of its rows misses all six medication columns, and, the count being of a set, only once |
| `Metrics.MissingMedicationBound` | dashboard.py:72-77 | the missing-medication number is at most the distinct subject count |
| `Metrics.CountOf` | dashboard.py:95 | how many cells hold a value: at most the column length, positive exactly when the value occurs |
| `Metrics.ValueCounts` | dashboard.py:95 | the keys are exactly the present values, each mapped to its number of rows, which is at least one |
| `Metrics.ValueCountsTotal` | dashboard.py:95 | the value counts summed over their keys, in any order, equal the number of rows whose column is present |
| `Metrics.SortedValueCountsCorrect` | dashboard.py:105 | the month counts are keyed in strictly ascending order, list every present month, and agree with the value counts |
| `Metrics.DrugCategoryKeys` | dashboard.py:123 | a category has an entry exactly when some row of the view has it |
| `Metrics.DrugCategorySubjects` | dashboard.py:123 | a subject counts for a category exactly when one of its rows has that category |
| `Metrics.DrugCategoryBound` | dashboard.py:123 | no category counts more subjects than the distinct subject count |
| `Metrics.EmptyViewMetrics` | dashboard.py:72-123 | an empty view gives zero for the three numbers and no diagnosis, month or category entries |
| `DrugBins.BinFrom` | dashboard.py:160-163 | the bin found is the first interval at or after the start that holds the value, and none is found only when no such interval holds it |
| `DrugBins.DrugBinCorrect` | dashboard.py:160-163 | a value gets label i exactly when BinEdges[i] < value <= BinEdges[i+1] |
| `DrugBins.DrugBinNone` | dashboard.py:160-163 | no label exactly for a missing value, a value <= -1, or a value > 100 |
| `DrugBins.BinsDisjoint` | dashboard.py:160 | no value lies in two intervals |
| `DrugBins.DrugBinExamples` | dashboard.py:160-163 | 2 gets "0-2", 2.0001 and 3 get "3-5", 100 gets "51-100"; 101, -1 and a missing value get none |
| `DrugBins.WithDrugBins` | dashboard.py:163 | the table with the bin column: same rows, each with the label of its Total_Drugs |
| `DrugBins.LastIndex` | dashboard.py:173 | the position found holds the key and no later row does |
| `DrugBins.KeepLastKeys` | dashboard.py:173 | the deduplicated rows hold exactly the subject keys of the input |
| `DrugBins.KeepLastDistinct` | dashboard.py:173 | no two deduplicated rows share a subject key |
| `DrugBins.KeepLastChoosesLast` | dashboard.py:173 | each kept row is the last row of the input with its key |
| `DrugBins.KeepLastOrder` | dashboard.py:173 | the kept rows come in the order of their positions in the input: each kept row's source position (the last one with its key) is larger than that of every earlier kept row |
| `DrugBins.KeepLastIsSubsequence` | dashboard.py:173 | the kept rows keep their relative order |
| `DrugBins.KeepLastCount` | dashboard.py:173 | exactly as many rows remain as there are distinct subject keys |
| `DrugBins.GroupRowsMembership` | dashboard.py:182 | a row is in a bin group exactly when it is a kept row with that label |
| `DrugBins.GroupsDisjoint` | dashboard.py:181-182 | no row falls into two bin groups |
| `DrugBins.PartitionCount` | dashboard.py:181-182 | the six bin groups and the unbinned rows together account for every kept row exactly once |
| `DrugBins.EmptyViewGroups` | dashboard.py:173-182 | an empty view gives six empty bin groups |

## Left out

- Loading the CSV file and dropping its index column (dashboard.py:23-27): file I/O. The model
  starts from the loaded rows.
- Page setup, CSS, markdown, columns and the raw-data table (dashboard.py:9-18, 80-92, 114,
  192-194): presentation only.
- All drawing: bar, line and pie charts, the box-plot quartiles, the legend and the arrows
  (dashboard.py:96-101, 106-110, 125-155, 177-188). The model stops at the values the charts
  receive (`DiagnosisCounts`, `MonthCounts`, `DrugCategoryPatients`, `BoxPlotGroups`).
- The pie-label helper `func` (dashboard.py:130-132): floating-point percentage arithmetic.
- The random horizontal jitter of the scatter points (dashboard.py:183): nondeterministic.
- The column projection before deduplication (dashboard.py:166-170): it removes columns, not
  rows, and the deduplication and grouping only read the subject id, the bin and the time.
- The data library's NaN and dtype internals: missing cells are an explicit `Option`, and every
  number is an exact `real` rather than a float.
- Month is modelled as text ordered by code points, as Python orders strings; the file's actual
  column type is not visible, and a numeric month column would sort numerically instead.
- `Metrics.DiagnosisCounts`: the counts are an unordered map; the data library lists them by
  descending count, which only decides the order of the bars.
- `Metrics.DrugCategoryPatients`: the per-category subject counts are an unordered map; the data
  library's grouping sorts them by category, and that order only decides the order of the pie
  slices and of the legend.
- Adding the bin column (dashboard.py:163) updates the view in place; the model produces the
  extended table as a new value (`WithDrugBins`), which is equivalent because nothing else holds
  the view.
- The literal "All" is kept as the source has it: a data value "All" can never be filtered on,
  because choosing it switches that filter off.
