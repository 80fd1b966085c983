# Traffic clustering pipeline: a Dafny model of its decision logic

The modelled program analyses a large table of traffic measurements. Each
row holds an average, minimum and maximum speed, a number of
vehicles, a timestamp and coordinates. The program groups the rows with
K-Means. This project models the parts of that program that decide what
happens to the data; the numerical library calls are left out.

- **Cleaning** (`clean_data`). Drop every row with a missing cell. Then drop
  repeated rows, keeping the first occurrence. Report how many rows the
  second step removed.
- **Feature extraction** (`extract_features`):
  - A column is a date column when its lower-cased name contains `date` or
    `time`.
  - Each date column that parses is replaced by its timestamps. It then
    (re)writes the `hour`, `day_of_week`, `month` and `is_weekend` columns.
  - A column that fails to parse is skipped.
- **Original copies** (`normalize_features`). Every numeric column except the
  four derived ones is copied to `<col>_original`. The function scales
  nothing.
- **Cluster-count trials** (`determine_optimal_clusters`):
  - Draw one sample of at most 200 000 distinct rows.
  - For k = 2 … max_k, fit on that sample and record the inertia and
    silhouette. Stop at the first fit that raises.
- **Driver rules** (main.py):
  - Which of six candidate columns feed the clustering, in candidate order.
  - The run stops when none is present, when scaling the selected features
    raises, or when the final clustering raises.
  - The chosen k is the first best silhouette's position + 2. It is 4 when no
    score was recorded or the stage raised.
  - The PCA and map samples are capped at 50 000 and 10 000 rows.
  - Each cluster's traffic label comes from its mean speed and mean vehicle
    count.

The modules follow that structure:

| module | what it holds |
|---|---|
| `Options` | absent values |
| `Sequences` | order-preserving selection, filtering, distinctness |
| `Text` | ASCII lower-casing and substring search |
| `Cleaning` | row cleaning |
| `Frame` | a table as an ordered list of column names plus a map from name to column |
| `Features` | timestamp-derived columns |
| `Originals` | the `_original` copies |
| `Sampling` | sample sizes and sampling without replacement |
| `ClusterCount` | the trial loop |
| `Pipeline` | the driver's rules |

Two views of the data are used:

- **Cleaning** works on rows: a row is a sequence of optional cells.
- **Feature derivation** works on columns: a `Table` maps names to typed
  columns. Only `Numbers` columns are numeric.

Some external pieces become parameters:

- Timestamp parsing is a function `Column -> Option<seq<Stamp>>`. `None`
  stands for the exception that skips a column.
- The random generator is a sequence of draws.
- A K-Means and silhouette trial is a function `(sample, k) -> Option<Fit>`.
  `None` stands for a trial that raised.

Four facts about the code that the model keeps:

- `is_weekend` is the integer flag 0/1 (src/data_preprocessing.py:45).
- `normalize_features` only copies columns; it scales nothing
  (src/data_preprocessing.py:60-65).
- The cluster sample comes from an unseeded generator
  (src/clustering_analysis.py:28).
- When several date columns parse, each one rewrites the derived columns, so
  the last one wins (src/data_preprocessing.py:38-45).

## Model

| member | source | states |
|---|---|---|
| Cleaning.DropMissing | src/data_preprocessing.py:19 | every kept row is complete and comes from the input; every complete input row is kept; the result is exactly the rows at the complete positions, in input order and with repeats |
| Cleaning.DropDuplicates | src/data_preprocessing.py:24 | the result has no repeated row; it has the same set of rows as the input; it is never longer |
| Cleaning.FirstPositions | src/data_preprocessing.py:24 | increasing positions; a position is listed iff its value does not occur earlier |
| Cleaning.DropDuplicatesKeepsFirst | src/data_preprocessing.py:24 | deduplication returns exactly the first occurrences, in input order |
| Cleaning.DropDuplicatesOfDistinct | src/data_preprocessing.py:23-25 | nothing is removed iff the input has no repeats, and then the output is the input |
| Cleaning.Clean | src/data_preprocessing.py:10-29 | every output row is complete and unique and comes from the input; every complete input row survives; the reported count plus the survivors equals the complete rows |
| Cleaning.SurvivorPositions | src/data_preprocessing.py:19-24 | increasing positions; a position is listed iff its row is complete and not preceded by an equal row |
| Cleaning.CleanSnoc | src/data_preprocessing.py:19-24 | one more input row is appended to the output iff it is complete and new |
| Cleaning.CleanSelectsSurvivors | src/data_preprocessing.py:19-24 | the output is exactly the rows at the survivor positions, in order |
| Cleaning.CleanKeepsFirstCompleteOccurrences | src/data_preprocessing.py:19-24 | the same, plus the output is an order-preserving subsequence of the input |
| Cleaning.NoDuplicatesReportedIffDistinct | src/data_preprocessing.py:23-25 | the reported count is 0 iff the complete rows are pairwise different |
| Cleaning.CleanIdempotent | src/data_preprocessing.py:10-29 | cleaning cleaned rows returns them unchanged and reports 0 |
| Text.Lower | src/data_preprocessing.py:36 | same length; each character is lower-cased on its own |
| Text.Contains | src/data_preprocessing.py:36 | true iff the pattern occurs at some position of the string |
| Text.MissingCharNotContained | src/data_preprocessing.py:36 | a string missing one character of the pattern does not contain it |
| Text.NotDateColumn | src/data_preprocessing.py:36 | a name lacking a letter of "date" and a letter of "time", in both cases, is not a date column |
| Text.DateColumnExamples | src/data_preprocessing.py:36 | the test ignores case and finds the marker anywhere: DATE_TIME, Timestamp and update_date qualify; AVERAGE_SPEED does not |
| Features.DerivedNamesAreNotDateColumns | src/data_preprocessing.py:36-45 | none of hour, day_of_week, month, is_weekend is itself a date column |
| Features.DateColumns | src/data_preprocessing.py:36 | exactly the names that pass the date test, as an order-preserving subsequence of the table's names |
| Features.FieldColumn | src/data_preprocessing.py:42-44 | one value per timestamp, that timestamp's field |
| Features.WeekendFlags | src/data_preprocessing.py:45 | one 0/1 flag per day value |
| Features.WeekendMeansSaturdayOrSunday | src/data_preprocessing.py:45 | the flag is 1 iff the weekday is 5 or 6, and 0 otherwise |
| Features.Derive | src/data_preprocessing.py:41-45 | the column becomes its timestamps and the four derived columns are written, the weekend flag from the day column just written; no name is lost |
| Features.ParseStep | src/data_preprocessing.py:39-48 | a failed parse leaves the table as it was; only derived names can be added |
| Features.DeriveAll | src/data_preprocessing.py:38-48 | the table stays well formed; no column is lost; only derived names are added |
| Features.ExtractFeatures | src/data_preprocessing.py:31-54 | the same for the whole function, with the date columns fixed before the loop |
| Features.DeriveAllLeavesOthers | src/data_preprocessing.py:38-48 | a column neither processed nor derived keeps its presence and contents |
| Features.DeriveAllLastWins | src/data_preprocessing.py:38-48 | no parse means no change; otherwise the derived columns come from the last column that parsed |
| Features.DeriveAllConvertsParsed | src/data_preprocessing.py:39-48 | a date column that parses holds its timestamps; one that fails is untouched |
| Features.ExtractFeaturesSpec | src/data_preprocessing.py:31-54 | the contents of every column: derived columns from the last parsed column, date columns converted or kept, every other column unchanged; the column order of the result is not stated |
| Features.DerivedFieldsInRange | src/data_preprocessing.py:42-44 | hour in 0..23, weekday in 0..6, month in 1..12 |
| Frame.Assign | src/data_preprocessing.py:65 | assigning a column replaces it in place, or appends the name when it is new; the table stays well formed |
| Originals.OriginalName | src/data_preprocessing.py:65 | the copy name is the column name followed by `_original` |
| Originals.OriginalNameInjective | src/data_preprocessing.py:65 | different columns get different copy names |
| Originals.NumericColumns | src/data_preprocessing.py:60 | exactly the numeric columns, without repeats, as an order-preserving subsequence of the table's names |
| Originals.CopyOriginals | src/data_preprocessing.py:63-65 | the table stays well formed and keeps every column |
| Originals.NormalizeFeatures | src/data_preprocessing.py:56-68 | the same for the whole function |
| Originals.CopyOriginalsKeepsColumns | src/data_preprocessing.py:63-65 | with no `_original` column present, existing columns are not overwritten |
| Originals.CopyOriginalsNames | src/data_preprocessing.py:63-65 | one copy name is appended per listed non-derived column, in order |
| Originals.CopyOriginalsCopies | src/data_preprocessing.py:63-65 | each copy holds its column's values from before the loop |
| Originals.CopyNumericColumns | src/data_preprocessing.py:60-65 | the copy loop over a repeat-free list of all numeric columns keeps existing columns, appends the copy names in list order, and copies each non-derived numeric column |
| Originals.NormalizeFeaturesSpec | src/data_preprocessing.py:56-68 | existing columns are untouched; each numeric non-derived column gains a copy of its values; the copies are appended in column order |
| Originals.NoCopyOfCopy | src/data_preprocessing.py:60-65 | the column list is fixed before the loop, so no name ends in `_original` twice |
| Originals.ExistingCopyIsOverwritten | src/data_preprocessing.py:60-65 | when `c` and `c_original` both exist, `c_original` is overwritten by `c` and copied on to `c_original_original` |
| Sampling.SampleSize | src/clustering_analysis.py:27 | `min(cap, n)`: at most both, and equal to one of them |
| Sampling.PcaSampleSize | main.py:165 | `min(50000, n)`: all rows when there are at most 50 000, otherwise exactly 50 000 |
| Sampling.MapSampleSize | main.py:182 | `min(10000, n)`: all rows when there are at most 10 000, otherwise exactly 10 000 |
| Sampling.RemoveAt | src/clustering_analysis.py:28 | removing a pool element keeps every other one and keeps the pool distinct |
| Sampling.Draw | src/clustering_analysis.py:28 | one pick per draw, all from the pool, with no repeats when the pool has none |
| Sampling.SampleIndices | src/clustering_analysis.py:27-28 | `min(200000, n)` distinct row positions below n |
| Sampling.DrawReachesEverySample | src/clustering_analysis.py:28 | some draws produce any given repeat-free choice from the pool |
| Sampling.EverySampleIsPossible | src/clustering_analysis.py:27-28 | any `min(200000, n)` distinct row positions form a possible sample |
| ClusterCount.TryClusterCounts | src/clustering_analysis.py:32-59 | the lists have equal length and hold the fits for k = 2, 3, … in order; no k above max_k is tried; they stop short only at a failing k |
| ClusterCount.RecordedTrialSucceeded | src/clustering_analysis.py:35-59 | every recorded k is at most max_k and fitted successfully |
| ClusterCount.TrialsAreDetermined | src/clustering_analysis.py:35-59 | the recorded lists are fully determined by the fits on the sample |
| ClusterCount.AllTrialsRecorded | src/clustering_analysis.py:35-59 | when every k fits, max_k - 1 trials are recorded |
| ClusterCount.FirstFailureRecordsNothing | src/clustering_analysis.py:35-59 | when k = 2 fails, nothing is recorded |
| ClusterCount.DetermineOptimalClusters | src/clustering_analysis.py:19-62 | one sample of `min(200000, n)` distinct rows, and the trial loop's outcome on that same sample |
| Pipeline.CandidatesDistinct | main.py:78-91 | the six candidate feature names are pairwise different |
| Pipeline.SelectFeatures | main.py:75-91 | a candidate is selected iff it is present; no repeats; candidate order |
| Pipeline.FirstArgMax | main.py:129 | a position of a largest score, with every earlier score strictly smaller |
| Pipeline.FirstArgMaxUnique | main.py:129 | only one position is a first largest score |
| Pipeline.ChooseK | main.py:128-138 | the default 4 without scores or when the stage raised; otherwise position + 2 of the first best score |
| Pipeline.ChosenKWasTried | main.py:122-131 | the chosen k was fitted, lies in 2..max_k, and no fitted k scored higher |
| Pipeline.ChosenKInRange | main.py:118-138 | with max_k = 6, the k used lies in 2..6 whether chosen, defaulted or after a raise |
| Pipeline.FailedSelectionFallsBack | main.py:128-131 | when the first trial fails, the default 4 is used |
| Pipeline.PlanRun | main.py:75-156 | the run stops iff no candidate is present; with candidates it stops iff scaling raises, else iff the final clustering raises; otherwise it clusters exactly the selected features (non-empty, distinct, present) with the chosen count |
| Pipeline.Classify | main.py:226-233 | each label is exactly one region of (speed, vehicles): congested, free-flowing, medium, mixed |
| Pipeline.ClusterPattern | main.py:222-233 | no label without a speed column; without a vehicle column, slow is mixed, fast is free-flowing, middle is medium; with both columns, the label is the threshold classification of the two means |

## Left out

- K-Means, the silhouette score, StandardScaler and PCA: floating-point
  numerics from a library. A trial is a parameter `fit(sample, k)`.
- `np.random.choice` (src/clustering_analysis.py:28): the random generator
  is a sequence of draws.
- `DataFrame.sample` (main.py:166, :183): only the sample size is modelled
  (Sampling.PcaSampleSize, Sampling.MapSampleSize), not which rows are
  drawn under `random_state=42`.
- `pd.to_datetime` and calendar arithmetic: parsing is a parameter, and a
  timestamp is reduced to hour, weekday and month.
- File and console I/O (`load_data`, `save_processed_data`, every `print`),
  the plotting and map modules (src/visualization.py) and the helpers in
  src/utils.py. They decide nothing about the data. The early return when
  loading or preprocessing raises (main.py:63-65) belongs to this I/O.
- StandardScaler and the final K-Means call: only whether they raise is
  modelled, as the parameters of Pipeline.PlanRun (main.py:108-110,
  main.py:154-156). Scaling raises, for example, on a table with no rows
  left after cleaning, or on a non-numeric feature column.
- The alternate path of src/clustering_analysis.py: `preprocess_data` and the
  script entry point. main.py does not use it.
- The PCA sample's lookup by row label at main.py:166-168. After cleaning,
  row labels are not positions. Modelling it would need pandas indexing.
- The per-cluster printout loop at main.py:200-220: formatting only.
- Cleaning and feature derivation use two separate views of the table (rows
  versus named columns). The model does not relate them.
- Text.Lower: lower-cases ASCII letters only, whereas Python's `str.lower`
  covers all of Unicode.
- Pipeline.ClusterPattern: takes the cluster means as given reals. The NaN
  mean of an empty cluster is not modelled.
- Originals.NormalizeFeaturesSpec: proved only for tables with no column
  whose name already ends in `_original`. Without that precondition the
  loop overwrites such columns; Originals.ExistingCopyIsOverwritten shows
  this.
- Originals.CopyOriginalsKeepsColumns: proved under the same precondition,
  for the same reason.
- Originals.CopyOriginalsNames: proved under the same precondition, for the
  same reason; Originals.ExistingCopyIsOverwritten shows the loop without it.
- Originals.CopyOriginalsCopies: proved under the same precondition, for the
  same reason; Originals.ExistingCopyIsOverwritten shows the loop without it.
- Originals.CopyNumericColumns: proved under the same precondition, for the
  same reason; Originals.ExistingCopyIsOverwritten shows the loop without it.
- Originals.NoCopyOfCopy: proved under the same precondition, for the same
  reason; Originals.ExistingCopyIsOverwritten shows that a table with a
  `c_original` column gains `c_original_original`.
- Features.Derive: states that the existing names stay in front, but not the
  order in which new derived columns are appended (`hour`, `day_of_week`,
  `month`, `is_weekend`, src/data_preprocessing.py:42-45). No decision in
  the program reads that order.
- Features.ParseStep: treats the whole try block of
  src/data_preprocessing.py:39-48 as one step that either completes or leaves
  the table unchanged. In the code the column is overwritten at line 41
  before the fields are read at lines 42-45. If the conversion yields a
  column without datetime fields, the field access raises, the column stays
  converted and no derived column is written. Parsing is a parameter here, so
  that third outcome is not modelled; the same holds for Features.DeriveAll,
  Features.ExtractFeatures and the lemmas about them.
