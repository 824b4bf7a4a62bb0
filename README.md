# Medical record cleaning and feature derivation, in Dafny

This project models the record-cleaning and feature pipeline of a small medical
data repository, together with the per-person feature aggregator that reads its
results back.

- **Cleaning.** A cleaner object holds one table of records (lifestyle,
  prescriptions, conditions, labs or tests). It changes that table in place:
  - it drops exact duplicate rows;
  - it adds a 0/1 `<column>_missing` indicator for every column with a null cell;
  - it coerces the domain's date column to dates, turning unparseable cells
    into an invalid-date marker;
  - for prescriptions, it first upper-cases `rx_norm`.
- **Feature engineering.** Each domain computes its features over the whole
  table. It writes each one as a constant column:
  - the alpha-blocker flag;
  - the most recent haemoglobin and A1c values;
  - the number of LDL results above 130;
  - the mean systolic and diastolic blood pressure.
- **Aggregation.** The aggregator takes the stored rx, labs and tests rows of
  one person. It builds a feature mapping from the maximum of each stored
  feature column.

Modules:

- `Cells`: cells, calendar dates, the `YYYY-MM-DD` parser, integer text and
  upper-casing.
- `Tables`: tables as a column list plus rows keyed by column name. It holds
  the table operations: de-duplication, missing flags, and date, text and
  number coercion.
- `Features`: the pure feature functions.
- `Cleaners`: the `DataCleaner` class. The five subclasses become a `Domain`
  tag of the object. Each cleaning step is a method proved against a
  specification function.
- `Api`: the aggregator. It is a method proved equal to a specification
  function, with lemmas about that function. Further lemmas read engineered
  tables back through the aggregator.

## Model

| member | source | states |
|---|---|---|
| `Cleaners.DataCleaner.constructor` | data_cleaner.py:22-29 | the loaded table becomes the object's data (the file read is a parameter) |
| `Cleaners.DataCleaner.RemoveDuplicates` | data_cleaner.py:31-35 | the data becomes the de-duplicated table; the reported count is old length minus new length |
| `Tables.DedupTableSpec` | data_cleaner.py:31-35 | no two rows equal; a row is kept iff it was in the input; never longer; first occurrences keep their relative order; de-duplicating again changes nothing |
| `Tables.Dedup` | data_cleaner.py:33 | the de-duplicated sequence has distinct elements, the same elements as the input, and is no longer |
| `Tables.DedupKeepsOrder` | data_cleaner.py:33 | two first occurrences appear in the result in their original order |
| `Tables.DedupIdempotent` | data_cleaner.py:33 | de-duplication is idempotent |
| `Cleaners.DataCleaner.HandleMissingValues` | data_cleaner.py:37-41 | the loop over the starting columns, with its invariant, leaves exactly the flagged table |
| `Tables.FlagMissingSpec` | data_cleaner.py:37-41 | with no pre-existing indicator names: original columns and row count unchanged; a column with a null gets `<c>_missing` = its 0/1 null indicator; a column without a null gets none; no other column appears |
| `Tables.FlagColumnsFirst` | data_cleaner.py:39-41 | the column-by-column pass over a column list is one column's step followed by the pass over the rest, and the rest stay present |
| `Tables.IndicatorCountsNulls` | data_cleaner.py:41 | the number of 1s in an indicator equals the number of null cells it flags |
| `Cleaners.DataCleaner.StandardizeDates` | data_cleaner.py:43-46 | never fails; the data becomes the date-coerced table; the reported invalid count is the null count afterwards, which equals the number of cells that did not parse |
| `Tables.CoerceDatesSpec` | data_cleaner.py:43-46 | every cell of the column becomes a date or the invalid marker; nulls afterwards = unparseable cells before, at least the nulls before; other columns unchanged |
| `Tables.CoerceDatesIdempotent` | data_cleaner.py:44 | coercing a date column twice is coercing it once |
| `Cells.FormatThenParse` | data_cleaner.py:44 | a representable date printed as `YYYY-MM-DD` parses back to itself |
| `Cells.ParseThenFormat` | data_cleaner.py:44 | a parsed date prints back to the exact text it came from |
| `Cells.ToDateIdempotent` | data_cleaner.py:44 | date coercion is idempotent and every null cell is unparseable |
| `Cleaners.DataCleaner.BaseClean` | data_cleaner.py:48-51 | the data becomes the de-duplicated, then flagged, table |
| `Cleaners.DataCleaner.Clean` | data_cleaner.py:99-131 | the data becomes the cleaned table of the object's domain |
| `Cleaners.CleanedSpec` | data_cleaner.py:99-103 | the cleaned table keeps the de-duplicated rows; its indicators are computed before coercion; the date column is the coerced column; `rx_norm` is the upper-cased text for prescriptions; all other original columns are unchanged |
| `Cleaners.MalformedDateNotFlagged` | data_cleaner.py:117-120 | a present but malformed date ends up invalid, with its `_missing` flag 0 |
| `Cleaners.MissingRxNormBecomesText` | data_cleaner.py:102 | a missing `rx_norm` is flagged 1 and then becomes the text `NAN` |
| `Cleaners.MissingUpperText` | data_cleaner.py:102 | a null cell turned to text and upper-cased is `NAN` |
| `Tables.UpperColumnSpec` | data_cleaner.py:102 | after the cast and upper-casing every cell is text without lower-case letters; other columns unchanged; a second pass changes nothing |
| `Tables.UpperText` | data_cleaner.py:102 | one cell cast to text and upper-cased: same length, each lower-case letter becomes its upper-case counterpart (code point minus 32), every other character kept |
| `Cleaners.DataCleaner.FeatureEngineer` | data_cleaner.py:105-136 | succeeds iff the domain's feature pass succeeds; then the data is the engineered table, otherwise unchanged |
| `Cleaners.EngineeredSpec` | data_cleaner.py:105-136 | only the tests pass can fail, exactly when the blood-pressure average raises; rows and columns are kept; all columns except the lab `value` and the feature columns are unchanged |
| `Cleaners.RxFeatureColumn` | data_cleaner.py:106 | every row's `taking_alpha_blockers` is the alpha-blocker flag of the whole table |
| `Cleaners.CoercedLabs` | data_cleaner.py:123 | lab `value` becomes numbers or NaN, cell by cell by numeric coercion; the other columns are unchanged |
| `Cells.ToNumber` | data_cleaner.py:123 | numeric coercion: a number is kept; text becomes a number iff it is an optionally negated decimal integer, otherwise NaN; any other cell becomes NaN |
| `Cells.NumberTextRoundTrip` | data_cleaner.py:123 | the text of an integer coerces back to that integer |
| `Cleaners.LabsFeatureColumns` | data_cleaner.py:122-126 | every row's three lab feature columns hold the features of the coerced lab table; `value` holds the coerced values |
| `Cleaners.LabFeaturesSurviveScalar` | data_cleaner.py:124-126 | writing a feature column does not change the lab features computed next |
| `Cleaners.ScalarSurvivesScalar` | data_cleaner.py:124-126 | a constant feature column keeps its value when another feature column is written |
| `Cleaners.LabsEngineeredFrame` | data_cleaner.py:122-126 | the lab pass keeps the rows and every column but `value` and its three feature columns |
| `Cleaners.TestsFeatureColumns` | data_cleaner.py:135-136 | every row's two blood-pressure columns hold the means of the whole table |
| `Features.AnyAlphaBlocker` | data_cleaner.py:64-65 | true iff some cell is text in the alpha-blocker list |
| `Features.IsTakingAlphaBlockers` | data_cleaner.py:63-65 | true iff some `rx_name` is exactly `FLOMAX`; false on an empty table |
| `Features.AlphaBlockerNameIsExact` | data_cleaner.py:65 | `Flomax` in `rx_name` is not matched, even with `rx_norm` = `FLOMAX` |
| `Features.LatestMatch` | data_cleaner.py:68-70 | finds a row of the feature iff one exists, and its date key is not before any other matching row's |
| `Features.MostRecent` | data_cleaner.py:67-71 | NaN without a matching row; otherwise the `value` of a matching row whose date is not before any matching row's, invalid dates ranking last |
| `Features.MostRecentHgb` | data_cleaner.py:67-71 | NaN without a haemoglobin row; otherwise the `value` of a haemoglobin row whose date is not before any other haemoglobin row's |
| `Features.MostRecentA1c` | data_cleaner.py:91-95 | NaN without an A1c row; otherwise the `value` of an A1c row whose date is not before any other A1c row's |
| `Features.MostRecentPrefersValidDates` | data_cleaner.py:91-95 | when some matching row has a valid date, the value returned is that of a matching row with a valid date |
| `Features.MostRecentHgbExample` | data_cleaner.py:67-71 | of two haemoglobin results, the one with the later date is chosen |
| `Features.LaterOfTwo` | data_cleaner.py:67-71 | of two rows with the same feature, the one whose date is strictly later gives the most recent value |
| `Features.CountHighLdl` | data_cleaner.py:88-89 | the count is the size of the set of rows that are LDL with a number above 130 |
| `Features.HighCholesterolEvents` | data_cleaner.py:87-89 | the same count over a table's `feature` and `value` columns |
| `Features.HighLdlLastRow` | data_cleaner.py:87-89 | the high-LDL rows of a column pair are those before the last row, plus the last row when it is one |
| `Features.HighCholesterolBounds` | data_cleaner.py:87-89 | never more than the LDL rows; 0 without LDL rows; 0 when no value is a number |
| `Features.HighCholesterolExample` | data_cleaner.py:89 | LDL values 120, 135, 140 count 2 |
| `Features.BpValues` | data_cleaner.py:79 | the `k`-th value is the `value` of the `k`-th blood-pressure row, and there are as many values as blood-pressure rows |
| `Features.BpRows` | data_cleaner.py:79 | the indices of exactly the blood-pressure rows, strictly increasing |
| `Features.JoinSplit` | data_cleaner.py:81 | joining the split pieces restores the text |
| `Features.Split` | data_cleaner.py:81 | at least one piece, and no piece contains the separator |
| `Features.SplitJoin` | data_cleaner.py:81 | splitting joined separator-free pieces restores the pieces |
| `Features.ParseReadings` | data_cleaner.py:81 | all readings convert iff every piece of every reading is an integer, with each reading's pieces in order |
| `Features.ReadingRoundTrip` | data_cleaner.py:81 | `<s>/<d>` reads back as the pair (s, d) |
| `Features.ReadingWithoutSlash` | data_cleaner.py:81 | a reading without `/` is a single systolic piece |
| `Features.ReadingsAverage` | data_cleaner.py:80-84 | raises iff some piece is not a number, or no reading has a second piece; otherwise both means are numbers |
| `Features.AverageBloodPressure` | data_cleaner.py:78-85 | a NaN pair without blood-pressure rows; otherwise, when it does not raise, two numbers |
| `Features.BloodPressureErrors` | data_cleaner.py:79-83 | with blood-pressure rows, it raises iff one of those rows' readings has a non-numeric piece or none of them has a second piece |
| `Features.BloodPressureTableAverage` | data_cleaner.py:79-85 | when the blood-pressure rows hold `<sys>/<dia>` readings in order, the result is the arithmetic means of the systolic and diastolic numbers |
| `Features.WellFormedReadingsAverage` | data_cleaner.py:78-85 | when every reading is `<s>/<d>`, the result is the arithmetic means of the systolic and of the diastolic values |
| `Features.MixedReadingsAverage` | data_cleaner.py:81-84 | readings `a` and `b/c` give systolic (a+b)/2 and diastolic c: a slashless reading counts toward systolic only |
| `Features.Latest` | data_cleaner.py:74 | the latest valid date, NaT iff none; it occurs in the column and is not before any valid date |
| `Features.UniqueEncountersBounds` | data_cleaner.py:73-76 | 0 without valid dates; otherwise at least 1, as the latest date is in its own window, and at most the number of distinct dates |
| `Cells.MonthsBefore` | data_cleaner.py:75 | stepping back k calendar months gives a valid date k months earlier, its day clamped to the month's end, strictly earlier when k > 0 |
| `Features.WindowClampExample` | data_cleaner.py:75 | six months before 2023-08-31 is 2023-02-28 |
| `Api.ColumnMax` | api.py:46 | NaN iff no numeric cell; otherwise a numeric cell's value not below any numeric cell |
| `Api.AsInt` | api.py:54 | `int` raises exactly on NaN and otherwise truncates toward zero |
| `Api.Truncate` | api.py:54 | truncation toward zero lands within one of its argument on the side of zero |
| `Api.RxFeatures` | api.py:43-46 | the rx key is present iff there are rx rows, holding `bool` of the column maximum |
| `Api.MaxAsBool` | api.py:46 | `bool` of a flag column's maximum is true iff some row is true or no row holds a flag |
| `Api.MaxAsFloat` | api.py:52-53 | `float` of a column's maximum is NaN iff no row holds a number; otherwise a number some row holds and none exceeds |
| `Api.LabsFeatures` | api.py:49-54 | fails iff there are lab rows with an all-NaN cholesterol column; otherwise the three keys are present iff there are lab rows, holding `float`, `float`, `int` of the maxima |
| `Api.TestsFeatures` | api.py:57-61 | the two keys are present iff there are test rows, holding `float` of the maxima |
| `Api.KeysDisjoint` | api.py:39-63 | the three domains' feature names are pairwise different |
| `Api.PersonFeatureKeys` | api.py:39-63 | fails iff the lab part fails; otherwise the keys are exactly those of the domains with rows, so no other key ever appears |
| `Api.PersonFeatureValues` | api.py:39-63 | every key holds the value its own domain computed; no domain overwrites another |
| `Api.NoRowsNoFeatures` | api.py:39-63 | with all three inputs empty the mapping is empty |
| `Api.GetPersonFeatures` | api.py:39-63 | the successive conditional insertions, with the early failure, produce exactly the specified mapping |
| `Api.ConstantColumnMax` | api.py:46 | the maximum of a constant column is that constant's number |
| `Api.SelectedColumn` | api.py:52-61 | any non-empty selection of rows from a table with a constant column reads back that constant as its maximum |
| `Api.AlphaBlockerReadBack` | api.py:43-46 | rows selected from an engineered rx table give `bool(max)` = the whole table's alpha-blocker flag |
| `Api.LabsReadBack` | api.py:49-54 | rows selected from an engineered lab table give the most-recent values and the cholesterol count of the coerced table, and `int` does not raise |
| `Api.LabsRowsReadBack` | api.py:52-54 | constant lab feature columns read back as their constants, so the feature keys are present |
| `Api.MostRecentNumeric` | data_cleaner.py:124-125 | after numeric coercion a most-recent value is a number or NaN |
| `Api.TestsReadBack` | api.py:57-61 | rows selected from an engineered tests table give the table's blood-pressure means |
| `Api.TestsRowsReadBack` | api.py:59-60 | constant blood-pressure columns read back as their constants, so both keys are present |

## Behaviour of the code worth noting

- The alpha-blocker check reads `rx_name`, not the upper-cased `rx_norm`. It is
  an exact, case-sensitive comparison with `FLOMAX` (data_cleaner.py:65).
- Every feature is computed over the whole loaded table, not per person, even
  though the functions read as per-person features.
  Each feature is written into every row (data_cleaner.py:106, 124-126,
  135-136). The aggregator's per-person maximum therefore returns the
  table-wide value for any selection of rows. The `*ReadBack` lemmas prove
  this.
- Blood pressure: the pieces of a reading are converted together, and
  conversion raises on a non-numeric piece. The model returns `Err` in that
  case; no row is skipped. A reading without `/` still adds its one piece to
  the systolic mean. When no reading has a second piece, taking the
  diastolic column raises; the model returns `Err` for this too
  (data_cleaner.py:81-83).
- Cells already missing before date coercion count as invalid dates in the
  reported invalid count (data_cleaner.py:45).

## Left out

- The CSV read in the constructor, the database loading, the shell-script
  runner, `main`, all logging, the Flask routes, JWT login and the SQL fetch
  are I/O. The loaded table and the three fetched row sequences are
  parameters. The removed and invalid counts are out-parameters rather than
  log lines.
- app.py is not part of this model.
- The date parser accepts only `YYYY-MM-DD` for days inside the nanosecond
  timestamp range. pandas' permissive parser, times of day and time zones
  are not modelled. A non-text, non-date cell becomes the invalid marker.
- Floating point is not modelled:
  - lab values and blood-pressure pieces are parsed as decimal integers only;
  - means are exact `real` quotients;
  - the text of a numeric cell is its floor followed by `.0` (`Cells.ToText`).
    This differs from Python for non-integers (-2.5 gives `-3.0`, not `-2.5`),
    and int and float column types are not told apart (an integer column with
    no nulls casts 5 to `5` in the code, `5.0` in the model).
- Upper-casing covers ASCII letters only.
- Missing columns, which raise `KeyError` in the code, are preconditions
  (the schema predicates), not error results.
- Column dtypes (such as a date column staying text when pandas infers
  another dtype) are not modelled. Cells carry their own kind.
- Features.DateKey orders dates as a coerced date column sorts: invalid or
  missing dates last. A `feature_date` column that still holds text, when
  features are engineered on a table that was not cleaned first, sorts as
  text in the code; the model does not capture that order.
- Sorting by date is not stable in the code. `Features.MostRecent` promises
  some row with a maximal date and does not fix the tie-break.
- Api.ColumnMax: a text cell is skipped by the maximum. pandas would raise
  when comparing text with numbers; the stored feature columns never mix
  them.
- Features.UniqueEncounters has no contract of its own. Its properties are
  in `Features.UniqueEncountersBounds`. Its unused `person_id` argument is
  dropped.
- The Lifestyle and Conditions `feature_engineer` stubs do nothing. Their
  domains leave the table unchanged.
- Cells.MonthsBefore works on unbounded integers. It does not model leaving
  the timestamp range when stepping back from a date near its lower end.
