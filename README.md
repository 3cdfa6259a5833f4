# Data processor of `generalized_timeseries`, in Dafny

This project models the table-cleaning and stationarity stage of the
`generalized_timeseries` package (`generalized_timeseries/data_processor.py`):

- missing-value handling: `MissingDataHandler.drop_na` and `forward_fill`, the
  `MissingDataHandlerFactory` and `fill_data`;
- min-max scaling: `DataScaler.scale_data_minmax` and the `DataScalerFactory`;
- the stationarity stage: `StationaryReturnsProcessor.make_stationary`,
  `test_stationarity` and `log_adf_results`, and the
  `StationaryReturnsProcessorFactory`.

A pandas DataFrame is a `Table`: the row labels and a sequence of named
columns of equal length. Each column carries the numeric tag that
`select_dtypes(include=[np.number])` reads. Each cell is `Missing` (NaN/None),
`PosInf`, `NegInf` or a finite `Val(real)`. pandas' implicit NaN handling is
thereby explicit. Subtraction and division follow IEEE rules on these tags:
`inf - inf` and `0/0` are NaN, and NaN absorbs.

Where the source updates a frame in place, the model does too. A `Frame`
class holds the labels and columns:

- `scale_data_minmax` overwrites the numeric columns of the frame it is given
  and returns that same frame.
- `make_stationary` adds the `<col>_diff` columns to the caller's frame and then
  returns a new frame, `data.dropna()`.

`drop_na` and `forward_fill` build new frames; the factories choose a handler;
`fill_data` applies one, or hands back its input when disabled; and
`log_adf_results` classifies a report. These are functions on values.
`test_stationarity` builds its report in a loop and is a method.

Strategy keys are compared after `str.lower()`. The model lowers ASCII
capitals and the KELVIN SIGN (U+212A, which Python lowers to `k`). These are
the only characters whose lower-case form can be an ASCII letter, so matching
against the ASCII keys is exact. An unknown key is the `Err` of a `Result`,
carrying the key as given, as the ValueError's message does.

The Augmented Dickey-Fuller routine (`statsmodels.adfuller`) is a parameter
`adf: seq<real> -> AdfResult` of `TestStationarity`.

## Model

| member | source | states |
|---|---|---|
| DataModel.Lower | generalized_timeseries/data_processor.py:78 | `str.lower()` keeps the length, leaves no ASCII capital, and keeps every other ASCII character in place |
| DataModel.LowerIdempotent | generalized_timeseries/data_processor.py:78-81 | lowering a key twice is lowering it once, so an already lower-case key selects the same entry |
| DataModel.LowerIgnoresAsciiCase | generalized_timeseries/data_processor.py:78-81 | keys that differ only in ASCII letter case, in either direction at each position (`Drop` and `dROP`), lower to the same text |
| MissingData.DropNa | generalized_timeseries/data_processor.py:28-41 | `dropna()`: no row of the result has a missing cell; its rows are the input's complete rows in increasing order, with their labels and cells; column names and tags are unchanged |
| MissingData.CompleteRowsFromIncludes | generalized_timeseries/data_processor.py:41 | no complete row is missed by the row selection `dropna()` keeps |
| MissingData.DropNaKeepsCompleteRows | generalized_timeseries/data_processor.py:36-41 | every fully populated input row appears in the result with its label and its cells |
| MissingData.DropNaOfCompleteTable | generalized_timeseries/data_processor.py:41 | a table without missing cells passes `dropna()` unchanged |
| MissingData.DropNaRemovesFirstRow | generalized_timeseries/data_processor.py:41 | when only row 0 has a missing cell, `dropna()` removes exactly that row from the labels and from every column |
| MissingData.FillForwardFromAt | generalized_timeseries/data_processor.py:56 | a forward fill carrying a value: present cells stay, a missing cell takes the nearest earlier present cell, or the carried value if there is none |
| MissingData.FillForward | generalized_timeseries/data_processor.py:56 | `fillna(method="ffill")` on one column keeps its length; what each cell becomes is `FillForwardAt` |
| MissingData.FillForwardAt | generalized_timeseries/data_processor.py:43-56 | `fillna(method="ffill")` on a column: present cells unchanged, a missing cell becomes the nearest earlier present cell, leading missing cells stay missing |
| MissingData.FillForwardLeavesOnlyLeadingGaps | generalized_timeseries/data_processor.py:51-56 | after a forward fill, a cell is missing only if every cell up to it was missing |
| MissingData.ForwardFill | generalized_timeseries/data_processor.py:43-56 | `forward_fill` keeps the labels, the number of columns, their names and tags, and the row count |
| MissingData.ForwardFillCell | generalized_timeseries/data_processor.py:43-56 | per cell of a table: present cells kept, gaps filled from the nearest earlier present cell of the same column, and a result cell is missing exactly when the column is missing up to that row |
| MissingData.CreateHandler | generalized_timeseries/data_processor.py:63-83 | `drop` selects `drop_na` and `forward_fill` selects `forward_fill`, each exactly when the lowered key is that word; any other key is the ValueError naming the key |
| MissingData.CreateHandlerIgnoresCase | generalized_timeseries/data_processor.py:78-83 | keys that lower to the same text select the same handler, the one their lower-case form selects |
| MissingData.ApplyHandler | generalized_timeseries/data_processor.py:105 | `handler_missing(df)`: either handler keeps the column headers; `drop_na` leaves no incomplete row; `forward_fill` keeps every row label |
| MissingData.FillData | generalized_timeseries/data_processor.py:86-106 | disabled: the input comes back unchanged, gaps and all, whatever the strategy; enabled: success exactly for a known strategy, which is applied; otherwise the factory's ValueError |
| MissingData.FillDataDropLeavesNoGaps | generalized_timeseries/data_processor.py:97-106 | with the `drop` strategy (any letter case) `fill_data` succeeds and leaves no missing cell |
| Scaling.ScaleDataMinmax | generalized_timeseries/data_processor.py:148-171 | overwrites every numeric column of the given frame with its min-max scaled form, leaves the labels and the other columns alone, and returns the same frame |
| Scaling.ScaleCells | generalized_timeseries/data_processor.py:165-167 | `(col - col.min()) / (col.max() - col.min())` on one column, with IEEE outcomes for NaN, infinities and zero range; keeps the length; what each cell becomes is `MinMaxInUnitInterval`, `ZeroRangeGivesAllMissing` and `InfiniteRangeCollapses` |
| Scaling.MinMaxScaled | generalized_timeseries/data_processor.py:163-167 | only numeric columns change; names, tags and column lengths are kept |
| Scaling.MinMaxInUnitInterval | generalized_timeseries/data_processor.py:163-167 | for a column with max > min: missing cells stay missing and only they; every value lands in [0, 1]; the minimum maps to 0 and the maximum to 1; `min + y * (max - min)` recovers each value |
| Scaling.AffineToUnit | generalized_timeseries/data_processor.py:165-167 | `(x - min) / (max - min)` maps [min, max] onto [0, 1], with inverse `min + y * (max - min)` |
| Scaling.MinMaxMonotone | generalized_timeseries/data_processor.py:165-167 | scaling keeps the order of the values |
| Scaling.ZeroRangeGivesAllMissing | generalized_timeseries/data_processor.py:165-167 | a column whose present values are all equal comes out entirely missing (0/0); this and the `+inf` case are where the result has no spread, possibly what the TODO at line 203 refers to |
| Scaling.InfiniteRangeCollapses | generalized_timeseries/data_processor.py:165-167 | with `-inf` present every cell becomes NaN; with `+inf` present and no `-inf`, finite values become 0 and the rest NaN |
| Scaling.MinMaxTableInUnitInterval | generalized_timeseries/data_processor.py:159-171 | after scaling, the row count is unchanged and every value of a numeric column with max > min lies in [0, 1] |
| Scaling.CreateScaler | generalized_timeseries/data_processor.py:184-206 | `standardize` and `minmax` select their scalers exactly when the lowered key is that word; any other key is the ValueError naming the key |
| Scaling.CreateScalerIgnoresCase | generalized_timeseries/data_processor.py:199-206 | keys that lower to the same text select the same scaler |
| Stationarity.Sub | generalized_timeseries/data_processor.py:267 | the cell subtraction inside `diff()`: missing exactly when an operand is missing or it is `inf - inf` of one sign; finite exactly when both operands are, and then the difference of the values |
| Stationarity.Diff | generalized_timeseries/data_processor.py:267 | `Series.diff()` keeps the length; what each cell becomes is `DiffAt` |
| Stationarity.DiffAt | generalized_timeseries/data_processor.py:267 | `diff()`: the first cell is missing; cell t is `x[t] - x[t-1]` for finite operands and is missing when either operand is |
| Stationarity.IntegrateDifferences | generalized_timeseries/data_processor.py:267 | summing the first differences from the first value gives the series back |
| Stationarity.DiffOfFiniteColumn | generalized_timeseries/data_processor.py:267 | for a finite column, `diff()` after row 0 is finite and holds the first differences, from which the column is recovered |
| Stationarity.NumericNames | generalized_timeseries/data_processor.py:263 | `select_dtypes(include=[np.number]).columns`, taken once before the loop; never more names than columns; its members are `NumericNameSource` and `NumericNamesComplete` |
| Stationarity.NumericNameSource | generalized_timeseries/data_processor.py:263 | every name in `select_dtypes(include=[np.number]).columns` is the name of a numeric column |
| Stationarity.NumericNamesComplete | generalized_timeseries/data_processor.py:263 | every numeric column's name is in that list |
| Stationarity.DiffColumnSource | generalized_timeseries/data_processor.py:266-267 | every new column is `<c>_diff`, numeric, holding `diff()` of a numeric column `c` |
| Stationarity.SetColumn | generalized_timeseries/data_processor.py:267 | `data[name] = cells`: afterwards `name` is found and holds `cells` as a numeric column, in the same place if it existed and appended otherwise; the length grows by one exactly when the name was absent; every other column is unchanged |
| Stationarity.SetColumnValid | generalized_timeseries/data_processor.py:267 | assigning a column of the right length keeps the frame rectangular with distinct names, and keeps every existing name at its position |
| Stationarity.DiffStep | generalized_timeseries/data_processor.py:267 | one pass of the loop body for a column name: no column is lost or renamed |
| Stationarity.AddDiffs | generalized_timeseries/data_processor.py:266-267 | the whole loop, each pass reading the frame as the previous passes left it: no column is lost or renamed; `DifferencingShape` gives its result |
| Stationarity.AddDiffsValid | generalized_timeseries/data_processor.py:266-267 | the diff loop keeps the frame rectangular with distinct names |
| Stationarity.DifferencingShape | generalized_timeseries/data_processor.py:263-267 | when no column is already called `<c>_diff`, the loop leaves the input columns unchanged, followed by one `<c>_diff` column per numeric column in column order; the new columns are not differenced |
| Stationarity.MakeStationary | generalized_timeseries/data_processor.py:243-273 | disabled: the same frame back and untouched, whatever the method; an unknown method: the ValueError, frame untouched; `difference`: the caller's frame gains the diff columns (computed on the columns as they stand at each step), stays valid, and the result is a new frame equal to its `dropna()` |
| Stationarity.DifferencingDropsFirstRow | generalized_timeseries/data_processor.py:263-268 | for an input without missing cells, with finite numeric columns and at least one numeric column: exactly row 0 is dropped, and every column, the new ones included, keeps its cells from row 1 on |
| Stationarity.TestStationarity | generalized_timeseries/data_processor.py:275-310 | an unsupported test, and only that, is the ValueError naming it; otherwise the report's keys are exactly the numeric columns with no missing or infinite cell, each holding the ADF result of its values |
| Stationarity.LogAdfResults | generalized_timeseries/data_processor.py:326-332 | every report entry is classified exactly once: stationary exactly when its p-value is strictly below the threshold, non-stationary exactly when it is at or above it |
| Stationarity.ThresholdMonotone | generalized_timeseries/data_processor.py:329-332 | raising the threshold never turns a stationary verdict into a non-stationary one |
| Stationarity.CreateProcessor | generalized_timeseries/data_processor.py:352-380 | the three keys `transform_to_stationary_returns`, `test_stationarity` and `log_stationarity`, and only they, are accepted after lowering; any other key is the ValueError naming the key |
| Stationarity.CreateProcessorIgnoresCase | generalized_timeseries/data_processor.py:371-380 | keys that lower to the same text are accepted or refused together |

## Left out

- `DataScaler.scale_data_standardize` is not modelled. It needs the sample standard deviation (a square root) and is floating-point numerics. `CreateScaler` still returns its key.
- The module-level wrappers `scale_data`, `stationarize_data`, `test_stationarity` and `log_stationarity` are not modelled. They only read the nested `config` object and call the members above.
- The nested `config` object is not modelled. Its flags, strategy names and threshold are plain parameters.
- Logging, banners and the `tabulate` previews are not modelled. `log_adf_results` is a function from the report to a verdict per column. The wording, number formatting and order of its log lines are not modelled.
- The internals of `statsmodels.adfuller` are not modelled. It is a parameter. Any error it raises, for example on a series too short for the test, is not modelled.
- Floating-point rounding is not modelled: values are mathematical reals. The IEEE behaviour of NaN and the infinities is modelled on the cell tags.
- MissingData.FillData: it returns a table value. With handling disabled, the source hands back the caller's own frame object, so a later in-place `scale_data_minmax` changes the caller's frame too. That aliasing is not modelled.
- Payloads of non-numeric columns are not modelled. A present cell of such a column is a `Val`, and no operation looks inside it.
- Duplicate column names are not modelled. `MakeStationary` and `TestStationarity` require distinct names, because pandas selects several columns for one name.
- Stationarity.MakeStationary: the KeyError for a numeric name missing from the frame cannot arise, because the loop's names are taken from the frame. `AddDiffs` leaves the columns alone for an absent name.
- DataModel.Lower: `str.lower()` is modelled only as far as it can produce ASCII. Other characters are left as they are, which cannot change whether a key matches one of the ASCII keys.
- `src/run_pipeline.py` is not part of this model. It is configuration loading and stage wiring.
- `prototype/data_generator.py` and `tests/test_data_generator.py` are not part of this model. They are random data generation and its test.
