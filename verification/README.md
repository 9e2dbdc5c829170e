# xRADIAL re-indexing core, modelled in Dafny

xRADIAL reads the ASCII radial files of HF coastal radars. Each file has a
`%`-prefixed header of `Key: value` metadata and then a table of
observations. Each observation carries a longitude/latitude (`LOND`, `LATD`)
and a bearing/range (`BEAR`, `RNGE`) from the radar site. Before the data
becomes a gridded dataset, the table is re-indexed onto a dense Cartesian
grid, `[time] × axis1 × axis2`. That grid is either
- a lat/lon grid of integer slots, or
- a range/bearing grid whose axes are rebuilt as stepped runs around the
  values seen.

This project models that pipeline as pure functions and proves what it
promises:

- `text.dfy` (`Text`): Python's `strip`, `split(c)`, `split()` and
  `str(int)`, with their round trips.
- `metadata.dfy` (`Metadata`): the header scan of `get_metadata_from_file`,
  in its raw mode and its numeric mode. The numeric mode includes the
  `TableStart:` cut-off.
- `params.dfy` (`Params`): the metadata accessors:
  - `calc_max_range`;
  - the resolutions and their precision;
  - the range cells;
  - the time stamp, origin, angular resolution and antenna bearing.
- `axes.dfy` (`Axes`): the NumPy operations used, over exact reals:
  - `unique`, `diff`, `min`/`max` and `arange`;
  - slicing;
  - floor/ceil and float `%`.
- `frame.dfy` (`Frame`): the observation rows, the all-coordinates-missing
  rejection, and the distinct counts the grid selector compares.
- `grid.dfy` (`Grid`): `MultiIndex.from_product` and `DataFrame.reindex`.
- `latlon.dfy` (`LatLon`): `reindex_df_by_lat_lon`.
- `runs.dfy` (`Runs`): the three stepped runs both polar axes are built
  from.
- `rangebearing.dfy` (`RangeBearing`): `reindex_df_by_range_bearing`.
- `selector.dfy` (`Selector`): `reindex_dataframe`, which chooses the grid.
- `results.dfy` (`Results`): `Option`, `Result` and the error kinds that
  stand for Python exceptions.

Coordinates are `real`, so stepping, flooring and the modulo are exact.
Three things the code calls out to become parameters:
- the number parsers and printer (`Numerals`);
- the geodesic projection `_rb2ll` (`LatLon.Projection`);
- `pd.to_numeric`, modelled through those parsers.

A raised exception is an `Err` of the `Result` type.

## Model

| member | source | states |
|---|---|---|
| Text.Strip | xradial/utils.py:44 | the result is a contiguous piece of the input with only whitespace cut from each end, and it neither starts nor ends with whitespace |
| Text.StripIdempotent | xradial/utils.py:44 | stripping twice is stripping once |
| Text.StripSurrounded | xradial/utils.py:53 | text with no whitespace at its ends, padded with whitespace, strips back to itself |
| Text.Split | xradial/utils.py:53 | `split(c)` gives one more part than there are `c`s, no part contains `c`, and joining the parts with `c` gives the input back |
| Text.SplitJoin | xradial/utils.py:53 | splitting a join of `c`-free parts gives exactly those parts |
| Text.LastPart | xradial/utils.py:143 | `split('.')[-1]` is the text after the last `.` (all of it when there is no `.`) |
| Text.Words | xradial/utils.py:156 | `split()` yields non-empty whitespace-free tokens whose concatenation is the input without its whitespace |
| Text.WordsUnwords | xradial/utils.py:156 | `split()` undoes a blank-joined list of tokens |
| Metadata.ToNumeric | xradial/utils.py:54 | `to_numeric(errors='ignore')` gives a NumPy `int64` if the text parses as an integer, else a float if it parses as one, else the unchanged text, which is never dropped |
| Metadata.HeaderComments | xradial/utils.py:43-44 | only the leading run of `%` lines is read; each loses its first character and is stripped |
| Metadata.FirstIndex | xradial/utils.py:48 | `list.index` is the first position holding the entry |
| Metadata.ParseRaw | xradial/utils.py:61 | it succeeds exactly when every entry not starting with `%` has exactly one `:`; the keys are exactly those entries' stripped keys; each key holds the stripped value of the last such entry |
| Metadata.ParseNumeric | xradial/utils.py:45-59 | without `TableStart:` every kept entry is stored; with it, a later entry is stored only when the same text occurs up to the first `TableStart:`; it fails exactly when a stored entry has no `:`; keys and last values are characterised as in raw mode, with coercion |
| Metadata.NumericRepeatReapplied | xradial/utils.py:47-54 | in `ea`, `eb`, `TableStart:`, `ea` with one shared key, the repeated `ea` after `TableStart:` overrides `eb` |
| Metadata.NumericRepeatWritten | xradial/utils.py:47-54 | the same for entries written `k: a`, `k: b`: key `k` ends up holding `a` |
| Metadata.EntryOf | xradial/utils.py:53 | `key: value` reads back as that key and value; whitespace inside the value is kept |
| Params.FirstAbove | xradial/utils.py:87 | `argwhere(l > x).min()` is the first position above `x`, and fails when there is none |
| Params.SnapUp | xradial/utils.py:83-88 | the ladder 60/125/250/500 has a value above `x` iff `x < 500`, and the chosen one is the smallest such value |
| Params.MaxRange | xradial/utils.py:83-97 | with a frequency the result is `2000/freq` (non-numeric or zero fails); else with `RangeEnd` and km resolution it is the smallest ladder value above their product and fails from 500 up; else it is 500 |
| Params.MaxRangeOnLadder | xradial/utils.py:83-95 | without a frequency the maximum range is always a ladder value |
| Params.MaxRangeOfFrequency | xradial/utils.py:93 | 4.513 MHz gives about 443.164 km |
| Params.MaxRangeOfCells | xradial/utils.py:85-88 | 35 cells of 5.8249 km give 250 km |
| Params.RangeResStartEnd | xradial/utils.py:109-128 | it fails unless one resolution is a Python `int` or a float (a NumPy `int64` is neither); km becomes m/1000 exactly when km is falsy and m truthy; start, end and m pass through unchanged |
| Params.RangeKmTruthy | xradial/utils.py:125-126 | after the fallback the km resolution is truthy iff either given resolution was |
| Params.RangeFromMeters | xradial/utils.py:125-126 | a 5000.8249 m resolution gives 5.0008249 km, and m is unchanged |
| Params.FileIntegerResolutionRejected | xradial/utils.py:114-122 | a km resolution that header text coerces to an integer, with no metre resolution, raises "must be numeric"; the same number as a Python `int` passes |
| Params.DecimalsOf | xradial/utils.py:143 | the count is the length of the text after the last `.`, or of the whole text without one |
| Params.Precision | xradial/utils.py:142-145 | the decimals of km if km is truthy, else of m if m is truthy, else `None` |
| Params.PrecisionOfInt | xradial/utils.py:143 | an integer resolution of either kind counts its whole printed text |
| Params.PrecisionOfText | xradial/utils.py:143 | a resolution printed `5.8249` has precision 4 |
| Params.RangeCells | xradial/utils.py:173-182 | a truthy `RangeCells` is used unchanged; otherwise the fewest km cells covering the maximum range; a missing, textual or zero km fails |
| Params.RangeCellsComputed | xradial/utils.py:180 | 500 km at 5.8249 km needs 86 cells |
| Params.ParseInts | xradial/utils.py:156 | every token parses as an int, in order, or the whole parse fails |
| Params.CreateTime | xradial/utils.py:156 | `TimeStamp` is required and must be text of 3 to 7 integer tokens; the result is those integers |
| Params.CreateTimeOfTokens | xradial/utils.py:156 | a blank-joined time stamp reads back as exactly its integers |
| Params.ParseFloats | xradial/utils.py:194 | every token parses as a float, in order, or the whole parse fails |
| Params.Origin | xradial/utils.py:194 | no `Origin` gives `(None, None)`; otherwise it needs exactly two float tokens, latitude then longitude |
| Params.FloatPair | xradial/utils.py:194 | the unpacked float pair succeeds exactly for two tokens that both parse, giving them in order |
| Params.OriginOfPair | xradial/utils.py:194 | `lat<blanks>lon` reads back as the two numbers, however many blanks separate them |
| Params.FirstNumber | xradial/utils.py:205 | an absent key gives `None`; otherwise the first whitespace token read as a float; an empty value has no first token |
| Params.AngularResolution | xradial/utils.py:205 | `None` when `AngularResolution` is absent; otherwise succeeds exactly when the value is text whose first blank-separated token reads as a float, and gives that float; an empty value has no first token |
| Params.AntennaBearing | xradial/utils.py:216 | `None` when `AntennaBearing` is absent; otherwise succeeds exactly when the value is text whose first blank-separated token reads as a float, and gives that float; an empty value has no first token |
| Params.FirstNumberOfLabelled | xradial/utils.py:205 | `'5 Deg'` reads as the number whatever the unit |
| Axes.Floor | xradial/dataframe.py:125 | `floor` is the largest integer not above its argument |
| Axes.Ceil | xradial/utils.py:180 | `ceil` is the smallest integer not below its argument |
| Axes.CeilCovers | xradial/utils.py:180 | `ceil(x/w)` cells of width `w` are the fewest that cover `x` |
| Axes.PyModZero | xradial/dataframe.py:191 | float `%` is zero exactly when `x` is `k·a` for some whole `k` |
| Axes.Insert | xradial/dataframe.py:171 | inserting into a strictly increasing sequence keeps it strictly increasing and adds exactly the one value |
| Axes.Unique | xradial/dataframe.py:171 | `np.unique` is strictly increasing with exactly the input's values |
| Axes.IncreasingSameElements | xradial/dataframe.py:184 | two strictly increasing sequences with the same values are equal |
| Axes.UniqueOfIncreasing | xradial/dataframe.py:184 | `np.unique` leaves an increasing array unchanged |
| Axes.Min | xradial/dataframe.py:181 | the minimum is an element and bounds all elements from below |
| Axes.Max | xradial/dataframe.py:182 | the maximum is an element and bounds all elements from above |
| Axes.MinGap | xradial/dataframe.py:122-123 | the smallest neighbour gap exists iff there are two values; it is positive, a lower bound on all gaps, and attained |
| Axes.SpreadApart | xradial/dataframe.py:122-126 | neighbours at least `g` apart keep every pair at least `g` apart |
| Axes.Arange | xradial/dataframe.py:185-187 | `arange` holds `start + k·step` for each `k` that stays strictly before `stop`, and no more; a zero step fails |
| Axes.TakePrefix | xradial/dataframe.py:188 | `[:n]` is a prefix of length `min(n, len)`, or all but the last `-n` for negative `n` |
| Frame.Present | xradial/dataframe.py:118-126 | a column with a missing (NaN) value fails; otherwise it gives the values in order |
| Frame.CheckCoordinates | xradial/dataframe.py:27-28 | the table is rejected exactly when every `LATD` and every `LOND` is missing, and is otherwise returned unchanged |
| Frame.CheckCoordinatesAccepts | xradial/dataframe.py:27-28 | it is accepted iff some row has a latitude or a longitude, so an empty table is rejected |
| Frame.CountDistinct | xradial/dataframe.py:48 | the distinct count is between 1 and the length for a non-empty column |
| Grid.Product | xradial/dataframe.py:147 | `from_product` has `|xs|·|ys|` labels |
| Grid.ProductAt | xradial/dataframe.py:147 | position `i·|ys|+j` holds `(t, xs[i], ys[j])`, lexicographic order |
| Grid.ProductMembers | xradial/dataframe.py:147 | a label is in the product iff its time is `t` and its two slots are on the axes |
| Grid.ProductDistinct | xradial/dataframe.py:203 | duplicate-free axes give a duplicate-free product |
| Grid.Find | xradial/dataframe.py:147 | the lookup finds a row filed under the label iff one exists |
| Grid.Reindex | xradial/dataframe.py:147 | one cell per target label, in target order, holding a row filed under it iff there is one; repeated source labels fail |
| Grid.ReindexKeeps | xradial/dataframe.py:147 | a row whose label is in the target is kept in that cell; a row whose label is not is dropped |
| LatLon.SlotOfOrigin | xradial/dataframe.py:125-126 | the axis minimum gets slot 0 and nothing above it gets a negative slot |
| LatLon.SlotsApart | xradial/dataframe.py:125-126 | values at least a pitch apart get different slots, in order |
| LatLon.SlotOfGridPoint | xradial/dataframe.py:125-126 | the `k`-th grid point lands in slot `k` |
| LatLon.FitAxis | xradial/dataframe.py:118-123 | origin and pitch exist iff there are two distinct values; the origin is the minimum; the pitch is positive, a lower bound on distinct gaps, and attained |
| LatLon.ColumnFit | xradial/dataframe.py:118-123 | a fitted axis bounds every row's coordinate and separates distinct values by a pitch |
| LatLon.RangeMembers | xradial/dataframe.py:143-144 | `x` is in `arange(n)` iff `0 <= x < n` |
| LatLon.SlotCount | xradial/dataframe.py:140-141 | the slot count is the fewest slots that reach the projected edge |
| LatLon.LatLonLayout | xradial/dataframe.py:118-144 | succeeds exactly when every row has both coordinates, each column has at least two distinct values and all four projections succeed; each axis is `FitAxis` of its column (origin the minimum, pitch the smallest gap, attained) and each slot count is the fewest reaching the north or east edge |
| LatLon.PlaceOnGrid | xradial/dataframe.py:147 | `nLon·nLat` cells, each labelled by the first row's time and in-range slots, holding only a row with that label |
| LatLon.ReindexByLatLon | xradial/dataframe.py:118-147 | fails when the layout does; otherwise places the rows on the fitted layout |
| LatLon.LatLonSlotsNonnegative | xradial/dataframe.py:125-126 | every slot is non-negative, and slot 0 is used on both axes |
| LatLon.SlotsOrdered | xradial/dataframe.py:125-126 | distinct values on a fitted axis get distinct slots in the same order |
| LatLon.LatLonDuplicates | xradial/dataframe.py:132 | placing fails exactly when two rows share time, latitude and longitude |
| LatLon.LatLonCellAt | xradial/dataframe.py:147 | the cell of slots `(i, j)` is at position `i·nLat+j` |
| LatLon.LatLonKeepsRow | xradial/dataframe.py:147 | a row is kept, in its own cell, iff it has the first row's time and both slots are inside the grid |
| Runs.ThreeRuns | xradial/dataframe.py:184-187 | the concatenation fails exactly for a zero step |
| Runs.BelowAt | xradial/dataframe.py:185 | `arange(lo, 0, -step)[1:][::-1]` is the downward run after its first point, read backwards |
| Runs.ArangeMonotone | xradial/dataframe.py:185-187 | `arange` moves in the direction of its step |
| Runs.BelowBounds | xradial/dataframe.py:185 | the first run is increasing and lies strictly between 0 and the minimum |
| Runs.ArangeWithin | xradial/dataframe.py:186-187 | a positive-step `arange` is increasing and lies in `[start, stop)` |
| Runs.ArangeHolds | xradial/dataframe.py:186-187 | every lattice point before `stop` is in the `arange` |
| Runs.ThreeRunsIncreasing | xradial/dataframe.py:184-187 | with a positive step the runs are strictly increasing, above 0 or the minimum, and below the maximum or the bound |
| Runs.ThreeRunsAt | xradial/dataframe.py:184-187 | the lattice point `k` steps above the minimum sits at position `k` after the run below the minimum, the maximum included when it is below the bound |
| Runs.ArangeLength | xradial/dataframe.py:186 | `arange(lo, lo + k·step, step)` has exactly `k` points |
| Runs.ThreeRunsHolds | xradial/dataframe.py:184-187 | every lattice point from the minimum up to the maximum is in the runs; the maximum itself is included when it is below the bound |
| Runs.ThreeRunsOnLattice | xradial/dataframe.py:184-187 | every point of the runs is a whole number of steps from the minimum or from the maximum |
| Runs.BelowOnLattice | xradial/dataframe.py:185 | each point of the first run is a whole number of steps from the minimum |
| RangeBearing.BearingStep | xradial/dataframe.py:176-177 | a truthy angular resolution is used as given; otherwise the smallest gap between distinct bearings, which needs two of them, is positive, and is attained |
| RangeBearing.BearingAxis | xradial/dataframe.py:191-200 | fails exactly when some gap is not a multiple of the step; otherwise increasing, with the values of the three runs to 360.1; with a positive step and bearings below 360.1 it holds every bearing seen and stays below 360.1 |
| RangeBearing.BearingsCovered | xradial/dataframe.py:191-200 | on the lattice every distinct bearing is in the runs |
| RangeBearing.BearingsBelow | xradial/dataframe.py:196-200 | with bearings below 360.1 no run value reaches 360.1 |
| RangeBearing.LatticeIndex | xradial/dataframe.py:191 | gaps that are multiples of the step put each bearing a whole number of steps above the smallest |
| RangeBearing.SpacingVacuous | xradial/dataframe.py:180 | the range assertion holds iff the step is nonzero or there is at most one row, so it never checks the spacing |
| RangeBearing.RangeStep | xradial/dataframe.py:180 | the range step is the numeric km resolution; a missing precision or km is a type error, and the assertion fails only for a zero step with two rows |
| RangeBearing.RangeAxis | xradial/dataframe.py:181-188 | fails iff the step is zero or the cell count is not an integer (Python `int` or NumPy `int64`); otherwise increasing, at most `range_cells` long, drawn from the runs |
| RangeBearing.RangeAxisIsPrefix | xradial/dataframe.py:184-188 | with a positive step the axis is exactly the first `range_cells` run values, so it keeps the smallest ones |
| RangeBearing.RangeAxisWhole | xradial/dataframe.py:184-188 | with enough cells the axis is all of the runs |
| RangeBearing.RangeAxisOnLattice | xradial/dataframe.py:184-188 | every axis value is a whole number of steps from the smallest or the largest range seen |
| RangeBearing.RangeAxisCovers | xradial/dataframe.py:184-188 | a range `m` steps above the minimum, with the largest range below the maximum range, is on the axis whenever the cell count reaches past its position in the runs (the length of the run below the minimum, plus `m`) |
| RangeBearing.PolarAxes | xradial/dataframe.py:171-200 | on success every row has a bearing and range; precision and an integer cell count were given; the bearing step is the angular resolution when truthy and otherwise the smallest distinct-bearing gap (`BearingStep`), the range step the km resolution; both axes are increasing and built from the rows' spans; the range axis fits the cell count |
| RangeBearing.PolarAxesSucceeds | xradial/dataframe.py:171-200 | the grid is built exactly when every row has a bearing and a range, precision and a non-zero numeric km are given, the cell count is an integer, a bearing step exists and the distinct bearings lie on its lattice |
| RangeBearing.PolarBearingsCover | xradial/dataframe.py:191-200 | on a fitted grid every bearing seen is on the bearing axis when the step is positive and bearings are below 360.1 |
| RangeBearing.PlaceOnPolarGrid | xradial/dataframe.py:203 | `|bearings|·|ranges|` cells labelled by the first time and axis values, each holding only a row with that label |
| RangeBearing.ReindexByRangeBearing | xradial/dataframe.py:171-203 | fails when the axes do; otherwise places the rows on axes that fit them |
| RangeBearing.PolarDuplicates | xradial/dataframe.py:173 | placing fails exactly when two rows share time, bearing and range |
| RangeBearing.PolarCellAt | xradial/dataframe.py:203 | the cell of the `i`-th bearing and `j`-th range is at `i·|ranges|+j` |
| RangeBearing.PolarKeepsRow | xradial/dataframe.py:203 | a row is kept, in its own cell, iff it has the first row's time and its bearing and range are on the axes |
| Selector.ReadPolarParams | xradial/dataframe.py:59-62 | the angular resolution, the range setup, the precision and the cell count, read in that order; succeeds exactly when the angular resolution, the range setup and the cell count can all be read |
| Selector.ReindexFrame | xradial/dataframe.py:44-74 | an unusable maximum range fails; on success the lat/lon grid is used iff it has strictly fewer points, and each branch gives exactly what its re-indexer gives with the parameters read, and succeeds exactly when those parameters can be read and that re-indexer succeeds |
| Selector.TieGoesToRangeBearing | xradial/dataframe.py:48 | when the lat/lon grid has as many points as the range/bearing grid (equal products of distinct counts), the table goes on range/bearing |

## Left out

- `_rb2ll` (xradial/utils.py:16-30) is ellipsoidal geodesy in floating point. It is the parameter `LatLon.Projection`, so projected coordinates are not computed. Its `Option` result lets a caller model a projection that fails; what a missing origin projects to is left to the parameter.
- File reading is not modelled: `open`, `pd.read_csv` (`create_initial_dataframe`) and the text encoding. Header lines and table rows are inputs.
- The xarray dataset assembly in xradial/xradial.py is not part of this model.
- `int(s)`, `float(s)` and `str(x)` for floats are parameters (`Numerals`). The model keeps the kind of number `pd.to_numeric` yields: a NumPy `int64` for integer text and a float otherwise. The `''` that becomes NaN for `TableStart:` is read as whatever the parsers make of it.
- Rounding is not modelled: `.round(7)` on the lat/lon axes and `round(decimals=precision)` on the range axis and range gaps are the identity on exact reals. The precision is computed and required, but does not change a value.
- The `RNGE/SPRC` `np.isclose` assertion in `get_range_cells` (xradial/utils.py:175-178) depends on float tolerances, so it is left out. `Params.RangeCells` takes no table.
- Calendar validity in `create_time` is not checked. Only the 3-to-7 integer arity of `datetime` is.
- NaN is not a value. A missing coordinate used by a re-indexer is an error (`Frame.Present`), because NumPy's `min`/`diff`/`int` on NaN fail. The distinct counts of the selector count a missing value once.
- A zero transmit frequency is an error. NumPy would give `inf` and fail later.
- Which of several failing checks raises first is not modelled. Only success and failure are, plus the error kind where the contracts name it.
- Results.Error: the error kinds stand for the Python exception classes only loosely (`BadValue`, `WrongType`, `NoSuchIndex`, `DivisionByZero`, `AssertionFailed`, `DuplicateLabels`, `AllCoordinatesMissing`).
- RangeBearing.RangeAxis: states at most `range_cells` values, not exactly that many. The code cuts the runs to their first `range_cells` values before removing duplicates, so the axis can be shorter. The model follows the code's order: `[:range_cells]` first, then `np.unique`.
- RangeBearing.SpacingVacuous: the range assertion at xradial/dataframe.py:180 floor-divides the gaps before taking `% 1`, so it rejects only a zero resolution. It is modelled as written, not as a spacing check.
- Params.RangeResStartEnd: follows the code, which turns a metre resolution into km when km is falsy. The repository's unit test at test/unit_tests/test_unit.py:228-232 expects km to stay `None`.
