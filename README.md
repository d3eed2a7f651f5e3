# Dataset CSV transforms

This project models the transform steps of seven `csv_transform.py` scripts. Each script downloads a public data file, reshapes it in a data frame and uploads the result. Five scripts use pandas. The GHCN script and the bikeshare helpers use vaex, whose `rename(old, new)` renames one column at a time and whose `apply` is evaluated lazily. The model covers only the reshaping. Every script gets its own module, which states the script's constants (rename dicts, column lists, date-column lists) and its `main` step order. A `Process` method runs that step order on a `Frames.Frame` object changed in place, and its contract ties the result to the module's `Transform` function.

The shared layers are:

- `Basics`: `Option`, `Result` (with `:-`), the Python exceptions that reach the caller (`KeyError` with its labels, `ValueError` with the text, `AttributeError` and `TypeError`), and the loop `Outcome`.
- `Text`: `str.strip()` with Python's `isspace`, `str.find`, `split(" ")[0]`, a negative-step slice, and two- and four-digit numerals.
- `Dates`: `strptime` for `%m/%d/%Y` and `%m/%d/%Y %H:%M:%S %p` written as small parsers. They use the field patterns of Python's `_strptime`: one- or two-digit month, day and hour, a four-digit year and Gregorian month lengths. A format blank matches any run of whitespace, and `%p` is matched but does not move a `%H` hour. `strftime` for `%Y-%m-%d` and `%Y-%m-%d %H:%M:%S` is modelled too.
- `Tables`: a frame is a value with `headers` and rows of optional strings, every row as wide as the headers. The frame operations the scripts use are written as functions:
  - pandas `rename(columns=...)` and vaex's pair-by-pair `rename`;
  - `df[list]` (pandas and vaex);
  - `drop`;
  - `df[c] = df[c].apply(f)` (pandas and vaex) and `df[c] = values`;
  - the `for` loop over date columns;
  - `pd.merge(how="left", on=key)` and `df.empty`.
- `Frames`: class `Frame`, with fields `headers` and `rows`. Its methods change those fields the way the in-place pandas and vaex calls do, and each method's contract states the new state as the matching `Tables` function of the old state.

Where a script rebinds `df` to a projection (`df = df[...]`), the model takes the value `Project(df.Value(), ...)`.

## Model

| member | source | states |
|---|---|---|
| Text.Strip | datasets/ghcn_d/_images/run_csv_transform_kub/csv_transform.py:118 | `str.strip()` is the infix after the leading whitespace. It neither begins nor ends with whitespace, and only whitespace surrounds it. |
| Text.ReverseSliceReverse | datasets/ghcn_d/_images/run_csv_transform_kub/csv_transform.py:133 | `s[::-1][0:n][::-1]` is the last `n` characters of `s`. |
| Ghcn.CountryCode | datasets/ghcn_d/_images/run_csv_transform_kub/csv_transform.py:116-118 | The code is a prefix of the stripped value with no space in it, ending at a space or at the end. |
| Ghcn.CountryCodeIsFirstToken | datasets/ghcn_d/_images/run_csv_transform_kub/csv_transform.py:116-118 | Any prefix with those three properties is the code, so the code is exactly the first space-delimited token. |
| Ghcn.CountryName | datasets/ghcn_d/_images/run_csv_transform_kub/csv_transform.py:121-133 | The name has no outer whitespace, and the code and the name together are no longer than the stripped value. |
| Ghcn.CountryNameIsRest | datasets/ghcn_d/_images/run_csv_transform_kub/csv_transform.py:121-133 | The name is `strip(stripped[len(code):])`. |
| Ghcn.NoSpaceNoName | datasets/ghcn_d/_images/run_csv_transform_kub/csv_transform.py:123-133 | A stripped value without a space is all code, and the name is `""`. |
| Ghcn.CodeSpacesName | datasets/ghcn_d/_images/run_csv_transform_kub/csv_transform.py:125-133 | The stripped value is code + whitespace + name. The name has no outer whitespace, and `len(code) + len(name) <= len(stripped)`. |
| Ghcn.CodeCell | datasets/ghcn_d/_images/run_csv_transform_kub/csv_transform.py:116-118 | The apply succeeds exactly on present cells. A missing cell raises `AttributeError`, since `None` has no `strip`. |
| Ghcn.NameCell | datasets/ghcn_d/_images/run_csv_transform_kub/csv_transform.py:121-123 | The apply succeeds exactly on present cells. A missing cell raises `TypeError`, since the unbound `str.strip` refuses `None`. |
| Ghcn.ConvertDtFormat | datasets/ghcn_d/_images/run_csv_transform_kub/csv_transform.py:136-139 | Succeeds exactly when the date parses, and raises `ValueError` naming the date otherwise. On success the result is ten characters, a space, then the time unchanged. |
| Ghcn.ConvertUsDigits | datasets/ghcn_d/_images/run_csv_transform_kub/csv_transform.py:136-139 | On a zero-padded `MM/DD/YYYY` date the result is `YYYY-MM-DD` built from the same characters, a space, and the time. |
| Ghcn.ConvertRoundTrip | datasets/ghcn_d/_images/run_csv_transform_kub/csv_transform.py:136-139 | The US text of any calendar date converts to the ISO text of that date. |
| Ghcn.TransformFails | datasets/ghcn_d/_images/run_csv_transform_kub/csv_transform.py:75-78 | The two applies succeed exactly when the `code name` cell of every row is present. |
| Ghcn.TransformColumns | datasets/ghcn_d/_images/run_csv_transform_kub/csv_transform.py:75-91 | The output has exactly the columns `code`, `name` and one row per input row. Each row is the code and name of that row's field. |
| Ghcn.Transform | datasets/ghcn_d/_images/run_csv_transform_kub/csv_transform.py:75-91 | A transform that succeeds had the `code name` field and keeps one row per input row. |
| Ghcn.Process | datasets/ghcn_d/_images/run_csv_transform_kub/csv_transform.py:75-91 | `main`'s in-place assignments followed by the reorder compute `Transform`. |
| Dates.ParseDate | datasets/iowa_liquor_sales/_images/run_csv_transform_kub/csv_transform.py:127 | `strptime` with `%m/%d/%Y` succeeds only on a valid calendar date. |
| Dates.ParseDateTime | datasets/austin_bikeshare_trips/_images/run_csv_transform_kub/csv_transform.py:108 | `strptime` with `%m/%d/%Y %H:%M:%S %p` succeeds only on a valid date with a valid time of day. |
| Dates.IsoDate | datasets/iowa_liquor_sales/_images/run_csv_transform_kub/csv_transform.py:127-129 | `%Y-%m-%d` is ten characters with dashes at 4 and 7, whose digit fields read back the year, month and day. |
| Dates.IsoDateTime | datasets/austin_bikeshare_trips/_images/run_csv_transform_kub/csv_transform.py:108-110 | `%Y-%m-%d %H:%M:%S` is the ISO date, a space and colon-separated digit fields that read back the hour, minute and second. |
| Dates.DateEndsInDigit | datasets/iowa_liquor_sales/_images/run_csv_transform_kub/csv_transform.py:127 | A text that parses with `%m/%d/%Y` ends in a digit of the year. |
| Dates.ParseUsDate | datasets/iowa_liquor_sales/_images/run_csv_transform_kub/csv_transform.py:127 | Every calendar date is read back from its zero-padded `MM/DD/YYYY` text. |
| Dates.ParseUsDateTime | datasets/austin_bikeshare_trips/_images/run_csv_transform_kub/csv_transform.py:108 | Every date and time is read back from `MM/DD/YYYY HH:MM:SS` followed by either marker. |
| Dates.MeridiemIgnored | datasets/austin_bikeshare_trips/_images/run_csv_transform_kub/csv_transform.py:108 | `AM`, `am` and `PM` give the same parse, with the hour as written. |
| Dates.LeapDay | datasets/iowa_liquor_sales/_images/run_csv_transform_kub/csv_transform.py:127 | `02/29/YYYY` parses exactly in Gregorian leap years. |
| Dates.NoFebruaryThirtieth | datasets/iowa_liquor_sales/_images/run_csv_transform_kub/csv_transform.py:127 | `02/30/YYYY` never parses. |
| Dates.NoMonthThirteen | datasets/iowa_liquor_sales/_images/run_csv_transform_kub/csv_transform.py:127 | Month 13 never parses. |
| Dates.BlankPaddedDay | datasets/iowa_liquor_sales/_images/run_csv_transform_kub/csv_transform.py:127 | A one-digit month and a blank-padded day are accepted, as `_strptime` accepts them. |
| Dates.TrailingTextRefused | datasets/iowa_liquor_sales/_images/run_csv_transform_kub/csv_transform.py:127 | Text after a complete date makes the parse fail ("unconverted data remains"). |
| Dates.DateTextIsNotDateTime | datasets/austin_waste/_images/run_csv_transform_kub/csv_transform.py:74-79 | A text that parses as a date alone never parses with the date-time format. |
| Dates.IsoOfUsDigits | datasets/iowa_liquor_sales/_images/run_csv_transform_kub/csv_transform.py:127-128 | Parsing then formatting a zero-padded `MM/DD/YYYY` rearranges its characters to `YYYY-MM-DD`. |
| Tables.Rename | datasets/iowa_liquor_sales/_images/run_csv_transform_kub/csv_transform.py:120 | No cell changes. Each label is looked up in the dict, and a label that is not a key is kept. |
| Tables.RenameKeepsDistinct | datasets/austin_waste/_images/run_csv_transform_kub/csv_transform.py:67-68 | A rename whose targets do not clash with kept labels keeps the labels distinct. |
| Tables.RenameRoundTrip | datasets/austin_waste/_images/run_csv_transform_kub/csv_transform.py:67-68 | Renaming back through the inverse dict restores the frame. |
| Tables.RenamedProjection | datasets/cloud_storage_geo_index/_images/run_csv_transform_kub_landsat_index/csv_transform.py:44-105 | Rename followed by a reorder to the dict's targets succeeds exactly when every source is present. Output column `k` is then input column `sources[k]`. |
| Tables.RenameEachIsRename | datasets/austin_bikeshare_trips/_images/run_csv_transform_kub/csv_transform.py:83-84 | Renaming pair by pair equals one rename through the dict, when no target is also a source. |
| Tables.RenameOne | datasets/austin_bikeshare_trips/_images/run_csv_transform_kub/csv_transform.py:84 | One vaex rename keeps every cell and the number of labels. Every label equal to the old name becomes the new name, and every other label is kept. |
| Tables.RenameEach | datasets/austin_bikeshare_trips/_images/run_csv_transform_kub/csv_transform.py:83-84 | The loop of vaex renames keeps every cell and the number of labels. |
| Tables.DerivedPairOk | datasets/ghcn_d/_images/run_csv_transform_kub/csv_transform.py:75-78 | Deriving two columns from one present field and keeping them succeeds exactly when both converters succeed on every row. |
| Tables.DerivedPairColumns | datasets/ghcn_d/_images/run_csv_transform_kub/csv_transform.py:75-91 | The two derived columns, in order, hold each row's converted field. |
| Tables.Project | datasets/austin_waste/_images/run_csv_transform_kub/csv_transform.py:51 | `df[list]` raises `KeyError` with the missing labels exactly when a wanted label is absent, and otherwise keeps the row count. |
| Tables.ProjectDistinct | datasets/austin_waste/_images/run_csv_transform_kub/csv_transform.py:51 | On distinct labels, the output columns are the wanted list in order, each holding the cells of the column with that name. |
| Tables.Drop | datasets/census_bureau_international/_images/run_csv_transform_kub/csv_transform.py:48 | Raises `KeyError` exactly when the label is absent. Otherwise the labels are the old ones except that one, and the row count is kept. |
| Tables.DropDistinct | datasets/census_bureau_international/_images/run_csv_transform_kub/csv_transform.py:48 | Every kept column keeps its cells. |
| Tables.Assign | datasets/covid19_jhu_csse/pipelines/_images/run_csv_transform_kub/csv_transform.py:47-54 | `df[c] = values` overwrites column `c`, or appends it when absent. No other cell changes. |
| Tables.AssignTwice | datasets/covid19_jhu_csse/pipelines/_images/run_csv_transform_kub/csv_transform.py:47-54 | Assigning a column twice leaves the second values. |
| Tables.Derive | datasets/ghcn_d/_images/run_csv_transform_kub/csv_transform.py:75-78 | `df[dst] = df[src].apply(f)`: `KeyError` without `src`, failure when `f` raises on some row, otherwise `dst` holds the converted cells and no other column changes. |
| Tables.Apply | datasets/census_bureau_international/_images/run_csv_transform_kub/csv_transform.py:52 | `df[c] = df[c].apply(f)` fails exactly when `c` is absent or `f` raises. Otherwise only column `c` changes, to `f` of each cell. |
| Tables.ApplyEach | datasets/iowa_liquor_sales/_images/run_csv_transform_kub/csv_transform.py:131-137 | The loop over date columns, stopped or not, keeps the number of labels and rows. A loop that completes found every listed column. |
| Tables.ApplyEachChangesOnly | datasets/iowa_liquor_sales/_images/run_csv_transform_kub/csv_transform.py:136-137 | A completed loop over the date columns keeps the labels and the row count and changes no other column. |
| Tables.ApplyEachConverts | datasets/iowa_liquor_sales/_images/run_csv_transform_kub/csv_transform.py:136-137 | After a completed loop each listed column holds the converted cells of the original. |
| Tables.ApplyEachMissing | datasets/austin_waste/_images/run_csv_transform_kub/csv_transform.py:89-90 | The loop fails on reaching an absent column. Its `KeyError` names that column unless a conversion raised first. |
| Tables.ApplyEachSingle | datasets/austin_bikeshare_trips/_images/run_csv_transform_kub/csv_transform.py:113-117 | A completed loop over one column converts that column's cells and leaves every other column as it was. |
| Tables.ConvertedProjection | datasets/austin_waste/_images/run_csv_transform_kub/csv_transform.py:44-51 | After a completed date loop and a reorder, output column `k` is the input column of that name, converted when it is a date column. |
| Tables.RenamedConvertedProjection | datasets/iowa_liquor_sales/_images/run_csv_transform_kub/csv_transform.py:45-75 | After rename, date loop and reorder to the dict's targets, output column `k` is input column `sources[k]`, converted when its target is a date column. |
| Tables.LeftJoin | datasets/census_bureau_international/_images/run_csv_transform_kub/csv_transform.py:81 | Fails exactly when the key is missing from either side. Otherwise it has one label per column of both sides without the right key, and at least the left rows. |
| Tables.LeftJoinKeepsKey | datasets/census_bureau_international/_images/run_csv_transform_kub/csv_transform.py:81 | The key keeps its label and its left position in the merged frame. |
| Tables.LeftJoinUniqueKeys | datasets/census_bureau_international/_images/run_csv_transform_kub/csv_transform.py:81 | With unique right keys, the row count is kept and each left row is kept at the front of its output row. |
| Tables.LeftJoinUnmatched | datasets/census_bureau_international/_images/run_csv_transform_kub/csv_transform.py:81 | With unique right keys, a left row without a matching key is extended with missing cells. |
| Tables.LeftJoinMatched | datasets/census_bureau_international/_images/run_csv_transform_kub/csv_transform.py:81 | With unique right keys, a left row whose key matches a right row is extended with that row's cells, key removed. |
| Frames.Frame.Rename | datasets/iowa_liquor_sales/_images/run_csv_transform_kub/csv_transform.py:120 | The in-place rename leaves `Rename` of the old contents. |
| Frames.Frame.RenameColumn | datasets/austin_bikeshare_trips/_images/run_csv_transform_kub/csv_transform.py:84 | One vaex rename leaves `RenameOne` of the old contents. |
| Frames.Frame.RenameEach | datasets/austin_bikeshare_trips/_images/run_csv_transform_kub/csv_transform.py:83-84 | The loop of vaex renames leaves `RenameEach` of the old contents. |
| Frames.Frame.Assign | datasets/covid19_jhu_csse/pipelines/_images/run_csv_transform_kub/csv_transform.py:47-54 | The in-place assignment leaves `Assign` of the old contents. |
| Frames.Frame.Derive | datasets/ghcn_d/_images/run_csv_transform_kub/csv_transform.py:75-78 | The frame becomes `Derive` of the old contents, or is unchanged when the apply raises. |
| Frames.Frame.Apply | datasets/census_bureau_international/_images/run_csv_transform_kub/csv_transform.py:52 | The frame becomes `Apply` of the old contents, or is unchanged when the apply raises. |
| Frames.Frame.ApplyEach | datasets/iowa_liquor_sales/_images/run_csv_transform_kub/csv_transform.py:131-137 | The loop over date columns leaves `ApplyEach` of the old contents, with the columns converted before a raise kept. |
| IowaLiquor.OrderIsTargets | datasets/iowa_liquor_sales/_images/run_csv_transform_kub/csv_transform.py:48-120 | The 24 dict keys are distinct, the reorder lists their 24 distinct targets in dict order, and the dict is injective. |
| IowaLiquor.ConvertDtFormat | datasets/iowa_liquor_sales/_images/run_csv_transform_kub/csv_transform.py:122-129 | `None` and `""` are returned unchanged, and other lengths than 10 fall through to `None`. Ten characters raise `ValueError` exactly when they are not a date, and otherwise give ten characters. |
| IowaLiquor.ConvertUsDigits | datasets/iowa_liquor_sales/_images/run_csv_transform_kub/csv_transform.py:126-128 | A valid zero-padded `MM/DD/YYYY` becomes `YYYY-MM-DD` built from its own characters. |
| IowaLiquor.ConvertRoundTrip | datasets/iowa_liquor_sales/_images/run_csv_transform_kub/csv_transform.py:126-128 | The US text of every date converts to the ISO text of that date. |
| IowaLiquor.NotADateFails | datasets/iowa_liquor_sales/_images/run_csv_transform_kub/csv_transform.py:127 | Month 13 and 30 February raise. |
| IowaLiquor.ConvertDtValuesOnlyDate | datasets/iowa_liquor_sales/_images/run_csv_transform_kub/csv_transform.py:131-137 | Only the `date` column changes, to its converted cells. Labels and row count are kept. |
| IowaLiquor.MissingSourceFails | datasets/iowa_liquor_sales/_images/run_csv_transform_kub/csv_transform.py:45-75 | A frame lacking any of the 24 source columns makes the transform raise. |
| IowaLiquor.TransformColumns | datasets/iowa_liquor_sales/_images/run_csv_transform_kub/csv_transform.py:45-75 | A transform that succeeds has exactly the 24 columns in order, and every source was present. Output column `k` is source column `k`, converted for `date`. |
| IowaLiquor.Transform | datasets/iowa_liquor_sales/_images/run_csv_transform_kub/csv_transform.py:45-75 | A transform that succeeds keeps one row per input row, and every reorder column was a label after the rename. |
| IowaLiquor.Process | datasets/iowa_liquor_sales/_images/run_csv_transform_kub/csv_transform.py:44-75 | The in-place steps of `main` and the reorder compute `Transform`. |
| AustinBikeshare.HeaderNamesChainFree | datasets/austin_bikeshare_trips/_images/run_csv_transform_kub/csv_transform.py:68-82 | The 12 sources are distinct, the 12 targets are distinct, and no target is a source. |
| AustinBikeshare.RenameHeadersAtOnce | datasets/austin_bikeshare_trips/_images/run_csv_transform_kub/csv_transform.py:67-84 | Renaming pair by pair equals renaming through the whole dict. |
| AustinBikeshare.RenameHeaders | datasets/austin_bikeshare_trips/_images/run_csv_transform_kub/csv_transform.py:67-84 | `rename_headers` leaves the frame renamed through the dict. |
| AustinBikeshare.ConvertDtFormat | datasets/austin_bikeshare_trips/_images/run_csv_transform_kub/csv_transform.py:99-110 | `None` and `""` are returned unchanged. Ten characters succeed exactly when they are a date; other lengths exactly when they are a date-time. Failures are `ValueError`. A successful conversion of non-empty text is 19 characters. |
| AustinBikeshare.DateGetsMidnight | datasets/austin_bikeshare_trips/_images/run_csv_transform_kub/csv_transform.py:105-106 | A date becomes `YYYY-MM-DD 00:00:00`. |
| AustinBikeshare.DateTimeRoundTrip | datasets/austin_bikeshare_trips/_images/run_csv_transform_kub/csv_transform.py:107-110 | A date-time with either marker becomes the same date-time with the hour as written. |
| AustinBikeshare.MeridiemDoesNotShift | datasets/austin_bikeshare_trips/_images/run_csv_transform_kub/csv_transform.py:105-110 | For every body, `AM` and `PM` appended succeed together and give the same result. |
| AustinBikeshare.ConvertDtValuesOnlyStartTime | datasets/austin_bikeshare_trips/_images/run_csv_transform_kub/csv_transform.py:113-117 | Only `start_time` is rewritten, to its converted cells. |
| AustinBikeshare.ConvertDtValues | datasets/austin_bikeshare_trips/_images/run_csv_transform_kub/csv_transform.py:113-117 | `convert_dt_values` leaves the loop's result. |
| AustinBikeshare.ReplaceValue | datasets/austin_bikeshare_trips/_images/run_csv_transform_kub/csv_transform.py:120-128 | `None`, `""`, a value without a newline after position 0, and a value whose start does not match are unchanged. Otherwise the matched seven characters become the literal `0$1:$2`. |
| AustinBikeshare.ReplaceValueLosesTime | datasets/austin_bikeshare_trips/_images/run_csv_transform_kub/csv_transform.py:126 | As written, the result is not the input with a zero in front: the time digits are lost. |
| AustinBikeshare.ReplaceValueIntended | datasets/austin_bikeshare_trips/_images/run_csv_transform_kub/csv_transform.py:120-128 | With the template `0\1:\2`, a matching value gains a leading zero and nothing else changes. |
| AustinBikeshare.ReplaceValueIntendedIdempotent | datasets/austin_bikeshare_trips/_images/run_csv_transform_kub/csv_transform.py:126 | The intended fix applied twice equals applying it once. |
| AustinWaste.ConvertDtFormat | datasets/austin_waste/_images/run_csv_transform_kub/csv_transform.py:70-81 | `None` and `""` are returned unchanged. Ten characters give a 10-character date, exactly when they parse; other lengths give a 19-character date-time, exactly when they parse. Otherwise `ValueError`. |
| AustinWaste.DateRoundTrip | datasets/austin_waste/_images/run_csv_transform_kub/csv_transform.py:74-77 | The US text of a date becomes its ISO text. |
| AustinWaste.DateTimeRoundTrip | datasets/austin_waste/_images/run_csv_transform_kub/csv_transform.py:78-81 | A date-time with either marker keeps its fields, with the hour as written. |
| AustinWaste.ConvertRaisesValueError | datasets/austin_waste/_images/run_csv_transform_kub/csv_transform.py:70-81 | The converter raises nothing but `ValueError`. |
| AustinWaste.MissingDateColumnFails | datasets/austin_waste/_images/run_csv_transform_kub/csv_transform.py:83-90 | Without `report_date` the transform raises `KeyError(["report_date"])`. Without `load_time` it fails, and a `KeyError` names `load_time`. |
| AustinWaste.TransformColumns | datasets/austin_waste/_images/run_csv_transform_kub/csv_transform.py:44-51 | Success gives exactly `headers`, one row per input row. Each column is the renamed column, converted when it is a date column. |
| AustinWaste.Transform | datasets/austin_waste/_images/run_csv_transform_kub/csv_transform.py:44-51 | A transform that succeeds keeps one row per input row, and every output column was a label after the rename. |
| AustinWaste.Process | datasets/austin_waste/_images/run_csv_transform_kub/csv_transform.py:44-51 | `main`'s in-place steps and the reorder compute `Transform`. |
| CovidJhu.Render | datasets/covid19_jhu_csse/pipelines/_images/run_csv_transform_kub/csv_transform.py:49-51 | A rendered coordinate is empty exactly when missing, empty or `nan`; any other value is kept. |
| CovidJhu.Blank | datasets/covid19_jhu_csse/pipelines/_images/run_csv_transform_kub/csv_transform.py:54 | Only the whole value `POINT( )` is blanked. |
| CovidJhu.Point | datasets/covid19_jhu_csse/pipelines/_images/run_csv_transform_kub/csv_transform.py:47-53 | The point text is eight characters longer than the two rendered coordinates together. |
| CovidJhu.Location | datasets/covid19_jhu_csse/pipelines/_images/run_csv_transform_kub/csv_transform.py:47-54 | The cell is always present. It is blank or the point text, and blank only when both coordinates render empty. |
| CovidJhu.LocationBlankIff | datasets/covid19_jhu_csse/pipelines/_images/run_csv_transform_kub/csv_transform.py:47-54 | The geometry is `""` exactly when both coordinates render empty. |
| CovidJhu.OneCoordinateKept | datasets/covid19_jhu_csse/pipelines/_images/run_csv_transform_kub/csv_transform.py:49-54 | With one coordinate missing the value is kept, e.g. `POINT( 5.0)`. |
| CovidJhu.LocationShape | datasets/covid19_jhu_csse/pipelines/_images/run_csv_transform_kub/csv_transform.py:47-54 | Every geometry is `""` or starts with `POINT(` and ends with `)`. |
| CovidJhu.ParsePoint | datasets/covid19_jhu_csse/pipelines/_images/run_csv_transform_kub/csv_transform.py:47-53 | A parsed geometry is `POINT(` + space-free longitude + a space + latitude + `)`. |
| CovidJhu.LocationRoundTrip | datasets/covid19_jhu_csse/pipelines/_images/run_csv_transform_kub/csv_transform.py:47-54 | A geometry that is not blank gives back both rendered coordinates. |
| CovidJhu.Geometry | datasets/covid19_jhu_csse/pipelines/_images/run_csv_transform_kub/csv_transform.py:45-55 | Raises `KeyError` for a missing `Long`, then for a missing `Lat`. |
| CovidJhu.GeometryColumn | datasets/covid19_jhu_csse/pipelines/_images/run_csv_transform_kub/csv_transform.py:45-55 | The step adds `location_geom`, or overwrites it, and keeps the row count. Row `i` holds the location of that row's coordinates, and no other cell changes. |
| CovidJhu.TransformColumns | datasets/covid19_jhu_csse/pipelines/_images/run_csv_transform_kub/csv_transform.py:37-70 | Success gives exactly `headers`. Each output column is the geometry-step column renamed to it, so the geometry reads `Long` and `Lat` before the rename. |
| CovidJhu.Transform | datasets/covid19_jhu_csse/pipelines/_images/run_csv_transform_kub/csv_transform.py:37-70 | A transform that succeeds had both `Long` and `Lat` and keeps one row per input row. |
| CovidJhu.Process | datasets/covid19_jhu_csse/pipelines/_images/run_csv_transform_kub/csv_transform.py:37-70 | The two assignments, the in-place rename and the reorder compute `Transform`. |
| CensusIntl.Step | datasets/census_bureau_international/_images/run_csv_transform_kub/csv_transform.py:77-81 | Once the frame is not empty, a step succeeds exactly when both sides have `country_code`, and it never loses a row. |
| CensusIntl.Merged | datasets/census_bureau_international/_images/run_csv_transform_kub/csv_transform.py:74-82 | When reading all the files succeeds, reading every shorter prefix of them succeeds too. |
| CensusIntl.ReadFiles | datasets/census_bureau_international/_images/run_csv_transform_kub/csv_transform.py:74-82 | The loop of `read_files` computes `Merged`. |
| CensusIntl.MergedStopsAtError | datasets/census_bureau_international/_images/run_csv_transform_kub/csv_transform.py:76-82 | The first merge that raises decides the result. |
| CensusIntl.EmptyPrefix | datasets/census_bureau_international/_images/run_csv_transform_kub/csv_transform.py:75-82 | No files, or only empty ones, leave an empty frame. |
| CensusIntl.FirstNonEmptyIsBase | datasets/census_bureau_international/_images/run_csv_transform_kub/csv_transform.py:78-79 | The first non-empty file becomes the frame. |
| CensusIntl.JoinStep | datasets/census_bureau_international/_images/run_csv_transform_kub/csv_transform.py:81 | A merge with unique keys keeps the frame's rows in order, each extended on the right. |
| CensusIntl.JoinedKeepsBase | datasets/census_bureau_international/_images/run_csv_transform_kub/csv_transform.py:76-82 | Later merges with unique keys keep the base's rows, each as a prefix. |
| CensusIntl.ReadFilesKeepsBase | datasets/census_bureau_international/_images/run_csv_transform_kub/csv_transform.py:74-82 | The result has one row per row of the first non-empty file, and each row starts with that file's row. |
| CensusIntl.SexLabel | datasets/census_bureau_international/_images/run_csv_transform_kub/csv_transform.py:52 | 2 becomes `Male`, 3 becomes `Female`, anything else becomes missing, each an if-and-only-if. |
| CensusIntl.DropArea | datasets/census_bureau_international/_images/run_csv_transform_kub/csv_transform.py:44-48 | The area step fails exactly when the pipeline is not `country_names_area` and `country_area` is absent. Otherwise it keeps the row count, and outside that pipeline the output has no `country_area`. |
| CensusIntl.ReplaceSex | datasets/census_bureau_international/_images/run_csv_transform_kub/csv_transform.py:51-52 | The sex step fails exactly when the pipeline is `midyear_population_age_sex` and `sex` is absent. Otherwise labels and row count are kept. |
| CensusIntl.AreaColumn | datasets/census_bureau_international/_images/run_csv_transform_kub/csv_transform.py:44-48 | Outside `country_names_area`, a merged frame without `country_area` raises `KeyError(["country_area"])`. A successful run had the column, and the reorder does not list it. |
| CensusIntl.DropAreaCells | datasets/census_bureau_international/_images/run_csv_transform_kub/csv_transform.py:44-48 | The area step keeps the cells of every column it keeps. |
| CensusIntl.ReplaceSexCells | datasets/census_bureau_international/_images/run_csv_transform_kub/csv_transform.py:51-52 | Only `sex`, and only in `midyear_population_age_sex`, is relabelled. |
| CensusIntl.TransformColumns | datasets/census_bureau_international/_images/run_csv_transform_kub/csv_transform.py:42-55 | Success gives exactly `headers`, one row per merged row, with merged cells (sex relabelled in its pipeline). |
| CensusIntl.Transform | datasets/census_bureau_international/_images/run_csv_transform_kub/csv_transform.py:42-55 | A transform that succeeds read the files, keeps one row per merged row, and every wanted column was in the merged frame. |
| CensusIntl.Process | datasets/census_bureau_international/_images/run_csv_transform_kub/csv_transform.py:42-55 | `main`'s branches compute `Transform`. |
| LandsatIndex.SchemaIsTargets | datasets/cloud_storage_geo_index/_images/run_csv_transform_kub_landsat_index/csv_transform.py:84-103 | The dict maps 18 distinct keys to 18 distinct targets, one per load-schema field, and is injective. |
| LandsatIndex.Transform | datasets/cloud_storage_geo_index/_images/run_csv_transform_kub_landsat_index/csv_transform.py:44-66 | The transform as written succeeds exactly when the 17 reorder columns are labels after the rename, and it keeps one row per input row. |
| LandsatIndex.OrderOmitsCloudCover | datasets/cloud_storage_geo_index/_images/run_csv_transform_kub_landsat_index/csv_transform.py:46-66 | The reorder is the schema without `cloud_cover`. Every listed column is a rename target, and `cloud_cover`, a target, is absent. |
| LandsatIndex.TransformDropsCloudCover | datasets/cloud_storage_geo_index/_images/run_csv_transform_kub_landsat_index/csv_transform.py:44-105 | A transform that succeeds has exactly the 17 columns and none is `cloud_cover`, although `CLOUD_COVER` was read and renamed. Output column 11 is `north_lat`, where the schema's field list has `cloud_cover` at that position. |
| LandsatIndex.TransformCopiesCells | datasets/cloud_storage_geo_index/_images/run_csv_transform_kub_landsat_index/csv_transform.py:44-66 | The transform keeps every row, and each cell is copied from the renamed column of that name. |
| LandsatIndex.TransformIntended | datasets/cloud_storage_geo_index/landsat_index/landsat_index_dag.py:65-83 | With the 18 schema fields as the reorder, the transform succeeds exactly when all of them are labels after the rename, and it keeps one row per input row. |
| LandsatIndex.IntendedMatchesSchema | datasets/cloud_storage_geo_index/landsat_index/landsat_index_dag.py:65-83 | With all 18 fields listed, the transform succeeds exactly when all sources are present. It then writes the schema's fields in order, with cells unchanged. |
| LandsatIndex.Process | datasets/cloud_storage_geo_index/_images/run_csv_transform_kub_landsat_index/csv_transform.py:44-66 | The in-place rename and the reorder compute `Transform`. |

## Left out

- Network and file I/O is not modelled: downloads, the uploads to Cloud Storage, directory creation and the `os.system` header insertion. Neither are logging and `datetime.now()`. These are side effects with nothing to verify.
- CSV reading and writing are not modelled: `pd.read_csv`, vaex `open`, `to_csv` and `float_format`. Iowa's and Landsat's `save_to_new_file` call `export_csv`, which pandas frames do not have, inside a `try`; that is left out with the rest of the file writing. The input is an already-parsed frame of optional strings.
- Census `read_csv` turns the `sex` codes into integers. The model keeps cells as text, so the code `2` is the text `"2"`.
- The COVID coordinates are floats rendered by `astype(str)`. The model takes the rendered text as given, with `nan` for a missing value.
- pandas reads an empty cell as `NaN`, not `None`, and `len(NaN)` would raise. The converters are modelled on their own `None` / `""` branches.
- `Dates` and the `^\d:\d{2}:\d{2}` pattern of `AustinBikeshare.HourPrefix` accept ASCII digits only, while Python's `\d` also accepts other Unicode digits. `%Y` is always written with four digits, although for years below 1000 that depends on the platform.
- The Airflow DAG files and the census mortality/life-expectancy script are not part of this model. The DAG files are declarations; one DAG schema is quoted for the Landsat finding.
- Bikeshare `remove_columns`, `replace_values_regex` and `filter_null_rows` depend on vaex expression and copy semantics, and the whole bikeshare `main` chain is commented out. Only the helpers are modelled.
- GHCN's frame is a vaex frame, and vaex evaluates `apply` lazily. A missing `code name` cell therefore raises only when the file is written, inside the `try` that logs the error, and the upload still runs. The model evaluates the apply at once: `Ghcn.Transform` fails with the `AttributeError` of `code`, the column derived first. The upload of a partly written file is not modelled.
- The BigQuery load of the Landsat output is not modelled. `LandsatIndex.TransformDropsCloudCover` states only what the transform writes.
- Tables.RenameOne: vaex `rename` of a name the frame lacks is modelled as doing nothing; vaex's own behaviour there is not visible in the script.
- Tables.Assign, Tables.Apply, Tables.Derive: on a frame with repeated labels pandas would act on every column of that label. The model acts on the first. The lemmas about the scripts assume distinct labels.
- Tables.LeftJoin: only a left merge on one key is modelled, with `_x`/`_y` suffixes for clashing labels. Merge sort order options and key dtype coercion are not modelled.
- CovidJhu.LocationRoundTrip: requires a longitude text without a space. A rendered float has none, but for arbitrary text the split at the first space is ambiguous.
- Tables.SelectionDistinct and everything built on Tables.ProjectDistinct assume distinct labels. `df[list]` on repeated labels expands them (Tables.Project does so), but cell-level statements are only proved for distinct labels.

## Findings

| source | as written | input that shows it | evidently intended | confidence | as-written member | corrected member |
|---|---|---|---|---|---|---|
| datasets/austin_bikeshare_trips/_images/run_csv_transform_kub/csv_transform.py:126 | `re.sub(r"(^\d):(\d{2}:\d{2})", "0$1:$2", val)`: Python `re` reads `$1` literally, so the match is replaced by the six characters `0$1:$2` | `"1:23:45\nX"` becomes `"0$1:$2\nX"` | pad a one-digit hour: `"01:23:45\nX"`, template `0\1:\2` | not executed | AustinBikeshare.ReplaceValueLosesTime | AustinBikeshare.ReplaceValueIntended |
| datasets/cloud_storage_geo_index/_images/run_csv_transform_kub_landsat_index/csv_transform.py:46-66 | the 17-column reorder leaves out `cloud_cover`, which `rename_headers` produces (line 94) and the load schema lists at datasets/cloud_storage_geo_index/landsat_index/landsat_index_dag.py:77 | any index frame with all 18 columns: output column 11 is `north_lat`, no `cloud_cover` | keep all 18 schema fields, in schema order | not executed | LandsatIndex.TransformDropsCloudCover | LandsatIndex.IntendedMatchesSchema |
