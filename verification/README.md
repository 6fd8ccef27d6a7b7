# bluecorridor driver preparation, in Dafny

This project models the bookkeeping core of the bluecorridor drift
forecast. That core:

- downloads GFS 10 m winds from the NOMADS filter;
- stitches CMEMS currents, CMEMS Stokes drift and the GFS winds into one
  hourly drivers file;
- prepares that file for the OpenDrift generic CF reader;
- seeds the particle ensemble;
- writes the GeoJSON track points;
- holds the beaching rule.

The numerics (interpolation, the drift engine) are not modelled. What
the code does with names, times, files and errors is modelled, including
the xarray behaviour it relies on. One wind step in `main` fails as
written; it is recorded in the Findings section, and the rest of the model
uses the evident intent.

Modules, one per source component plus shared helpers:

- `GfsWinds` (`gfs_winds.dfy`) covers `src/fetch/pull_gsf_winds.py`:
  - the cycle choice;
  - the filter request;
  - the forecast-hour list;
  - the download loop.

  The HTTP client is a function `get: Url -> Option<Response>`, where
  `None` means the client raised. The output directory is a map from file
  name to size.
- `WindStack` (`wind_stack.dfy`) covers `_gfs_to_dataset`. Each GRIB2 file
  gives one slice stamped with cycle + step. The slices are stacked in
  valid-time order, and `latitude`/`longitude` are relabelled.
- `Stitch` (`stitch.dfy`) covers the rest of `src/fetch/stitch_fields.py`:
  - `_find_var`;
  - the Stokes loader that takes effect;
  - `rename_latlon`;
  - the Stokes regrid;
  - `_to_hourly`;
  - the projection of the winds, as written and as intended;
  - the six-variable composite.
- `RunPrep` (`run_prep.dfy`) covers `src/model/run_opendrift.py`:
  - `_round_hour_utc`;
  - `_make_cf_copy`;
  - `use_stokes`;
  - `_seed_from_config`;
  - the GeoJSON export loop.

  The clock is a parameter. The engine's position arrays are inputs.
- `Beaching` (`beaching.dfy`) covers `should_beach`.
- Helpers:
  - `Datasets` is the part of xarray the code relies on: `in`, `rename`
    with its two ValueErrors, `interp` (including a DataArray indexer
    along a dimension of its own), and variable selection.
  - `Text` holds digits, zero padding, `in` and `endswith` on strings.
  - `DateTimes` holds `datetime` fields and `%Y%m%d`.
  - `Sorting` is a stable sort.
  - `Arith` holds division facts, including truncation toward zero.
  - `Results` models each Python exception on a modelled path as an
    `Error` constructor, carried in `Result`.

## Model

| member | source | states |
|---|---|---|
| GfsWinds.CycleHour | src/fetch/pull_gsf_winds.py:18 | the cycle hour is 0, 6, 12 or 18 and is the latest of those not after the current hour |
| GfsWinds.CycleHourUnique | src/fetch/pull_gsf_winds.py:18 | any multiple of six at most six hours below the hour is the cycle hour, so the cycle is unique |
| GfsWinds.GfsCycle | src/fetch/pull_gsf_winds.py:16-19 | the hour part is exactly two digits |
| GfsWinds.GfsCycleDate | src/fetch/pull_gsf_winds.py:19 | the date part is eight digits that read back as the year, month and day of the clock |
| GfsWinds.GfsCycleHour | src/fetch/pull_gsf_winds.py:18-19 | the hour part reads back as a multiple of six within six hours at or below the clock's hour |
| GfsWinds.QueryKeysDistinct | src/fetch/pull_gsf_winds.py:23-33 | the ten query parameters have ten different keys, so each lookup is unambiguous |
| GfsWinds.BuildUrlSelects | src/fetch/pull_gsf_winds.py:24-28 | the request goes to the filter script and asks for the cycle directory, the forecast file, the 10 m level and both wind components |
| GfsWinds.BuildUrlSubregion | src/fetch/pull_gsf_winds.py:30-32 | the request asks for a subregion whose left, right, top and bottom edges are lon_min, lon_max, lat_max and lat_min of the bbox |
| GfsWinds.FileNameLeadHour | src/fetch/pull_gsf_winds.py:25 | the file name is the cycle prefix followed by at least three digits that read back as the lead hour |
| GfsWinds.OutNameInjective | src/fetch/pull_gsf_winds.py:44 | two lead hours of one cycle never share an output file name |
| GfsWinds.RangeFrom | src/fetch/pull_gsf_winds.py:68 | the k-th element of the range is start + k*step, all lie between start and stop, and they strictly increase (or decrease for a negative step) |
| GfsWinds.PyRange | src/fetch/pull_gsf_winds.py:68 | `range` raises exactly when the step is zero and otherwise lists no value twice |
| GfsWinds.RangeFromMembers | src/fetch/pull_gsf_winds.py:68 | for a positive step, x is in the range exactly when start <= x < stop and x - start is a multiple of the step |
| GfsWinds.ForecastHours | src/fetch/pull_gsf_winds.py:66-68 | the hour list fails only for a zero step, starts at hour 0 and moves by the step |
| GfsWinds.ForecastHoursMembers | src/fetch/pull_gsf_winds.py:68 | an hour is listed exactly when it is a multiple of the step between 0 and the horizon, so the horizon itself is listed exactly when the step divides it |
| GfsWinds.Fetch | src/fetch/pull_gsf_winds.py:42-57 | every saved hour is one of the requested hours and its file is on disk afterwards, no file that was on disk disappears, and a failure is a client error on one of the requested hours |
| GfsWinds.FetchRaises | src/fetch/pull_gsf_winds.py:45-50 | for distinct hours, as `range` gives, the loop fails exactly when some hour has no file on disk and its request raises |
| GfsWinds.FetchKeeps | src/fetch/pull_gsf_winds.py:45-56 | for distinct hours, when the loop completes, the saved hours are, in request order, exactly the hours whose file was already on disk or whose response was a 200 of at least 10000 bytes |
| GfsWinds.DownloadWinds | src/fetch/pull_gsf_winds.py:36-61 | a successful download returns a non-empty list of files that are on disk, and the only other outcome besides a client error is the "No GFS files saved" exit |
| GfsWinds.DownloadWindsSaves | src/fetch/pull_gsf_winds.py:41-61 | without client errors the download exits exactly when no hour is kept, and otherwise returns the output names of the kept hours in order |
| GfsWinds.RunMain | src/fetch/pull_gsf_winds.py:63-71 | a zero step stops the run with ValueError, and a completed run saved at least one file |
| DateTimes.FormatYmdRoundTrip | src/fetch/pull_gsf_winds.py:19 | `%Y%m%d` of a valid date is eight digits that read back as the year, month and day |
| Text.ParseZeroPad | src/fetch/pull_gsf_winds.py:19 | a zero-padded rendering such as `{hh:02d}` reads back as the number |
| Text.FormatIntInjective | src/fetch/pull_gsf_winds.py:44 | two different integers never share a zero-padded rendering of the same width |
| Stitch.FindVar | src/fetch/stitch_fields.py:15-19 | the result is the first candidate the dataset has, and KeyError is raised exactly when it has none of them |
| Stitch.FindVarPriority | src/fetch/stitch_fields.py:16-18 | a candidate the dataset has is found, and it is the one returned when no earlier candidate is present |
| Stitch.NormaliseTime | src/fetch/stitch_fields.py:40-42 | a dataset with `time` is unchanged; otherwise the first coordinate whose name contains "time" becomes `time` with its values, IndexError is raised exactly when there is none, and the variables keep their data |
| Stitch.NormaliseTimeIdempotent | src/fetch/stitch_fields.py:40-42 | normalising a normalised dataset changes nothing |
| Stitch.LoadStokes | src/fetch/stitch_fields.py:34-44 | a missing u or v component raises KeyError naming its candidates, and the result holds only `u_stokes`/`v_stokes` |
| Stitch.LoadStokesContents | src/fetch/stitch_fields.py:37-44 | `u_stokes` and `v_stokes` carry the data of the first matching u and v spellings |
| Stitch.RenameLatLon | src/fetch/stitch_fields.py:97-101 | when the rename succeeds, `latitude`/`longitude` coordinates become `lat`/`lon` in place, every other coordinate and all variables and data are kept, and no `latitude`/`longitude` is left; with neither present the dataset is unchanged |
| Stitch.RenameLatLonIdempotent | src/fetch/stitch_fields.py:97-101 | renaming twice is renaming once |
| Stitch.RegridStep | src/fetch/stitch_fields.py:106-109 | one pass of the lat/lon loop regrids exactly when the two coordinate arrays differ, and a regrid puts the Stokes field on the currents' lat/lon |
| Stitch.RegridStokes | src/fetch/stitch_fields.py:105-109 | after the loop the Stokes field is on the currents' lat and lon with its time axis unchanged; it is left alone when the grids already agree and is regridded at most once |
| Stitch.SeqMin | src/fetch/stitch_fields.py:86 | the minimum is an element and no element is smaller |
| Stitch.SeqMax | src/fetch/stitch_fields.py:87 | the maximum is an element and no element is larger |
| Stitch.HourlyAxis | src/fetch/stitch_fields.py:88 | the axis steps by one hour from the first time and its last entry is the last whole hour not after the end |
| Stitch.HourlyAxisMembers | src/fetch/stitch_fields.py:88 | a time is on the axis exactly when it lies between start and end and is a whole number of hours from the start |
| Stitch.ToHourly | src/fetch/stitch_fields.py:82-89 | a missing time coordinate raises ValueError, an empty one fails the min reduction, and otherwise time becomes the hourly axis from min to max while other coordinates are unchanged |
| Stitch.ToHourlyAxis | src/fetch/stitch_fields.py:86-89 | the new time axis starts at the earliest time, steps by one hour and ends within an hour of the latest time |
| Stitch.PrepareCmems | src/fetch/stitch_fields.py:102-109 | the currents go through `rename_latlon` and the Stokes field ends on the currents' lat/lon |
| Stitch.HourlyCmems | src/fetch/stitch_fields.py:112-113 | the currents' hourly grid is time/lat/lon, and the Stokes field interpolated to its times carries that whole grid |
| Stitch.WindsOnGridAsWritten | src/fetch/stitch_fields.py:116-124 | as written the wind step never succeeds: no GRIB2 file means the exit, and otherwise the relabel to `time` raises ValueError |
| Stitch.WindsClash | src/fetch/stitch_fields.py:119-124 | after interpolating onto the horizontal axes and the currents' `time` DataArray, the winds hold both `valid_time` and `time`, so the rename clashes |
| Datasets.IndexedRenameClashes | src/fetch/stitch_fields.py:119-124 | renaming a key interpolated onto a DataArray indexer to the indexer's own dimension name always raises ValueError |
| Stitch.WindsOnGrid | src/fetch/stitch_fields.py:116-124 | the intended wind step (onto the time values): no GRIB2 file means the exit; otherwise the winds carry the currents' time/lat/lon grid and no variable has units |
| Stitch.WindsRelabel | src/fetch/stitch_fields.py:119-124 | interpolating the stacked winds onto the time values and the horizontal axes, then renaming `valid_time` to `time`, cannot clash |
| Stitch.SelectAll | src/fetch/stitch_fields.py:127-135 | the six selections succeed exactly when every source has its variable, each picked array lies on the grid, and a failure names a missing variable |
| Stitch.DriverArrays | src/fetch/stitch_fields.py:93-135 | with the intended wind step: a stitched run had GRIB2 files, used the currents' hourly grid, all six arrays lie on it, and the two wind arrays have no units |
| Stitch.StitchDrivers | src/fetch/stitch_fields.py:91-145 | the drivers dataset holds u_curr, v_curr, u_stokes, v_stokes, u_wind and v_wind, in that order, on the currents' time/lat/lon |
| WindStack.GfsToDataset | src/fetch/stitch_fields.py:46-80 | no file raises the exit; otherwise the stack is well formed, with `u_wind`/`v_wind` on valid_time/lat/lon in valid-time order |
| WindStack.StackOrder | src/fetch/stitch_fields.py:51 | the stack holds exactly one slice per file |
| WindStack.StackOrderSorted | src/fetch/stitch_fields.py:77 | slices are in valid-time order, and files with equal valid times stay in path order |
| WindStack.PathLeTotalPreorder | src/fetch/stitch_fields.py:51 | path order is total and transitive, as `sorted` needs |
| WindStack.GfsValidTimes | src/fetch/stitch_fields.py:63-77 | the valid_time axis has one non-decreasing entry per file, and the entries are the files' cycle+step times rearranged |
| WindStack.StackNames | src/fetch/stitch_fields.py:64-74 | before relabelling the stack has `latitude`/`longitude` and no `lat`/`lon` |
| WindStack.Relabel | src/fetch/stitch_fields.py:79 | renaming latitude/longitude to lat/lon cannot clash and yields the wind layout |
| Sorting.SortStable | src/fetch/stitch_fields.py:77 | a stable sort of a list ordered by one key orders it by the sort key and keeps ties in the first order |
| RunPrep.RoundHour | src/model/run_opendrift.py:45 | the result is a valid time on the hour, on the same date and hour, at most one hour before the input |
| RunPrep.RoundHourUtc | src/model/run_opendrift.py:43-45 | the given time, or the clock when none is given, is truncated to the hour that contains it |
| RunPrep.RoundHourIdempotent | src/model/run_opendrift.py:45 | rounding a rounded time changes nothing |
| RunPrep.RoundHourLatest | src/model/run_opendrift.py:45 | every whole hour not after the input is not after the result, so the result is the latest whole hour not after the input |
| RunPrep.CfTable | src/model/run_opendrift.py:71 | the table holds exactly the driver names present in the dataset, and sends each present name to its CF name |
| RunPrep.DefaultUnits | src/model/run_opendrift.py:75-76 | `units` is added as "m s-1" only to a variable named `*_velocity` that has none; existing attributes, name and data are untouched |
| RunPrep.AddDefaultUnits | src/model/run_opendrift.py:74-76 | coordinates are untouched; afterwards every `_velocity` variable has units, no existing attribute has changed, and every other variable is exactly as before |
| RunPrep.DefaultUnitsIdempotent | src/model/run_opendrift.py:76 | defaulting twice is defaulting once, and an existing unit is never overwritten |
| RunPrep.MakeCfCopy | src/model/run_opendrift.py:48-80 | the only failure is a rename clash; the copy is well formed, with every coordinate and variable in place under its lat/lon- and CF-renamed name, its data and attributes kept, and `units` present exactly when it was or the new name ends in `_velocity` |
| RunPrep.CfRenamedFrom | src/model/run_opendrift.py:55-76 | the two renames followed by the units loop give the copy `MakeCfCopy` promises |
| RunPrep.UseStokesAfterCopy | src/model/run_opendrift.py:113-129 | each CF Stokes name is in the copy exactly when the drivers had `u_stokes`/`v_stokes` or already the CF name, so Stokes drift is on exactly when both came through |
| RunPrep.CfNameCarried | src/model/run_opendrift.py:61-71 | a CF name is a variable of the copy exactly when its driver name or the CF name was a variable of the original |
| RunPrep.CfNameInverse | src/model/run_opendrift.py:61-70 | the only names the mapping sends to a CF name are its driver name and the CF name itself |
| RunPrep.DriversCfCopy | src/model/run_opendrift.py:111-129 | a drivers file (the six variables on time/lat/lon, any attributes, no units on the winds) always converts, switches Stokes drift on, and gives units to the four velocity variables and not to the two wind components |
| RunPrep.StitchedDriversFile | src/fetch/stitch_fields.py:126-140 | what the stitching produces is such a drivers file |
| RunPrep.StitchedConverts | src/model/run_opendrift.py:111-129 | the stitched drivers always convert to the CF copy, with Stokes drift switched on |
| RunPrep.DriversConvert | src/model/run_opendrift.py:55-71 | neither rename clashes on the drivers file |
| RunPrep.DriverUnits | src/model/run_opendrift.py:74-76 | in a CF copy of the drivers file, `units` is on every variable except the two wind components |
| RunPrep.GridKeepsLatLon | src/model/run_opendrift.py:55-58 | a time/lat/lon dataset passes the coordinate rename unchanged |
| RunPrep.OffsetBounds | src/model/run_opendrift.py:97 | for a non-negative spread the member offsets start at 0, never decrease, stay within the spread, and reach it for the last of two or more members |
| RunPrep.ReleaseTimes | src/model/run_opendrift.py:92-98 | one release time per member; with a non-negative spread they start at the rounded hour, never decrease, stay within the spread, and the last of two or more is exactly the spread after the start |
| RunPrep.SeedFromConfig | src/model/run_opendrift.py:83-102 | no points raises the exit, and a point with fewer than two entries raises IndexError; otherwise there is one release per point, read as (lat, lon), each with `members` particles (20 by default) at the same times from the rounded clock |
| RunPrep.TotalParticlesUniform | src/model/run_opendrift.py:99-102 | sites that each seed `members` particles seed sites x members in total |
| RunPrep.SeedTotal | src/model/run_opendrift.py:96-102 | a seeding seeds points x members particles |
| RunPrep.RowCellsSpec | src/model/run_opendrift.py:152-154 | within one time step the particles with both coordinates are listed once each, in index order |
| RunPrep.CellsSpec | src/model/run_opendrift.py:150-154 | over the time steps from j on, the located cells are listed once each, time-major |
| RunPrep.ExportRow | src/model/run_opendrift.py:152-159 | the inner loop emits, in particle order, one feature per particle of the step with both coordinates, holding [lon, lat], the step's time and the index |
| RunPrep.ExportFeatures | src/model/run_opendrift.py:150-159 | the export emits one feature per located cell, in time-major order, each holding that cell's [lon, lat], time and particle index |
| RunPrep.ExportedCells | src/model/run_opendrift.py:150-159 | a cell is exported exactly when it is in range and neither coordinate is NaN, and exported cells are in time-major order |
| Beaching.ShouldBeach | src/model/beaching_rules.py:1-2 | a missing depth threshold raises KeyError; shallow water strands without reading the buffer; a missing buffer raises only for a particle in deeper water; with both keys there is always an answer |
| Beaching.ShouldBeachExactly | src/model/beaching_rules.py:2 | with both thresholds, a particle is stranded exactly when it is within either of them, and left afloat exactly when it is beyond both |
| Beaching.ThresholdsInclusive | src/model/beaching_rules.py:2 | a particle exactly at either threshold is stranded |
| Beaching.ShouldBeachMonotone | src/model/beaching_rules.py:2 | shallower water or a nearer coast never frees a stranded particle |
| Beaching.ShouldBeachIgnoresPoint | src/model/beaching_rules.py:1-2 | the outcome does not depend on the point |

## Left out

- Floating point: coordinates, thresholds and the bbox are reals. NaN
  appears only as the `Sample.NaN` marker of the position arrays, so
  `Beaching.ShouldBeach` does not model a NaN depth or distance, which
  Python compares as false.
- RunPrep.OffsetBounds: the offset is exact truncated integer division of
  `k * time_spread` by `max(1, members - 1)`. Python divides in floating
  point before `int()`, which can differ in the last place for very large
  products.
- RunPrep.SeedFromConfig: `members` and `time_spread_min` are integers;
  `int()` of a non-integer config value is not modelled. A null
  `release` or `ensemble` section, where `.get` on None raises
  AttributeError, is not modelled either. A zero or negative ensemble size
  gives no release times and is passed through as `number`; what
  OpenDrift then does is not modelled.
- GfsWinds.GfsCycleDate: the year is padded to four digits. Python's
  `%Y` on glibc does not pad years below 1000.
- GfsWinds.BuildUrlSelects and GfsWinds.BuildUrlSubregion: the query
  is the ordered parameter list. `urlencode`'s percent-encoding and float
  formatting are not modelled.
- GfsWinds.DownloadWinds: file paths are bare file names. `out_dir`, its
  creation, `time.sleep`, the client timeout and redirects are not
  modelled. The clock is the `now` parameter.
- `_load_cmems_currents` is called by `main` in
  `src/fetch/stitch_fields.py` but is not defined there, so the currents
  dataset is an input of `Stitch.StitchDrivers`.
- The first `_load_cmems_stokes` (src/fetch/stitch_fields.py:21-31) is
  shadowed by the second definition and is not modelled.
- Stitch.StitchDrivers: xarray's outer-join alignment in `xr.Dataset(...)`
  is not modelled. The six arrays are proved to agree with the
  composite's own time/lat/lon, so those axes need no alignment. Any
  other coordinate an array carries (a depth axis on the currents, say)
  is dropped from the composite, whereas `xr.Dataset` would merge it in.
  The dataset attrs (title, notes) are not modelled.
- Stitch.DriverArrays: it uses the intended wind step `Stitch.WindsOnGrid`.
  As written, `main` stops at the wind relabel with ValueError
  (`Stitch.WindsOnGridAsWritten`, in the Findings section), so the
  source as written has no successful run.
- Datasets.InterpIndexed: a DataArray indexer along a dimension the
  dataset already has is not modelled. xarray would broadcast against
  that dimension; the stacked winds never have a `time` dimension.
- RunPrep.UseStokesAfterCopy: the generic CF reader's variable list is
  taken to be the CF copy's data-variable names. The reader's own
  discovery (standard_name attributes, aliases) is not modelled.
- WindStack.GfsToDataset: `xr.concat` of files on different grids would
  outer-join. The model takes every slice to share the first slice's
  latitude/longitude.
- Interpolation arithmetic is an opaque payload (`Interpolated(source,
  onto)`). Which exception `interp` raises for a missing dimension is
  modelled as one error, not xarray's exact type.
- Time zones: `tzinfo` and the GeoJSON `isoformat()` text are not
  modelled. A feature carries the time step's value as given.
- The OpenDrift engine (reader, `run`, `seed_elements` side effects,
  stranding), file I/O (`to_netcdf`, `json.dump`, the summary CSV), YAML
  loading, logging and `_load_cfg` are not modelled.
- `src/util/grids.py` and the stub modules are not part of this model.

## Findings

| source | as written | input that shows it | evidently intended | confidence | as-written member | corrected member |
|---|---|---|---|---|---|---|
| src/fetch/stitch_fields.py:119-124 | `gfs.interp(valid_time=ds_curr_h.time, ...)` then `.rename({"valid_time": "time"})`. The indexer is a DataArray along `time`, so the result already has a `time` coordinate next to `valid_time`, and the rename raises ValueError. | any non-empty list of GRIB2 files | interpolate onto the time values (`ds_curr_h.time.values`), then relabel `valid_time` as `time` | medium (rests on xarray's documented broadcasting of DataArray indexers); not executed | Stitch.WindsOnGridAsWritten | Stitch.WindsOnGrid |
