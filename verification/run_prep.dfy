/** `src/model/run_opendrift.py` up to and after the engine run: the start
    time rounded to the hour, the copy of the drivers under CF names with
    default velocity units, the particles seeded from the run
    configuration, the Stokes-drift switch and the GeoJSON feature list.

    The OpenDrift engine itself, file I/O and YAML loading are not part of
    the model; the clock is a parameter and the engine's output arrays are
    inputs.
 */
module RunPrep {
  import opened Results
  import opened Text
  import opened DateTimes
  import opened Datasets
  import opened Sorting
  import opened Arith
  import opened Stitch
  import opened WindStack

  // ---------------------------------------------------------- start time

  /** `now.replace(minute=0, second=0, microsecond=0)`. */
  function RoundHour(t: DateTime): (r: DateTime)
    requires t.Valid()
    ensures r.Valid() && OnHour(r)
    ensures r.year == t.year && r.month == t.month && r.day == t.day && r.hour == t.hour
    ensures Micros(r) <= Micros(t) < Micros(r) + MicrosPerHour
  {
    t.(minute := 0, second := 0, micro := 0)
  }

  /** A time with no minutes, seconds or microseconds. */
  predicate OnHour(t: DateTime) {
    t.minute == 0 && t.second == 0 && t.micro == 0
  }

  /** `_round_hour_utc(dt0)`: the given time, or the clock when none is
      given, truncated to the hour. */
  function RoundHourUtc(dt0: Option<DateTime>, now: DateTime): (r: DateTime)
    requires now.Valid() && (dt0.Some? ==> dt0.value.Valid())
    ensures OnHour(r)
    ensures dt0.Some? ==> Micros(r) <= Micros(dt0.value) < Micros(r) + MicrosPerHour
    ensures dt0.None? ==> Micros(r) <= Micros(now) < Micros(r) + MicrosPerHour
  {
    RoundHour(dt0.GetOr(now))
  }

  /** Rounding a rounded time changes nothing. */
  lemma RoundHourIdempotent(t: DateTime)
    requires t.Valid()
    ensures RoundHour(RoundHour(t)) == RoundHour(t)
  {
  }

  /** The rounded time is the latest whole hour not after `t`. */
  lemma RoundHourLatest(t: DateTime, u: DateTime)
    requires t.Valid() && u.Valid() && OnHour(u)
    requires Micros(u) <= Micros(t)
    ensures Micros(u) <= Micros(RoundHour(t))
  {
    var r := RoundHour(t);
    MicrosOnHour(u);
    MicrosOnHour(r);
    HourLattice(HourIndex(u), HourIndex(r), Micros(t));
  }

  /** A whole hour sits at its hour index times the length of an hour. */
  lemma MicrosOnHour(t: DateTime)
    requires OnHour(t)
    ensures Micros(t) == HourIndex(t) * MicrosPerHour
  {
  }

  /** Of two whole hours, one at most `m` and the other the last whole hour
      not after `m`, the first is not later. */
  lemma HourLattice(hu: int, hr: int, m: int)
    requires hu * MicrosPerHour <= m < hr * MicrosPerHour + MicrosPerHour
    ensures hu * MicrosPerHour <= hr * MicrosPerHour
  {
    if hu > hr {
      MulLe(hr + 1, hu, MicrosPerHour);
    }
    MulLe(hu, hr, MicrosPerHour);
  }

  /** Whole hours since 0001-01-01T00:00. */
  function HourIndex(t: DateTime): int {
    (DaysBeforeYear(t.year) + DaysBeforeMonth(t.year, t.month) + t.day - 1) * 24 + t.hour
  }

  // ------------------------------------------------------------ CF copy

  /** The driver names and the CF standard names the generic reader looks
      for. */
  const CfMapping: map<string, string> := map[
    "u_curr" := "eastward_sea_water_velocity",
    "v_curr" := "northward_sea_water_velocity",
    "u_wind" := "x_wind",
    "v_wind" := "y_wind",
    "u_stokes" := StokesX,
    "v_stokes" := StokesY]

  const StokesX: string := "sea_surface_wave_stokes_drift_x_velocity"
  const StokesY: string := "sea_surface_wave_stokes_drift_y_velocity"

  const VelocitySuffix: string := "_velocity"
  const VelocityUnits: string := "m s-1"

  /** The name a variable has in the CF copy. */
  function CfName(n: string): string {
    if n in CfMapping then CfMapping[n] else n
  }

  /** `{k: v for k, v in mapping.items() if k in ds}`. */
  function CfTable(ds: Dataset): (m: map<string, string>)
    ensures forall k :: k in m <==> k in CfMapping && Has(ds, k)
    ensures forall n :: Has(ds, n) ==> RenameName(m, n) == CfName(n)
  {
    map k | k in CfMapping && Has(ds, k) :: CfMapping[k]
  }

  /** `attrs.setdefault("units", "m s-1")` on a variable whose name ends
      in `_velocity`; every other variable is left alone. */
  function DefaultUnits(v: Variable): (r: Variable)
    ensures r.name == v.name && r.field.dims == v.field.dims && r.field.data == v.field.data
    ensures "units" in r.field.attrs <==> "units" in v.field.attrs || EndsWith(v.name, VelocitySuffix)
    ensures forall k :: k in v.field.attrs ==> k in r.field.attrs && r.field.attrs[k] == v.field.attrs[k]
    ensures forall k :: k in r.field.attrs && k != "units" ==> k in v.field.attrs
    ensures "units" !in v.field.attrs && EndsWith(v.name, VelocitySuffix) ==> r.field.attrs["units"] == VelocityUnits
  {
    if EndsWith(v.name, VelocitySuffix) && "units" !in v.field.attrs then
      v.(field := v.field.(attrs := v.field.attrs["units" := VelocityUnits]))
    else v
  }

  /** The units loop over `ds_cf.data_vars`; coordinates are not touched.
      Afterwards every `_velocity` variable has units, no existing
      attribute has changed, and variables with other names are exactly as
      they were. */
  function AddDefaultUnits(ds: Dataset): (r: Dataset)
    ensures r.coords == ds.coords && |r.vars| == |ds.vars|
    ensures forall i :: 0 <= i < |ds.vars| ==> r.vars[i] == DefaultUnits(ds.vars[i])
    ensures forall i :: 0 <= i < |ds.vars| && EndsWith(ds.vars[i].name, VelocitySuffix) ==>
      "units" in r.vars[i].field.attrs
    ensures forall i :: 0 <= i < |ds.vars| && !EndsWith(ds.vars[i].name, VelocitySuffix) ==>
      r.vars[i] == ds.vars[i]
    ensures forall i, k :: 0 <= i < |ds.vars| && k in ds.vars[i].field.attrs ==>
      k in r.vars[i].field.attrs && r.vars[i].field.attrs[k] == ds.vars[i].field.attrs[k]
  {
    Dataset(ds.coords, Map(ds.vars, DefaultUnits))
  }

  /** Defaulting the units twice is the same as once: an existing unit is
      never overwritten. */
  lemma DefaultUnitsIdempotent(v: Variable)
    ensures DefaultUnits(DefaultUnits(v)) == DefaultUnits(v)
    ensures "units" in v.field.attrs ==> DefaultUnits(v) == v
  {
  }

  /** `_make_cf_copy` without the file round trip: `latitude`/`longitude`
      coordinates become `lat`/`lon`, the driver names present become CF
      names, and velocity variables get default units. */
  function MakeCfCopy(ds: Dataset): (r: Result<Dataset>)
    requires WellFormed(ds)
    ensures r.Err? ==> r.error == RenameConflict
    ensures r.Ok? ==> CfCopyOf(ds, r.value)
  {
    var ds1 :- RenameLatLon(ds);
    var cf :- Rename(ds1, CfTable(ds1));
    CfRenamedFrom(ds, ds1, cf);
    Ok(AddDefaultUnits(cf))
  }

  /** `r` is a well-formed CF copy of `ds`. */
  predicate CfCopyOf(ds: Dataset, r: Dataset) {
    WellFormed(r) && CfRenamed(ds, r)
  }

  /** What the copy holds: every coordinate and variable in its place under
      its CF name, same data, the attributes kept, and `units` present
      exactly when it was or the new name ends in `_velocity`. */
  predicate CfRenamed(ds: Dataset, r: Dataset) {
    && |r.coords| == |ds.coords|
    && (forall i :: 0 <= i < |ds.coords| ==>
          r.coords[i] == Coord(CfName(LatLonName(ds.coords[i].name)), ds.coords[i].values))
    && |r.vars| == |ds.vars|
    && (forall i :: 0 <= i < |ds.vars| ==>
          && r.vars[i].name == CfName(ds.vars[i].name)
          && r.vars[i].field.data == ds.vars[i].field.data
          && (forall k :: k in ds.vars[i].field.attrs ==>
                k in r.vars[i].field.attrs && r.vars[i].field.attrs[k] == ds.vars[i].field.attrs[k])
          && ("units" in r.vars[i].field.attrs <==>
                "units" in ds.vars[i].field.attrs || EndsWith(r.vars[i].name, VelocitySuffix)))
  }

  lemma CfRenamedFrom(ds: Dataset, ds1: Dataset, cf: Dataset)
    requires WellFormed(ds)
    requires RenameLatLon(ds) == Ok(ds1)
    requires Rename(ds1, CfTable(ds1)) == Ok(cf)
    ensures CfCopyOf(ds, AddDefaultUnits(cf))
  {
    var m := LatLonTable(ds);
    var t := CfTable(ds1);
    assert Rename(ds, m) == Ok(ds1);
    forall i | 0 <= i < |ds.coords|
      ensures cf.coords[i] == Coord(CfName(LatLonName(ds.coords[i].name)), ds.coords[i].values)
    {
      assert ds1.coords[i] == Coord(LatLonName(ds.coords[i].name), ds.coords[i].values) by {
        RenamedLatLon(ds, ds1);
      }
      assert HasCoord(ds1, ds1.coords[i].name);
    }
    forall i | 0 <= i < |ds.vars|
      ensures cf.vars[i].name == CfName(ds.vars[i].name)
      ensures cf.vars[i].field.data == ds.vars[i].field.data
      ensures cf.vars[i].field.attrs == ds.vars[i].field.attrs
    {
      assert ds.vars[i].name !in m;
      assert ds1.vars[i] == Variable(ds.vars[i].name, RenameField(m, ds.vars[i].field));
      assert HasVar(ds1, ds1.vars[i].name);
    }
  }

  /** `use_stokes`: both Stokes drift components are among the reader's
      variables. */
  function UseStokes(variables: set<string>): (b: bool)
    ensures b ==> StokesX in variables && StokesY in variables
    ensures !b ==> StokesX !in variables || StokesY !in variables
  {
    StokesX in variables && StokesY in variables
  }

  /** The CF copy carries the x Stokes name exactly when the drivers had
      `u_stokes` or already the CF name, and likewise for y; so Stokes
      drift is switched on exactly when both components came through. */
  lemma UseStokesAfterCopy(ds: Dataset, r: Dataset)
    requires WellFormed(ds)
    requires MakeCfCopy(ds) == Ok(r)
    ensures StokesX in VarNames(r) <==> HasVar(ds, "u_stokes") || HasVar(ds, StokesX)
    ensures StokesY in VarNames(r) <==> HasVar(ds, "v_stokes") || HasVar(ds, StokesY)
    ensures UseStokes(VarNames(r)) <==>
      (HasVar(ds, "u_stokes") || HasVar(ds, StokesX)) && (HasVar(ds, "v_stokes") || HasVar(ds, StokesY))
  {
    CfNameCarried(ds, r, "u_stokes", StokesX);
    CfNameCarried(ds, r, "v_stokes", StokesY);
  }

  /** A CF name appears in the copy exactly when its driver name or the CF
      name itself was a variable of the original. */
  lemma CfNameCarried(ds: Dataset, r: Dataset, driver: string, cf: string)
    requires CfRenamed(ds, r)
    requires driver in CfMapping && CfMapping[driver] == cf
    ensures cf in VarNames(r) <==> HasVar(ds, driver) || HasVar(ds, cf)
  {
    CfNameInverse(cf, driver);
    if cf in VarNames(r) {
      var i :| 0 <= i < |r.vars| && r.vars[i].name == cf;
      assert HasVar(ds, ds.vars[i].name);
    }
    if HasVar(ds, driver) || HasVar(ds, cf) {
      var i :| 0 <= i < |ds.vars| && (ds.vars[i].name == driver || ds.vars[i].name == cf);
      assert r.vars[i].name in VarNames(r);
    }
  }

  /** The only names the CF table sends to a CF name are the driver name
      and the CF name itself. */
  lemma CfNameInverse(cf: string, driver: string)
    requires driver in CfMapping && CfMapping[driver] == cf
    ensures forall n :: CfName(n) == cf <==> n == driver || n == cf
  {
  }

  /** The stitched drivers file: six variables on `time`/`lat`/`lon`, with
      whatever attributes the currents and Stokes inputs brought along, and
      no `units` on the two wind components (the stacked winds are built
      without attributes). */
  predicate DriversFile(ds: Dataset) {
    && WellFormed(ds) && IsGrid(ds.coords)
    && |ds.vars| == |DriverNames|
    && forall i :: 0 <= i < |ds.vars| ==>
         && ds.vars[i].name == DriverNames[i]
         && (DriverNames[i] in {"u_wind", "v_wind"} ==> "units" !in ds.vars[i].field.attrs)
  }

  /** The stitched drivers file always converts, with Stokes drift switched
      on, units on the four velocity variables and none on the two wind
      components. */
  lemma DriversCfCopy(ds: Dataset)
    requires DriversFile(ds)
    ensures MakeCfCopy(ds).Ok?
    ensures UseStokes(VarNames(MakeCfCopy(ds).value))
    ensures forall i :: 0 <= i < |ds.vars| ==>
      ("units" in MakeCfCopy(ds).value.vars[i].field.attrs <==> DriverNames[i] !in {"u_wind", "v_wind"})
  {
    DriversConvert(ds);
    var r := MakeCfCopy(ds).value;
    assert HasVar(ds, DriverNames[2]) && HasVar(ds, DriverNames[3]);
    UseStokesAfterCopy(ds, r);
    DriverUnits(ds, r);
  }

  /** What `stitch_fields.py` writes is a drivers file in the sense above. */
  lemma StitchedDriversFile(curr: Dataset, stokesRaw: Dataset, gribs: seq<string>, read: string -> GribContents)
    requires WellFormed(curr) && WellFormed(stokesRaw)
    requires StitchDrivers(curr, stokesRaw, gribs, read).Ok?
    ensures DriversFile(StitchDrivers(curr, stokesRaw, gribs, read).value)
  {
    AssembledDriversFile(StitchDrivers(curr, stokesRaw, gribs, read).value,
                         DriverArrays(curr, stokesRaw, gribs, read).value);
  }

  lemma AssembledDriversFile(ds: Dataset, d: (seq<Coord>, seq<DataArray>))
    requires Assembled(ds, DriverNames, d) && IsGrid(d.0)
    requires "units" !in d.1[4].field.attrs && "units" !in d.1[5].field.attrs
    ensures DriversFile(ds)
  {
    assert ds.vars[4].field == d.1[4].field && ds.vars[5].field == d.1[5].field;
  }

  /** So the stitched drivers always convert to the CF copy, and Stokes
      drift is switched on for them. */
  lemma StitchedConverts(curr: Dataset, stokesRaw: Dataset, gribs: seq<string>, read: string -> GribContents)
    requires WellFormed(curr) && WellFormed(stokesRaw)
    requires StitchDrivers(curr, stokesRaw, gribs, read).Ok?
    ensures MakeCfCopy(StitchDrivers(curr, stokesRaw, gribs, read).value).Ok?
    ensures UseStokes(VarNames(MakeCfCopy(StitchDrivers(curr, stokesRaw, gribs, read).value).value))
  {
    StitchedDriversFile(curr, stokesRaw, gribs, read);
    DriversCfCopy(StitchDrivers(curr, stokesRaw, gribs, read).value);
  }

  /** In a CF copy of the drivers file the `units` attribute is on every
      variable but the two wind components. */
  lemma DriverUnits(ds: Dataset, r: Dataset)
    requires DriversFile(ds) && CfRenamed(ds, r)
    ensures forall i :: 0 <= i < |ds.vars| ==>
      ("units" in r.vars[i].field.attrs <==> DriverNames[i] !in {"u_wind", "v_wind"})
  {
    DriverCfNames();
  }

  /** Neither the lat/lon step nor the CF renaming finds a clash in the
      drivers file. */
  lemma DriversConvert(ds: Dataset)
    requires DriversFile(ds)
    ensures MakeCfCopy(ds).Ok?
  {
    GridKeepsLatLon(ds);
    DriverVarsApart(ds);
    DriverCoordsApart(ds);
    assert NoCollision(ds, CfTable(ds));
  }

  /** After the CF renaming the six driver variables still have six
      different names. */
  lemma DriverVarsApart(ds: Dataset)
    requires DriversFile(ds)
    ensures forall i, j :: 0 <= i < j < |ds.vars| ==>
      RenameName(CfTable(ds), ds.vars[i].name) != RenameName(CfTable(ds), ds.vars[j].name)
  {
    var t := CfTable(ds);
    DriverCfNamesApart();
    forall i, j | 0 <= i < j < |ds.vars|
      ensures RenameName(t, ds.vars[i].name) != RenameName(t, ds.vars[j].name)
    {
      assert HasVar(ds, ds.vars[i].name) && HasVar(ds, ds.vars[j].name);
    }
  }

  /** After the CF renaming the grid coordinates keep their names, which
      no driver variable takes. */
  lemma DriverCoordsApart(ds: Dataset)
    requires DriversFile(ds)
    ensures forall i, j :: 0 <= i < j < |ds.coords| ==>
      RenameName(CfTable(ds), ds.coords[i].name) != RenameName(CfTable(ds), ds.coords[j].name)
    ensures forall i, j :: 0 <= i < |ds.coords| && 0 <= j < |ds.vars| ==>
      RenameName(CfTable(ds), ds.coords[i].name) != RenameName(CfTable(ds), ds.vars[j].name)
  {
    var t := CfTable(ds);
    DriverCfNamesApart();
    forall i | 0 <= i < |ds.coords|
      ensures RenameName(t, ds.coords[i].name) == ds.coords[i].name
    {
      assert HasCoord(ds, ds.coords[i].name);
    }
    forall j | 0 <= j < |ds.vars|
      ensures RenameName(t, ds.vars[j].name) == CfName(DriverNames[j])
    {
      assert HasVar(ds, ds.vars[j].name);
    }
  }

  /** A `time`/`lat`/`lon` grid has nothing for `rename_latlon` to do. */
  lemma GridKeepsLatLon(ds: Dataset)
    requires WellFormed(ds) && IsGrid(ds.coords)
    ensures RenameLatLon(ds) == Ok(ds)
  {
    assert !HasCoord(ds, "latitude") && !HasCoord(ds, "longitude");
  }

  /** The CF names of the six drivers differ from each other and from the
      grid's coordinate names, which the CF table leaves alone. */
  lemma DriverCfNamesApart()
    ensures forall i, j :: 0 <= i < j < |DriverNames| ==> CfName(DriverNames[i]) != CfName(DriverNames[j])
    ensures forall i :: 0 <= i < |DriverNames| ==> CfName(DriverNames[i]) !in {"time", "lat", "lon"}
    ensures CfName("time") == "time" && CfName("lat") == "lat" && CfName("lon") == "lon"
  {
  }

  /** Of the six drivers, exactly the two wind components get CF names
      that do not end in `_velocity`. */
  lemma DriverCfNames()
    ensures forall i :: 0 <= i < |DriverNames| ==>
      (EndsWith(CfName(DriverNames[i]), VelocitySuffix) <==> DriverNames[i] !in {"u_wind", "v_wind"})
  {
  }

  // ------------------------------------------------------------- seeding

  /** The parts of `config/run_default.yaml` seeding reads; `None` is a
      missing key. */
  datatype RunConfig = RunConfig(points: Option<seq<seq<real>>>,
                                 members: Option<int>,
                                 timeSpreadMin: Option<int>)

  /** One `seed_elements` call: a site, the particle count and the release
      times (microseconds on the `Micros` line). */
  datatype Release = Release(lon: real, lat: real, number: int, times: seq<int>)

  const DefaultMembers: int := 20
  const NoPointsMessage: string := "No release points set in config/run_default.yaml: release.points"
  const MicrosPerMinute: int := 60 * MicrosPerSecond

  /** `int(k * time_spread / max(1, members - 1))`: minutes after the start
      at which member `k` is released. */
  function Offset(k: int, spread: int, members: int): int {
    TruncDiv(k * spread, if members - 1 > 1 then members - 1 else 1)
  }

  /** For a non-negative spread the first member starts at once, later
      members never start earlier, none starts after the spread, and with
      two or more members the last starts exactly at the spread. */
  lemma OffsetBounds(spread: int, members: int)
    requires spread >= 0
    ensures members >= 1 ==> Offset(0, spread, members) == 0
    ensures forall k1, k2 :: 0 <= k1 <= k2 < members ==> Offset(k1, spread, members) <= Offset(k2, spread, members)
    ensures forall k :: 0 <= k < members ==> 0 <= Offset(k, spread, members) <= spread
    ensures members >= 2 ==> Offset(members - 1, spread, members) == spread
  {
    forall k1, k2 | 0 <= k1 <= k2 < members
      ensures Offset(k1, spread, members) <= Offset(k2, spread, members)
    {
      OffsetMonotone(k1, k2, spread, members);
    }
    forall k | 0 <= k < members
      ensures 0 <= Offset(k, spread, members) <= spread
    {
      OffsetWithin(k, spread, members);
    }
    if members >= 2 {
      OffsetWithin(members - 1, spread, members);
    }
  }

  /** A later member never starts earlier. */
  lemma OffsetMonotone(k1: int, k2: int, spread: int, members: int)
    requires spread >= 0 && 0 <= k1 <= k2
    ensures Offset(k1, spread, members) <= Offset(k2, spread, members)
  {
    var d := if members - 1 > 1 then members - 1 else 1;
    if spread > 0 {
      MulLe(k1, k2, spread);
    }
    TruncDivMonotone(k1 * spread, k2 * spread, d);
  }

  /** A member within the ensemble starts within the spread, and the last
      of two or more starts exactly at it. */
  lemma OffsetWithin(k: int, spread: int, members: int)
    requires spread >= 0 && 0 <= k < members
    ensures 0 <= Offset(k, spread, members) <= spread
    ensures members >= 2 && k == members - 1 ==> Offset(k, spread, members) == spread
  {
    var d := if members - 1 > 1 then members - 1 else 1;
    var a := k * spread;
    assert Offset(k, spread, members) == TruncDiv(a, d);
    assert k <= d;
    if spread > 0 {
      MulLe(0, k, spread);
      MulLe(k, d, spread);
    }
    assert 0 <= a <= d * spread;
    TruncDivMonotone(0, a, d);
    TruncDivMonotone(a, d * spread, d);
    TruncDivExact(0, d);
    TruncDivExact(spread, d);
    if members >= 2 && k == members - 1 {
      assert a == d * spread;
    }
  }

  /** Dividing a whole multiple of `d` by `d` gives the multiplier back. */
  lemma TruncDivExact(q: nat, d: int)
    requires d > 0
    ensures TruncDiv(d * q, d) == q
  {
    MulLe(0, q, d);
    DivUnique(d * q, d, q, 0);
  }

  /** The release times of one site: the start plus each member's offset.
      With a non-negative spread they start at `t0`, never decrease, stay
      within the spread, and end at `t0` plus the spread when there are two
      or more members. */
  function ReleaseTimes(t0: int, members: int, spread: int): (ts: seq<int>)
    ensures |ts| == if members > 0 then members else 0
    ensures forall k :: 0 <= k < |ts| ==> ts[k] == t0 + Offset(k, spread, members) * MicrosPerMinute
    ensures spread >= 0 ==> SpansSpread(ts, t0, members, spread)
  {
    var ts := seq(if members > 0 then members else 0, k => t0 + Offset(k, spread, members) * MicrosPerMinute);
    if spread >= 0 then
      ReleaseTimesSpan(ts, t0, members, spread);
      ts
    else ts
  }

  /** Release times that start at `t0`, never decrease, stay within
      `spread` minutes of `t0` and, with two or more members, end exactly
      `spread` minutes after it. */
  predicate SpansSpread(ts: seq<int>, t0: int, members: int, spread: int) {
    && (members >= 1 ==> |ts| >= 1 && ts[0] == t0)
    && (forall i, j :: 0 <= i <= j < |ts| ==> ts[i] <= ts[j])
    && (forall i :: 0 <= i < |ts| ==> t0 <= ts[i] <= t0 + spread * MicrosPerMinute)
    && (members >= 2 ==> |ts| >= 1 && ts[|ts| - 1] == t0 + spread * MicrosPerMinute)
  }

  lemma ReleaseTimesSpan(ts: seq<int>, t0: int, members: int, spread: int)
    requires spread >= 0
    requires |ts| == if members > 0 then members else 0
    requires forall k :: 0 <= k < |ts| ==> ts[k] == t0 + Offset(k, spread, members) * MicrosPerMinute
    ensures SpansSpread(ts, t0, members, spread)
  {
    OffsetBounds(spread, members);
    forall i, j | 0 <= i <= j < |ts| ensures ts[i] <= ts[j] {
      MulLe(Offset(i, spread, members), Offset(j, spread, members), MicrosPerMinute);
    }
    forall i | 0 <= i < |ts| ensures t0 <= ts[i] <= t0 + spread * MicrosPerMinute {
      MulLe(0, Offset(i, spread, members), MicrosPerMinute);
      MulLe(Offset(i, spread, members), spread, MicrosPerMinute);
    }
  }

  /** `_seed_from_config`: SystemExit when there are no release points,
      IndexError when a point has fewer than two entries; otherwise one
      release per point, read as (lat, lon), each of `members` particles
      at the same offsets from the hour-rounded clock. */
  function SeedFromConfig(cfg: RunConfig, now: DateTime): (r: Result<seq<Release>>)
    requires now.Valid()
    ensures r.Err? ==> r.error == Exit(NoPointsMessage) || r.error == IndexOutOfRange
    ensures r.Err? && r.error == Exit(NoPointsMessage) <==> |cfg.points.GetOr([])| == 0
    ensures r.Ok? <==> |cfg.points.GetOr([])| > 0 && forall p :: p in cfg.points.GetOr([]) ==> |p| >= 2
    ensures r.Ok? ==> |r.value| == |cfg.points.GetOr([])|
    ensures r.Ok? ==> forall i :: 0 <= i < |r.value| ==>
      && r.value[i].lat == cfg.points.GetOr([])[i][0]
      && r.value[i].lon == cfg.points.GetOr([])[i][1]
      && r.value[i].number == cfg.members.GetOr(DefaultMembers)
      && r.value[i].times == ReleaseTimes(Micros(RoundHour(now)), cfg.members.GetOr(DefaultMembers),
                                          cfg.timeSpreadMin.GetOr(0))
  {
    var pts := cfg.points.GetOr([]);
    if |pts| == 0 then Err(Exit(NoPointsMessage))
    else if exists p :: p in pts && |p| < 2 then Err(IndexOutOfRange)
    else
      var members := cfg.members.GetOr(DefaultMembers);
      var t0 := Micros(RoundHourUtc(None, now));
      var times := ReleaseTimes(t0, members, cfg.timeSpreadMin.GetOr(0));
      Ok(seq(|pts|, i requires 0 <= i < |pts| => Release(pts[i][1], pts[i][0], members, times)))
  }

  /** The number of particles a list of releases seeds. */
  function TotalParticles(rs: seq<Release>): int {
    if |rs| == 0 then 0 else rs[0].number + TotalParticles(rs[1..])
  }

  /** Every site seeds the same number of particles, so the total is the
      number of sites times the ensemble size. */
  lemma {:induction false} TotalParticlesUniform(rs: seq<Release>, members: int)
    requires forall i :: 0 <= i < |rs| ==> rs[i].number == members
    ensures TotalParticles(rs) == |rs| * members
  {
    if |rs| > 0 {
      TotalParticlesUniform(rs[1..], members);
    }
  }

  lemma SeedTotal(cfg: RunConfig, now: DateTime)
    requires now.Valid()
    requires SeedFromConfig(cfg, now).Ok?
    ensures TotalParticles(SeedFromConfig(cfg, now).value) == |cfg.points.value| * cfg.members.GetOr(DefaultMembers)
  {
    TotalParticlesUniform(SeedFromConfig(cfg, now).value, cfg.members.GetOr(DefaultMembers));
  }

  // ------------------------------------------------------------- GeoJSON

  /** One entry of the engine's position arrays; `NaN` marks a particle
      with no position at that time. */
  datatype Sample = Num(x: real) | NaN

  /** A GeoJSON point feature: `[lon, lat]`, its time and the particle
      index. */
  datatype Feature = Feature(lon: real, lat: real, time: int, id: int)

  /** Arrays of shape `[time, elements]`, one row per time step. */
  predicate Shaped(a: seq<seq<Sample>>, rows: nat, width: nat) {
    |a| == rows && forall j :: 0 <= j < rows ==> |a[j]| == width
  }

  /** The cell (j, i) has both a longitude and a latitude. */
  predicate Located(lon: seq<seq<Sample>>, lat: seq<seq<Sample>>, j: int, i: int)
    requires 0 <= j < |lon| && 0 <= j < |lat| && 0 <= i < |lon[j]| && 0 <= i < |lat[j]|
  {
    lon[j][i].Num? && lat[j][i].Num?
  }

  /** (j, i) comes before (j', i') in time-major order. */
  predicate Before(a: (int, int), b: (int, int)) {
    a.0 < b.0 || (a.0 == b.0 && a.1 < b.1)
  }

  /** The cells of row `j` from column `i` on that have a position, in
      column order. */
  function RowCells(lon: seq<seq<Sample>>, lat: seq<seq<Sample>>, width: nat, j: nat, i: nat): seq<(int, int)>
    requires j < |lon| && j < |lat| && |lon[j]| == width && |lat[j]| == width
    decreases width - i
  {
    if i >= width then []
    else (if Located(lon, lat, j, i) then [(j, i)] else []) + RowCells(lon, lat, width, j, i + 1)
  }

  /** The cells of rows `j` onward that have a position, in time-major
      order: the order of the nested export loop. */
  function Cells(lon: seq<seq<Sample>>, lat: seq<seq<Sample>>, rows: nat, width: nat, j: nat): seq<(int, int)>
    requires Shaped(lon, rows, width) && Shaped(lat, rows, width)
    decreases rows - j
  {
    if j >= rows then [] else RowCells(lon, lat, width, j, 0) + Cells(lon, lat, rows, width, j + 1)
  }

  /** `r` lists, in increasing column order, exactly the columns of row `j`
      from `i` on whose cell has a position. */
  predicate RowCellsHold(lon: seq<seq<Sample>>, lat: seq<seq<Sample>>, width: nat, j: nat, i: nat, r: seq<(int, int)>)
    requires j < |lon| && j < |lat| && |lon[j]| == width && |lat[j]| == width
  {
    && (forall k :: 0 <= k < |r| ==> r[k].0 == j && i <= r[k].1 < width && Located(lon, lat, j, r[k].1))
    && (forall c :: i <= c < width && Located(lon, lat, j, c) ==> (j, c) in r)
    && (forall k1, k2 :: 0 <= k1 < k2 < |r| ==> r[k1].1 < r[k2].1)
  }

  /** `r` lists, in time-major order, exactly the cells of rows `j` onward
      that have a position. */
  predicate CellsHold(lon: seq<seq<Sample>>, lat: seq<seq<Sample>>, rows: nat, width: nat, j: nat, r: seq<(int, int)>)
    requires Shaped(lon, rows, width) && Shaped(lat, rows, width)
  {
    && (forall k :: 0 <= k < |r| ==> j <= r[k].0 < rows && 0 <= r[k].1 < width && Located(lon, lat, r[k].0, r[k].1))
    && (forall a, c :: j <= a < rows && 0 <= c < width && Located(lon, lat, a, c) ==> (a, c) in r)
    && (forall k1, k2 :: 0 <= k1 < k2 < |r| ==> Before(r[k1], r[k2]))
  }

  /** Row `j` from column `i` lists, in increasing column order, exactly
      the columns from `i` on whose cell has a position. */
  lemma {:induction false} RowCellsSpec(lon: seq<seq<Sample>>, lat: seq<seq<Sample>>, width: nat, j: nat, i: nat)
    requires j < |lon| && j < |lat| && |lon[j]| == width && |lat[j]| == width
    ensures RowCellsHold(lon, lat, width, j, i, RowCells(lon, lat, width, j, i))
    decreases width - i
  {
    if i < width {
      RowCellsSpec(lon, lat, width, j, i + 1);
      var here := if Located(lon, lat, j, i) then [(j, i)] else [];
      var rest := RowCells(lon, lat, width, j, i + 1);
      assert RowCells(lon, lat, width, j, i) == here + rest;
    }
  }

  /** Rows `j` onward list, in time-major order, exactly the cells of
      those rows that have a position. */
  lemma {:induction false} CellsSpec(lon: seq<seq<Sample>>, lat: seq<seq<Sample>>, rows: nat, width: nat, j: nat)
    requires Shaped(lon, rows, width) && Shaped(lat, rows, width)
    ensures CellsHold(lon, lat, rows, width, j, Cells(lon, lat, rows, width, j))
    decreases rows - j
  {
    if j < rows {
      var row, rest := RowCells(lon, lat, width, j, 0), Cells(lon, lat, rows, width, j + 1);
      RowCellsSpec(lon, lat, width, j, 0);
      CellsSpec(lon, lat, rows, width, j + 1);
      CellsJoin(lon, lat, rows, width, j, row, rest);
      assert Cells(lon, lat, rows, width, j) == row + rest;
    }
  }

  /** Row `j` followed by the rows after it lists the cells of rows `j`
      onward. */
  lemma CellsJoin(lon: seq<seq<Sample>>, lat: seq<seq<Sample>>, rows: nat, width: nat, j: nat,
                  row: seq<(int, int)>, rest: seq<(int, int)>)
    requires Shaped(lon, rows, width) && Shaped(lat, rows, width) && j < rows
    requires RowCellsHold(lon, lat, width, j, 0, row)
    requires CellsHold(lon, lat, rows, width, j + 1, rest)
    ensures CellsHold(lon, lat, rows, width, j, row + rest)
  {
    assert forall k :: 0 <= k < |row| ==> row[k].0 == j;
    assert forall k :: 0 <= k < |rest| ==> j < rest[k].0;
    assert forall k1, k2 :: 0 <= k1 < k2 < |row| ==> row[k1].1 < row[k2].1;
    CellsConcat(row, rest, j);
    forall a, c | j <= a < rows && 0 <= c < width && Located(lon, lat, a, c)
      ensures (a, c) in row + rest
    {
      if a == j {
        assert (a, c) in row;
      } else {
        assert (a, c) in rest;
      }
    }
  }

  lemma CellsConcat(row: seq<(int, int)>, rest: seq<(int, int)>, j: int)
    requires forall k :: 0 <= k < |row| ==> row[k].0 == j
    requires forall k :: 0 <= k < |rest| ==> j < rest[k].0
    requires forall k1, k2 :: 0 <= k1 < k2 < |row| ==> row[k1].1 < row[k2].1
    requires forall k1, k2 :: 0 <= k1 < k2 < |rest| ==> Before(rest[k1], rest[k2])
    ensures forall k1, k2 :: 0 <= k1 < k2 < |row + rest| ==> Before((row + rest)[k1], (row + rest)[k2])
  {
  }

  /** A cell of the arrays that has a position. */
  predicate ValidCell(t: seq<int>, lon: seq<seq<Sample>>, lat: seq<seq<Sample>>, c: (int, int)) {
    && 0 <= c.0 < |t| && c.0 < |lon| && c.0 < |lat|
    && 0 <= c.1 < |lon[c.0]| && c.1 < |lat[c.0]|
    && Located(lon, lat, c.0, c.1)
  }

  /** The feature the export writes for cell (j, i): `[lon, lat]`, the
      time of step j and the particle index i. */
  function FeatureAt(t: seq<int>, lon: seq<seq<Sample>>, lat: seq<seq<Sample>>, c: (int, int)): Feature
    requires ValidCell(t, lon, lat, c)
  {
    Feature(lon[c.0][c.1].x, lat[c.0][c.1].x, t[c.0], c.1)
  }

  /** `fs` are the features of `cells`, one for one. */
  predicate Renders(t: seq<int>, lon: seq<seq<Sample>>, lat: seq<seq<Sample>>, fs: seq<Feature>, cells: seq<(int, int)>) {
    && |fs| == |cells|
    && forall k :: 0 <= k < |cells| ==> ValidCell(t, lon, lat, cells[k]) && fs[k] == FeatureAt(t, lon, lat, cells[k])
  }

  lemma RendersAppend(t: seq<int>, lon: seq<seq<Sample>>, lat: seq<seq<Sample>>,
                      fs1: seq<Feature>, c1: seq<(int, int)>, fs2: seq<Feature>, c2: seq<(int, int)>)
    requires Renders(t, lon, lat, fs1, c1) && Renders(t, lon, lat, fs2, c2)
    ensures Renders(t, lon, lat, fs1 + fs2, c1 + c2)
  {
    forall k | 0 <= k < |c1 + c2|
      ensures ValidCell(t, lon, lat, (c1 + c2)[k]) && (fs1 + fs2)[k] == FeatureAt(t, lon, lat, (c1 + c2)[k])
    {
      if k >= |c1| {
        assert (c1 + c2)[k] == c2[k - |c1|] && (fs1 + fs2)[k] == fs2[k - |c1|];
      }
    }
  }

  /** The export loop of `main`: for each time step in order, for each
      particle in order, a feature when neither coordinate is NaN. The
      engine returns `lon` and `lat` with one row per entry of `t`. */
  method ExportFeatures(t: seq<int>, lon: seq<seq<Sample>>, lat: seq<seq<Sample>>, width: nat)
      returns (features: seq<Feature>)
    requires Shaped(lon, |t|, width) && Shaped(lat, |t|, width)
    ensures Renders(t, lon, lat, features, Cells(lon, lat, |t|, width, 0))
  {
    features := [];
    var j := 0;
    while j < |t|
      invariant 0 <= j <= |t|
      invariant Cells(lon, lat, |t|, width, 0) == Done(lon, lat, |t|, width, j) + Cells(lon, lat, |t|, width, j)
      invariant Renders(t, lon, lat, features, Done(lon, lat, |t|, width, j))
    {
      var row := ExportRow(t, lon, lat, width, j);
      DoneStep(lon, lat, |t|, width, j);
      RendersAppend(t, lon, lat, features, Done(lon, lat, |t|, width, j), row, RowCells(lon, lat, width, j, 0));
      features := features + row;
      j := j + 1;
    }
  }

  /** The inner loop of the export: the features of time step `j`, in
      particle order. */
  method ExportRow(t: seq<int>, lon: seq<seq<Sample>>, lat: seq<seq<Sample>>, width: nat, j: nat)
      returns (row: seq<Feature>)
    requires j < |t| && j < |lon| && j < |lat| && |lon[j]| == width && |lat[j]| == width
    ensures Renders(t, lon, lat, row, RowCells(lon, lat, width, j, 0))
  {
    var i := 0;
    row := [];
    while i < width
      invariant 0 <= i <= width
      invariant RowCells(lon, lat, width, j, 0) == RowDone(lon, lat, width, j, i) + RowCells(lon, lat, width, j, i)
      invariant Renders(t, lon, lat, row, RowDone(lon, lat, width, j, i))
    {
      RowDoneStep(lon, lat, width, j, i);
      if lon[j][i].Num? && lat[j][i].Num? {
        RendersAppend(t, lon, lat, row, RowDone(lon, lat, width, j, i), [Feature(lon[j][i].x, lat[j][i].x, t[j], i)], [(j, i)]);
        row := row + [Feature(lon[j][i].x, lat[j][i].x, t[j], i)];
      }
      i := i + 1;
    }
  }

  /** The cells of rows before `j`. */
  function Done(lon: seq<seq<Sample>>, lat: seq<seq<Sample>>, rows: nat, width: nat, j: nat): (r: seq<(int, int)>)
    requires Shaped(lon, rows, width) && Shaped(lat, rows, width) && j <= rows
    decreases j
  {
    if j == 0 then [] else Done(lon, lat, rows, width, j - 1) + RowCells(lon, lat, width, j - 1, 0)
  }

  /** The cells of row `j` before column `i`. */
  function RowDone(lon: seq<seq<Sample>>, lat: seq<seq<Sample>>, width: nat, j: nat, i: nat): (r: seq<(int, int)>)
    requires j < |lon| && j < |lat| && |lon[j]| == width && |lat[j]| == width && i <= width
    decreases i
  {
    if i == 0 then []
    else RowDone(lon, lat, width, j, i - 1) + (if Located(lon, lat, j, i - 1) then [(j, i - 1)] else [])
  }

  lemma RowDoneStep(lon: seq<seq<Sample>>, lat: seq<seq<Sample>>, width: nat, j: nat, i: nat)
    requires j < |lon| && j < |lat| && |lon[j]| == width && |lat[j]| == width && i < width
    requires RowCells(lon, lat, width, j, 0) == RowDone(lon, lat, width, j, i) + RowCells(lon, lat, width, j, i)
    ensures RowCells(lon, lat, width, j, 0) == RowDone(lon, lat, width, j, i + 1) + RowCells(lon, lat, width, j, i + 1)
    ensures RowDone(lon, lat, width, j, i + 1) ==
      RowDone(lon, lat, width, j, i) + if Located(lon, lat, j, i) then [(j, i)] else []
  {
    var here := if Located(lon, lat, j, i) then [(j, i)] else [];
    var a, b := RowDone(lon, lat, width, j, i), RowCells(lon, lat, width, j, i + 1);
    assert RowCells(lon, lat, width, j, i) == here + b;
    assert RowDone(lon, lat, width, j, i + 1) == a + here;
    SeqAssoc(a, here, b);
  }

  lemma SeqAssoc<T>(a: seq<T>, b: seq<T>, c: seq<T>)
    ensures a + (b + c) == (a + b) + c
  {
  }

  lemma DoneStep(lon: seq<seq<Sample>>, lat: seq<seq<Sample>>, rows: nat, width: nat, j: nat)
    requires Shaped(lon, rows, width) && Shaped(lat, rows, width) && j < rows
    requires Cells(lon, lat, rows, width, 0) == Done(lon, lat, rows, width, j) + Cells(lon, lat, rows, width, j)
    ensures Cells(lon, lat, rows, width, 0) == Done(lon, lat, rows, width, j + 1) + Cells(lon, lat, rows, width, j + 1)
    ensures Done(lon, lat, rows, width, j + 1) == Done(lon, lat, rows, width, j) + RowCells(lon, lat, width, j, 0)
  {
    var row, a, b := RowCells(lon, lat, width, j, 0), Done(lon, lat, rows, width, j), Cells(lon, lat, rows, width, j + 1);
    assert Cells(lon, lat, rows, width, j) == row + b;
    assert Done(lon, lat, rows, width, j + 1) == a + row;
    SeqAssoc(a, row, b);
  }

  /** A cell is exported exactly when it is in range and neither of its
      coordinates is NaN, and the export lists cells time step by time
      step, particles in index order within a step. */
  lemma ExportedCells(t: seq<int>, lon: seq<seq<Sample>>, lat: seq<seq<Sample>>, width: nat, j: int, i: int)
    requires Shaped(lon, |t|, width) && Shaped(lat, |t|, width)
    ensures (j, i) in Cells(lon, lat, |t|, width, 0) <==>
      0 <= j < |t| && 0 <= i < width && lon[j][i].Num? && lat[j][i].Num?
    ensures forall k1, k2 :: 0 <= k1 < k2 < |Cells(lon, lat, |t|, width, 0)| ==>
      Before(Cells(lon, lat, |t|, width, 0)[k1], Cells(lon, lat, |t|, width, 0)[k2])
  {
    CellsSpec(lon, lat, |t|, width, 0);
  }
}
