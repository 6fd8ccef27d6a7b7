/** Driver stitching (src/fetch/stitch_fields.py): resolving provider
    variable names, normalising coordinate labels, regridding Stokes drift
    onto the currents grid, building the hourly axis, and composing the
    six driver variables on the currents' time/lat/lon.
 */
module Stitch {
  import opened Results
  import opened Text
  import opened Datasets
  import opened Sorting
  import opened WindStack

  /** Accepted spellings of the Stokes drift components, in priority order
      (the definition of `_load_cmems_stokes` that takes effect). */
  const StokesUNames: seq<string> := ["ustokes", "uuss", "us"]
  const StokesVNames: seq<string> := ["vstokes", "vvss", "vs"]

  const SecondsPerHour: int := 3600

  // ------------------------------------------------------ variable resolver

  /** Index of the first candidate at or after `i` that the dataset has. */
  function FindFrom(ds: Dataset, candidates: seq<string>, i: nat): (r: Option<nat>)
    requires i <= |candidates|
    ensures r.Some? ==> i <= r.value < |candidates| && Has(ds, candidates[r.value])
    ensures r.Some? ==> forall j :: i <= j < r.value ==> !Has(ds, candidates[j])
    ensures r.None? ==> forall j :: i <= j < |candidates| ==> !Has(ds, candidates[j])
    decreases |candidates| - i
  {
    if i == |candidates| then None
    else if Has(ds, candidates[i]) then Some(i)
    else FindFrom(ds, candidates, i + 1)
  }

  /** `_find_var`: the first candidate, in list order, that the dataset has;
      KeyError naming the whole list when there is none. */
  function FindVar(ds: Dataset, candidates: seq<string>): (r: Result<string>)
    ensures r.Ok? ==> exists i :: 0 <= i < |candidates| && candidates[i] == r.value &&
                                  Has(ds, r.value) && forall j :: 0 <= j < i ==> !Has(ds, candidates[j])
    ensures r.Err? ==> r.error == MissingVariable(candidates)
    ensures r.Err? ==> forall j :: 0 <= j < |candidates| ==> !Has(ds, candidates[j])
  {
    match FindFrom(ds, candidates, 0)
    case Some(i) => Ok(candidates[i])
    case None => Err(MissingVariable(candidates))
  }

  /** Priority: when candidate `i` is present, the resolver succeeds with a
      candidate listed no later than `i`; with every earlier one absent, it
      returns exactly candidate `i`. */
  lemma FindVarPriority(ds: Dataset, candidates: seq<string>, i: int)
    requires 0 <= i < |candidates| && Has(ds, candidates[i])
    ensures FindVar(ds, candidates).Ok?
    ensures (forall j :: 0 <= j < i ==> !Has(ds, candidates[j])) ==>
              FindVar(ds, candidates) == Ok(candidates[i])
  {
    var r := FindVar(ds, candidates);
    if r.Ok? && forall j :: 0 <= j < i ==> !Has(ds, candidates[j]) {
      var k :| 0 <= k < |candidates| && candidates[k] == r.value && Has(ds, r.value) &&
               forall j :: 0 <= j < k ==> !Has(ds, candidates[j]);
      assert !(k < i);
      assert !(i < k);
    }
  }

  // ------------------------------------------------- coordinate normaliser

  /** Index of the first coordinate at or after `i` whose name contains the
      (case-sensitive) substring "time". */
  function FirstTimeLike(cs: seq<Coord>, i: nat): (r: Option<nat>)
    requires i <= |cs|
    ensures r.Some? ==> i <= r.value < |cs| && Contains("time", cs[r.value].name)
    ensures r.Some? ==> forall j :: i <= j < r.value ==> !Contains("time", cs[j].name)
    ensures r.None? ==> forall j :: i <= j < |cs| ==> !Contains("time", cs[j].name)
    decreases |cs| - i
  {
    if i == |cs| then None
    else if Contains("time", cs[i].name) then Some(i)
    else FirstTimeLike(cs, i + 1)
  }

  /** The time-coordinate step of the Stokes loader: keep a `time`
      coordinate if there is one, else rename the first coordinate whose
      name contains "time"; IndexError when there is none. */
  function NormaliseTime(ds: Dataset): (r: Result<Dataset>)
    requires WellFormed(ds)
    ensures HasCoord(ds, "time") ==> r == Ok(ds)
    ensures r.Ok? ==> WellFormed(r.value) && HasCoord(r.value, "time")
    ensures r.Ok? ==> SameVarsData(ds, r.value)
    ensures (r.Err? && r.error == IndexOutOfRange) <==>
            forall j :: 0 <= j < |ds.coords| ==> !Contains("time", ds.coords[j].name)
    ensures r.Ok? && !HasCoord(ds, "time") ==>
            exists i :: 0 <= i < |ds.coords| && Contains("time", ds.coords[i].name) &&
                        (forall j :: 0 <= j < i ==> !Contains("time", ds.coords[j].name)) &&
                        CoordValues(r.value, "time") == Ok(ds.coords[i].values)
  {
    if HasCoord(ds, "time") then
      assert exists i :: 0 <= i < |ds.coords| && Contains("time", ds.coords[i].name) by {
        var i :| 0 <= i < |ds.coords| && ds.coords[i].name == "time";
        assert Contains("time", "time");
      }
      Ok(ds)
    else
      match FirstTimeLike(ds.coords, 0)
      case None => Err(IndexOutOfRange)
      case Some(i) =>
        var r := Rename(ds, map[ds.coords[i].name := "time"]);
        if r.Ok? then
          RenamedCoordValues(ds, "time", i);
          r
        else
          r
  }

  /** After renaming one coordinate, its values are found under the new
      name and the data variables are untouched. */
  lemma RenamedCoordValues(ds: Dataset, to: string, i: int)
    requires WellFormed(ds)
    requires 0 <= i < |ds.coords|
    requires Rename(ds, map[ds.coords[i].name := to]).Ok?
    ensures CoordValues(Rename(ds, map[ds.coords[i].name := to]).value, to) == Ok(ds.coords[i].values)
    ensures SameVarsData(ds, Rename(ds, map[ds.coords[i].name := to]).value)
  {
    var m := map[ds.coords[i].name := to];
    var r := Rename(ds, m).value;
    assert r.coords[i] == Coord(to, ds.coords[i].values);
    CoordValuesAt(r, i);
    forall k | 0 <= k < |ds.vars| ensures r.vars[k].name == ds.vars[k].name {
      assert ds.vars[k].name != ds.coords[i].name;
    }
  }

  /** Normalising the time coordinate twice is the same as once. */
  lemma NormaliseTimeIdempotent(ds: Dataset)
    requires WellFormed(ds)
    requires NormaliseTime(ds).Ok?
    ensures NormaliseTime(NormaliseTime(ds).value) == NormaliseTime(ds)
  {
  }

  /** The data variables are the same, in the same order, with the same
      contents (their dimension labels may have been renamed). */
  predicate SameVarsData(a: Dataset, b: Dataset) {
    && |a.vars| == |b.vars|
    && forall i :: 0 <= i < |a.vars| ==>
         a.vars[i].name == b.vars[i].name && a.vars[i].field.data == b.vars[i].field.data
  }

  // ---------------------------------------------------------- Stokes loader

  /** The effective `_load_cmems_stokes` (the second definition, which
      shadows the first): resolve the two components by priority, rename
      them to `u_stokes`/`v_stokes`, normalise the time coordinate and keep
      only those two variables. */
  function LoadStokes(ds: Dataset): (r: Result<Dataset>)
    requires WellFormed(ds)
    ensures FindVar(ds, StokesUNames).Err? ==> r == Err(MissingVariable(StokesUNames))
    ensures FindVar(ds, StokesUNames).Ok? && FindVar(ds, StokesVNames).Err? ==>
              r == Err(MissingVariable(StokesVNames))
    ensures r.Ok? ==> WellFormed(r.value)
    ensures r.Ok? ==> forall i :: 0 <= i < |r.value.vars| ==> r.value.vars[i].name in StokesNames
  {
    var u :- FindVar(ds, StokesUNames);
    var v :- FindVar(ds, StokesVNames);
    var renamed :- Rename(ds, map[u := "u_stokes", v := "v_stokes"]);
    var timed :- NormaliseTime(renamed);
    StokesNamesDistinct();
    Subset(timed, StokesNames)
  }

  const StokesNames: seq<string> := ["u_stokes", "v_stokes"]

  lemma StokesNamesDistinct()
    ensures Distinct(StokesNames)
  {
  }

  /** The loaded `u_stokes` and `v_stokes` carry the contents of the
      spellings the resolver picked. */
  lemma LoadStokesContents(ds: Dataset)
    requires WellFormed(ds)
    requires LoadStokes(ds).Ok?
    ensures StokesComponent(ds, FindVar(ds, StokesUNames).value, LoadStokes(ds).value, "u_stokes")
    ensures StokesComponent(ds, FindVar(ds, StokesVNames).value, LoadStokes(ds).value, "v_stokes")
  {
    StokesNamesDistinct();
    var m, renamed, timed := LoadStokesStages(ds);
    LoadStokesStep(ds, m, FindVar(ds, StokesUNames).value, "u_stokes", renamed, timed, StokesNames);
    LoadStokesStep(ds, m, FindVar(ds, StokesVNames).value, "v_stokes", renamed, timed, StokesNames);
  }

  /** The intermediate datasets of a successful load. */
  lemma LoadStokesStages(ds: Dataset) returns (m: map<string, string>, renamed: Dataset, timed: Dataset)
    requires WellFormed(ds)
    requires LoadStokes(ds).Ok?
    ensures FindVar(ds, StokesUNames).Ok? && FindVar(ds, StokesVNames).Ok?
    ensures m == map[FindVar(ds, StokesUNames).value := "u_stokes", FindVar(ds, StokesVNames).value := "v_stokes"]
    ensures FindVar(ds, StokesUNames).value in m && FindVar(ds, StokesVNames).value in m
    ensures m[FindVar(ds, StokesUNames).value] == "u_stokes" && m[FindVar(ds, StokesVNames).value] == "v_stokes"
    ensures WellFormed(renamed) && WellFormed(timed)
    ensures Rename(ds, m) == Ok(renamed) && SameVarsData(renamed, timed)
    ensures Distinct(StokesNames) && LoadStokes(ds) == Subset(timed, StokesNames)
  {
    StokesNamesDistinct();
    var u := FindVar(ds, StokesUNames).value;
    var v := FindVar(ds, StokesVNames).value;
    assert u in StokesUNames && v in StokesVNames;
    assert u != v;
    m := map[u := "u_stokes", v := "v_stokes"];
    renamed := Rename(ds, m).value;
    timed := NormaliseTime(renamed).value;
  }

  /** One component through the rename, the time normalisation and the
      subset of the loader. */
  lemma LoadStokesStep(ds: Dataset, m: map<string, string>, src: string, dst: string,
                       renamed: Dataset, timed: Dataset, names: seq<string>)
    requires WellFormed(ds) && WellFormed(renamed) && WellFormed(timed)
    requires src in m && m[src] == dst && dst in names && Distinct(names)
    requires Rename(ds, m) == Ok(renamed)
    requires SameVarsData(renamed, timed)
    requires Subset(timed, names).Ok?
    ensures StokesComponent(ds, src, Subset(timed, names).value, dst)
  {
    RenamedVar(ds, m, src, renamed);
    SameVarsField(renamed, timed, dst);
    SubsetField(timed, names, dst);
  }

  /** When the resolved spelling `src` is a data variable, the loaded
      dataset's `dst` holds its contents. */
  predicate StokesComponent(ds: Dataset, src: string, r: Dataset, dst: string) {
    HasVar(ds, src) ==>
      VarField(r, dst).Ok? && VarField(r, dst).value.data == VarField(ds, src).value.data
  }

  lemma RenamedVar(ds: Dataset, m: map<string, string>, n: string, r: Dataset)
    requires WellFormed(ds)
    requires n in m
    requires Rename(ds, m) == Ok(r)
    ensures HasVar(ds, n) ==>
      VarField(r, m[n]).Ok? && VarField(r, m[n]).value.data == VarField(ds, n).value.data
  {
    if HasVar(ds, n) {
      var i :| 0 <= i < |ds.vars| && ds.vars[i].name == n;
      VarFieldAt(ds, i);
      VarFieldAt(r, i);
    }
  }

  lemma SameVarsField(a: Dataset, b: Dataset, n: string)
    requires WellFormed(a) && WellFormed(b)
    requires SameVarsData(a, b)
    ensures VarField(a, n).Ok? ==>
      VarField(b, n).Ok? && VarField(b, n).value.data == VarField(a, n).value.data
  {
    if VarField(a, n).Ok? {
      var i :| 0 <= i < |a.vars| && a.vars[i].name == n;
      VarFieldAt(a, i);
      VarFieldAt(b, i);
    }
  }

  lemma SubsetField(ds: Dataset, names: seq<string>, n: string)
    requires WellFormed(ds)
    requires Distinct(names)
    requires n in names
    requires Subset(ds, names).Ok?
    ensures VarField(ds, n).Ok? ==> VarField(Subset(ds, names).value, n) == VarField(ds, n)
  {
    var r := Subset(ds, names).value;
    if VarField(ds, n).Ok? {
      var j :| 0 <= j < |names| && names[j] == n;
      assert HasVar(r, n);
      var i :| 0 <= i < |r.vars| && r.vars[i].name == n;
      VarFieldAt(r, i);
    }
  }

  // ------------------------------------------------------- lat/lon renaming

  /** The rename table of `rename_latlon`: only labels present as coordinates. */
  function LatLonTable(ds: Dataset): map<string, string> {
    (if HasCoord(ds, "latitude") then map["latitude" := "lat"] else map[])
      + (if HasCoord(ds, "longitude") then map["longitude" := "lon"] else map[])
  }

  /** The label a coordinate gets from `rename_latlon`. */
  function LatLonName(n: string): string {
    if n == "latitude" then "lat" else if n == "longitude" then "lon" else n
  }

  /** `rename_latlon`: `latitude` becomes `lat` and `longitude` becomes `lon`
      when present as coordinates; every other name is kept. */
  function RenameLatLon(ds: Dataset): (r: Result<Dataset>)
    requires WellFormed(ds)
    ensures r.Ok? ==> WellFormed(r.value) && LatLonRenamed(ds, r.value)
    ensures !HasCoord(ds, "latitude") && !HasCoord(ds, "longitude") ==> r == Ok(ds)
  {
    var m := LatLonTable(ds);
    if m == map[] then
      RenameNothing(ds);
      Rename(ds, m)
    else
      var r := Rename(ds, m);
      if r.Ok? then
        RenamedLatLon(ds, r.value);
        r
      else
        r
  }

  /** `r` is `ds` with its coordinates relabelled by `LatLonName` and the
      same data variables; no `latitude` or `longitude` coordinate is left. */
  predicate LatLonRenamed(ds: Dataset, r: Dataset) {
    && |r.coords| == |ds.coords|
    && (forall i :: 0 <= i < |ds.coords| ==>
          r.coords[i] == Coord(LatLonName(ds.coords[i].name), ds.coords[i].values))
    && SameVarsData(ds, r)
    && !HasCoord(r, "latitude") && !HasCoord(r, "longitude")
  }

  lemma RenamedLatLon(ds: Dataset, r: Dataset)
    requires WellFormed(ds)
    requires Rename(ds, LatLonTable(ds)) == Ok(r)
    ensures LatLonRenamed(ds, r)
  {
    var m := LatLonTable(ds);
    forall i | 0 <= i < |ds.coords|
      ensures r.coords[i] == Coord(LatLonName(ds.coords[i].name), ds.coords[i].values)
    {
      assert RenameName(m, ds.coords[i].name) == LatLonName(ds.coords[i].name);
    }
    forall k | 0 <= k < |ds.vars| ensures r.vars[k].name == ds.vars[k].name {
      assert ds.vars[k].name !in m;
    }
  }

  /** Renaming lat/lon labels twice is the same as once. */
  lemma RenameLatLonIdempotent(ds: Dataset)
    requires WellFormed(ds)
    requires RenameLatLon(ds).Ok?
    ensures RenameLatLon(RenameLatLon(ds).value) == RenameLatLon(ds)
  {
  }

  // ---------------------------------------------------------- grid reconciler

  /** Both axes of `s` equal the currents axes. */
  predicate OnCurrentsGrid(curr: Dataset, s: Dataset) {
    && HasCoord(curr, "lat") && HasCoord(curr, "lon")
    && CoordValues(s, "lat") == CoordValues(curr, "lat")
    && CoordValues(s, "lon") == CoordValues(curr, "lon")
  }

  predicate HasLatLon(ds: Dataset) {
    HasCoord(ds, "lat") && HasCoord(ds, "lon")
  }

  /** `stok.interp(lat=curr.lat, lon=curr.lon)`: fails unless both
      datasets have both axes; afterwards Stokes is on the currents'
      horizontal axes with its time axis untouched. */
  function RegridOnto(curr: Dataset, stok: Dataset): (r: Result<Dataset>)
    requires WellFormed(stok)
    ensures r.Ok? <==> HasLatLon(curr) && HasLatLon(stok)
    ensures r.Ok? ==> Regridded(curr, stok, r.value)
  {
    var lat :- CoordValues(curr, "lat");
    var lon :- CoordValues(curr, "lon");
    var targets := [Coord("lat", lat), Coord("lon", lon)];
    var s :- Interp(stok, targets);
    InterpLatLon(stok, lat, lon);
    InterpKeepsOthers(stok, targets, "time");
    Ok(s)
  }

  lemma InterpLatLon(stok: Dataset, lat: seq<int>, lon: seq<int>)
    requires WellFormed(stok)
    requires Interp(stok, [Coord("lat", lat), Coord("lon", lon)]).Ok?
    ensures
      var s := Interp(stok, [Coord("lat", lat), Coord("lon", lon)]).value;
      CoordValues(s, "lat") == Ok(lat) && CoordValues(s, "lon") == Ok(lon)
  {
    InterpLatLonAxis(stok, [Coord("lat", lat), Coord("lon", lon)], 0);
    InterpLatLonAxis(stok, [Coord("lat", lat), Coord("lon", lon)], 1);
  }

  lemma InterpLatLonAxis(stok: Dataset, targets: seq<Coord>, j: int)
    requires WellFormed(stok)
    requires |targets| == 2 && targets[0].name == "lat" && targets[1].name == "lon"
    requires j == 0 || j == 1
    requires Interp(stok, targets).Ok?
    ensures CoordValues(Interp(stok, targets).value, targets[j].name) == Ok(targets[j].values)
  {
    InterpSetsTarget(stok, targets, j);
  }

  /** `s` is Stokes put on the currents' horizontal axes, time untouched. */
  predicate Regridded(curr: Dataset, stok: Dataset, s: Dataset) {
    && WellFormed(s)
    && HasLatLon(curr) && HasLatLon(stok)
    && OnCurrentsGrid(curr, s)
    && CoordValues(s, "time") == CoordValues(stok, "time")
  }

  /** One pass of the regrid loop for axis `d`: compare the Stokes axis with
      the currents axis and, when they differ, interpolate Stokes onto both
      currents axes. The flag says whether it regridded. */
  function RegridStep(curr: Dataset, stok: Dataset, d: string): (r: Result<(Dataset, bool)>)
    requires WellFormed(stok)
    requires d == "lat" || d == "lon"
    ensures r.Ok? ==> HasCoord(curr, d) && HasCoord(stok, d)
    ensures r.Ok? ==> (r.value.1 <==> CoordValues(stok, d) != CoordValues(curr, d))
    ensures r.Ok? && !r.value.1 ==> r.value.0 == stok
    ensures r.Ok? && r.value.1 ==> Regridded(curr, stok, r.value.0)
    ensures HasLatLon(curr) && HasLatLon(stok) ==> r.Ok?
  {
    var a :- CoordValues(curr, d);
    var b :- CoordValues(stok, d);
    if a == b then Ok((stok, false))
    else
      var s :- RegridOnto(curr, stok);
      Ok((s, true))
  }

  /** The regrid loop of `main` over ("lat", "lon"), with the number of
      regrids it performed. It succeeds exactly when both datasets have
      `lat` and `lon`; afterwards the Stokes axes equal the currents axes
      and its time axis is untouched; at most one regrid happens, and when
      both axes already agree the Stokes dataset comes back as it was. */
  function RegridStokes(curr: Dataset, stok: Dataset): (r: Result<(Dataset, nat)>)
    requires WellFormed(stok)
    ensures r.Ok? <==> HasLatLon(curr) && HasLatLon(stok)
    ensures r.Ok? ==> WellFormed(r.value.0)
    ensures r.Ok? ==> OnCurrentsGrid(curr, r.value.0)
    ensures r.Ok? ==> CoordValues(r.value.0, "time") == CoordValues(stok, "time")
    ensures r.Ok? ==> r.value.1 <= 1
    ensures r.Ok? && OnCurrentsGrid(curr, stok) ==> r.value == (stok, 0)
  {
    var s1 :- RegridStep(curr, stok, "lat");
    var s2 :- RegridStep(curr, s1.0, "lon");
    Ok((s2.0, (if s1.1 then 1 else 0) + (if s2.1 then 1 else 0)))
  }

  // ----------------------------------------------------------- time axis

  function SeqMin(s: seq<int>): (m: int)
    requires |s| > 0
    ensures m in s && forall i :: 0 <= i < |s| ==> m <= s[i]
  {
    if |s| == 1 then s[0]
    else
      var m := SeqMin(s[1..]);
      assert forall i :: 1 <= i < |s| ==> s[i] == s[1..][i - 1];
      if s[0] <= m then s[0] else m
  }

  function SeqMax(s: seq<int>): (m: int)
    requires |s| > 0
    ensures m in s && forall i :: 0 <= i < |s| ==> s[i] <= m
  {
    if |s| == 1 then s[0]
    else
      var m := SeqMax(s[1..]);
      assert forall i :: 1 <= i < |s| ==> s[i] == s[1..][i - 1];
      if s[0] >= m then s[0] else m
  }

  /** `date_range(t0, t1, freq="1H")`: the instants t0, t0 + 1h, ... that do
      not pass t1 (seconds). */
  function HourlyAxis(t0: int, t1: int): (axis: seq<int>)
    ensures forall i :: 0 <= i < |axis| ==> axis[i] == t0 + i * SecondsPerHour
    ensures t1 < t0 ==> axis == []
    ensures t0 <= t1 ==> |axis| > 0 && axis[|axis| - 1] <= t1 < axis[|axis| - 1] + SecondsPerHour
    decreases t1 - t0
  {
    if t1 < t0 then [] else [t0] + HourlyAxis(t0 + SecondsPerHour, t1)
  }

  /** An instant is on the hourly axis exactly when it lies in [t0, t1] a
      whole number of hours after t0; in particular t1 itself is on the
      axis exactly when t1 - t0 is a multiple of an hour. */
  lemma HourlyAxisMembers(t0: int, t1: int, t: int)
    ensures t in HourlyAxis(t0, t1) <==> t0 <= t <= t1 && (t - t0) % SecondsPerHour == 0
  {
    var axis := HourlyAxis(t0, t1);
    if t0 <= t <= t1 && (t - t0) % SecondsPerHour == 0 {
      var k := (t - t0) / SecondsPerHour;
      assert t == t0 + k * SecondsPerHour;
      assert axis[k] == t;
    }
    if t in axis {
      var k :| 0 <= k < |axis| && axis[k] == t;
      assert axis[k] <= axis[|axis| - 1] by {
        assert axis[|axis| - 1] - axis[k] == (|axis| - 1 - k) * SecondsPerHour;
      }
      assert t - t0 == k * SecondsPerHour;
    }
  }

  /** `_to_hourly`: ValueError when the time coordinate is missing (or empty,
      where the minimum is undefined); otherwise the dataset interpolated
      onto the hourly axis from the earliest to the latest timestamp. */
  function ToHourly(ds: Dataset, timeName: string): (r: Result<Dataset>)
    requires WellFormed(ds)
    ensures !HasCoord(ds, timeName) ==> r == Err(MissingTimeCoordinate(timeName))
    ensures HasCoord(ds, timeName) && CoordValues(ds, timeName).value == [] ==> r == Err(EmptyReduction)
    ensures r.Ok? ==> WellFormed(r.value)
    ensures r.Ok? ==>
      var ts := CoordValues(ds, timeName).value;
      && |ts| > 0
      && CoordValues(r.value, timeName) == Ok(HourlyAxis(SeqMin(ts), SeqMax(ts)))
    ensures r.Ok? ==> forall n :: n != timeName ==> CoordValues(r.value, n) == CoordValues(ds, n)
  {
    if !HasCoord(ds, timeName) then Err(MissingTimeCoordinate(timeName))
    else
      var ts := CoordValues(ds, timeName).value;
      if |ts| == 0 then Err(EmptyReduction)
      else
        var targets := [Coord(timeName, HourlyAxis(SeqMin(ts), SeqMax(ts)))];
        var r := Interp(ds, targets);
        InterpSetsTarget(ds, targets, 0);
        forall n | n != timeName
          ensures CoordValues(r.value, n) == CoordValues(ds, n)
        {
          InterpKeepsOthers(ds, targets, n);
        }
        r
  }

  /** The hourly axis `_to_hourly` builds starts at the earliest timestamp,
      climbs in steps of exactly one hour, and ends at or before the latest
      timestamp, less than an hour short of it. */
  lemma ToHourlyAxis(ds: Dataset, timeName: string)
    requires WellFormed(ds)
    requires ToHourly(ds, timeName).Ok?
    ensures
      var ts := CoordValues(ds, timeName).value;
      var axis := CoordValues(ToHourly(ds, timeName).value, timeName).value;
      && |axis| > 0
      && axis[0] == SeqMin(ts)
      && (forall i :: 0 < i < |axis| ==> axis[i] == axis[i - 1] + SecondsPerHour)
      && axis[|axis| - 1] <= SeqMax(ts) < axis[|axis| - 1] + SecondsPerHour
  {
  }

  // ------------------------------------------------------------- composite

  /** The driver variables of the output file, in the order `main` lists
      them. */
  const DriverNames: seq<string> := ["u_curr", "v_curr", "u_stokes", "v_stokes", "u_wind", "v_wind"]

  /** Every one of `axes` is a coordinate of the dataset. */
  predicate CarriesAxes(ds: Dataset, axes: seq<Coord>) {
    forall k :: k in axes ==> k in ds.coords
  }

  /** Every coordinate the array carries under the name of one of `axes`
      holds exactly that axis. */
  predicate OnAxes(a: DataArray, axes: seq<Coord>) {
    forall c, k :: c in a.coords && k in axes && c.name == k.name ==> c.values == k.values
  }

  /** The currents' `time`, `lat` and `lon` coordinates, the target grid of
      every driver. */
  function GridOf(ds: Dataset): (r: Result<seq<Coord>>)
    ensures r.Ok? <==> HasCoord(ds, "time") && HasLatLon(ds)
    ensures r.Ok? ==> CarriesAxes(ds, r.value)
    ensures r.Ok? ==> IsGrid(r.value)
  {
    var t :- CoordValues(ds, "time");
    var lat :- CoordValues(ds, "lat");
    var lon :- CoordValues(ds, "lon");
    Ok([Coord("time", t), Coord("lat", lat), Coord("lon", lon)])
  }

  /** An array pulled out of a dataset that carries the axes is on them. */
  lemma SelectOnAxes(ds: Dataset, name: string, axes: seq<Coord>)
    requires WellFormed(ds)
    requires CarriesAxes(ds, axes)
    requires Select(ds, name).Ok?
    ensures OnAxes(Select(ds, name).value, axes)
  {
    var a := Select(ds, name).value;
    forall c, k | c in a.coords && k in axes && c.name == k.name
      ensures c.values == k.values
    {
      var i :| 0 <= i < |ds.coords| && ds.coords[i] == c;
      var j :| 0 <= j < |ds.coords| && ds.coords[j] == k;
      assert i == j;
    }
  }

  /** Loading, relabelling and regridding: the currents and the Stokes drift
      on the currents' horizontal grid. */
  function PrepareCmems(curr: Dataset, stokesRaw: Dataset): (r: Result<(Dataset, Dataset)>)
    requires WellFormed(curr) && WellFormed(stokesRaw)
    ensures r.Ok? ==> WellFormed(r.value.0) && WellFormed(r.value.1)
    ensures r.Ok? ==> RenameLatLon(curr) == Ok(r.value.0)
    ensures r.Ok? ==> OnCurrentsGrid(r.value.0, r.value.1)
  {
    var stok :- LoadStokes(stokesRaw);
    var curr1 :- RenameLatLon(curr);
    var stok1 :- RenameLatLon(stok);
    var reg :- RegridStokes(curr1, stok1);
    Ok((curr1, reg.0))
  }

  /** `_to_hourly` on the currents, then the Stokes drift interpolated onto
      the resulting hourly axis. */
  function HourlyCmems(curr1: Dataset, stok: Dataset): (r: Result<(Dataset, Dataset, seq<Coord>)>)
    requires WellFormed(curr1) && WellFormed(stok)
    requires OnCurrentsGrid(curr1, stok)
    ensures r.Ok? ==> WellFormed(r.value.0) && WellFormed(r.value.1)
    ensures r.Ok? ==> ToHourly(curr1, "time") == Ok(r.value.0) && GridOf(r.value.0) == Ok(r.value.2)
    ensures r.Ok? ==> CarriesAxes(r.value.1, r.value.2)
    ensures r.Ok? ==> CurrentsGrid(curr1, r.value.2)
  {
    var currH :- ToHourly(curr1, "time");
    var grid :- GridOf(currH);
    HourlyGrid(curr1, currH, grid);
    var stokH :- Interp(stok, [Coord("time", grid[0].values)]);
    assert CoordValues(stok, "lat") == Ok(grid[1].values) by {
      assert CoordValues(currH, "lat") == CoordValues(curr1, "lat");
    }
    assert CoordValues(stok, "lon") == Ok(grid[2].values) by {
      assert CoordValues(currH, "lon") == CoordValues(curr1, "lon");
    }
    CoordValuesIn(stok, grid[1]);
    CoordValuesIn(stok, grid[2]);
    StokesOnHourlyGrid(stok, grid);
    Ok((currH, stokH, grid))
  }

  lemma StokesOnHourlyGrid(stok: Dataset, grid: seq<Coord>)
    requires WellFormed(stok)
    requires IsGrid(grid)
    requires grid[1] in stok.coords && grid[2] in stok.coords
    requires Interp(stok, [Coord("time", grid[0].values)]).Ok?
    ensures CarriesAxes(Interp(stok, [Coord("time", grid[0].values)]).value, grid)
  {
    var targets := [Coord("time", grid[0].values)];
    InterpHasTarget(stok, targets, 0);
    InterpKeepsCoord(stok, targets, grid[1]);
    InterpKeepsCoord(stok, targets, grid[2]);
    assert grid == [targets[0], grid[1], grid[2]];
  }

  /** The wind step as `main` writes it: `gfs.interp(valid_time=ds_curr_h.time,
      lat=..., lon=...)` followed by `.rename({"valid_time": "time"})`. The
      `lat`/`lon` indexers lie along their own dimensions; the `valid_time`
      indexer is the currents' `time` DataArray, which lies along `time`,
      so the interpolated winds already carry a `time` coordinate and the
      relabelling raises ValueError whenever there are GRIB files at all. */
  function WindsOnGridAsWritten(gribs: seq<string>, read: string -> GribContents, grid: seq<Coord>): (r: Result<Dataset>)
    requires IsGrid(grid)
    ensures |gribs| == 0 ==> r == Err(Exit(NoFilesMessage))
    ensures |gribs| > 0 ==> r == Err(RenameConflict)
  {
    var gfs :- GfsToDataset(Sort(gribs, PathLe), read);
    WindsClash(StackOrder(Sort(gribs, PathLe), read), gfs, grid);
    var flat := Interp(gfs, [grid[1], grid[2]]).value;
    Rename(InterpIndexed(flat, "valid_time", grid[0]).value, TimeRelabel)
  }

  /** The stacked winds, interpolated onto the horizontal axes and then
      onto the currents' `time` DataArray, cannot be relabelled. */
  lemma WindsClash(slices: seq<Slice>, gfs: Dataset, grid: seq<Coord>)
    requires WellFormed(gfs) && WindLayout(gfs, slices)
    requires IsGrid(grid)
    ensures Interp(gfs, [grid[1], grid[2]]).Ok?
    ensures WellFormed(Interp(gfs, [grid[1], grid[2]]).value)
    ensures HasCoord(Interp(gfs, [grid[1], grid[2]]).value, "valid_time")
    ensures !Has(Interp(gfs, [grid[1], grid[2]]).value, "time")
    ensures Rename(InterpIndexed(Interp(gfs, [grid[1], grid[2]]).value, "valid_time", grid[0]).value, TimeRelabel)
      == Err(RenameConflict)
  {
    WindLayoutNames(gfs, slices);
    var t := [grid[1], grid[2]];
    InterpNames(gfs, t, "time");
    InterpNames(gfs, t, "valid_time");
    IndexedRenameClashes(Interp(gfs, t).value, "valid_time", grid[0]);
  }

  /** The wind step as evidently intended: the GFS winds interpolated onto
      the currents' hourly time values (`valid_time=ds_curr_h.time.values`)
      and horizontal axes, with `valid_time` then relabelled `time`. */
  function WindsOnGrid(gribs: seq<string>, read: string -> GribContents, grid: seq<Coord>): (r: Result<Dataset>)
    requires IsGrid(grid)
    ensures r.Ok? ==> |gribs| > 0
    ensures |gribs| == 0 ==> r == Err(Exit(NoFilesMessage))
    ensures r.Ok? ==> WellFormed(r.value) && CarriesAxes(r.value, grid)
    ensures r.Ok? ==> Unitless(r.value)
  {
    var gfs :- GfsToDataset(Sort(gribs, PathLe), read);
    WindsRelabel(StackOrder(Sort(gribs, PathLe), read), gfs, grid);
    WindsUnitless(StackOrder(Sort(gribs, PathLe), read), gfs, grid);
    Rename(Interp(gfs, WindTargets(grid)).value, TimeRelabel)
  }

  /** No variable of the dataset has a `units` attribute. */
  predicate Unitless(ds: Dataset) {
    forall i :: 0 <= i < |ds.vars| ==> "units" !in ds.vars[i].field.attrs
  }

  /** The stacked winds are built without attributes, and neither
      interpolation nor renaming adds any. */
  lemma WindsUnitless(slices: seq<Slice>, gfs: Dataset, grid: seq<Coord>)
    requires WellFormed(gfs) && WindLayout(gfs, slices)
    requires IsGrid(grid)
    requires Interp(gfs, WindTargets(grid)).Ok?
    requires Rename(Interp(gfs, WindTargets(grid)).value, TimeRelabel).Ok?
    ensures Unitless(Rename(Interp(gfs, WindTargets(grid)).value, TimeRelabel).value)
  {
    var h := Interp(gfs, WindTargets(grid)).value;
    assert Unitless(gfs);
    assert Unitless(h) by {
      forall i | 0 <= i < |h.vars| ensures "units" !in h.vars[i].field.attrs {
        assert h.vars[i].field.attrs == gfs.vars[i].field.attrs;
      }
    }
  }

  /** An array looked up in a dataset without units has none either. */
  lemma PickedUnitless(source: (Dataset, string), a: DataArray, grid: seq<Coord>)
    requires Unitless(source.0)
    requires Picked(source, a, grid)
    ensures "units" !in a.field.attrs
  {
    var i :| 0 <= i < |source.0.vars| && source.0.vars[i] == Variable(source.1, a.field);
  }

  /** A time axis and two horizontal axes, in that order. */
  predicate IsGrid(grid: seq<Coord>) {
    |grid| == 3 && grid[0].name == "time" && grid[1].name == "lat" && grid[2].name == "lon"
  }

  /** The keyword arguments of `gfs.interp(valid_time=..., lat=..., lon=...)`. */
  function WindTargets(grid: seq<Coord>): seq<Coord>
    requires IsGrid(grid)
  {
    [Coord("valid_time", grid[0].values), grid[1], grid[2]]
  }

  const TimeRelabel: map<string, string> := map["valid_time" := "time"]

  /** Interpolating the stacked winds onto the grid and relabelling the time
      axis succeeds and leaves the grid as coordinates. */
  lemma WindsRelabel(slices: seq<Slice>, gfs: Dataset, grid: seq<Coord>)
    requires WellFormed(gfs) && WindLayout(gfs, slices)
    requires IsGrid(grid)
    ensures Interp(gfs, WindTargets(grid)).Ok?
    ensures Rename(Interp(gfs, WindTargets(grid)).value, TimeRelabel).Ok?
    ensures
      var r := Rename(Interp(gfs, WindTargets(grid)).value, TimeRelabel).value;
      WellFormed(r) && CarriesAxes(r, grid)
  {
    WindLayoutNames(gfs, slices);
    InterpOntoWindGrid(gfs, WindTargets(grid));
    RelabelValidTime(Interp(gfs, WindTargets(grid)).value, grid);
  }

  lemma InterpOntoWindGrid(gfs: Dataset, targets: seq<Coord>)
    requires WellFormed(gfs) && !Has(gfs, "time")
    requires HasCoord(gfs, "valid_time") && HasCoord(gfs, "lat") && HasCoord(gfs, "lon")
    requires |targets| == 3 && targets[0].name == "valid_time" && targets[1].name == "lat" && targets[2].name == "lon"
    ensures Interp(gfs, targets).Ok?
    ensures !Has(Interp(gfs, targets).value, "time")
    ensures forall k :: k in targets ==> k in Interp(gfs, targets).value.coords
  {
    InterpNames(gfs, targets, "time");
    InterpHasTarget(gfs, targets, 0);
    InterpHasTarget(gfs, targets, 1);
    InterpHasTarget(gfs, targets, 2);
  }

  /** Relabelling `valid_time` as `time` on a dataset that has no `time`
      yet moves the time axis and keeps the horizontal axes. */
  lemma RelabelValidTime(ds: Dataset, grid: seq<Coord>)
    requires WellFormed(ds) && !Has(ds, "time")
    requires IsGrid(grid)
    requires forall k :: k in WindTargets(grid) ==> k in ds.coords
    ensures Rename(ds, TimeRelabel).Ok?
    ensures CarriesAxes(Rename(ds, TimeRelabel).value, grid)
  {
    var m := TimeRelabel;
    var targets := WindTargets(grid);
    assert targets[0] in ds.coords && grid[1] in ds.coords && grid[2] in ds.coords;
    RenameFresh(ds, m);
    RenameCoordIn(ds, m, targets[0]);
    RenameCoordIn(ds, m, grid[1]);
    RenameCoordIn(ds, m, grid[2]);
    var r := Rename(ds, m).value;
    assert Coord("time", grid[0].values) == grid[0];
    forall k | k in grid ensures k in r.coords {
      assert k == grid[0] || k == grid[1] || k == grid[2];
    }
  }

  /** The hourly grid built from the currents: the time axis runs hourly
      from the currents' first to last timestamp, and the horizontal axes
      are the currents' own. */
  predicate CurrentsGrid(curr1: Dataset, grid: seq<Coord>) {
    && IsGrid(grid)
    && CoordValues(curr1, "time").Ok?
    && var ts := CoordValues(curr1, "time").value;
    && |ts| > 0
    && grid[0].values == HourlyAxis(SeqMin(ts), SeqMax(ts))
    && CoordValues(curr1, "lat") == Ok(grid[1].values)
    && CoordValues(curr1, "lon") == Ok(grid[2].values)
  }

  lemma HourlyGrid(curr1: Dataset, currH: Dataset, grid: seq<Coord>)
    requires WellFormed(curr1)
    requires ToHourly(curr1, "time") == Ok(currH)
    requires GridOf(currH) == Ok(grid)
    ensures CurrentsGrid(curr1, grid)
  {
    CoordValuesIn(currH, grid[0]);
    CoordValuesIn(currH, grid[1]);
    CoordValuesIn(currH, grid[2]);
    assert CoordValues(currH, "lat") == CoordValues(curr1, "lat");
    assert CoordValues(currH, "lon") == CoordValues(curr1, "lon");
  }

  /** `ds[name]` for a dataset that carries the grid: the array lies on
      the grid. */
  function SelectOnGrid(ds: Dataset, name: string, grid: seq<Coord>): (r: Result<DataArray>)
    requires WellFormed(ds) && CarriesAxes(ds, grid)
    ensures r.Ok? <==> HasVar(ds, name)
    ensures r.Err? ==> r.error == MissingKey(name)
    ensures r.Ok? ==> OnAxes(r.value, grid) && VarField(ds, name) == Ok(r.value.field)
  {
    var a :- Select(ds, name);
    SelectOnAxes(ds, name, grid);
    Ok(a)
  }

  /** Looks up each (dataset, name) pair in turn, failing with the
      KeyError of the first name its dataset lacks. */
  function SelectAll(sources: seq<(Dataset, string)>, grid: seq<Coord>): (r: Result<seq<DataArray>>)
    requires forall i :: 0 <= i < |sources| ==> WellFormed(sources[i].0) && CarriesAxes(sources[i].0, grid)
    ensures r.Ok? <==> forall i :: 0 <= i < |sources| ==> HasVar(sources[i].0, sources[i].1)
    ensures r.Ok? ==> |r.value| == |sources|
    ensures r.Ok? ==> forall i :: 0 <= i < |sources| ==> Picked(sources[i], r.value[i], grid)
    ensures r.Err? ==> exists i :: 0 <= i < |sources| && r.error == MissingKey(sources[i].1) && !HasVar(sources[i].0, sources[i].1)
  {
    if |sources| == 0 then Ok([])
    else
      var a :- SelectOnGrid(sources[0].0, sources[0].1, grid);
      var tail := sources[1..];
      assert forall i :: 1 <= i < |sources| ==> sources[i] == tail[i - 1];
      var rest :- SelectAll(tail, grid);
      PickedCons(sources, a, rest, grid);
      Ok([a] + rest)
  }

  lemma PickedCons(sources: seq<(Dataset, string)>, a: DataArray, rest: seq<DataArray>, grid: seq<Coord>)
    requires |sources| == |rest| + 1
    requires Picked(sources[0], a, grid)
    requires forall i :: 0 <= i < |rest| ==> Picked(sources[1..][i], rest[i], grid)
    ensures forall i :: 0 <= i < |sources| ==> Picked(sources[i], ([a] + rest)[i], grid)
  {
    forall i | 0 <= i < |sources| ensures Picked(sources[i], ([a] + rest)[i], grid) {
      if i > 0 {
        assert sources[1..][i - 1] == sources[i];
      }
    }
  }

  /** The six picked driver arrays lie on the grid, and the two wind arrays
      have no units when the winds have none. */
  lemma PickedDrivers(currH: Dataset, stokH: Dataset, winds: Dataset, arrays: seq<DataArray>, grid: seq<Coord>)
    requires Unitless(winds)
    requires |arrays| == |DriverNames|
    requires forall i :: 0 <= i < |arrays| ==> Picked(DriverSources(currH, stokH, winds)[i], arrays[i], grid)
    ensures forall i :: 0 <= i < |arrays| ==> OnAxes(arrays[i], grid)
    ensures "units" !in arrays[4].field.attrs && "units" !in arrays[5].field.attrs
  {
    var sources := DriverSources(currH, stokH, winds);
    PickedOnAxes(sources, arrays, grid);
    PickedUnitless(sources[4], arrays[4], grid);
    PickedUnitless(sources[5], arrays[5], grid);
  }

  /** Drops the lookup half of `Picked`, in a context of its own so that the
      callers' proofs stay small. */
  lemma PickedOnAxes(sources: seq<(Dataset, string)>, arrays: seq<DataArray>, grid: seq<Coord>)
    requires |arrays| == |sources|
    requires forall i :: 0 <= i < |sources| ==> Picked(sources[i], arrays[i], grid)
    ensures forall i :: 0 <= i < |arrays| ==> OnAxes(arrays[i], grid)
  {
  }

  /** `a` is what `ds[name]` gave for the source pair, and it lies on the grid. */
  predicate Picked(source: (Dataset, string), a: DataArray, grid: seq<Coord>) {
    OnAxes(a, grid) && VarField(source.0, source.1) == Ok(a.field)
  }

  /** `ds_curr_h["u_curr"]`, ..., `gfs_h["v_wind"]`, in the order of the
      `data_vars` dict. */
  function DriverSources(currH: Dataset, stokH: Dataset, winds: Dataset): (s: seq<(Dataset, string)>)
    ensures |s| == |DriverNames|
    ensures forall i :: 0 <= i < |s| ==> s[i].1 == DriverNames[i]
  {
    [(currH, "u_curr"), (currH, "v_curr"), (stokH, "u_stokes"), (stokH, "v_stokes"),
     (winds, "u_wind"), (winds, "v_wind")]
  }

  lemma DriverSourcesOnGrid(currH: Dataset, stokH: Dataset, winds: Dataset, grid: seq<Coord>)
    requires WellFormed(currH) && WellFormed(stokH) && WellFormed(winds)
    requires CarriesAxes(currH, grid) && CarriesAxes(stokH, grid) && CarriesAxes(winds, grid)
    ensures var s := DriverSources(currH, stokH, winds);
      forall i :: 0 <= i < |s| ==> WellFormed(s[i].0) && CarriesAxes(s[i].0, grid)
  {
    var s := DriverSources(currH, stokH, winds);
    forall i | 0 <= i < |s| ensures WellFormed(s[i].0) && CarriesAxes(s[i].0, grid) {
      assert s[i].0 == currH || s[i].0 == stokH || s[i].0 == winds;
    }
  }

  /** Everything `main` computes before assembling the output: the target
      grid and the six driver arrays, each already on that grid. The winds
      come from the intended wind step `WindsOnGrid`; the step as written
      (`WindsOnGridAsWritten`) never gets this far. */
  function DriverArrays(curr: Dataset, stokesRaw: Dataset, gribs: seq<string>,
                        read: string -> GribContents): (r: Result<(seq<Coord>, seq<DataArray>)>)
    requires WellFormed(curr) && WellFormed(stokesRaw)
    ensures r.Ok? ==> |gribs| > 0
    ensures r.Ok? ==> IsGrid(r.value.0) && |r.value.1| == |DriverNames|
    ensures r.Ok? ==> RenameLatLon(curr).Ok? && CurrentsGrid(RenameLatLon(curr).value, r.value.0)
    ensures r.Ok? ==> forall i :: 0 <= i < |r.value.1| ==> OnAxes(r.value.1[i], r.value.0)
    ensures r.Ok? ==> "units" !in r.value.1[4].field.attrs && "units" !in r.value.1[5].field.attrs
  {
    var cmems :- PrepareCmems(curr, stokesRaw);
    var hourly :- HourlyCmems(cmems.0, cmems.1);
    var winds :- WindsOnGrid(gribs, read, hourly.2);
    DriverSourcesOnGrid(hourly.0, hourly.1, winds, hourly.2);
    var arrays :- SelectAll(DriverSources(hourly.0, hourly.1, winds), hourly.2);
    PickedDrivers(hourly.0, hourly.1, winds, arrays, hourly.2);
    Ok((hourly.2, arrays))
  }

  /** `xr.Dataset(data_vars=..., coords=...)` for arrays already on the
      given coordinates: the named variables over those coordinates. */
  function Compose(names: seq<string>, arrays: seq<DataArray>, coords: seq<Coord>): (ds: Dataset)
    requires |names| == |arrays|
    requires NamesApart(names, coords)
    ensures Assembled(ds, names, (coords, arrays))
  {
    Dataset(coords, seq(|names|, i requires 0 <= i < |names| => Variable(names[i], arrays[i].field)))
  }

  /** `ds` is a well-formed dataset over the given coordinates whose
      variables are the arrays' contents under the given names, in order. */
  predicate Assembled(ds: Dataset, names: seq<string>, d: (seq<Coord>, seq<DataArray>)) {
    && WellFormed(ds)
    && ds.coords == d.0
    && |ds.vars| == |names| == |d.1|
    && forall i :: 0 <= i < |names| ==> ds.vars[i] == Variable(names[i], d.1[i].field)
  }

  /** `main` up to writing the file: the six drivers, under their output
      names, over the grid they were put on. */
  function StitchDrivers(curr: Dataset, stokesRaw: Dataset, gribs: seq<string>,
                         read: string -> GribContents): (r: Result<Dataset>)
    requires WellFormed(curr) && WellFormed(stokesRaw)
    ensures r.Ok? <==> DriverArrays(curr, stokesRaw, gribs, read).Ok?
    ensures r.Ok? ==> Assembled(r.value, DriverNames, DriverArrays(curr, stokesRaw, gribs, read).value)
    ensures r.Ok? ==> |gribs| > 0 && RenameLatLon(curr).Ok? && CurrentsGrid(RenameLatLon(curr).value, r.value.coords)
  {
    var d :- DriverArrays(curr, stokesRaw, gribs, read);
    DriverNamesApart(d.0);
    Ok(Compose(DriverNames, d.1, d.0))
  }

  /** Variable names and coordinate names are all different. */
  predicate NamesApart(names: seq<string>, coords: seq<Coord>) {
    && (forall i, j :: 0 <= i < j < |names| ==> names[i] != names[j])
    && (forall i, j :: 0 <= i < j < |coords| ==> coords[i].name != coords[j].name)
    && (forall i, j :: 0 <= i < |coords| && 0 <= j < |names| ==> coords[i].name != names[j])
  }

  lemma DriverNamesApart(grid: seq<Coord>)
    requires IsGrid(grid)
    ensures NamesApart(DriverNames, grid)
  {
  }
}
