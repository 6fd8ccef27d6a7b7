/** `_gfs_to_dataset` (src/fetch/stitch_fields.py): one time slice of
    10 m wind per GRIB2 file, stamped with its valid time (cycle + step),
    stacked along `valid_time`, ordered by valid time and relabelled to
    `lat`/`lon`.
 */
module WindStack {
  import opened Results
  import opened Text
  import opened Sorting
  import opened Datasets

  /** What the two cfgrib opens of one file yield: the cycle time and the
      forecast step (seconds), the grid, and the 10 m wind components. */
  datatype GribContents = GribContents(cycle: int, step: int,
                                       latitude: seq<int>, longitude: seq<int>,
                                       u10: Data, v10: Data)

  /** One file's contribution to the stack; `source` records the file it
      was read from. */
  datatype Slice = Slice(source: string, validTime: int,
                         latitude: seq<int>, longitude: seq<int>,
                         u: Data, v: Data)

  const NoFilesMessage: string := "No GFS GRIB2 files in data/raw/gfs/"

  /** Dimensions of both wind variables once relabelled. */
  const WindDims: seq<string> := ["valid_time", "lat", "lon"]

  function PathLe(a: string, b: string): bool {
    LexLe(a, b)
  }

  function TimeLe(a: Slice, b: Slice): bool {
    a.validTime <= b.validTime
  }

  function SourceLe(a: Slice, b: Slice): bool {
    LexLe(a.source, b.source)
  }

  lemma PathLeTotalPreorder()
    ensures TotalPreorder(PathLe)
  {
    forall a, b ensures PathLe(a, b) || PathLe(b, a) {
      LexLeTotal(a, b);
    }
    forall a, b, c | PathLe(a, b) && PathLe(b, c) ensures PathLe(a, c) {
      LexLeTransitive(a, b, c);
    }
  }

  /** Reads one file into its slice: valid time is cycle time plus step. */
  function ReadSlice(read: string -> GribContents): string -> Slice {
    p => var g := read(p); Slice(p, g.cycle + g.step, g.latitude, g.longitude, g.u10, g.v10)
  }

  function ValidTime(s: Slice): int {
    s.validTime
  }

  function UOf(s: Slice): Data {
    s.u
  }

  function VOf(s: Slice): Data {
    s.v
  }

  /** The slices in stack order: files visited in sorted path order, then
      `sortby("valid_time")`, which is stable. One slice per file; no
      duplicates are dropped. */
  function StackOrder(paths: seq<string>, read: string -> GribContents): (r: seq<Slice>)
    ensures |r| == |paths|
    ensures multiset(r) == multiset(Map(paths, ReadSlice(read)))
  {
    var visited := Sort(paths, PathLe);
    MapPermutation(visited, paths, ReadSlice(read));
    Sort(Map(visited, ReadSlice(read)), TimeLe)
  }

  /** The stack is ordered by valid time, and slices sharing a valid time
      keep the order of their file paths. */
  lemma StackOrderSorted(paths: seq<string>, read: string -> GribContents)
    ensures SortedThen(StackOrder(paths, read), TimeLe, SourceLe)
  {
    var visited := Sort(paths, PathLe);
    PathLeTotalPreorder();
    SortSorted(paths, PathLe);
    var slices := Map(visited, ReadSlice(read));
    assert Sorted(slices, SourceLe) by {
      forall i, j | 0 <= i < j < |slices| ensures SourceLe(slices[i], slices[j]) {
        assert slices[i].source == visited[i] && slices[j].source == visited[j];
      }
    }
    SortStable(slices, TimeLe, SourceLe);
  }

  /** The dataset `xr.concat(...)` builds before relabelling: valid times
      along the stack, the grid of the first slice, and both components
      stacked in stack order. */
  function StackDataset(slices: seq<Slice>): (ds: Dataset)
    requires |slices| > 0
    ensures WellFormed(ds)
  {
    var dims := ["valid_time", "latitude", "longitude"];
    Dataset(
      [Coord("valid_time", Map(slices, ValidTime)),
       Coord("latitude", slices[0].latitude),
       Coord("longitude", slices[0].longitude)],
      [Variable("u_wind", Field(dims, map[], Stacked(Map(slices, UOf)))),
       Variable("v_wind", Field(dims, map[], Stacked(Map(slices, VOf))))])
  }

  /** The GFS wind dataset with `valid_time`, `lat` and `lon`
      coordinates and the two stacked components on them. */
  predicate WindLayout(ds: Dataset, slices: seq<Slice>) {
    && |slices| > 0
    && ds.coords == [Coord("valid_time", Map(slices, ValidTime)),
                     Coord("lat", slices[0].latitude),
                     Coord("lon", slices[0].longitude)]
    && ds.vars == [Variable("u_wind", Field(WindDims, map[], Stacked(Map(slices, UOf)))),
                   Variable("v_wind", Field(WindDims, map[], Stacked(Map(slices, VOf))))]
  }

  /** `_gfs_to_dataset`: SystemExit on an empty file list; otherwise the
      stacked winds with `latitude`/`longitude` relabelled `lat`/`lon`. */
  function GfsToDataset(paths: seq<string>, read: string -> GribContents): (r: Result<Dataset>)
    ensures r.Ok? <==> |paths| > 0
    ensures r.Err? ==> r.error == Exit(NoFilesMessage)
    ensures r.Ok? ==> WellFormed(r.value) && WindLayout(r.value, StackOrder(paths, read))
  {
    if |paths| == 0 then Err(Exit(NoFilesMessage))
    else
      var slices := StackOrder(paths, read);
      Relabel(slices);
      Rename(StackDataset(slices), LatLonRelabel)
  }

  const LatLonRelabel: map<string, string> := map["latitude" := "lat", "longitude" := "lon"]

  lemma Relabel(slices: seq<Slice>)
    requires |slices| > 0
    ensures Rename(StackDataset(slices), LatLonRelabel).Ok?
    ensures WindLayout(Rename(StackDataset(slices), LatLonRelabel).value, slices)
  {
    StackNames(slices);
    RenameFresh(StackDataset(slices), LatLonRelabel);
    RelabelLayout(slices);
  }

  lemma RelabelLayout(slices: seq<Slice>)
    requires |slices| > 0
    requires Rename(StackDataset(slices), LatLonRelabel).Ok?
    ensures WindLayout(Rename(StackDataset(slices), LatLonRelabel).value, slices)
  {
    var ds := StackDataset(slices);
    var m := LatLonRelabel;
    var r := Rename(ds, m).value;
    assert RenameDims(m, ds.vars[0].field.dims) == WindDims;
    assert r.coords[0] == ds.coords[0];
  }

  lemma StackNames(slices: seq<Slice>)
    requires |slices| > 0
    ensures HasCoord(StackDataset(slices), "latitude") && HasCoord(StackDataset(slices), "longitude")
    ensures !Has(StackDataset(slices), "lat") && !Has(StackDataset(slices), "lon")
  {
    var ds := StackDataset(slices);
    assert ds.coords[1].name == "latitude" && ds.coords[2].name == "longitude";
  }

  /** The `valid_time` axis has one entry per file, never decreases, and
      holds exactly the files' cycle-plus-step times, repeats included. */
  lemma GfsValidTimes(paths: seq<string>, read: string -> GribContents)
    requires |paths| > 0
    ensures
      var times := CoordValues(GfsToDataset(paths, read).value, "valid_time").value;
      && |times| == |paths|
      && (forall i, j :: 0 <= i < j < |times| ==> times[i] <= times[j])
      && multiset(times) == multiset(Map(Map(paths, ReadSlice(read)), ValidTime))
  {
    var slices := StackOrder(paths, read);
    var ds := GfsToDataset(paths, read).value;
    CoordValuesAt(ds, 0);
    StackOrderSorted(paths, read);
    MapPermutation(slices, Map(paths, ReadSlice(read)), ValidTime);
  }

  /** The names a stacked wind dataset has. */
  lemma WindLayoutNames(ds: Dataset, slices: seq<Slice>)
    requires WindLayout(ds, slices)
    ensures HasCoord(ds, "valid_time") && HasCoord(ds, "lat") && HasCoord(ds, "lon")
    ensures !Has(ds, "time")
  {
    assert ds.coords[0].name == "valid_time" && ds.coords[1].name == "lat" && ds.coords[2].name == "lon";
  }
}
