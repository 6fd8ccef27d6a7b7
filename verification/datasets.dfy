/** The part of xarray's `Dataset` the pipeline depends on, with the array
    contents left opaque.

    A dataset has an ordered list of (dimension) coordinates and an ordered
    list of data variables; coordinates and data variables share one
    namespace. Renaming, interpolation and subsetting are modelled by what
    they do to names, coordinate values and dimensions; interpolation
    arithmetic is not modelled, only recorded in the payload.
 */
module Datasets {
  import opened Results

  /** Array payload, kept abstract: where it was read from and which
      operations produced it. */
  datatype Data =
    | Raw(id: nat)
    | Interpolated(source: Data, onto: seq<Coord>)
    | Stacked(slices: seq<Data>)

  /** A dimension coordinate: its name doubles as the dimension name.
      Values are integers (seconds for time, fixed-point degrees for space). */
  datatype Coord = Coord(name: string, values: seq<int>)

  datatype Field = Field(dims: seq<string>, attrs: map<string, string>, data: Data)

  datatype Variable = Variable(name: string, field: Field)

  datatype Dataset = Dataset(coords: seq<Coord>, vars: seq<Variable>)

  /** A variable pulled out of a dataset (`ds[name]`), with the coordinates
      along its dimensions. */
  datatype DataArray = DataArray(field: Field, coords: seq<Coord>)

  predicate HasCoord(ds: Dataset, n: string) {
    exists i :: 0 <= i < |ds.coords| && ds.coords[i].name == n
  }

  predicate HasVar(ds: Dataset, n: string) {
    exists i :: 0 <= i < |ds.vars| && ds.vars[i].name == n
  }

  /** Python's `n in ds`: a coordinate or a data variable. */
  predicate Has(ds: Dataset, n: string) {
    HasCoord(ds, n) || HasVar(ds, n)
  }

  /** A name `rename` accepts as a key: a variable or a dimension. */
  predicate Known(ds: Dataset, n: string) {
    Has(ds, n) || exists i :: 0 <= i < |ds.vars| && n in ds.vars[i].field.dims
  }

  /** The set of data-variable names. */
  function VarNames(ds: Dataset): set<string> {
    set i | 0 <= i < |ds.vars| :: ds.vars[i].name
  }

  /** No name is listed twice. */
  predicate Distinct(names: seq<string>) {
    forall i, j :: 0 <= i < j < |names| ==> names[i] != names[j]
  }

  /** The invariant every xarray dataset keeps: one variable per name. */
  predicate WellFormed(ds: Dataset) {
    && (forall i, j :: 0 <= i < j < |ds.coords| ==> ds.coords[i].name != ds.coords[j].name)
    && (forall i, j :: 0 <= i < j < |ds.vars| ==> ds.vars[i].name != ds.vars[j].name)
    && (forall i, j :: 0 <= i < |ds.coords| && 0 <= j < |ds.vars| ==> ds.coords[i].name != ds.vars[j].name)
  }

  /** `ds[n].values` for a coordinate `n`. */
  function CoordValues(ds: Dataset, n: string): (r: Result<seq<int>>)
    ensures r.Ok? <==> HasCoord(ds, n)
    ensures r.Ok? ==> exists i :: 0 <= i < |ds.coords| && ds.coords[i] == Coord(n, r.value)
    ensures r.Err? ==> r.error == MissingKey(n)
    decreases |ds.coords|
  {
    if |ds.coords| == 0 then Err(MissingKey(n))
    else if ds.coords[0].name == n then Ok(ds.coords[0].values)
    else
      var rest := Dataset(ds.coords[1..], ds.vars);
      var r := CoordValues(rest, n);
      if r.Ok? then
        assert forall i :: 0 <= i < |rest.coords| ==> rest.coords[i] == ds.coords[i + 1];
        r
      else
        assert forall i :: 1 <= i < |ds.coords| ==> ds.coords[i] == rest.coords[i - 1];
        r
  }

  /** In a well-formed dataset a coordinate name determines its values. */
  lemma CoordValuesAt(ds: Dataset, i: int)
    requires WellFormed(ds)
    requires 0 <= i < |ds.coords|
    ensures CoordValues(ds, ds.coords[i].name) == Ok(ds.coords[i].values)
  {
    var r := CoordValues(ds, ds.coords[i].name);
    var j :| 0 <= j < |ds.coords| && ds.coords[j] == Coord(ds.coords[i].name, r.value);
    assert i == j;
  }

  /** The field of the data variable `n`. */
  function VarField(ds: Dataset, n: string): (r: Result<Field>)
    ensures r.Ok? <==> HasVar(ds, n)
    ensures r.Ok? ==> exists i :: 0 <= i < |ds.vars| && ds.vars[i] == Variable(n, r.value)
    ensures r.Err? ==> r.error == MissingKey(n)
    decreases |ds.vars|
  {
    if |ds.vars| == 0 then Err(MissingKey(n))
    else if ds.vars[0].name == n then Ok(ds.vars[0].field)
    else
      var rest := Dataset(ds.coords, ds.vars[1..]);
      var r := VarField(rest, n);
      if r.Ok? then
        assert forall i :: 0 <= i < |rest.vars| ==> rest.vars[i] == ds.vars[i + 1];
        r
      else
        assert forall i :: 1 <= i < |ds.vars| ==> ds.vars[i] == rest.vars[i - 1];
        r
  }

  /** In a well-formed dataset a variable name determines its field. */
  lemma VarFieldAt(ds: Dataset, i: int)
    requires WellFormed(ds)
    requires 0 <= i < |ds.vars|
    ensures VarField(ds, ds.vars[i].name) == Ok(ds.vars[i].field)
  {
    var r := VarField(ds, ds.vars[i].name);
    var j :| 0 <= j < |ds.vars| && ds.vars[j] == Variable(ds.vars[i].name, r.value);
    assert i == j;
  }

  // ---------------------------------------------------------------- rename

  function RenameName(m: map<string, string>, n: string): string {
    if n in m then m[n] else n
  }

  function RenameDims(m: map<string, string>, dims: seq<string>): (r: seq<string>)
    ensures |r| == |dims|
    ensures forall i :: 0 <= i < |dims| ==> r[i] == RenameName(m, dims[i])
  {
    seq(|dims|, i requires 0 <= i < |dims| => RenameName(m, dims[i]))
  }

  function RenameField(m: map<string, string>, f: Field): Field {
    f.(dims := RenameDims(m, f.dims))
  }

  /** No two variables end up with the same name. */
  predicate NoCollision(ds: Dataset, m: map<string, string>) {
    && (forall i, j :: 0 <= i < j < |ds.coords| ==>
          RenameName(m, ds.coords[i].name) != RenameName(m, ds.coords[j].name))
    && (forall i, j :: 0 <= i < j < |ds.vars| ==>
          RenameName(m, ds.vars[i].name) != RenameName(m, ds.vars[j].name))
    && (forall i, j :: 0 <= i < |ds.coords| && 0 <= j < |ds.vars| ==>
          RenameName(m, ds.coords[i].name) != RenameName(m, ds.vars[j].name))
  }

  /** `ds.rename(m)`: ValueError unless every key names a variable or a
      dimension and the renamed variables stay distinct; otherwise every
      coordinate and variable keeps its place and contents under its new
      name, and every variable's dimensions are renamed too. */
  function Rename(ds: Dataset, m: map<string, string>): (r: Result<Dataset>)
    ensures r.Ok? <==> (forall k :: k in m ==> Known(ds, k)) && NoCollision(ds, m)
    ensures r.Err? ==> r.error == RenameUnknown || r.error == RenameConflict
    ensures r.Ok? ==> WellFormed(r.value)
    ensures r.Ok? ==> |r.value.coords| == |ds.coords| && |r.value.vars| == |ds.vars|
    ensures r.Ok? ==> forall i :: 0 <= i < |ds.coords| ==>
      r.value.coords[i] == Coord(RenameName(m, ds.coords[i].name), ds.coords[i].values)
    ensures r.Ok? ==> forall i :: 0 <= i < |ds.vars| ==>
      r.value.vars[i] == Variable(RenameName(m, ds.vars[i].name), RenameField(m, ds.vars[i].field))
  {
    if !(forall k | k in m :: Known(ds, k)) then Err(RenameUnknown)
    else if !NoCollision(ds, m) then Err(RenameConflict)
    else
      Ok(Dataset(
        seq(|ds.coords|, i requires 0 <= i < |ds.coords| =>
              Coord(RenameName(m, ds.coords[i].name), ds.coords[i].values)),
        seq(|ds.vars|, i requires 0 <= i < |ds.vars| =>
              Variable(RenameName(m, ds.vars[i].name), RenameField(m, ds.vars[i].field)))))
  }

  /** Renaming with no keys changes nothing. */
  lemma RenameNothing(ds: Dataset)
    requires WellFormed(ds)
    ensures Rename(ds, map[]) == Ok(ds)
  {
    var r := Rename(ds, map[]).value;
    assert r.coords == ds.coords;
    forall i | 0 <= i < |ds.vars|
      ensures r.vars[i] == ds.vars[i]
    {
      assert RenameDims(map[], ds.vars[i].field.dims) == ds.vars[i].field.dims;
    }
    assert r.vars == ds.vars;
  }

  /** Renaming coordinates to fresh, pairwise different names always
      succeeds. */
  lemma RenameFresh(ds: Dataset, m: map<string, string>)
    requires WellFormed(ds)
    requires forall k :: k in m ==> HasCoord(ds, k) && !Has(ds, m[k])
    requires forall k1, k2 :: k1 in m && k2 in m && k1 != k2 ==> m[k1] != m[k2]
    ensures Rename(ds, m).Ok?
  {
    forall i, j | 0 <= i < j < |ds.coords|
      ensures RenameName(m, ds.coords[i].name) != RenameName(m, ds.coords[j].name)
    {
      var a, b := ds.coords[i].name, ds.coords[j].name;
      if a in m && b !in m {
        assert HasCoord(ds, b);
      } else if a !in m && b in m {
        assert HasCoord(ds, a);
      }
    }
    forall i, j | 0 <= i < |ds.coords| && 0 <= j < |ds.vars|
      ensures RenameName(m, ds.coords[i].name) != RenameName(m, ds.vars[j].name)
    {
      assert HasVar(ds, ds.vars[j].name);
    }
    assert NoCollision(ds, m);
  }

  /** Renaming moves each coordinate to its new name with its values. */
  lemma RenameCoordIn(ds: Dataset, m: map<string, string>, c: Coord)
    requires c in ds.coords
    requires Rename(ds, m).Ok?
    ensures Coord(RenameName(m, c.name), c.values) in Rename(ds, m).value.coords
  {
    var i :| 0 <= i < |ds.coords| && ds.coords[i] == c;
    assert Rename(ds, m).value.coords[i] == Coord(RenameName(m, c.name), c.values);
  }

  // ---------------------------------------------------------------- interp

  /** The first target coordinate named `n`, if any. */
  function TargetFor(targets: seq<Coord>, n: string): (r: Option<Coord>)
    ensures r.Some? <==> exists j :: 0 <= j < |targets| && targets[j].name == n
    ensures r.Some? ==> r.value.name == n && r.value in targets
  {
    if |targets| == 0 then None
    else if targets[0].name == n then Some(targets[0])
    else
      var r := TargetFor(targets[1..], n);
      assert forall j :: 1 <= j < |targets| ==> targets[j] == targets[1..][j - 1];
      r
  }

  /** The name of the first target the dataset has no coordinate for. */
  function FirstMissing(ds: Dataset, targets: seq<Coord>): (r: Option<string>)
    ensures r.None? <==> forall j :: 0 <= j < |targets| ==> HasCoord(ds, targets[j].name)
    ensures r.Some? ==> !HasCoord(ds, r.value)
  {
    if |targets| == 0 then None
    else if !HasCoord(ds, targets[0].name) then Some(targets[0].name)
    else
      var r := FirstMissing(ds, targets[1..]);
      assert forall j :: 1 <= j < |targets| ==> targets[j] == targets[1..][j - 1];
      r
  }

  function Retarget(c: Coord, targets: seq<Coord>): (r: Coord)
    ensures r.name == c.name
  {
    match TargetFor(targets, c.name)
    case Some(t) => t
    case None => c
  }

  predicate DependsOn(f: Field, targets: seq<Coord>) {
    exists j :: 0 <= j < |targets| && targets[j].name in f.dims
  }

  function InterpField(f: Field, targets: seq<Coord>): (r: Field)
    ensures r.dims == f.dims && r.attrs == f.attrs
    ensures !DependsOn(f, targets) ==> r == f
  {
    if DependsOn(f, targets) then f.(data := Interpolated(f.data, targets)) else f
  }

  /** `ds.interp({name: values, ...})`: each target must be a coordinate of
      the dataset; the result carries the target values on those
      coordinates, every other coordinate is kept, and only variables along
      a target dimension get new (interpolated) contents. */
  function Interp(ds: Dataset, targets: seq<Coord>): (r: Result<Dataset>)
    requires WellFormed(ds)
    ensures r.Ok? <==> forall j :: 0 <= j < |targets| ==> HasCoord(ds, targets[j].name)
    ensures r.Err? ==> r.error.MissingDimension? && !HasCoord(ds, r.error.name)
    ensures r.Ok? ==> WellFormed(r.value)
    ensures r.Ok? ==> |r.value.coords| == |ds.coords| && |r.value.vars| == |ds.vars|
    ensures r.Ok? ==> forall i :: 0 <= i < |ds.coords| ==> r.value.coords[i] == Retarget(ds.coords[i], targets)
    ensures r.Ok? ==> forall i :: 0 <= i < |ds.vars| ==>
      r.value.vars[i] == Variable(ds.vars[i].name, InterpField(ds.vars[i].field, targets))
  {
    match FirstMissing(ds, targets)
    case Some(n) => Err(MissingDimension(n))
    case None =>
      Ok(Dataset(
        seq(|ds.coords|, i requires 0 <= i < |ds.coords| => Retarget(ds.coords[i], targets)),
        seq(|ds.vars|, i requires 0 <= i < |ds.vars| =>
              Variable(ds.vars[i].name, InterpField(ds.vars[i].field, targets)))))
  }

  /** After interpolating onto a target, the dataset's coordinate of that
      name holds exactly the target's values. */
  lemma InterpSetsTarget(ds: Dataset, targets: seq<Coord>, j: int)
    requires WellFormed(ds)
    requires 0 <= j < |targets|
    requires forall l :: 0 <= l < |targets| ==> (targets[l].name == targets[j].name ==> l == j)
    requires Interp(ds, targets).Ok?
    ensures CoordValues(Interp(ds, targets).value, targets[j].name) == Ok(targets[j].values)
  {
    var r := Interp(ds, targets).value;
    var n := targets[j].name;
    assert HasCoord(ds, n);
    var i :| 0 <= i < |ds.coords| && ds.coords[i].name == n;
    assert r.coords[i] == TargetFor(targets, n).value;
    assert TargetFor(targets, n).value == targets[j];
    CoordValuesAt(r, i);
  }

  /** Interpolation leaves the coordinates it does not target alone. */
  lemma InterpKeepsOthers(ds: Dataset, targets: seq<Coord>, n: string)
    requires WellFormed(ds)
    requires forall l :: 0 <= l < |targets| ==> targets[l].name != n
    requires Interp(ds, targets).Ok?
    ensures CoordValues(Interp(ds, targets).value, n) == CoordValues(ds, n)
  {
    var r := Interp(ds, targets).value;
    if HasCoord(ds, n) {
      var i :| 0 <= i < |ds.coords| && ds.coords[i].name == n;
      CoordValuesAt(ds, i);
      CoordValuesAt(r, i);
    }
  }

  /** A target coordinate is among the coordinates after interpolation. */
  lemma InterpHasTarget(ds: Dataset, targets: seq<Coord>, j: int)
    requires WellFormed(ds)
    requires 0 <= j < |targets|
    requires forall l :: 0 <= l < |targets| ==> (targets[l].name == targets[j].name ==> l == j)
    requires Interp(ds, targets).Ok?
    ensures targets[j] in Interp(ds, targets).value.coords
  {
    var r := Interp(ds, targets).value;
    var n := targets[j].name;
    assert HasCoord(ds, n);
    var i :| 0 <= i < |ds.coords| && ds.coords[i].name == n;
    assert r.coords[i] == targets[j];
  }

  /** A coordinate no target names survives interpolation unchanged. */
  lemma InterpKeepsCoord(ds: Dataset, targets: seq<Coord>, c: Coord)
    requires WellFormed(ds)
    requires c in ds.coords
    requires forall l :: 0 <= l < |targets| ==> targets[l].name != c.name
    requires Interp(ds, targets).Ok?
    ensures c in Interp(ds, targets).value.coords
  {
    var i :| 0 <= i < |ds.coords| && ds.coords[i] == c;
    assert Interp(ds, targets).value.coords[i] == c;
  }

  /** Interpolation keeps every name. */
  lemma InterpNames(ds: Dataset, targets: seq<Coord>, n: string)
    requires WellFormed(ds)
    requires Interp(ds, targets).Ok?
    ensures HasCoord(Interp(ds, targets).value, n) <==> HasCoord(ds, n)
    ensures HasVar(Interp(ds, targets).value, n) <==> HasVar(ds, n)
  {
    var r := Interp(ds, targets).value;
    if HasCoord(ds, n) {
      var i :| 0 <= i < |ds.coords| && ds.coords[i].name == n;
      assert r.coords[i].name == n;
    }
    if HasCoord(r, n) {
      var i :| 0 <= i < |r.coords| && r.coords[i].name == n;
      assert ds.coords[i].name == n;
    }
    if HasVar(ds, n) {
      var i :| 0 <= i < |ds.vars| && ds.vars[i].name == n;
      assert r.vars[i].name == n;
    }
    if HasVar(r, n) {
      var i :| 0 <= i < |r.vars| && r.vars[i].name == n;
      assert ds.vars[i].name == n;
    }
  }

  /** `ds.interp({key: da})` where the indexer `da` is a DataArray along a
      dimension of its own, `along.name`: xarray broadcasts over the
      indexer's dimensions. Variables along `key` move to the indexer's
      dimension, `key` stays as a (non-dimension) coordinate holding the
      indexer's values, and the indexer's own coordinate is attached after
      the existing ones. Interpolating onto a dimension the dataset already
      has is not modelled. */
  function InterpIndexed(ds: Dataset, key: string, along: Coord): (r: Result<Dataset>)
    requires WellFormed(ds)
    requires along.name != key && !Has(ds, along.name)
    ensures r.Ok? <==> HasCoord(ds, key)
    ensures r.Err? ==> r.error == MissingDimension(key)
    ensures r.Ok? ==> WellFormed(r.value)
    ensures r.Ok? ==> HasCoord(r.value, key) && along in r.value.coords
    ensures r.Ok? ==> |r.value.vars| == |ds.vars| && forall i :: 0 <= i < |ds.vars| ==>
      && r.value.vars[i].name == ds.vars[i].name
      && (key in ds.vars[i].field.dims ==> key !in r.value.vars[i].field.dims && along.name in r.value.vars[i].field.dims)
  {
    if !HasCoord(ds, key) then Err(MissingDimension(key))
    else
      var t := [Coord(key, along.values)];
      var m := map[key := along.name];
      var coords := seq(|ds.coords|, i requires 0 <= i < |ds.coords| => Retarget(ds.coords[i], t));
      var vars := seq(|ds.vars|, i requires 0 <= i < |ds.vars| =>
                    Variable(ds.vars[i].name, RenameField(m, InterpField(ds.vars[i].field, t))));
      var r := Dataset(coords + [along], vars);
      IndexedApart(ds, along, r);
      assert HasCoord(r, key) by {
        var i :| 0 <= i < |ds.coords| && ds.coords[i].name == key;
        assert r.coords[i].name == key;
      }
      assert r.coords[|ds.coords|] == along;
      forall i | 0 <= i < |ds.vars| && key in ds.vars[i].field.dims
        ensures key !in r.vars[i].field.dims && along.name in r.vars[i].field.dims
      {
        var d := ds.vars[i].field.dims;
        var j :| 0 <= j < |d| && d[j] == key;
        assert r.vars[i].field.dims[j] == along.name;
      }
      Ok(r)
  }

  /** The attached indexer coordinate takes a name the dataset did not use,
      so the result of `InterpIndexed` keeps one variable per name. */
  lemma IndexedApart(ds: Dataset, along: Coord, r: Dataset)
    requires WellFormed(ds) && !Has(ds, along.name)
    requires |r.coords| == |ds.coords| + 1 && r.coords[|ds.coords|] == along
    requires forall i :: 0 <= i < |ds.coords| ==> r.coords[i].name == ds.coords[i].name
    requires |r.vars| == |ds.vars| && forall i :: 0 <= i < |ds.vars| ==> r.vars[i].name == ds.vars[i].name
    ensures WellFormed(r)
  {
    forall i | 0 <= i < |ds.coords| ensures r.coords[i].name != along.name {
      assert HasCoord(ds, ds.coords[i].name);
    }
    forall j | 0 <= j < |ds.vars| ensures r.vars[j].name != along.name {
      assert HasVar(ds, ds.vars[j].name);
    }
  }

  /** After interpolating `key` onto an indexer along another dimension,
      renaming `key` to that dimension's name clashes with the indexer's
      coordinate: `rename` raises ValueError. */
  lemma IndexedRenameClashes(ds: Dataset, key: string, along: Coord)
    requires WellFormed(ds) && HasCoord(ds, key)
    requires along.name != key && !Has(ds, along.name)
    ensures Rename(InterpIndexed(ds, key, along).value, map[key := along.name]) == Err(RenameConflict)
  {
    var r := InterpIndexed(ds, key, along).value;
    var m := map[key := along.name];
    var i :| 0 <= i < |r.coords| && r.coords[i].name == key;
    var j :| 0 <= j < |r.coords| && r.coords[j] == along;
    assert RenameName(m, r.coords[i].name) == RenameName(m, r.coords[j].name);
    assert i < j;
    assert Known(r, key);
  }

  /** A coordinate found by name is one of the dataset's coordinates, and in
      a well-formed dataset every coordinate is found by its name. */
  lemma CoordValuesIn(ds: Dataset, c: Coord)
    requires WellFormed(ds)
    ensures CoordValues(ds, c.name) == Ok(c.values) <==> c in ds.coords
  {
    if c in ds.coords {
      var i :| 0 <= i < |ds.coords| && ds.coords[i] == c;
      CoordValuesAt(ds, i);
    }
  }

  // ---------------------------------------------------------------- subset

  /** The coordinates among `cs` whose name is in `keep`, in order. */
  function KeepCoords(cs: seq<Coord>, keep: set<string>): (r: seq<Coord>)
    ensures forall c :: c in r <==> c in cs && c.name in keep
    ensures |r| <= |cs|
  {
    if |cs| == 0 then []
    else if cs[0].name in keep then [cs[0]] + KeepCoords(cs[1..], keep)
    else KeepCoords(cs[1..], keep)
  }

  lemma {:induction false} KeepCoordsDistinct(cs: seq<Coord>, keep: set<string>)
    requires forall i, j :: 0 <= i < j < |cs| ==> cs[i].name != cs[j].name
    ensures forall i, j :: 0 <= i < j < |KeepCoords(cs, keep)| ==>
      KeepCoords(cs, keep)[i].name != KeepCoords(cs, keep)[j].name
  {
    if |cs| > 0 {
      KeepCoordsDistinct(cs[1..], keep);
      var rest := KeepCoords(cs[1..], keep);
      forall c | c in rest ensures c.name != cs[0].name {
        assert c in cs[1..];
      }
    }
  }

  /** The first name of `names` the dataset lacks. */
  function FirstAbsent(ds: Dataset, names: seq<string>): (r: Option<string>)
    ensures r.None? <==> forall j :: 0 <= j < |names| ==> Has(ds, names[j])
    ensures r.Some? ==> !Has(ds, r.value)
  {
    if |names| == 0 then None
    else if !Has(ds, names[0]) then Some(names[0])
    else
      var r := FirstAbsent(ds, names[1..]);
      assert forall j :: 1 <= j < |names| ==> names[j] == names[1..][j - 1];
      r
  }

  /** The listed names that are data variables, with their fields, in list order. */
  function ListedVars(ds: Dataset, names: seq<string>): (r: seq<Variable>)
    ensures forall v :: v in r ==> v.name in names && VarField(ds, v.name) == Ok(v.field)
    ensures forall j :: 0 <= j < |names| && HasVar(ds, names[j]) ==>
              exists i :: 0 <= i < |r| && r[i].name == names[j]
  {
    if |names| == 0 then []
    else
      var rest := ListedVars(ds, names[1..]);
      assert forall j :: 1 <= j < |names| ==> names[j] == names[1..][j - 1];
      match VarField(ds, names[0])
      case Ok(f) =>
        var r := [Variable(names[0], f)] + rest;
        forall j | 0 <= j < |names| && HasVar(ds, names[j])
          ensures exists i :: 0 <= i < |r| && r[i].name == names[j]
        {
          if names[j] == names[0] {
            assert r[0].name == names[j];
          } else {
            assert names[1..][j - 1] == names[j];
            var i :| 0 <= i < |rest| && rest[i].name == names[j];
            assert r[i + 1] == rest[i];
          }
        }
        r
      case Err(_) => rest
  }

  lemma {:induction false} ListedVarsDistinct(ds: Dataset, names: seq<string>)
    requires Distinct(names)
    ensures forall i, j :: 0 <= i < j < |ListedVars(ds, names)| ==>
      ListedVars(ds, names)[i].name != ListedVars(ds, names)[j].name
  {
    if |names| > 0 {
      ListedVarsDistinct(ds, names[1..]);
      forall v | v in ListedVars(ds, names[1..]) ensures v.name != names[0] {
        assert v.name in names[1..];
      }
    }
  }

  /** The dimensions the listed variables live on, and listed coordinates. */
  function NeededDims(ds: Dataset, names: seq<string>): set<string> {
    (set i, d | 0 <= i < |ds.vars| && ds.vars[i].name in names && d in ds.vars[i].field.dims :: d)
      + (set n | n in names && HasCoord(ds, n))
  }

  /** `ds[[n1, n2, ...]]` for distinct names: the listed data variables, in
      list order, plus every coordinate along a dimension they use; a name
      the dataset lacks raises KeyError. */
  function Subset(ds: Dataset, names: seq<string>): (r: Result<Dataset>)
    requires WellFormed(ds)
    requires Distinct(names)
    ensures r.Ok? <==> forall j :: 0 <= j < |names| ==> Has(ds, names[j])
    ensures r.Err? ==> r.error.MissingKey? && !Has(ds, r.error.key)
    ensures r.Ok? ==> WellFormed(r.value)
    ensures r.Ok? ==> forall i :: 0 <= i < |r.value.vars| ==>
      r.value.vars[i].name in names && VarField(ds, r.value.vars[i].name) == Ok(r.value.vars[i].field)
    ensures r.Ok? ==> forall j :: 0 <= j < |names| && HasVar(ds, names[j]) ==> HasVar(r.value, names[j])
    ensures r.Ok? ==> forall c :: c in r.value.coords <==> c in ds.coords && c.name in NeededDims(ds, names)
  {
    match FirstAbsent(ds, names)
    case Some(n) => Err(MissingKey(n))
    case None =>
      var keep := NeededDims(ds, names);
      var coords := KeepCoords(ds.coords, keep);
      var vars := ListedVars(ds, names);
      KeepCoordsDistinct(ds.coords, keep);
      ListedVarsDistinct(ds, names);
      KeptApart(ds, coords, vars);
      Ok(Dataset(coords, vars))
  }

  /** Coordinates and variables drawn from one well-formed dataset never
      share a name. */
  lemma KeptApart(ds: Dataset, coords: seq<Coord>, vars: seq<Variable>)
    requires WellFormed(ds)
    requires forall c :: c in coords ==> c in ds.coords
    requires forall v :: v in vars ==> VarField(ds, v.name) == Ok(v.field)
    ensures forall i, j :: 0 <= i < |coords| && 0 <= j < |vars| ==> coords[i].name != vars[j].name
  {
    forall i, j | 0 <= i < |coords| && 0 <= j < |vars|
      ensures coords[i].name != vars[j].name
    {
      assert coords[i] in ds.coords;
      assert vars[j] in vars;
      var k :| 0 <= k < |ds.vars| && ds.vars[k] == Variable(vars[j].name, vars[j].field);
    }
  }

  // ---------------------------------------------------------------- select

  /** `ds[name]` for a data variable: the field with the coordinates along
      its dimensions; KeyError for a name that is not a data variable. */
  function Select(ds: Dataset, name: string): (r: Result<DataArray>)
    ensures r.Ok? <==> HasVar(ds, name)
    ensures r.Err? ==> r.error == MissingKey(name)
    ensures r.Ok? ==> VarField(ds, name) == Ok(r.value.field)
    ensures r.Ok? ==> forall c :: c in r.value.coords <==> c in ds.coords && c.name in r.value.field.dims
  {
    var f :- VarField(ds, name);
    Ok(DataArray(f, KeepCoords(ds.coords, set d | d in f.dims)))
  }
}
