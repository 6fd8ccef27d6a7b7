/** `src/fetch/pull_gsf_winds.py`: picking the GFS cycle, the NOMADS filter
    request for one forecast hour, the list of forecast hours, and the
    download loop that keeps a file when it is already on disk or when the
    server answers with a large enough 200 response.

    The network and the disk are parameters: `get` is what the HTTP client
    returns for a request (`None` when it raises), and `Disk` maps the file
    names present in the output directory to their sizes.
 */
module GfsWinds {
  import opened Results
  import opened Text
  import opened DateTimes
  import opened Sorting
  import opened Arith

  const NomadsBase: string := "https://nomads.ncep.noaa.gov/cgi-bin/filter_gfs_0p25.pl"
  const NoSavedMessage: string := "No GFS files saved. Check NOMADS availability or bbox."

  /** A response smaller than this many bytes is treated as an error page. */
  const MinGribBytes: int := 10000

  /** `(lon_min, lon_max, lat_min, lat_max)`, in that order. */
  datatype BBox = BBox(lonMin: real, lonMax: real, latMin: real, latMax: real)

  /** A query value before URL encoding: a text or a bbox number. */
  datatype QueryValue = Text(text: string) | Number(x: real)

  /** The request `build_url` renders: the filter script and its query
      parameters in insertion order. */
  datatype Url = Url(base: string, query: seq<(string, QueryValue)>)

  /** The HTTP status and the length of the body. */
  datatype Response = Response(status: int, size: nat)

  /** File name to size, for the files in the output directory. */
  type Disk = map<string, nat>

  // ---------------------------------------------------------------- cycle

  /** `(hour // 6) * 6`: the synoptic hour at or before `hour`. */
  function CycleHour(hour: int): (hh: int)
    requires 0 <= hour < 24
    ensures hh == 0 || hh == 6 || hh == 12 || hh == 18
    ensures hh <= hour < hh + 6
  {
    (hour / 6) * 6
  }

  /** The cycle hour is the only multiple of six in the six hours ending
      at `hour`. */
  lemma CycleHourUnique(hour: int, c: int)
    requires 0 <= hour < 24
    requires c % 6 == 0 && c <= hour < c + 6
    ensures c == CycleHour(hour)
  {
  }

  /** `gfs_cycle`: the date as `%Y%m%d` and the cycle hour as two digits. */
  function GfsCycle(now: DateTime): (r: (string, string))
    requires now.Valid()
    ensures |r.1| == 2 && AllDigits(r.1)
  {
    DigitsWidth(CycleHour(now.hour), 2);
    (FormatYmd(now), FormatInt(CycleHour(now.hour), 2))
  }

  /** The date part reads back as the day of `now`. */
  lemma GfsCycleDate(now: DateTime)
    requires now.Valid()
    ensures |GfsCycle(now).0| == 8 && AllDigits(GfsCycle(now).0)
    ensures ParseDigits(GfsCycle(now).0[..4]) == now.year
    ensures ParseDigits(GfsCycle(now).0[4..6]) == now.month
    ensures ParseDigits(GfsCycle(now).0[6..]) == now.day
  {
    assert GfsCycle(now).0 == FormatYmd(now);
    FormatYmdRoundTrip(now);
  }

  /** The hour part reads back as one of 00, 06, 12, 18, the latest such
      hour not after `now`'s hour. */
  lemma GfsCycleHour(now: DateTime)
    requires now.Valid()
    ensures ParseDigits(GfsCycle(now).1) % 6 == 0
    ensures ParseDigits(GfsCycle(now).1) <= now.hour < ParseDigits(GfsCycle(now).1) + 6
  {
    assert GfsCycle(now).1 == ZeroPad(CycleHour(now.hour), 2);
    ParseZeroPad(CycleHour(now.hour), 2);
  }

  // -------------------------------------------------------------- request

  function CycleDir(ymd: string, hh: string): string {
    "/gfs." + ymd + "/" + hh + "/atmos"
  }

  function FilePrefix(hh: string): string {
    "gfs.t" + hh + "z.pgrb2.0p25.f"
  }

  /** The GRIB2 file name on the server for lead hour `fff`. */
  function FileName(hh: string, fff: int): string {
    FilePrefix(hh) + FormatInt(fff, 3)
  }

  /** `build_url`: the filter script with the query parameters in the
      order the source's dict literal lists them. */
  function BuildUrl(ymd: string, hh: string, fff: int, bbox: BBox): Url {
    Url(NomadsBase, Query(CycleDir(ymd, hh), FileName(hh, fff), bbox))
  }

  function Query(dir: string, file: string, bbox: BBox): seq<(string, QueryValue)> {
    [("dir", Text(dir)),
     ("file", Text(file)),
     ("lev_10_m_above_ground", Text("on")),
     ("var_UGRD", Text("on")),
     ("var_VGRD", Text("on")),
     ("subregion", Text("")),
     ("leftlon", Number(bbox.lonMin)), ("rightlon", Number(bbox.lonMax)),
     ("toplat", Number(bbox.latMax)), ("bottomlat", Number(bbox.latMin))]
  }

  /** No query parameter is given twice. */
  lemma QueryKeysDistinct(dir: string, file: string, bbox: BBox)
    ensures KeysDistinct(Query(dir, file, bbox))
  {
  }

  /** The request asks for the cycle directory and the lead hour's file,
      restricted to the 10 m U and V wind. */
  lemma BuildUrlSelects(ymd: string, hh: string, fff: int, bbox: BBox)
    ensures BuildUrl(ymd, hh, fff, bbox).base == NomadsBase
    ensures Lookup(BuildUrl(ymd, hh, fff, bbox).query, "dir") == Some(Text(CycleDir(ymd, hh)))
    ensures Lookup(BuildUrl(ymd, hh, fff, bbox).query, "file") == Some(Text(FileName(hh, fff)))
    ensures Lookup(BuildUrl(ymd, hh, fff, bbox).query, "lev_10_m_above_ground") == Some(Text("on"))
    ensures Lookup(BuildUrl(ymd, hh, fff, bbox).query, "var_UGRD") == Some(Text("on"))
    ensures Lookup(BuildUrl(ymd, hh, fff, bbox).query, "var_VGRD") == Some(Text("on"))
  {
    QuerySelects(CycleDir(ymd, hh), FileName(hh, fff), bbox);
  }

  lemma QuerySelects(dir: string, file: string, bbox: BBox)
    ensures Lookup(Query(dir, file, bbox), "dir") == Some(Text(dir))
    ensures Lookup(Query(dir, file, bbox), "file") == Some(Text(file))
    ensures Lookup(Query(dir, file, bbox), "lev_10_m_above_ground") == Some(Text("on"))
    ensures Lookup(Query(dir, file, bbox), "var_UGRD") == Some(Text("on"))
    ensures Lookup(Query(dir, file, bbox), "var_VGRD") == Some(Text("on"))
  {
    var q := Query(dir, file, bbox);
    QueryKeysDistinct(dir, file, bbox);
    LookupAt(q, 0); LookupAt(q, 1); LookupAt(q, 2); LookupAt(q, 3); LookupAt(q, 4);
  }

  /** The subregion edges: west is `lon_min`, east `lon_max`, north
      `lat_max`, south `lat_min`. */
  lemma BuildUrlSubregion(ymd: string, hh: string, fff: int, bbox: BBox)
    ensures Lookup(BuildUrl(ymd, hh, fff, bbox).query, "subregion") == Some(Text(""))
    ensures Lookup(BuildUrl(ymd, hh, fff, bbox).query, "leftlon") == Some(Number(bbox.lonMin))
    ensures Lookup(BuildUrl(ymd, hh, fff, bbox).query, "rightlon") == Some(Number(bbox.lonMax))
    ensures Lookup(BuildUrl(ymd, hh, fff, bbox).query, "toplat") == Some(Number(bbox.latMax))
    ensures Lookup(BuildUrl(ymd, hh, fff, bbox).query, "bottomlat") == Some(Number(bbox.latMin))
  {
    var q := BuildUrl(ymd, hh, fff, bbox).query;
    QueryKeysDistinct(CycleDir(ymd, hh), FileName(hh, fff), bbox);
    LookupAt(q, 5); LookupAt(q, 6); LookupAt(q, 7); LookupAt(q, 8); LookupAt(q, 9);
  }

  /** The value of the first parameter called `key`. */
  function Lookup(q: seq<(string, QueryValue)>, key: string): Option<QueryValue> {
    if |q| == 0 then None
    else if q[0].0 == key then Some(q[0].1)
    else Lookup(q[1..], key)
  }

  predicate KeysDistinct(q: seq<(string, QueryValue)>) {
    forall i, j :: 0 <= i < j < |q| ==> q[i].0 != q[j].0
  }

  /** With distinct keys, looking a key up finds the value stored at its
      position. */
  lemma {:induction false} LookupAt(q: seq<(string, QueryValue)>, i: int)
    requires KeysDistinct(q) && 0 <= i < |q|
    ensures Lookup(q, q[i].0) == Some(q[i].1)
  {
    if i > 0 {
      assert KeysDistinct(q[1..]) by {
        forall a, b | 0 <= a < b < |q[1..]| ensures q[1..][a].0 != q[1..][b].0 {
          assert q[1..][a] == q[a + 1] && q[1..][b] == q[b + 1];
        }
      }
      LookupAt(q[1..], i - 1);
      assert q[1..][i - 1] == q[i];
    }
  }

  /** The lead hour can be read back from the requested file name: after
      the fixed prefix come at least three digits spelling `fff`. */
  lemma FileNameLeadHour(hh: string, fff: int)
    requires fff >= 0
    ensures |FileName(hh, fff)| >= |FilePrefix(hh)| + 3
    ensures FileName(hh, fff)[..|FilePrefix(hh)|] == FilePrefix(hh)
    ensures AllDigits(FileName(hh, fff)[|FilePrefix(hh)|..])
    ensures ParseDigits(FileName(hh, fff)[|FilePrefix(hh)|..]) == fff
  {
    var s := FileName(hh, fff);
    assert s[|FilePrefix(hh)|..] == ZeroPad(fff, 3);
    ParseZeroPad(fff, 3);
  }

  /** `gfs_{ymd}_{hh}_f{fff:03d}_10m_uv.grib2`: the local name of one
      downloaded hour. */
  function OutName(ymd: string, hh: string, fff: int): string {
    OutPrefix(ymd, hh) + FormatInt(fff, 3) + OutSuffix
  }

  function OutPrefix(ymd: string, hh: string): string {
    "gfs_" + ymd + "_" + hh + "_f"
  }

  const OutSuffix: string := "_10m_uv.grib2"

  /** Two lead hours of one cycle never share a local file name, so one
      hour's download cannot stand in for another's. */
  lemma OutNameInjective(ymd: string, hh: string, a: int, b: int)
    requires OutName(ymd, hh, a) == OutName(ymd, hh, b)
    ensures a == b
  {
    var p := OutPrefix(ymd, hh);
    var s := OutName(ymd, hh, a);
    var fa, fb := FormatInt(a, 3), FormatInt(b, 3);
    assert |fa| == |fb|;
    assert s[|p|..|p| + |fa|] == fa;
    assert OutName(ymd, hh, b)[|p|..|p| + |fb|] == fb;
    FormatIntInjective(a, b, 3);
  }

  // ---------------------------------------------------------------- hours

  /** The elements of `range(start, stop, step)` for a non-zero step:
      `start`, `start + step`, ... while short of `stop`. */
  function RangeFrom(start: int, stop: int, step: int): (r: seq<int>)
    requires step != 0
    ensures forall k :: 0 <= k < |r| ==> r[k] == start + k * step
    ensures step > 0 ==> forall k :: 0 <= k < |r| ==> start <= r[k] < stop
    ensures step < 0 ==> forall k :: 0 <= k < |r| ==> stop < r[k] <= start
    ensures step > 0 ==> forall i, j :: 0 <= i < j < |r| ==> r[i] < r[j]
    ensures step < 0 ==> forall i, j :: 0 <= i < j < |r| ==> r[i] > r[j]
    decreases if step > 0 then stop - start else start - stop
  {
    if (step > 0 && start < stop) || (step < 0 && start > stop) then
      [start] + RangeFrom(start + step, stop, step)
    else []
  }

  /** Python's `range(start, stop, step)`; a zero step raises ValueError. */
  function PyRange(start: int, stop: int, step: int): (r: Result<seq<int>>)
    ensures r.Ok? <==> step != 0
    ensures r.Err? ==> r.error == ZeroStep
    ensures r.Ok? ==> Distinct(r.value)
  {
    if step == 0 then Err(ZeroStep) else Ok(RangeFrom(start, stop, step))
  }

  /** With a positive step, `range` holds exactly the numbers from `start`
      below `stop` that differ from `start` by a multiple of the step. */
  lemma {:induction false} RangeFromMembers(start: int, stop: int, step: int, x: int)
    requires step > 0
    ensures x in RangeFrom(start, stop, step) <==> start <= x < stop && (x - start) % step == 0
    decreases stop - start
  {
    if start < stop {
      var rest := RangeFrom(start + step, stop, step);
      assert RangeFrom(start, stop, step) == [start] + rest;
      if x == start {
        DivUnique(0, step, 0, 0);
      } else if x < start + step {
        assert x !in rest;
        if x > start {
          DivUnique(x - start, step, 0, x - start);
        }
      } else {
        RangeFromMembers(start + step, stop, step, x);
        ModShift(x - start - step, step);
      }
    }
  }

  /** `list(range(0, horizon + 1, step))`, the forecast hours to fetch. */
  function ForecastHours(horizon: int, step: int): (r: Result<seq<int>>)
    ensures r.Ok? <==> step != 0
    ensures r.Err? ==> r.error == ZeroStep
    ensures r.Ok? && step > 0 && horizon >= 0 ==> |r.value| > 0 && r.value[0] == 0
    ensures r.Ok? ==> forall k :: 0 <= k < |r.value| - 1 ==> r.value[k + 1] == r.value[k] + step
  {
    PyRange(0, horizon + 1, step)
  }

  /** With a positive step the hours are exactly the multiples of `step`
      from 0 to `horizon`: each at most the horizon, and the horizon itself
      fetched if and only if the step divides it. */
  lemma ForecastHoursMembers(horizon: int, step: int)
    requires step > 0
    ensures forall x :: x in ForecastHours(horizon, step).value <==> 0 <= x <= horizon && x % step == 0
    ensures horizon >= 0 ==> (horizon in ForecastHours(horizon, step).value <==> horizon % step == 0)
  {
    forall x ensures x in ForecastHours(horizon, step).value <==> 0 <= x <= horizon && x % step == 0 {
      RangeFromMembers(0, horizon + 1, step, x);
    }
  }

  // ------------------------------------------------------------- download

  /** A local file counts as downloaded when it exists and is not empty. */
  predicate OnDisk(disk: Disk, name: string) {
    name in disk && disk[name] > 0
  }

  /** A response is saved when it is a 200 of at least `MinGribBytes`. */
  predicate GoodResponse(r: Response) {
    r.status == 200 && r.size >= MinGribBytes
  }

  /** The loop of `download_winds`, returning the hours whose files were
      saved (in the order of `hours`) and the directory afterwards. A file
      already on disk is kept without a request; otherwise the response is
      written and kept when good and skipped when not. A client that
      raises ends the loop. */
  function Fetch(ymd: string, hh: string, hours: seq<int>, bbox: BBox, disk: Disk,
                 get: Url -> Option<Response>): (r: Result<(seq<int>, Disk)>)
    ensures r.Ok? ==> |r.value.0| <= |hours| && forall h :: h in r.value.0 ==> h in hours
    ensures r.Ok? ==> forall h :: h in r.value.0 ==> OnDisk(r.value.1, OutName(ymd, hh, h))
    ensures r.Ok? ==> forall n :: OnDisk(disk, n) ==> OnDisk(r.value.1, n)
    ensures r.Err? ==> r.error.TransportFailure? && r.error.hour in hours
    decreases |hours|
  {
    if |hours| == 0 then Ok(([], disk))
    else
      var fff := hours[0];
      var name := OutName(ymd, hh, fff);
      if OnDisk(disk, name) then
        var rest :- Fetch(ymd, hh, hours[1..], bbox, disk, get);
        Ok(([fff] + rest.0, rest.1))
      else
        match get(BuildUrl(ymd, hh, fff, bbox))
        case None => Err(TransportFailure(fff))
        case Some(resp) =>
          if !GoodResponse(resp) then Fetch(ymd, hh, hours[1..], bbox, disk, get)
          else
            var rest :- Fetch(ymd, hh, hours[1..], bbox, disk[name := resp.size], get);
            Ok(([fff] + rest.0, rest.1))
  }

  /** Keep rule for one hour, judged against the directory as it was when
      the loop started. */
  predicate Keep(ymd: string, hh: string, bbox: BBox, disk: Disk, get: Url -> Option<Response>, fff: int) {
    || OnDisk(disk, OutName(ymd, hh, fff))
    || (get(BuildUrl(ymd, hh, fff, bbox)).Some? && GoodResponse(get(BuildUrl(ymd, hh, fff, bbox)).value))
  }

  /** A request is sent for the hour and the client raises. */
  predicate Raises(ymd: string, hh: string, bbox: BBox, disk: Disk, get: Url -> Option<Response>, fff: int) {
    !OnDisk(disk, OutName(ymd, hh, fff)) && get(BuildUrl(ymd, hh, fff, bbox)).None?
  }

  /** The elements of `s` that satisfy `p`, in order. */
  function Filter<T>(s: seq<T>, p: T -> bool): (r: seq<T>)
    ensures |r| <= |s|
  {
    if |s| == 0 then [] else (if p(s[0]) then [s[0]] else []) + Filter(s[1..], p)
  }

  predicate Distinct<T(==)>(s: seq<T>) {
    forall i, j :: 0 <= i < j < |s| ==> s[i] != s[j]
  }

  /** For distinct hours, the loop raises exactly when some hour that is
      not on disk meets a raising client. */
  lemma {:induction false} FetchRaises(ymd: string, hh: string, hours: seq<int>, bbox: BBox, disk: Disk,
                                      get: Url -> Option<Response>)
    requires Distinct(hours)
    ensures Fetch(ymd, hh, hours, bbox, disk, get).Err? <==>
              exists h :: h in hours && Raises(ymd, hh, bbox, disk, get, h)
    decreases |hours|
  {
    if |hours| > 0 {
      var fff, tail := hours[0], hours[1..];
      var name := OutName(ymd, hh, fff);
      DistinctTail(hours);
      var resp := get(BuildUrl(ymd, hh, fff, bbox));
      if !OnDisk(disk, name) && resp.Some? && GoodResponse(resp.value) {
        var disk' := disk[name := resp.value.size];
        FetchRaises(ymd, hh, tail, bbox, disk', get);
        WriteKeepsOthers(ymd, hh, bbox, disk, get, fff, resp.value.size, tail);
      } else {
        FetchRaises(ymd, hh, tail, bbox, disk, get);
      }
      assert forall h :: h in hours <==> h == fff || h in tail;
    }
  }

  /** For distinct hours, a loop that does not raise saves exactly the
      hours the keep rule accepts, in their original order. */
  lemma {:induction false} FetchKeeps(ymd: string, hh: string, hours: seq<int>, bbox: BBox, disk: Disk,
                                     get: Url -> Option<Response>)
    requires Distinct(hours)
    ensures Fetch(ymd, hh, hours, bbox, disk, get).Ok? ==>
              Fetch(ymd, hh, hours, bbox, disk, get).value.0 == Filter(hours, h => Keep(ymd, hh, bbox, disk, get, h))
    decreases |hours|
  {
    if |hours| > 0 {
      var fff, tail := hours[0], hours[1..];
      var name := OutName(ymd, hh, fff);
      DistinctTail(hours);
      var resp := get(BuildUrl(ymd, hh, fff, bbox));
      if !OnDisk(disk, name) && resp.Some? && GoodResponse(resp.value) {
        var disk' := disk[name := resp.value.size];
        FetchKeeps(ymd, hh, tail, bbox, disk', get);
        WriteKeepsOthers(ymd, hh, bbox, disk, get, fff, resp.value.size, tail);
        FilterAgree(tail, h => Keep(ymd, hh, bbox, disk', get, h), h => Keep(ymd, hh, bbox, disk, get, h));
      } else {
        FetchKeeps(ymd, hh, tail, bbox, disk, get);
      }
    }
  }

  lemma DistinctTail<T>(s: seq<T>)
    requires Distinct(s) && |s| > 0
    ensures Distinct(s[1..]) && s[0] !in s[1..]
  {
    forall i, j | 0 <= i < j < |s[1..]| ensures s[1..][i] != s[1..][j] {
      assert s[1..][i] == s[i + 1] && s[1..][j] == s[j + 1];
    }
  }

  /** Saving the file of hour `fff` changes neither the keep rule nor the
      raise condition of any other hour. */
  lemma WriteKeepsOthers(ymd: string, hh: string, bbox: BBox, disk: Disk, get: Url -> Option<Response>,
                         fff: int, size: nat, others: seq<int>)
    requires fff !in others
    ensures forall h :: h in others ==>
      && Keep(ymd, hh, bbox, disk[OutName(ymd, hh, fff) := size], get, h) == Keep(ymd, hh, bbox, disk, get, h)
      && Raises(ymd, hh, bbox, disk[OutName(ymd, hh, fff) := size], get, h) == Raises(ymd, hh, bbox, disk, get, h)
  {
    forall h | h in others
      ensures OutName(ymd, hh, h) != OutName(ymd, hh, fff)
    {
      if OutName(ymd, hh, h) == OutName(ymd, hh, fff) {
        OutNameInjective(ymd, hh, h, fff);
      }
    }
  }

  /** Two tests that agree on every element of `s` pick the same elements. */
  lemma {:induction false} FilterAgree<T>(s: seq<T>, p: T -> bool, q: T -> bool)
    requires forall x :: x in s ==> p(x) == q(x)
    ensures Filter(s, p) == Filter(s, q)
    decreases |s|
  {
    if |s| > 0 {
      FilterAgree(s[1..], p, q);
    }
  }

  /** `download_winds` after its loop: the saved local names, or
      SystemExit when nothing was saved. */
  function DownloadWinds(now: DateTime, hours: seq<int>, bbox: BBox, disk: Disk,
                         get: Url -> Option<Response>): (r: Result<(seq<string>, Disk)>)
    requires now.Valid()
    ensures r.Ok? ==> |r.value.0| > 0
    ensures r.Ok? ==> forall n :: n in r.value.0 ==> OnDisk(r.value.1, n)
    ensures r.Err? && !r.error.TransportFailure? ==> r.error == Exit(NoSavedMessage)
  {
    var (ymd, hh) := GfsCycle(now);
    var fetched :- Fetch(ymd, hh, hours, bbox, disk, get);
    var saved := Map(fetched.0, h => OutName(ymd, hh, h));
    if |saved| == 0 then Err(Exit(NoSavedMessage)) else Ok((saved, fetched.1))
  }

  /** `download_winds` on distinct hours: SystemExit exactly when the keep
      rule accepts none of them and no request raised; otherwise the saved
      names are those of the accepted hours, in order. */
  lemma DownloadWindsSaves(now: DateTime, hours: seq<int>, bbox: BBox, disk: Disk,
                           get: Url -> Option<Response>)
    requires now.Valid()
    requires Distinct(hours)
    requires forall h :: h in hours ==> !Raises(GfsCycle(now).0, GfsCycle(now).1, bbox, disk, get, h)
    ensures
      var (ymd, hh) := GfsCycle(now);
      var kept := Filter(hours, h => Keep(ymd, hh, bbox, disk, get, h));
      var r := DownloadWinds(now, hours, bbox, disk, get);
      && (r.Err? <==> |kept| == 0)
      && (r.Err? ==> r.error == Exit(NoSavedMessage))
      && (r.Ok? ==> r.value.0 == Map(kept, h => OutName(ymd, hh, h)))
  {
    var (ymd, hh) := GfsCycle(now);
    FetchRaises(ymd, hh, hours, bbox, disk, get);
    FetchKeeps(ymd, hh, hours, bbox, disk, get);
  }

  /** `main`: the hours `range(0, horizon + 1, step)` downloaded for the
      current cycle. */
  function RunMain(now: DateTime, horizon: int, step: int, bbox: BBox, disk: Disk,
                   get: Url -> Option<Response>): (r: Result<(seq<string>, Disk)>)
    requires now.Valid()
    ensures step == 0 ==> r == Err(ZeroStep)
    ensures r.Ok? ==> |r.value.0| > 0 && step != 0
  {
    var hours :- ForecastHours(horizon, step);
    DownloadWinds(now, hours, bbox, disk, get)
  }
}
