/** The correlation pipeline of hurricane-selfie.js: fetch a storm's
    track file, turn every track into a search point (its time and a
    100 km box around it), keep every tenth point, query the imagery index
    once per point strictly in order, stopping at the first error, and
    reduce the responses to a list of thumbnail URLs.

    Both fetches are parameters (`TrackSource`, `ImageryIndex`) returning
    a `Result`, as are the date parser, JavaScript's number coercion of the
    LAT/LON fields and the trigonometry (`Host`). */
module HurricaneSelfie {
  import opened Base
  import opened HurricaneTrack
  import opened GeoJson

  const DEFAULT_NAME: string := "MARIA"
  /** The default year, as the track URL renders it. */
  const DEFAULT_YEAR: string := "2017"
  const BB_DISTANCE_IN_KM: real := 100.0
  /** Half the width of a search window, in hours. */
  const TIME_SEARCH_WINDOW: int := 8
  const HOUR_MS: int := 3_600_000
  /** Only the points at indices divisible by this are queried. */
  const DECIMATION: nat := 10
  /** The largest distance from the epoch, in ms, that a JavaScript Date can hold. */
  const MAX_TIME_MS: int := 8_640_000_000_000_000
  const LAT_COLUMN: string := "LAT"
  const LON_COLUMN: string := "LON"

  /** The functions the pipeline borrows from its libraries. */
  datatype Host = Host(
    parseDate: DateParser,               // moment(text, format).toDate()
    toNumber: Option<string> -> real,    // JavaScript's coercion of a LAT/LON field
    trig: Trig)                          // Math.sin, cos, asin, atan2

  /** `fetchTrackData(name, year)` followed by `res.text()`. */
  type TrackSource = (string, string) -> Result<string>

  /** A track reduced to what the imagery query needs. */
  datatype SearchPoint = SearchPoint(dateTime: Instant, geoJson: Polygon)

  /** The arguments of one imagery query; the bounds are ms since the epoch. */
  datatype SearchWindow = SearchWindow(startDate: int, endDate: int, geoJson: Polygon)

  /** One catalogue entry of an imagery response. */
  datatype Scene = Scene(awsThumbnail: Option<string>, thumbnail: Option<string>)

  /** An imagery response: `meta.found` and `results`. */
  datatype ImageryResponse = ImageryResponse(found: int, results: seq<Scene>)

  /** `fetchByDateAndGeoJson(start, end, geoJson)` followed by `res.json()`. */
  type ImageryIndex = SearchWindow -> Result<ImageryResponse>

  // ---------------------------------------------------------------- parameters

  /** JavaScript truthiness of a string-valued parameter or field. */
  predicate Truthy(v: Option<string>) {
    v.Some? && v.value != ""
  }

  /** `value || fallback` over strings. */
  function OrDefault(v: Option<string>, fallback: string): (r: string)
    ensures Truthy(v) ==> r == v.value
    ensures !Truthy(v) ==> r == fallback
  {
    if Truthy(v) then v.value else fallback
  }

  /** The storm name and year the pipeline fetches: a missing or empty
      parameter takes its default, so neither is ever empty. */
  function Request(name: Option<string>, year: Option<string>): (r: (string, string))
    ensures r.0 != "" && r.1 != ""
    ensures Truthy(name) ==> r.0 == name.value
    ensures Truthy(year) ==> r.1 == year.value
    ensures !Truthy(name) ==> r.0 == DEFAULT_NAME
    ensures !Truthy(year) ==> r.1 == DEFAULT_YEAR
  {
    (OrDefault(name, DEFAULT_NAME), OrDefault(year, DEFAULT_YEAR))
  }

  // ---------------------------------------------------------------- search points

  /** The search point of one track: its instant and the box at
      `BB_DISTANCE_IN_KM` around its LAT/LON fields. */
  function SearchPointOf(host: Host, track: TrackRecord): SearchPoint {
    var lat := host.toNumber(Lookup(track.fields, LAT_COLUMN));
    var lon := host.toNumber(Lookup(track.fields, LON_COLUMN));
    SearchPoint(track.dateTime, GeoJsonBoundingBox(host.trig, lat, lon, BB_DISTANCE_IN_KM))
  }

  /** The mapping stage: one search point per track, in track order. */
  function SearchPoints(host: Host, tracks: seq<TrackRecord>): (r: seq<SearchPoint>)
    ensures |r| == |tracks|
    ensures forall i :: 0 <= i < |r| ==> r[i] == SearchPointOf(host, tracks[i])
  {
    seq(|tracks|, i requires 0 <= i < |tracks| => SearchPointOf(host, tracks[i]))
  }

  /** Every search point keeps its track's instant, and its box is a closed
      five-position ring whose k-th position is the `DestinationPoint` of the
      track's (LAT, LON) at 100 km on the k-th ring bearing. */
  lemma {:induction false} SearchPointBox(host: Host, tracks: seq<TrackRecord>, i: nat, k: nat)
    requires i < |tracks| && k < RING_LENGTH
    ensures var p := SearchPoints(host, tracks)[i];
      var lat := host.toNumber(Lookup(tracks[i].fields, LAT_COLUMN));
      var lon := host.toNumber(Lookup(tracks[i].fields, LON_COLUMN));
      && p.dateTime == tracks[i].dateTime
      && p.geoJson.kind == POLYGON
      && p.geoJson.coordinates[0][0] == p.geoJson.coordinates[0][RING_LENGTH - 1]
      && p.geoJson.coordinates[0][k]
         == Position(DestinationPoint(host.trig, lat, lon, BB_DISTANCE_IN_KM, RingBearing(k)))
  {
    var lat := host.toNumber(Lookup(tracks[i].fields, LAT_COLUMN));
    var lon := host.toNumber(Lookup(tracks[i].fields, LON_COLUMN));
    RingFollowsBearings(host.trig, lat, lon, BB_DISTANCE_IN_KM, k);
  }

  // ---------------------------------------------------------------- decimation

  /** `_.filter(xs, (t, i) => i % 10 === 0)` on a suffix whose first element
      sits at index `start` of the whole sequence. */
  function KeepFrom<T>(xs: seq<T>, start: nat): seq<T>
    decreases |xs|
  {
    if xs == [] then []
    else (if start % DECIMATION == 0 then [xs[0]] else []) + KeepFrom(xs[1..], start + 1)
  }

  /** The decimation stage. */
  function Decimate<T>(xs: seq<T>): seq<T> {
    KeepFrom(xs, 0)
  }

  /** The distance from index `start` to the next multiple of ten. */
  function Gap(start: nat): (g: nat)
    ensures g < DECIMATION && (start + g) % DECIMATION == 0
  {
    (DECIMATION - start % DECIMATION) % DECIMATION
  }

  /** From a suffix starting at index `start`, one element is kept per
      multiple of ten that the suffix covers. */
  lemma {:induction false} KeepFromLength<T>(xs: seq<T>, start: nat)
    ensures |KeepFrom(xs, start)| == if |xs| <= Gap(start) then 0 else (|xs| - Gap(start) + 9) / 10
    decreases |xs|
  {
    if xs != [] {
      KeepFromLength(xs[1..], start + 1);
      if start % DECIMATION == 0 {
        assert Gap(start) == 0 && Gap(start + 1) == 9;
      } else {
        assert Gap(start + 1) == Gap(start) - 1;
      }
    }
  }

  /** The k-th element kept from a suffix is the one k multiples of ten
      after the suffix's first multiple of ten. */
  lemma {:induction false} KeepFromAt<T>(xs: seq<T>, start: nat, k: nat)
    requires k < |KeepFrom(xs, start)|
    ensures Gap(start) + 10 * k < |xs| && KeepFrom(xs, start)[k] == xs[Gap(start) + 10 * k]
    decreases |xs|
  {
    KeepFromLength(xs, start);
    var rest := KeepFrom(xs[1..], start + 1);
    if start % DECIMATION == 0 {
      assert Gap(start) == 0 && Gap(start + 1) == 9;
      assert KeepFrom(xs, start) == [xs[0]] + rest;
      if k > 0 {
        KeepFromAt(xs[1..], start + 1, k - 1);
        assert xs[1..][9 + 10 * (k - 1)] == xs[10 * k];
      }
    } else {
      assert Gap(start + 1) == Gap(start) - 1;
      assert KeepFrom(xs, start) == rest;
      KeepFromAt(xs[1..], start + 1, k);
    }
  }

  /** Decimation keeps exactly the elements at indices 0, 10, 20, ..., in
      order: ceil(n / 10) of them. */
  lemma {:induction false} DecimateKeepsEveryTenth<T>(xs: seq<T>)
    ensures |Decimate(xs)| == (|xs| + 9) / 10
    ensures forall k :: 0 <= k < |Decimate(xs)| ==> 10 * k < |xs| && Decimate(xs)[k] == xs[10 * k]
  {
    KeepFromLength(xs, 0);
    forall k | 0 <= k < |Decimate(xs)|
      ensures 10 * k < |xs| && Decimate(xs)[k] == xs[10 * k]
    {
      KeepFromAt(xs, 0, k);
    }
  }

  /** Each index divisible by ten is kept, at place i / 10. */
  lemma {:induction false} DecimateKeepsMultiplesOfTen<T>(xs: seq<T>, i: nat)
    requires i < |xs| && i % DECIMATION == 0
    ensures i / 10 < |Decimate(xs)| && Decimate(xs)[i / 10] == xs[i]
  {
    DecimateKeepsEveryTenth(xs);
  }

  /** A track file of 37 tracks leads to 4 queries, for tracks 0, 10, 20 and 30. */
  lemma {:induction false} DecimateThirtySeven<T>(xs: seq<T>)
    requires |xs| == 37
    ensures Decimate(xs) == [xs[0], xs[10], xs[20], xs[30]]
  {
    DecimateKeepsEveryTenth(xs);
  }

  // ---------------------------------------------------------------- windows

  /** An instant a JavaScript Date can hold. */
  predicate ValidTime(t: int) {
    -MAX_TIME_MS <= t <= MAX_TIME_MS
  }

  /** The window of `_buildFetcher`: the point's instant minus and plus
      eight hours. `toISOString()` throws a RangeError on an Invalid Date,
      either because the track's date did not parse or because a bound
      leaves the range of Date. */
  function WindowFor(p: SearchPoint): (r: Result<SearchWindow>)
    ensures r.Success? <==>
      p.dateTime.Some? && ValidTime(p.dateTime.value - TIME_SEARCH_WINDOW * HOUR_MS)
                       && ValidTime(p.dateTime.value + TIME_SEARCH_WINDOW * HOUR_MS)
    ensures r.Failure? ==> r.error == InvalidTimeValue
    ensures r.Success? ==>
      && r.value.geoJson == p.geoJson
      && r.value.startDate < p.dateTime.value < r.value.endDate
      && p.dateTime.value - r.value.startDate == r.value.endDate - p.dateTime.value
      && r.value.endDate - r.value.startDate == 16 * HOUR_MS
  {
    match p.dateTime
    case None => Failure(InvalidTimeValue)
    case Some(t) =>
      var startDate := t - TIME_SEARCH_WINDOW * HOUR_MS;
      var endDate := t + TIME_SEARCH_WINDOW * HOUR_MS;
      if ValidTime(startDate) && ValidTime(endDate) then
        Success(SearchWindow(startDate, endDate, p.geoJson))
      else
        Failure(InvalidTimeValue)
  }

  /** One task of the series: build the window, then query the index. */
  function Query(index: ImageryIndex, p: SearchPoint): Result<ImageryResponse> {
    match WindowFor(p)
    case Failure(e) => Failure(e)
    case Success(w) => index(w)
  }

  /** A point whose instant is not a valid date fails before any request. */
  lemma {:induction false} InvalidDateFailsQuery(index: ImageryIndex, p: SearchPoint)
    requires p.dateTime.None?
    ensures Query(index, p) == Failure(InvalidTimeValue)
  {
  }

  // ---------------------------------------------------------------- the series

  /** What every task would return, in task order. */
  function Outcomes(index: ImageryIndex, points: seq<SearchPoint>): (os: seq<Result<ImageryResponse>>)
    ensures |os| == |points|
    ensures forall i :: 0 <= i < |points| ==> os[i] == Query(index, points[i])
  {
    seq(|points|, i requires 0 <= i < |points| => Query(index, points[i]))
  }

  /** `async.series` over known outcomes: the first error, or every result in order. */
  function SeriesOutcome<R>(os: seq<Result<R>>): Result<seq<R>> {
    if os == [] then Success([])
    else match os[0]
      case Failure(e) => Failure(e)
      case Success(v) =>
        match SeriesOutcome(os[1..])
        case Failure(e) => Failure(e)
        case Success(vs) => Success([v] + vs)
  }

  /** The index of the first failing outcome. */
  function FirstFailure<R>(os: seq<Result<R>>): (r: Option<nat>)
    ensures r.Some? ==> r.value < |os| && os[r.value].Failure?
                        && forall j :: 0 <= j < r.value ==> os[j].Success?
    ensures r.None? <==> forall j :: 0 <= j < |os| ==> os[j].Success?
  {
    if os == [] then None
    else if os[0].Failure? then Some(0)
    else match FirstFailure(os[1..])
      case None => None
      case Some(i) => Some(i + 1)
  }

  /** How many tasks the series starts: all of them, or up to and
      including the first that fails. */
  function Started<R>(os: seq<Result<R>>): (n: nat)
    ensures n <= |os|
  {
    match FirstFailure(os)
    case None => |os|
    case Some(i) => i + 1
  }

  /** The series fails exactly when some task fails, with the first
      failure's error; otherwise it returns one result per task, in order. */
  lemma {:induction false} SeriesOutcomeSpec<R>(os: seq<Result<R>>)
    ensures SeriesOutcome(os).Success? <==> FirstFailure(os).None?
    ensures FirstFailure(os).Some? ==> SeriesOutcome(os) == Failure(os[FirstFailure(os).value].error)
    ensures SeriesOutcome(os).Success? ==>
      |SeriesOutcome(os).value| == |os|
      && forall j :: 0 <= j < |os| ==> os[j] == Success(SeriesOutcome(os).value[j])
    decreases |os|
  {
    if os != [] {
      SeriesOutcomeSpec(os[1..]);
      if os[0].Success? {
        var tail := SeriesOutcome(os[1..]);
        if tail.Success? {
          forall j | 1 <= j < |os|
            ensures os[j] == Success(SeriesOutcome(os).value[j])
          {
            assert os[j] == os[1..][j - 1];
          }
        } else {
          assert FirstFailure(os) == Some(FirstFailure(os[1..]).value + 1);
        }
      }
    }
  }

  /** Whatever the later tasks would do, they cannot change a series that
      has already failed. */
  lemma {:induction false} SeriesIgnoresTasksAfterFailure<R>(done: seq<Result<R>>, e: Error, later: seq<Result<R>>, other: seq<Result<R>>)
    requires forall j :: 0 <= j < |done| ==> done[j].Success?
    ensures SeriesOutcome(done + [Failure(e)] + later) == SeriesOutcome(done + [Failure(e)] + other) == Failure(e)
  {
    var a := done + [Failure(e)] + later;
    var b := done + [Failure(e)] + other;
    assert a[|done|] == Failure(e) && b[|done|] == Failure(e);
    assert FirstFailure(a) == Some(|done|);
    assert FirstFailure(b) == Some(|done|);
    SeriesOutcomeSpec(a);
    SeriesOutcomeSpec(b);
  }

  /** A task after the first throws while it builds its window. `async.series`
      starts that task from inside the previous task's success handler
      `json => callback(null, json)`, so the RangeError escapes from that
      handler: its sibling `err => callback(err)` belongs to the same `then`
      and cannot catch it, the promise of that `then` is rejected with
      nobody listening, and the series never calls back. */
  predicate ThrowsLate(index: ImageryIndex, points: seq<SearchPoint>) {
    var os := Outcomes(index, points);
    match FirstFailure(os)
    case None => false
    case Some(i) => i > 0 && WindowFor(points[i]).Failure?
  }

  /** What the series hands on: `None` when it never calls back, otherwise
      its outcome. A throw in the first task happens inside the `Promise`
      executor, which rejects with it, so that one is handed on. */
  function SeriesAnswer(index: ImageryIndex, points: seq<SearchPoint>): Option<Result<seq<ImageryResponse>>> {
    if ThrowsLate(index, points) then None else Some(SeriesOutcome(Outcomes(index, points)))
  }

  /** A later task whose window cannot be built, after tasks that all
      succeeded, leaves the series without an answer. */
  lemma {:induction false} LateThrowIsLost(index: ImageryIndex, points: seq<SearchPoint>, i: nat)
    requires 0 < i < |points|
    requires forall j :: 0 <= j < i ==> Query(index, points[j]).Success?
    requires WindowFor(points[i]).Failure?
    ensures SeriesAnswer(index, points) == None
    ensures Started(Outcomes(index, points)) == i + 1
  {
    var os := Outcomes(index, points);
    assert os[i].Failure?;
    assert forall j :: 0 <= j < i ==> os[j].Success?;
  }

  /** A first task whose window cannot be built ends the series with
      InvalidTimeValue, whatever the later tasks would do. */
  lemma {:induction false} FirstThrowFails(index: ImageryIndex, points: seq<SearchPoint>)
    requires |points| > 0 && WindowFor(points[0]).Failure?
    ensures SeriesAnswer(index, points) == Some(Failure(InvalidTimeValue))
    ensures Started(Outcomes(index, points)) == 1
  {
    var os := Outcomes(index, points);
    assert os[0] == Failure(InvalidTimeValue);
    assert FirstFailure(os) == Some(0);
    SeriesOutcomeSpec(os);
  }

  /** `async.series(tasks, ...)` with tasks `_.map(points, _buildFetcher)`:
      each task builds its window, which may throw, then queries the index;
      it runs after the previous one succeeded, and the first error ends the
      series. `started` counts the tasks run. */
  method RunQueries(index: ImageryIndex, points: seq<SearchPoint>)
    returns (r: Option<Result<seq<ImageryResponse>>>, started: nat)
    ensures r == SeriesAnswer(index, points)
    ensures started == Started(Outcomes(index, points))
  {
    ghost var os := Outcomes(index, points);
    var results: seq<ImageryResponse> := [];
    var i := 0;
    while i < |points|
      invariant 0 <= i <= |points|
      invariant |results| == i
      invariant forall j :: 0 <= j < i ==> os[j] == Success(results[j])
    {
      var window := WindowFor(points[i]);
      if window.Failure? {
        assert FirstFailure(os) == Some(i);
        if i == 0 {
          SeriesOutcomeSpec(os);
          return Some(Failure(window.error)), 1;
        }
        return None, i + 1;
      }
      var response := index(window.value);
      if response.Failure? {
        assert FirstFailure(os) == Some(i);
        SeriesOutcomeSpec(os);
        return Some(Failure(response.error)), i + 1;
      }
      results := results + [response.value];
      i := i + 1;
    }
    SeriesOutcomeSpec(os);
    assert SeriesOutcome(os).value == results;
    return Some(Success(results)), |points|;
  }

  // ---------------------------------------------------------------- reduction

  /** `_.filter(responses, d => d.meta.found > 0)` */
  function WithResults(rs: seq<ImageryResponse>): seq<ImageryResponse> {
    if rs == [] then []
    else (if rs[0].found > 0 then [rs[0]] else []) + WithResults(rs[1..])
  }

  /** `_.flatten(_.map(responses, 'results'))` */
  function Flatten(rs: seq<ImageryResponse>): seq<Scene> {
    if rs == [] then [] else rs[0].results + Flatten(rs[1..])
  }

  /** `r.aws_thumbnail || r.thumbnail`, or nothing when both are falsy. */
  function ThumbnailOf(s: Scene): (r: Option<string>)
    ensures r.Some? <==> Truthy(s.awsThumbnail) || Truthy(s.thumbnail)
    ensures r.Some? ==> r.value != ""
    ensures Truthy(s.awsThumbnail) ==> r == s.awsThumbnail
    ensures !Truthy(s.awsThumbnail) ==> r == (if Truthy(s.thumbnail) then s.thumbnail else None)
  {
    if Truthy(s.awsThumbnail) then s.awsThumbnail
    else if Truthy(s.thumbnail) then s.thumbnail
    else None
  }

  /** The filter-then-map chain over the flattened scenes. */
  function Thumbnails(scenes: seq<Scene>): seq<string> {
    if scenes == [] then []
    else (match ThumbnailOf(scenes[0]) case Some(u) => [u] case None => []) + Thumbnails(scenes[1..])
  }

  /** The reduction stage. */
  function Reduce(rs: seq<ImageryResponse>): seq<string> {
    Thumbnails(Flatten(WithResults(rs)))
  }

  /** A response is kept exactly when it found something. */
  lemma {:induction false} WithResultsMembers(rs: seq<ImageryResponse>, x: ImageryResponse)
    ensures x in WithResults(rs) <==> x in rs && x.found > 0
    decreases |rs|
  {
    if rs != [] {
      WithResultsMembers(rs[1..], x);
      assert rs == [rs[0]] + rs[1..];
    }
  }

  /** Filtering keeps the order of the responses. */
  lemma {:induction false} WithResultsAppend(a: seq<ImageryResponse>, b: seq<ImageryResponse>)
    ensures WithResults(a + b) == WithResults(a) + WithResults(b)
    decreases |a|
  {
    if a == [] {
      assert a + b == b;
    } else {
      assert (a + b)[1..] == a[1..] + b;
      WithResultsAppend(a[1..], b);
    }
  }

  /** Flattening concatenates the result lists in response order. */
  lemma {:induction false} FlattenAppend(a: seq<ImageryResponse>, b: seq<ImageryResponse>)
    ensures Flatten(a + b) == Flatten(a) + Flatten(b)
    decreases |a|
  {
    if a == [] {
      assert a + b == b;
    } else {
      assert (a + b)[1..] == a[1..] + b;
      FlattenAppend(a[1..], b);
    }
  }

  /** Extraction keeps the order of the scenes. */
  lemma {:induction false} ThumbnailsAppend(a: seq<Scene>, b: seq<Scene>)
    ensures Thumbnails(a + b) == Thumbnails(a) + Thumbnails(b)
    decreases |a|
  {
    if a == [] {
      assert a + b == b;
    } else {
      assert (a + b)[1..] == a[1..] + b;
      ThumbnailsAppend(a[1..], b);
    }
  }

  /** At most one URL per scene, and a URL is listed exactly when some
      scene has it as its preferred thumbnail. */
  lemma {:induction false} ThumbnailsSpec(scenes: seq<Scene>, u: string)
    ensures |Thumbnails(scenes)| <= |scenes|
    ensures u in Thumbnails(scenes) <==> exists s :: s in scenes && ThumbnailOf(s) == Some(u)
    decreases |scenes|
  {
    if scenes != [] {
      ThumbnailsSpec(scenes[1..], u);
      assert scenes == [scenes[0]] + scenes[1..];
      if u in Thumbnails(scenes[1..]) {
        var s :| s in scenes[1..] && ThumbnailOf(s) == Some(u);
        assert s in scenes;
      }
    }
  }

  /** A response that found nothing contributes nothing, whatever it lists. */
  lemma {:induction false} EmptyResponseIgnored(r: ImageryResponse)
    requires r.found <= 0
    ensures Reduce([r]) == []
  {
    assert WithResults([r]) == [] + WithResults([]);
  }

  /** Responses contribute their thumbnails in order. */
  lemma {:induction false} ReduceAppend(a: seq<ImageryResponse>, b: seq<ImageryResponse>)
    ensures Reduce(a + b) == Reduce(a) + Reduce(b)
  {
    WithResultsAppend(a, b);
    FlattenAppend(WithResults(a), WithResults(b));
    ThumbnailsAppend(Flatten(WithResults(a)), Flatten(WithResults(b)));
  }

  /** A response that found something contributes the preferred thumbnail
      of each of its scenes that has one. */
  lemma {:induction false} ReduceOne(r: ImageryResponse)
    requires r.found > 0
    ensures Reduce([r]) == Thumbnails(r.results)
  {
    assert WithResults([r]) == [r] + WithResults([]);
    assert Flatten([r]) == r.results + Flatten([]);
    assert r.results + [] == r.results;
  }

  // ---------------------------------------------------------------- the pipeline

  /** What `done` receives: the first error of any stage, or the thumbnails
      of the decimated search points' responses; `None` when `done` is
      never called. */
  function Correlate(name: Option<string>, year: Option<string>, source: TrackSource,
                     index: ImageryIndex, host: Host): Option<Result<seq<string>>> {
    var req := Request(name, year);
    match source(req.0, req.1)
    case Failure(e) => Some(Failure(e))
    case Success(raw) =>
      match ParseTrackData(raw, host.parseDate)
      case Failure(e) => Some(Failure(e))
      case Success(file) =>
        match SeriesAnswer(index, Decimate(SearchPoints(host, file.tracks)))
        case None => None
        case Some(Failure(e)) => Some(Failure(e))
        case Some(Success(rs)) => Some(Success(Reduce(rs)))
  }

  /** The tasks the pipeline starts: none when the track file cannot be
      fetched or parsed, otherwise as many as the series runs. */
  function QueriesStarted(name: Option<string>, year: Option<string>, source: TrackSource,
                          index: ImageryIndex, host: Host): nat {
    var req := Request(name, year);
    match source(req.0, req.1)
    case Failure(_) => 0
    case Success(raw) =>
      match ParseTrackData(raw, host.parseDate)
      case Failure(_) => 0
      case Success(file) => Started(Outcomes(index, Decimate(SearchPoints(host, file.tracks))))
  }

  /** The exported pipeline: `Some` of what `done(err, res)` receives, or
      `None` when it is never called. */
  method Run(name: Option<string>, year: Option<string>, source: TrackSource,
             index: ImageryIndex, host: Host) returns (r: Option<Result<seq<string>>>, started: nat)
    ensures r == Correlate(name, year, source, index, host)
    ensures started == QueriesStarted(name, year, source, index, host)
  {
    var req := Request(name, year);
    var text := source(req.0, req.1);
    if text.Failure? {
      return Some(Failure(text.error)), 0;
    }
    var parsed := ParseTrackData(text.value, host.parseDate);
    if parsed.Failure? {
      return Some(Failure(parsed.error)), 0;
    }
    var points := SearchPoints(host, parsed.value.tracks);
    var kept := Decimate(points);
    var responses;
    responses, started := RunQueries(index, kept);
    match responses
    case None =>
      return None, started;
    case Some(Failure(e)) =>
      return Some(Failure(e)), started;
    case Some(Success(rs)) =>
      return Some(Success(Reduce(rs))), started;
  }

  /** A track file that does not parse, which happens only when its date
      line has no year, ends the pipeline with MissingYear before any
      imagery query. */
  lemma {:induction false} MissingYearStopsPipeline(name: Option<string>, year: Option<string>, source: TrackSource,
                                                   index: ImageryIndex, host: Host, raw: string)
    requires var req := Request(name, year); source(req.0, req.1) == Success(raw)
    requires ParseTrackData(raw, host.parseDate).Failure?
    ensures Correlate(name, year, source, index, host) == Some(Failure(MissingYear))
    ensures QueriesStarted(name, year, source, index, host) == 0
  {
  }

  /** Once the track file is parsed, the pipeline stops at the first failing
      query of a decimated point, after starting no later query. It answers
      with that failure's error, unless the failure is a later task's window
      that cannot be built: then it never answers. Otherwise it returns the
      reduction of one response per decimated point, in order. */
  lemma {:induction false} CorrelateQueries(name: Option<string>, year: Option<string>, source: TrackSource,
                                            index: ImageryIndex, host: Host, raw: string, file: TrackFile,
                                            points: seq<SearchPoint>)
    requires var req := Request(name, year); source(req.0, req.1) == Success(raw)
    requires ParseTrackData(raw, host.parseDate) == Success(file)
    requires points == Decimate(SearchPoints(host, file.tracks))
    ensures var os := Outcomes(index, points);
      FirstFailure(os).Some? ==>
        && QueriesStarted(name, year, source, index, host) == FirstFailure(os).value + 1
        && var i := FirstFailure(os).value;
           if i > 0 && WindowFor(points[i]).Failure?
           then Correlate(name, year, source, index, host) == None
           else Correlate(name, year, source, index, host) == Some(Failure(os[i].error))
    ensures var os := Outcomes(index, points);
      FirstFailure(os).None? ==>
        && SeriesOutcome(os).Success?
        && |SeriesOutcome(os).value| == |points|
        && (forall j :: 0 <= j < |points| ==> Query(index, points[j]) == Success(SeriesOutcome(os).value[j]))
        && Correlate(name, year, source, index, host) == Some(Success(Reduce(SeriesOutcome(os).value)))
        && QueriesStarted(name, year, source, index, host) == |points|
  {
    SeriesOutcomeSpec(Outcomes(index, points));
  }
}
