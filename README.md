# hurricane-selfie, modelled in Dafny

hurricane-selfie takes a storm's name and year and does the following:

1. It fetches the storm's `track.dat` file from the Unisys weather archive and parses it into timestamped track records.
2. It draws a 100 km search box around every tenth track position.
3. It asks a satellite-imagery index, one query at a time, for the scenes in each box within eight hours of that position's time.
4. It answers with the thumbnail URLs of the scenes found.

This project models that core in five modules, one file each, and works one example file through the parser in a sixth:

| file | module | models |
|---|---|---|
| `base.dfy` | `Base` | `undefined` as `Option`, the single `done(err, res)` channel as `Result`, and the three errors that can reach it |
| `text.dfy` | `Text` | the string library the parser uses: `eol.split`, `_.split` on `/ +/` and `/-/`, `_.trim`, and `_.replace` with a regex that lacks the `g` flag |
| `hurricane_track.dfy` | `HurricaneTrack` | the track-file parser of `hurricaneTrack/index.js` |
| `geo_json.dfy` | `GeoJson` | the search-box builder of `geoJson/index.js` |
| `hurricane_selfie.dfy` | `HurricaneSelfie` | the exported pipeline of `hurricane-selfie.js` and its `_buildFetcher` tasks |
| `track_example.dfy` | `TrackExample` | the lines of a one-row `track.dat` for MARIA 2017, taken apart by the parser |

`hurricane-selfie.js` repeats the parser and the box builder verbatim at lines 100-156 and 173-258. Both are modelled once, from their own files.

### What stands in for the runtime

Each library and I/O call is a parameter of the operation that makes it:
- **moment.** `moment(text, format).toDate()` is a `DateParser`. A Date is an `Instant`: `Some(ms since the epoch)`, or `None` for an Invalid Date.
- **Trigonometry.** `Math.sin`, `cos`, `asin` and `atan2` are the fields of a `Trig` value.
- **Number coercion.** JavaScript's coercion of the LAT/LON fields to numbers is `Host.toNumber`.
- **Fetches.** The two fetches, with their `res.text()` / `res.json()`, are `TrackSource` and `ImageryIndex`. Each returns a `Result`.

Numbers are exact reals. A parsed row is a `map<string, Option<string>>`: every header column is a key, and `None` is the `undefined` read past the row's last token.

### Behaviour that may be unexpected

In each of these cases the code does something a reader of its function names or comments might not expect. The model follows the code:
- **Dropped data rows.** A data row is dropped only when it has zero length (`_.isEmpty` on the raw line, `hurricaneTrack/index.js:36`). A line of spaces is kept, as a record whose first column maps to `""` and whose other columns are undefined.
- **Splitting.** Headers and rows are split on runs of the space character (`/ +/`), not on any whitespace. The header line is not trimmed, so a leading space gives an empty first column name.
- **Short files.** A file with fewer than two lines has an undefined `name`. A file with fewer than three lines has the header list `[""]`.
- **Invalid dates.** A track whose date does not parse does not yield a query with an invalid range. `toISOString()` throws a `RangeError` while the window is built (`hurricane-selfie.js:72-73`), so the task fails with `InvalidTimeValue` before any request is sent.
- **Lost answer.** Only the first task's `RangeError` reaches `done`. `async.series` starts every later task from inside the previous task's success handler `json => callback(null, json)` (`hurricane-selfie.js:76-78`). A `RangeError` thrown while that task builds its window escapes from the handler. The sibling handler `err => callback(err)` belongs to the same `then` and cannot catch it. The promise of that `then` is rejected, nothing listens to it, and `done` is never called. The model's answer is then `None`. The first task runs inside the `Promise` executor (`hurricane-selfie.js:38-45`), so its throw rejects that promise and reaches `done(err)`.

## Model

| member | source | states |
|---|---|---|
| Text.IndexOf | hurricaneTrack/index.js:39 | the regex without `g` finds the first occurrence: the pattern occurs there and at no earlier index; there is no result exactly when it occurs nowhere |
| Text.FirstMatchAfterClearPrefix | hurricaneTrack/index.js:39 | when the pattern's first character is absent from a prefix, the first match is right after that prefix |
| Text.ReplaceFirstKeepsLaterMatches | hurricaneTrack/index.js:39 | `ReplaceFirst`, the model of `_.replace` with a regex that lacks `g`, is not global: an occurrence after the first one survives, shifted by the length difference |
| Text.Trim | hurricaneTrack/index.js:40 | `_.trim` returns the input with its leading and trailing whitespace runs removed; the result neither starts nor ends with whitespace |
| Text.TrimUnchanged | hurricaneTrack/index.js:40 | a string that neither starts nor ends with whitespace is its own trim |
| Text.TrimEmptyIff | hurricaneTrack/index.js:40 | trimming gives the empty string exactly when every character is whitespace |
| Text.TrimPadding | hurricaneTrack/index.js:40 | trimming removes whitespace padding of any length on either side, and nothing of a text that neither starts nor ends with whitespace |
| Text.SplitOnRuns | hurricaneTrack/index.js:43 | splitting on `/ +/` always yields at least one piece, and no piece contains a space. Every piece but the first and the last is non-empty, so a run of several spaces separates just two pieces. A non-empty string that does not start with a space has a non-empty first piece |
| Text.SplitOnRunsInterleave | hurricaneTrack/index.js:43 | splitting on runs of a character gives back the pieces of an `Interleave`, whose gaps are runs of that character of any length. The pieces must not contain the character, and the inner pieces must be non-empty |
| Text.SplitOnEach | hurricaneTrack/index.js:59 | splitting on `/-/` always yields at least one piece, and no piece contains `-` |
| Text.SplitOnEachJoin | hurricaneTrack/index.js:59 | splitting on each `-` undoes joining with `-`, empty pieces included |
| Text.SplitLines | hurricaneTrack/index.js:15 | `eol.split` always yields at least one line, and no line contains CR or LF |
| Text.SplitLinesJoin | hurricaneTrack/index.js:15 | splitting undoes joining lines with LF and with CRLF |
| HurricaneTrack.At | hurricaneTrack/index.js:46 | `vals[i]` is defined exactly when `i` is below the token count, and is then that token |
| HurricaneTrack.BuildRecord | hurricaneTrack/index.js:44-47 | the `_.each` loop that assigns `parsed[col] = vals[i]` column by column produces the record of the whole header |
| HurricaneTrack.RecordOfKeys | hurricaneTrack/index.js:44-47 | a record's keys are exactly the header columns |
| HurricaneTrack.RecordOfValue | hurricaneTrack/index.js:45-46 | column `i` maps to token `i`, or to undefined past the last token; a repeated column keeps the later value |
| HurricaneTrack.RecordOfIgnoresSurplus | hurricaneTrack/index.js:45-46 | tokens beyond the header count do not change the record |
| HurricaneTrack.ParseTracksLength | hurricaneTrack/index.js:33-52 | `ParseTracks` (`ParseRow` mapped over the rows, nulls filtered out) yields exactly one record per non-empty row |
| HurricaneTrack.ParseTracksAt | hurricaneTrack/index.js:33-52 | record i is `RecordOf` the headers and the `RowTokens` of the i-th non-empty row |
| HurricaneTrack.ParseTracksIsNonEmptyRows | hurricaneTrack/index.js:33-52 | `parseTracks` yields one record per non-empty row, in row order, each zipping the headers (`RecordOf`) with that row's tokens (`RowTokens`: collapse, trim, split) |
| HurricaneTrack.ParseTracksAppend | hurricaneTrack/index.js:34-51 | rows are parsed independently, and order is kept across concatenation |
| HurricaneTrack.TrailingEmptyLineDropped | hurricaneTrack/index.js:34-51 | the empty line after a final newline adds no record |
| HurricaneTrack.WhitespaceRowKept | hurricaneTrack/index.js:36-47 | a row of only whitespace is not dropped: it yields the record of the single token `""` |
| HurricaneTrack.TropicalCollapsed | hurricaneTrack/index.js:38-39 | only the first `"TROPICAL "` becomes `"TROPICAL_"`; the rest of the row is untouched |
| HurricaneTrack.TropicalFieldCollapsed | hurricaneTrack/index.js:38-39 | in a row padded with whitespace on either side, whose fields are separated by runs of spaces of any length and whose last field is `TROPICAL <word>`, that field is the one collapsed when no earlier field holds a `T` |
| HurricaneTrack.AlignedTokens | hurricaneTrack/index.js:40-43 | trimming and splitting gives back the tokens of a row that is padded with whitespace of any length on either side and has runs of spaces of any length between its tokens |
| HurricaneTrack.TropicalCategoryRow | hurricaneTrack/index.js:38-43 | a padded, column-aligned row ending in `TROPICAL STORM` yields one token `TROPICAL_STORM` after its other values, so its values stay aligned with the headers |
| HurricaneTrack.ParseTrackDates | hurricaneTrack/index.js:54-62 | on success the year is exactly four digits; the only error is MissingYear |
| HurricaneTrack.DateLabelRemoved | hurricaneTrack/index.js:55 | the first `"Date: "` is removed from the label line |
| HurricaneTrack.YearAtEnd | hurricaneTrack/index.js:56-58 | `/ (\d{4})$/` matches a label ending in a space and four digits and captures those digits; removing the match leaves the rest |
| HurricaneTrack.SplitStartEnd | hurricaneTrack/index.js:59 | the year-stripped label splits at `-` into the start and end texts |
| HurricaneTrack.ParseTrackDatesOfLabel | hurricaneTrack/index.js:54-62 | `Date: <start>-<end> <yyyy>` gives year `yyyy`, with both dates parsed as `"<part> <yyyy>"` in `DD MMM YYYY` |
| HurricaneTrack.MissingYearFails | hurricaneTrack/index.js:57-58 | the date line fails to parse exactly when the text after `Date: ` does not end in a space and four digits (`EndsWithYear`), and it then fails with MissingYear |
| HurricaneTrack.InjectDateTime | hurricaneTrack/index.js:67-70 | the record keeps every other field unchanged, and `dateTime` is parsed from `"<year>/<TIME>"` in `YYYY/MM/DD/HHZ` |
| HurricaneTrack.InjectDateTimes | hurricaneTrack/index.js:65-72 | dates are injected one to one, in order |
| HurricaneTrack.ParseTrackData | hurricaneTrack/index.js:14-29 | parsing fails exactly when line 0 does, and then with MissingYear. Otherwise the name is line 1 verbatim, the start and end dates are those of line 0, and there is one track per non-empty line from line 3 on |
| HurricaneTrack.TracksFromDataLines | hurricaneTrack/index.js:14-21 | track i is the i-th non-empty line of `DataRows` (line 3 on), zipped against `Columns` (line 2, split untrimmed) and dated with the label's year |
| TrackExample.ExampleDates | hurricaneTrack/index.js:54-62 | `Date: 01 SEP-05 SEP 2017` gives year `2017`, and the dates `01 SEP 2017` and `05 SEP 2017` read in `DD MMM YYYY` |
| TrackExample.ExampleHeaders | hurricaneTrack/index.js:17 | the header line `TIME LAT LON CAT` gives those four columns |
| TrackExample.ExampleRow | hurricaneTrack/index.js:38-43 | the row `09/01/00Z 15.0 -60.0 TROPICAL STORM` gives the four tokens `09/01/00Z`, `15.0`, `-60.0` and `TROPICAL_STORM` |
| GeoJson.RadDegInverse | geoJson/index.js:94-100 | `Deg(Rad(x)) == x` and `Rad(Deg(x)) == x` |
| GeoJson.Position | geoJson/index.js:17-21 | a position is the pair `[longitude, latitude]` |
| GeoJson.GeoJsonBoundingBox | geoJson/index.js:13-28 | the result has type `"Polygon"` and one ring of five two-number positions, and the ring is closed (first position == last) |
| GeoJson.RingFollowsBearings | geoJson/index.js:57-76 | ring position k is the `DestinationPoint` from the same centre at the same distance on bearing (315 + 90k) mod 360: NW, NE, SE, SW, NW, the four corners of `BoundingBoxAround` |
| GeoJson.PolygonKeepsBox | geoJson/index.js:14-22 | reading the four corners back out of the ring, latitude and longitude swapped back, gives the box |
| HurricaneSelfie.OrDefault | hurricane-selfie.js:13-14 | `value \|\| fallback`: the value when truthy, the fallback otherwise |
| HurricaneSelfie.Request | hurricane-selfie.js:13-14 | a missing or empty name or year is replaced by `MARIA` / `2017`; neither is ever empty |
| HurricaneSelfie.SearchPoints | hurricane-selfie.js:24-29 | the mapping stage yields one search point per track, in track order |
| HurricaneSelfie.SearchPointBox | hurricane-selfie.js:24-29 | each search point (`SearchPointOf`) keeps its track's `dateTime`; its box is a closed Polygon whose k-th position is the `DestinationPoint` of the track's (LAT, LON) at 100 km on the k-th ring bearing |
| HurricaneSelfie.KeepFromLength | hurricane-selfie.js:32-34 | from a suffix that starts at any index, the filter keeps one element per multiple of ten covered |
| HurricaneSelfie.KeepFromAt | hurricane-selfie.js:32-34 | the k-th kept element sits k multiples of ten after the first multiple of ten |
| HurricaneSelfie.DecimateKeepsEveryTenth | hurricane-selfie.js:32-34 | `Decimate` keeps ceil(n/10) elements; the k-th is element 10k |
| HurricaneSelfie.DecimateKeepsMultiplesOfTen | hurricane-selfie.js:32-34 | every index divisible by ten is kept, at place i/10 |
| HurricaneSelfie.DecimateThirtySeven | hurricane-selfie.js:32-34 | 37 tracks give 4 queries: tracks 0, 10, 20 and 30 |
| HurricaneSelfie.WindowFor | hurricane-selfie.js:72-73 | the window is the instant minus and plus 8 hours: 16 hours wide, centred on the instant, around the same box. It fails with InvalidTimeValue exactly when the instant is invalid or a bound leaves the Date range |
| HurricaneSelfie.InvalidDateFailsQuery | hurricane-selfie.js:69-78 | a task (`Query`) whose track date did not parse fails with InvalidTimeValue, without a request |
| HurricaneSelfie.Outcomes | hurricane-selfie.js:40 | one task per decimated point, in order |
| HurricaneSelfie.FirstFailure | hurricane-selfie.js:41-42 | the index of the first failing task, before which every task succeeded; none exactly when every task succeeds |
| HurricaneSelfie.SeriesOutcomeSpec | hurricane-selfie.js:40-44 | the series (`SeriesOutcome`) fails exactly when a task fails, with the first failure's error; otherwise it returns one result per task, in task order |
| HurricaneSelfie.SeriesIgnoresTasksAfterFailure | hurricane-selfie.js:41-42 | tasks after the first failure cannot change the outcome |
| HurricaneSelfie.LateThrowIsLost | hurricane-selfie.js:69-78 | when every earlier task succeeded and a later task's window cannot be built (`ThrowsLate`), the series (`SeriesAnswer`) never calls back, after starting that task |
| HurricaneSelfie.FirstThrowFails | hurricane-selfie.js:38-45 | when the first task's window cannot be built, the series answers InvalidTimeValue after starting that one task |
| HurricaneSelfie.RunQueries | hurricane-selfie.js:38-45 | the loop runs the tasks one by one. Each task builds its window, which may throw, and then queries the index. The loop stops at the first error and gives the series' answer: no answer when a later task throws, otherwise the series outcome. It starts exactly the tasks up to the first failure |
| HurricaneSelfie.ThumbnailOf | hurricane-selfie.js:51-56 | a scene gives a URL exactly when `aws_thumbnail` or `thumbnail` is truthy; the URL is non-empty, and is `aws_thumbnail` whenever that is truthy |
| HurricaneSelfie.WithResultsMembers | hurricane-selfie.js:48 | `WithResults` keeps a response exactly when `meta.found > 0` |
| HurricaneSelfie.WithResultsAppend | hurricane-selfie.js:48 | filtering responses keeps their order |
| HurricaneSelfie.FlattenAppend | hurricane-selfie.js:49 | `Flatten` concatenates the `results` lists in response order |
| HurricaneSelfie.ThumbnailsAppend | hurricane-selfie.js:50-57 | URL extraction keeps scene order |
| HurricaneSelfie.ThumbnailsSpec | hurricane-selfie.js:50-57 | `Thumbnails` lists at most one URL per scene; a URL is listed exactly when some scene has it as its preferred thumbnail |
| HurricaneSelfie.EmptyResponseIgnored | hurricane-selfie.js:48 | a response with `meta.found <= 0` contributes nothing, whatever its `results` list |
| HurricaneSelfie.ReduceOne | hurricane-selfie.js:47-57 | a response that found something contributes the URLs of its own scenes |
| HurricaneSelfie.ReduceAppend | hurricane-selfie.js:47-57 | the reduction (`Reduce`) distributes over responses, in order |
| HurricaneSelfie.Run | hurricane-selfie.js:9-63 | the pipeline's answer (`Correlate`) is the first error of any stage, or the reduction of the responses, or none at all when a later task throws. It starts no query when the track file cannot be fetched or parsed |
| HurricaneSelfie.MissingYearStopsPipeline | hurricane-selfie.js:19-21 | a track file that fails to parse ends the pipeline with MissingYear, before any query |
| HurricaneSelfie.CorrelateQueries | hurricane-selfie.js:36-63 | once the file is parsed, no query after the first failing one starts. The answer is that failure's error, or none at all when the failure is a later task whose window cannot be built; otherwise the answer is the reduction of one response per decimated point, in order |

## Left out

- **Spherical trigonometry.** `Math.sin`, `cos`, `asin` and `atan2` are opaque (`Trig`). The model proves nothing about distances or angles, and nothing about floating-point rounding: `RadDegInverse` holds over exact reals only.
- **moment.** The `"DD MMM YYYY"` and `"YYYY/MM/DD/HHZ"` parsing is the opaque `DateParser`. The window bounds are milliseconds, not their `toISOString()` text.
- **Number coercion.** LAT/LON coercion is the opaque `Host.toNumber` into a real. `NaN`, from a missing or non-numeric field, is not represented.
- **Fetching.** `fetchTrackData`, its URL template and `fetchByDateAndGeoJson` (all of `satelliteApi/index.js`) are not part of this model. The model sees only their results, through `TrackSource` and `ImageryIndex`.
- **Response shape.** An imagery response is assumed to have the expected shape: `meta.found` a number and `results` an array of scenes. A response without `meta`, whose filter would throw, is not represented.
- **Promise and callback plumbing.** The model leaves out the promise chain, the callbacks, `console.log` and the `ctx`/`done` wrapper. The series is a plain loop.
- **Task scheduling.** The model assumes that `async.series` starts each task synchronously: the first from inside `async.series` itself, and each later one from inside the previous task's callback. The lost answer after a later task's throw depends on this. If the library deferred each task, every `RangeError` would be thrown outside the pipeline, and `done` would not be called for the first task either.
- HurricaneSelfie.Request: it takes `name` and `year` as strings, as query parameters arrive. A numeric `0` year, which is falsy, is not represented.
- **`geoJsonBoundingBoxes`** is not modelled (`geoJson/index.js:35-52`). It is not used, it reads the undefined variables `lat`, `lon` and `d`, and it would nest rings one level too deep.
- **JavaScript objects.** Object key order is not modelled; a record is a map. Inherited keys such as a column named `__proto__` are not modelled either.
- **`eol.split`** is modelled as splitting at CRLF, a lone CR or LF.
- **TrackExample** works the MARIA example line by line: the date line, the header line and the data row. That these are lines 0, 2 and 3 of the whole file, and that the row becomes the file's one track, follow from the general `SplitLinesJoin`, `TracksFromDataLines` and `RecordOfValue`. They are not restated for the concrete text.
