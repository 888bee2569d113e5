/** The `track.dat` parser of hurricaneTrack/index.js (copied verbatim into
    hurricane-selfie.js). The text is cut into lines; line 0 is the
    `Date: ...` label carrying the year, line 1 the storm name, line 2 the
    column headers, and every later non-empty line one track record.

    Two things the parser hands to the `moment` library are parameters here:
    a `DateParser` stands for `moment(text, format).toDate()`, and an
    `Instant` is the resulting Date as milliseconds since the epoch, `None`
    being an Invalid Date. */
module HurricaneTrack {
  import opened Base
  import opened Text

  /** A parsed row: each header column maps to its token, or to `undefined`. */
  type Fields = map<string, Option<string>>

  /** A JavaScript Date: milliseconds since the epoch, or `None` when invalid. */
  type Instant = Option<int>

  /** `moment(text, format).toDate()`. */
  type DateParser = (string, string) -> Instant

  datatype TrackRecord = TrackRecord(fields: Fields, dateTime: Instant)

  datatype TrackDates = TrackDates(year: string, startDate: Instant, endDate: Instant)

  datatype TrackFile = TrackFile(
    name: Option<string>,
    startDate: Instant,
    endDate: Instant,
    tracks: seq<TrackRecord>)

  const DATE_LABEL: string := "Date: "
  const TROPICAL: string := "TROPICAL "
  const TROPICAL_JOINED: string := "TROPICAL_"
  const DAY_FORMAT: string := "DD MMM YYYY"
  const TIME_FORMAT: string := "YYYY/MM/DD/HHZ"
  const TIME_COLUMN: string := "TIME"
  const DATE_TIME_KEY: string := "dateTime"

  /** `xs[i]`, which is `undefined` past the end. */
  function At(xs: seq<string>, i: nat): (r: Option<string>)
    ensures r.Some? <==> i < |xs|
    ensures i < |xs| ==> r.value == xs[i]
  {
    if i < |xs| then Some(xs[i]) else None
  }

  /** A value as a template literal prints it. */
  function Render(v: Option<string>): string {
    match v
    case Some(s) => s
    case None => "undefined"
  }

  /** `record[key]` on a plain object. */
  function Lookup(f: Fields, key: string): Option<string> {
    if key in f then f[key] else None
  }

  // ---------------------------------------------------------------------
  // parseTracks: one record per row

  /** The object left by assigning `parsed[cols[i]] = vals[i]` for every
      column in turn: a later duplicate column overwrites an earlier one. */
  function RecordOf(cols: seq<string>, vals: seq<string>): Fields
  {
    if cols == [] then map[]
    else RecordOf(cols[..|cols| - 1], vals)[cols[|cols| - 1] := At(vals, |cols| - 1)]
  }

  /** The loop that fills a fresh object, one column at a time. */
  method BuildRecord(cols: seq<string>, vals: seq<string>) returns (parsed: Fields)
    ensures parsed == RecordOf(cols, vals)
  {
    parsed := map[];
    var i := 0;
    while i < |cols|
      invariant 0 <= i <= |cols|
      invariant parsed == RecordOf(cols[..i], vals)
    {
      assert cols[..i + 1][..i] == cols[..i];
      parsed := parsed[cols[i] := At(vals, i)];
      i := i + 1;
    }
    assert cols[..|cols|] == cols;
  }

  /** A record has exactly the header columns as keys. */
  lemma {:induction false} RecordOfKeys(cols: seq<string>, vals: seq<string>)
    ensures RecordOf(cols, vals).Keys == set c | c in cols
  {
    if cols != [] {
      var init := cols[..|cols| - 1];
      RecordOfKeys(init, vals);
      assert cols == init + [cols[|cols| - 1]];
    }
  }

  /** The column at position i holds the i-th token (undefined when the row
      is short), unless a later column of the same name overwrote it. */
  lemma {:induction false} RecordOfValue(cols: seq<string>, vals: seq<string>, i: nat)
    requires i < |cols|
    requires forall j :: i < j < |cols| ==> cols[j] != cols[i]
    ensures cols[i] in RecordOf(cols, vals)
    ensures RecordOf(cols, vals)[cols[i]] == At(vals, i)
  {
    if i < |cols| - 1 {
      var init := cols[..|cols| - 1];
      RecordOfValue(init, vals, i);
    }
  }

  /** Tokens beyond the last column are ignored. */
  lemma {:induction false} RecordOfIgnoresSurplus(cols: seq<string>, vals: seq<string>, extra: seq<string>)
    requires |vals| >= |cols|
    ensures RecordOf(cols, vals + extra) == RecordOf(cols, vals)
  {
    if cols != [] {
      RecordOfIgnoresSurplus(cols[..|cols| - 1], vals, extra);
      assert (vals + extra)[|cols| - 1] == vals[|cols| - 1];
    }
  }

  /** The tokens of a data row: the first "TROPICAL " becomes "TROPICAL_",
      the row is trimmed, then cut at every run of spaces. */
  function RowTokens(row: string): seq<string> {
    SplitOnRuns(Trim(ReplaceFirst(row, TROPICAL, TROPICAL_JOINED)), ' ')
  }

  /** One row of `parseTracks`: `null` for a zero-length row. */
  function ParseRow(cols: seq<string>, row: string): Option<Fields> {
    if row == [] then None else Some(RecordOf(cols, RowTokens(row)))
  }

  /** What the null filter keeps of one row: nothing, or its record. */
  function Kept(cols: seq<string>, row: string): seq<Fields> {
    match ParseRow(cols, row)
    case None => []
    case Some(f) => [f]
  }

  /** `parseTracks`: map every row, then filter out the nulls. */
  function ParseTracks(cols: seq<string>, rows: seq<string>): seq<Fields>
  {
    if rows == [] then [] else Kept(cols, rows[0]) + ParseTracks(cols, rows[1..])
  }

  /** The rows of non-zero length, in order. */
  function NonEmpty(rows: seq<string>): (r: seq<string>)
    ensures |r| <= |rows|
  {
    if rows == [] then []
    else (if rows[0] == [] then [] else [rows[0]]) + NonEmpty(rows[1..])
  }

  /** One record per non-empty row. */
  lemma {:induction false} ParseTracksLength(cols: seq<string>, rows: seq<string>)
    ensures |ParseTracks(cols, rows)| == |NonEmpty(rows)|
  {
    if rows != [] {
      ParseTracksLength(cols, rows[1..]);
    }
  }

  /** Record i is that of the i-th non-empty row. */
  lemma {:induction false} ParseTracksAt(cols: seq<string>, rows: seq<string>, i: nat)
    requires i < |NonEmpty(rows)|
    ensures |ParseTracks(cols, rows)| == |NonEmpty(rows)|
    ensures ParseTracks(cols, rows)[i] == RecordOf(cols, RowTokens(NonEmpty(rows)[i]))
  {
    ParseTracksLength(cols, rows);
    var rest := rows[1..];
    if rows[0] == [] {
      assert ParseTracks(cols, rows) == ParseTracks(cols, rest);
      assert NonEmpty(rows) == NonEmpty(rest);
      ParseTracksAt(cols, rest, i);
    } else {
      assert ParseTracks(cols, rows) == Kept(cols, rows[0]) + ParseTracks(cols, rest);
      assert NonEmpty(rows) == [rows[0]] + NonEmpty(rest);
      if i > 0 {
        ParseTracksAt(cols, rest, i - 1);
      }
    }
  }

  /** The records are exactly those of the non-empty rows, one each, in file order. */
  lemma {:induction false} ParseTracksIsNonEmptyRows(cols: seq<string>, rows: seq<string>)
    ensures |ParseTracks(cols, rows)| == |NonEmpty(rows)|
    ensures forall i :: 0 <= i < |NonEmpty(rows)| ==>
      ParseTracks(cols, rows)[i] == RecordOf(cols, RowTokens(NonEmpty(rows)[i]))
  {
    ParseTracksLength(cols, rows);
    forall i | 0 <= i < |NonEmpty(rows)|
      ensures ParseTracks(cols, rows)[i] == RecordOf(cols, RowTokens(NonEmpty(rows)[i]))
    {
      ParseTracksAt(cols, rows, i);
    }
  }

  /** Parsing is row by row: the records of two blocks of rows are the
      records of the first block followed by those of the second. */
  lemma {:induction false} ParseTracksAppend(cols: seq<string>, a: seq<string>, b: seq<string>)
    ensures ParseTracks(cols, a + b) == ParseTracks(cols, a) + ParseTracks(cols, b)
  {
    if a == [] {
      assert a + b == b;
    } else {
      assert (a + b)[0] == a[0];
      assert (a + b)[1..] == a[1..] + b;
      ParseTracksAppend(cols, a[1..], b);
    }
  }

  /** The empty last line left by a trailing newline yields no record. */
  lemma {:induction false} TrailingEmptyLineDropped(cols: seq<string>, rows: seq<string>)
    ensures ParseTracks(cols, rows + [""]) == ParseTracks(cols, rows)
  {
    ParseTracksAppend(cols, rows, [""]);
  }

  /** A non-empty row of whitespace only is kept: it has the single token "",
      so the first column maps to "" and every other column to undefined. */
  lemma {:induction false} WhitespaceRowKept(cols: seq<string>, row: string)
    requires row != []
    requires forall k :: 0 <= k < |row| ==> IsWhitespace(row[k])
    ensures ParseRow(cols, row) == Some(RecordOf(cols, [""]))
  {
    assert TROPICAL[0] !in row by {
      assert !IsWhitespace('T');
    }
    NoMatchWithoutHead(row, TROPICAL);
    TrimEmptyIff(row);
    assert IndexOfAny([], {' '}).None?;
  }

  // ---------------------------------------------------------------------
  // The one-time "TROPICAL " collapse

  /** With no 'T' before the first "TROPICAL ", that occurrence is the one collapsed. */
  lemma {:induction false} TropicalCollapsed(a: string, b: string, row: string)
    requires 'T' !in a && row == a + TROPICAL + b
    ensures ReplaceFirst(row, TROPICAL, TROPICAL_JOINED) == a + TROPICAL_JOINED + b
  {
    FirstMatchAfterClearPrefix(a, TROPICAL, b);
    assert row[..|a|] == a;
    assert row[|a| + |TROPICAL|..] == b;
  }

  lemma {:induction false} AvoidsChar(t: string, c: char)
    requires c !in t
    ensures Avoids(t, {c})
  {
  }

  /** A run of spaces holds no 'T'. */
  lemma {:induction false} SpacesHoldNoT(gaps: seq<string>)
    requires forall i :: 0 <= i < |gaps| ==> IsRunOf(gaps[i], ' ')
    ensures forall i :: 0 <= i < |gaps| ==> 'T' !in gaps[i]
  {
    forall i | 0 <= i < |gaps| ensures 'T' !in gaps[i] {
      assert forall k :: 0 <= k < |gaps[i]| ==> gaps[i][k] == ' ';
    }
  }

  /** Padding, 'T'-free fields and runs of spaces hold no 'T'. */
  lemma {:induction false} NoTBeforeLastField(lead: string, vals: seq<string>, gaps: seq<string>, g: string)
    requires |gaps| + 1 == |vals|
    requires forall i :: 0 <= i < |vals| ==> 'T' !in vals[i]
    requires forall i :: 0 <= i < |gaps| ==> IsRunOf(gaps[i], ' ')
    requires IsRunOf(g, ' ')
    requires forall k :: 0 <= k < |lead| ==> IsWhitespace(lead[k])
    ensures 'T' !in lead + Interleave(vals, gaps) + g
  {
    SpacesHoldNoT(gaps + [g]);
    assert (gaps + [g])[|gaps|] == g;
    assert forall i :: 0 <= i < |gaps| ==> gaps[i] == (gaps + [g])[i];
    InterleaveAvoids(vals, gaps, 'T');
    assert !IsWhitespace('T');
  }

  /** In a padded row whose fields hold no 'T' before a final
      "TROPICAL <word>", the collapse hits that last field. */
  lemma {:induction false} TropicalFieldCollapsed(lead: string, vals: seq<string>, gaps: seq<string>, word: string, trail: string)
    requires |vals| >= 1 && |gaps| == |vals|
    requires forall i :: 0 <= i < |vals| ==> 'T' !in vals[i]
    requires forall i :: 0 <= i < |gaps| ==> IsRunOf(gaps[i], ' ')
    requires forall k :: 0 <= k < |lead| ==> IsWhitespace(lead[k])
    ensures ReplaceFirst(lead + Interleave(vals + [TROPICAL + word], gaps) + trail, TROPICAL, TROPICAL_JOINED)
      == lead + Interleave(vals + [TROPICAL_JOINED + word], gaps) + trail
  {
    var n := |vals|;
    var init := gaps[..n - 1];
    var g := gaps[n - 1];
    assert init + [g] == gaps;
    var a := lead + Interleave(vals, init) + g;
    NoTBeforeLastField(lead, vals, init, g);
    var row := lead + Interleave(vals + [TROPICAL + word], gaps) + trail;
    assert row == a + TROPICAL + (word + trail) by {
      InterleaveSnoc(vals, init, g, TROPICAL + word);
    }
    assert lead + Interleave(vals + [TROPICAL_JOINED + word], gaps) + trail == a + TROPICAL_JOINED + (word + trail) by {
      InterleaveSnoc(vals, init, g, TROPICAL_JOINED + word);
    }
    TropicalCollapsed(a, word + trail, row);
  }

  /** A row of space-free fields, separated by runs of spaces of any length
      and padded with whitespace at both ends, comes back as its fields. */
  lemma {:induction false} AlignedTokens(lead: string, tokens: seq<string>, gaps: seq<string>, trail: string)
    requires |gaps| + 1 == |tokens|
    requires forall i :: 0 <= i < |tokens| ==> tokens[i] != [] && ' ' !in tokens[i]
    requires forall i :: 0 <= i < |gaps| ==> IsRunOf(gaps[i], ' ')
    requires !IsWhitespace(tokens[0][0])
    requires !IsWhitespace(tokens[|tokens| - 1][|tokens[|tokens| - 1]| - 1])
    requires forall k :: 0 <= k < |lead| ==> IsWhitespace(lead[k])
    requires forall k :: 0 <= k < |trail| ==> IsWhitespace(trail[k])
    ensures SplitOnRuns(Trim(lead + Interleave(tokens, gaps) + trail), ' ') == tokens
  {
    var clean := Interleave(tokens, gaps);
    var n := |tokens|;
    InterleaveHead(tokens, gaps);
    if n > 1 {
      InterleaveSnoc(tokens[..n - 1], gaps[..n - 2], gaps[n - 2], tokens[n - 1]);
      assert tokens[..n - 1] + [tokens[n - 1]] == tokens;
      assert gaps[..n - 2] + [gaps[n - 2]] == gaps;
    }
    assert clean[|clean| - 1] == tokens[n - 1][|tokens[n - 1]| - 1];
    TrimPadding(lead, clean, trail);
    forall i | 0 <= i < n ensures Avoids(tokens[i], {' '}) {
      AvoidsChar(tokens[i], ' ');
    }
    SplitOnRunsInterleave(tokens, gaps, ' ');
  }

  /** A padded row whose last field is "TROPICAL <word>" yields that field
      as the one token "TROPICAL_<word>", so the tokens stay aligned with
      the columns. */
  lemma {:induction false} TropicalCategoryRow(lead: string, vals: seq<string>, gaps: seq<string>, word: string, trail: string)
    requires |vals| >= 1 && |gaps| == |vals|
    requires forall i :: 0 <= i < |vals| ==> vals[i] != [] && ' ' !in vals[i] && 'T' !in vals[i]
    requires forall i :: 0 <= i < |gaps| ==> IsRunOf(gaps[i], ' ')
    requires !IsWhitespace(vals[0][0])
    requires word != [] && ' ' !in word && !IsWhitespace(word[|word| - 1])
    requires forall k :: 0 <= k < |lead| ==> IsWhitespace(lead[k])
    requires forall k :: 0 <= k < |trail| ==> IsWhitespace(trail[k])
    ensures RowTokens(lead + Interleave(vals + [TROPICAL + word], gaps) + trail) == vals + [TROPICAL_JOINED + word]
  {
    var tokens := vals + [TROPICAL_JOINED + word];
    TropicalFieldCollapsed(lead, vals, gaps, word, trail);
    assert ' ' !in TROPICAL_JOINED + word;
    assert forall i :: 0 <= i < |vals| ==> tokens[i] == vals[i];
    AlignedTokens(lead, tokens, gaps, trail);
  }

  // ---------------------------------------------------------------------
  // parseTrackDatDate

  predicate IsDigit(c: char) {
    '0' <= c <= '9'
  }

  /** `/ (\d{4})$/` matches: a space and four digits end the string. */
  predicate EndsWithYear(s: string) {
    |s| >= 5 && s[|s| - 5] == ' ' && forall k :: |s| - 4 <= k < |s| ==> IsDigit(s[k])
  }

  /** `parseTrackDatDate`: strip the first "Date: ", take the year from the
      end, split the rest at '-' and parse each side with the year appended.
      A label without the year makes the source read a field of `null`. */
  function ParseTrackDates(rawDate: string, parse: DateParser): (r: Result<TrackDates>)
    ensures r.Failure? ==> r.error == MissingYear
    ensures r.Success? ==> |r.value.year| == 4 && forall k :: 0 <= k < 4 ==> IsDigit(r.value.year[k])
  {
    var removedLabel := ReplaceFirst(rawDate, DATE_LABEL, "");
    if !EndsWithYear(removedLabel) then Failure(MissingYear)
    else
      var n := |removedLabel|;
      var year := removedLabel[n - 4..];
      var dates := SplitOnEach(removedLabel[..n - 5], '-');
      Success(TrackDates(
        year,
        parse(dates[0] + " " + year, DAY_FORMAT),
        parse(Render(At(dates, 1)) + " " + year, DAY_FORMAT)))
  }

  lemma {:induction false} DateLabelRemoved(body: string)
    ensures ReplaceFirst(DATE_LABEL + body, DATE_LABEL, "") == body
  {
    var s := DATE_LABEL + body;
    assert OccursAt(s, DATE_LABEL, 0) by {
      assert s[..|DATE_LABEL|] == DATE_LABEL;
    }
    assert s[|DATE_LABEL|..] == body;
  }

  lemma {:induction false} YearAtEnd(prefix: string, year: string)
    requires |year| == 4 && forall k :: 0 <= k < 4 ==> IsDigit(year[k])
    ensures var s := prefix + " " + year;
      EndsWithYear(s) && s[|s| - 4..] == year && s[..|s| - 5] == prefix
  {
    var s := prefix + " " + year;
    assert s[|s| - 4..] == year;
    assert s[..|s| - 5] == prefix;
    forall k | |s| - 4 <= k < |s| ensures IsDigit(s[k]) {
      assert s[k] == year[k - (|s| - 4)];
    }
  }

  lemma {:induction false} SplitStartEnd(start: string, end: string)
    requires '-' !in start && '-' !in end
    ensures SplitOnEach(start + "-" + end, '-') == [start, end]
  {
    AvoidsChar(start, '-');
    AvoidsChar(end, '-');
    assert [start, end][1..] == [end];
    assert JoinWith([start, end], ['-']) == start + "-" + end;
    SplitOnEachJoin([start, end], '-');
  }

  /** A label "Date: <start>-<end> <yyyy>" yields the year and both dates,
      each parsed with the year appended. */
  lemma {:induction false} ParseTrackDatesOfLabel(start: string, end: string, year: string, parse: DateParser)
    requires '-' !in start && '-' !in end
    requires |year| == 4 && forall k :: 0 <= k < 4 ==> IsDigit(year[k])
    ensures ParseTrackDates(DATE_LABEL + start + "-" + end + " " + year, parse)
      == Success(TrackDates(year, parse(start + " " + year, DAY_FORMAT), parse(end + " " + year, DAY_FORMAT)))
  {
    var dates := start + "-" + end;
    var body := dates + " " + year;
    assert DATE_LABEL + start + "-" + end + " " + year == DATE_LABEL + body;
    DateLabelRemoved(body);
    YearAtEnd(dates, year);
    SplitStartEnd(start, end);
  }

  /** Parsing fails exactly when the label, once "Date: " is removed, does
      not end in a space and four digits. */
  lemma {:induction false} MissingYearFails(body: string, parse: DateParser)
    ensures ParseTrackDates(DATE_LABEL + body, parse).Failure? <==> !EndsWithYear(body)
    ensures ParseTrackDates(DATE_LABEL + body, parse).Failure? ==>
      ParseTrackDates(DATE_LABEL + body, parse).error == MissingYear
  {
    DateLabelRemoved(body);
  }

  // ---------------------------------------------------------------------
  // injectDatetimeIntoTracks

  /** A copy of the record with `dateTime` set from "<year>/<TIME>". */
  function InjectDateTime(t: Fields, year: string, parse: DateParser): (r: TrackRecord)
    ensures r.fields.Keys == t.Keys - {DATE_TIME_KEY}
    ensures forall k :: k in r.fields ==> r.fields[k] == t[k]
    ensures r.dateTime == parse(year + "/" + Render(Lookup(t, TIME_COLUMN)), TIME_FORMAT)
  {
    TrackRecord(t - {DATE_TIME_KEY}, parse(year + "/" + Render(Lookup(t, TIME_COLUMN)), TIME_FORMAT))
  }

  /** `injectDatetimeIntoTracks`: one output per input, in order. */
  function InjectDateTimes(tracks: seq<Fields>, year: string, parse: DateParser): (r: seq<TrackRecord>)
    ensures |r| == |tracks|
    ensures forall i :: 0 <= i < |r| ==> r[i] == InjectDateTime(tracks[i], year, parse)
  {
    seq(|tracks|, i requires 0 <= i < |tracks| => InjectDateTime(tracks[i], year, parse))
  }

  // ---------------------------------------------------------------------
  // parseTrackData

  /** The column headers: line 2 split at runs of spaces, untrimmed; a file
      of fewer than three lines splits the empty string. */
  function Columns(lines: seq<string>): seq<string> {
    SplitOnRuns(if |lines| > 2 then lines[2] else "", ' ')
  }

  /** `rawCsv.slice(3)`. */
  function DataRows(lines: seq<string>): seq<string> {
    if |lines| > 3 then lines[3..] else []
  }

  function ParseTrackData(raw: string, parse: DateParser): (r: Result<TrackFile>)
    ensures r.Failure? <==> ParseTrackDates(SplitLines(raw)[0], parse).Failure?
    ensures r.Failure? ==> r.error == MissingYear
    ensures r.Success? ==> r.value.name == At(SplitLines(raw), 1)
    ensures r.Success? ==> var dates := ParseTrackDates(SplitLines(raw)[0], parse).value;
      r.value.startDate == dates.startDate && r.value.endDate == dates.endDate
    ensures r.Success? ==> |r.value.tracks| == |NonEmpty(DataRows(SplitLines(raw)))|
  {
    var lines := SplitLines(raw);
    var columns := Columns(lines);
    match ParseTrackDates(lines[0], parse)
    case Failure(e) => Failure(e)
    case Success(dates) =>
      ParseTracksIsNonEmptyRows(columns, DataRows(lines));
      var tracks := InjectDateTimes(ParseTracks(columns, DataRows(lines)), dates.year, parse);
      Success(TrackFile(At(lines, 1), dates.startDate, dates.endDate, tracks))
  }

  /** Every track comes from a non-empty line at index 3 or later, in file
      order, zipped against the headers of line 2 and dated with the year. */
  lemma {:induction false} TracksFromDataLines(raw: string, parse: DateParser, i: nat)
    requires ParseTrackData(raw, parse).Success?
    requires i < |ParseTrackData(raw, parse).value.tracks|
    ensures var lines := SplitLines(raw);
      var year := ParseTrackDates(lines[0], parse).value.year;
      ParseTrackData(raw, parse).value.tracks[i]
        == InjectDateTime(RecordOf(Columns(lines), RowTokens(NonEmpty(DataRows(lines))[i])), year, parse)
  {
    var lines := SplitLines(raw);
    ParseTracksIsNonEmptyRows(Columns(lines), DataRows(lines));
  }
}
