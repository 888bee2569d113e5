/** A worked example of the `track.dat` parser: the file for hurricane
    MARIA whose date line is `Date: 01 SEP-05 SEP 2017`, whose header line
    is `TIME LAT LON CAT` and whose only data row is
    `09/01/00Z 15.0 -60.0 TROPICAL STORM`. The lines are built from named
    pieces so that the general lemmas of HurricaneTrack and Text take them
    apart. `TracksFromDataLines` says how the lines of a whole file reach
    the same functions, and `RecordOfValue` how the row's tokens are then
    zipped with the headers. */
module TrackExample {
  import opened Base
  import opened Text
  import opened HurricaneTrack

  const DATE_START: string := "01 SEP"
  const DATE_END: string := "05 SEP"
  const YEAR: string := "2017"
  const HEADERS: seq<string> := ["TIME", "LAT", "LON", "CAT"]
  const VALUES: seq<string> := ["09/01/00Z", "15.0", "-60.0"]
  const CATEGORY: string := "STORM"
  const ONE_SPACE: seq<string> := [" ", " ", " "]

  /** `Date: 01 SEP-05 SEP 2017` */
  function DateLine(): string {
    DATE_LABEL + DATE_START + "-" + DATE_END + " " + YEAR
  }

  /** `TIME LAT LON CAT` */
  function HeaderLine(): string {
    Interleave(HEADERS, ONE_SPACE)
  }

  /** `09/01/00Z 15.0 -60.0 TROPICAL STORM` */
  function DataLine(): string {
    Interleave(VALUES + [TROPICAL + CATEGORY], ONE_SPACE)
  }

  lemma {:induction false} SpacesAreRuns()
    ensures forall i :: 0 <= i < |ONE_SPACE| ==> IsRunOf(ONE_SPACE[i], ' ')
  {
    forall i | 0 <= i < |ONE_SPACE|
      ensures IsRunOf(ONE_SPACE[i], ' ')
    {
    }
  }

  /** The date line: year 2017, and the first and last day of its range,
      each read in that year. */
  lemma {:induction false} ExampleDates(parse: DateParser)
    ensures ParseTrackDates(DateLine(), parse)
      == Success(TrackDates(YEAR, parse(DATE_START + " " + YEAR, DAY_FORMAT), parse(DATE_END + " " + YEAR, DAY_FORMAT)))
  {
    ParseTrackDatesOfLabel(DATE_START, DATE_END, YEAR, parse);
  }

  /** The header line gives the four column names. */
  lemma {:induction false} ExampleHeaders()
    ensures SplitOnRuns(HeaderLine(), ' ') == HEADERS
  {
    SpacesAreRuns();
    SplitOnRunsInterleave(HEADERS, ONE_SPACE, ' ');
  }

  /** `TROPICAL STORM` comes out as one token, `TROPICAL_STORM`, so the row
      has exactly as many tokens as there are headers. */
  lemma {:induction false} ExampleRow(row: string)
    requires row == DataLine()
    ensures RowTokens(row) == VALUES + [TROPICAL_JOINED + CATEGORY]
  {
    SpacesAreRuns();
    assert "" + row + "" == row;
    TropicalCategoryRow("", VALUES, ONE_SPACE, CATEGORY, "");
  }
}
