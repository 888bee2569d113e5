/** The string operations the track parser borrows from JavaScript, lodash
    and the `eol` package, each stated over `seq<char>`:
    - `String.prototype.split` with the regular expressions `/ +/` and `/-/`;
    - `eol.split`, which breaks text at CRLF, CR or LF;
    - `_.replace` with a literal, non-global regular expression (first match only);
    - `_.trim`, which strips JavaScript's `\s` class from both ends. */
module Text {
  import opened Base

  /** JavaScript's `\s` character class (the set lodash's trim removes). */
  predicate IsWhitespace(c: char) {
    || c == ' ' || c == '\t' || c == '\n' || c == '\U{B}' || c == '\U{C}' || c == '\r'
    || c == '\U{A0}' || c == '\U{1680}' || ('\U{2000}' <= c <= '\U{200A}')
    || c == '\U{2028}' || c == '\U{2029}' || c == '\U{202F}' || c == '\U{205F}'
    || c == '\U{3000}' || c == '\U{FEFF}'
  }

  /** The characters at which `eol.split` breaks a line. */
  const LineBreaks: set<char> := {'\r', '\n'}

  /** No character of `t` is in `cs`. */
  predicate Avoids(t: string, cs: set<char>) {
    forall k :: 0 <= k < |t| ==> t[k] !in cs
  }

  /** The index of the first character of `s` that is in `cs`. */
  function IndexOfAny(s: string, cs: set<char>): (r: Option<nat>)
    ensures r.Some? ==> r.value < |s| && s[r.value] in cs && Avoids(s[..r.value], cs)
    ensures r.None? <==> Avoids(s, cs)
  {
    if s == [] then None
    else if s[0] in cs then Some(0)
    else match IndexOfAny(s[1..], cs)
      case None => None
      case Some(i) =>
        assert s[..i + 1] == [s[0]] + s[1..][..i];
        Some(i + 1)
  }

  lemma {:induction false} IndexOfAnyAfterPrefix(a: string, b: string, cs: set<char>)
    requires Avoids(a, cs) && b != [] && b[0] in cs
    ensures IndexOfAny(a + b, cs) == Some(|a|)
  {
    assert (a + b)[|a|] in cs;
    assert (a + b)[..|a|] == a;
    assert forall k :: 0 <= k < |a| ==> (a + b)[k] == a[k];
  }

  // ---------------------------------------------------------------------
  // First occurrence of a literal pattern, and `_.replace` without the g flag

  predicate OccursAt(s: string, pat: string, k: int) {
    0 <= k && k + |pat| <= |s| && s[k..k + |pat|] == pat
  }

  function IndexOfFrom(s: string, pat: string, from: nat): (r: Option<nat>)
    ensures r.Some? ==> from <= r.value && OccursAt(s, pat, r.value)
    ensures r.Some? ==> forall k :: from <= k < r.value ==> !OccursAt(s, pat, k)
    ensures r.None? ==> forall k :: from <= k ==> !OccursAt(s, pat, k)
    decreases |s| - from
  {
    if from + |pat| > |s| then None
    else if s[from..from + |pat|] == pat then Some(from)
    else IndexOfFrom(s, pat, from + 1)
  }

  /** `s.search(pat)` for a pattern without metacharacters: the first match. */
  function IndexOf(s: string, pat: string): (r: Option<nat>)
    ensures r.Some? ==> OccursAt(s, pat, r.value)
    ensures r.Some? ==> forall k :: 0 <= k < r.value ==> !OccursAt(s, pat, k)
    ensures r.None? <==> forall k :: 0 <= k ==> !OccursAt(s, pat, k)
  {
    IndexOfFrom(s, pat, 0)
  }

  /** A match starts with the pattern's first character. */
  lemma {:induction false} OccursAtHead(s: string, pat: string, k: nat)
    requires pat != [] && k + |pat| <= |s|
    ensures OccursAt(s, pat, k) ==> s[k] == pat[0]
  {
    assert s[k..k + |pat|][0] == s[k];
  }

  /** A string that never holds the pattern's first character has no match. */
  lemma {:induction false} NoMatchWithoutHead(s: string, pat: string)
    requires pat != [] && pat[0] !in s
    ensures IndexOf(s, pat).None?
  {
    forall k | 0 <= k ensures !OccursAt(s, pat, k) {
      if k + |pat| <= |s| {
        OccursAtHead(s, pat, k);
      }
    }
  }

  /** When the part before a match never holds the pattern's first
      character, that match is the first. */
  lemma {:induction false} FirstMatchAfterClearPrefix(a: string, pat: string, b: string)
    requires pat != [] && pat[0] !in a
    ensures IndexOf(a + pat + b, pat) == Some(|a|)
  {
    var s := a + pat + b;
    assert s == a + (pat + b);
    assert s[|a|..|a| + |pat|] == pat;
    assert OccursAt(s, pat, |a|);
    forall k | 0 <= k < |a| ensures !OccursAt(s, pat, k) {
      OccursAtHead(s, pat, k);
      assert s[k] == a[k];
    }
    var r := IndexOf(s, pat);
    assert r.Some?;
    assert r.value >= |a|;
  }

  /** `_.replace(s, /pat/, rep)`: only the first match is replaced. */
  function ReplaceFirst(s: string, pat: string, rep: string): string
  {
    match IndexOf(s, pat)
    case None => s
    case Some(k) => s[..k] + rep + s[k + |pat|..]
  }

  /** Replacing the first match leaves every later, non-overlapping match
      of the pattern in place: the replacement is not global. */
  lemma {:induction false} ReplaceFirstKeepsLaterMatches(s: string, pat: string, rep: string, k1: nat, k2: nat)
    requires IndexOf(s, pat) == Some(k1)
    requires k1 + |pat| <= k2 && OccursAt(s, pat, k2)
    ensures OccursAt(ReplaceFirst(s, pat, rep), pat, k2 - |pat| + |rep|)
  {
    var r := ReplaceFirst(s, pat, rep);
    var j := k2 - |pat| + |rep|;
    var tail := s[k1 + |pat|..];
    var d := k2 - k1 - |pat|;
    assert r == (s[..k1] + rep) + tail;
    assert r[k1 + |rep|..] == tail;
    assert r[j..j + |pat|] == tail[d..d + |pat|];
    assert tail[d..d + |pat|] == s[k2..k2 + |pat|];
  }

  // ---------------------------------------------------------------------
  // `_.trim`

  /** The length of the leading run of whitespace. */
  function LeadingWhitespace(s: string): (n: nat)
    ensures n <= |s|
    ensures forall k :: 0 <= k < n ==> IsWhitespace(s[k])
    ensures n < |s| ==> !IsWhitespace(s[n])
  {
    if s == [] || !IsWhitespace(s[0]) then 0 else 1 + LeadingWhitespace(s[1..])
  }

  /** The length of the trailing run of whitespace. */
  function TrailingWhitespace(s: string): (n: nat)
    ensures n <= |s|
    ensures forall k :: |s| - n <= k < |s| ==> IsWhitespace(s[k])
    ensures n < |s| ==> !IsWhitespace(s[|s| - n - 1])
  {
    if s == [] || !IsWhitespace(s[|s| - 1]) then 0 else 1 + TrailingWhitespace(s[..|s| - 1])
  }

  /** `_.trim(s)`: the part of `s` between its leading and its trailing run
      of whitespace, itself neither starting nor ending with whitespace. */
  function Trim(s: string): (r: string)
    ensures var i := LeadingWhitespace(s);
      && i + |r| <= |s| && r == s[i..i + |r|]
      && (forall k :: i + |r| <= k < |s| ==> IsWhitespace(s[k]))
    ensures r != [] ==> !IsWhitespace(r[0]) && !IsWhitespace(r[|r| - 1])
  {
    var i := LeadingWhitespace(s);
    var t := s[i..];
    var n := TrailingWhitespace(t);
    TrailingWhitespaceOfSuffix(s, i);
    t[..|t| - n]
  }

  /** The trailing run of a suffix is whitespace in the whole string too. */
  lemma {:induction false} TrailingWhitespaceOfSuffix(s: string, i: nat)
    requires i <= |s|
    ensures forall k :: |s| - TrailingWhitespace(s[i..]) <= k < |s| ==> IsWhitespace(s[k])
  {
    var t := s[i..];
    forall k | |s| - TrailingWhitespace(t) <= k < |s|
      ensures IsWhitespace(s[k])
    {
      assert s[k] == t[k - i];
    }
  }

  /** A string that neither starts nor ends with whitespace is its own trim. */
  lemma {:induction false} TrimUnchanged(s: string)
    requires s != [] && !IsWhitespace(s[0]) && !IsWhitespace(s[|s| - 1])
    ensures Trim(s) == s
  {
    assert LeadingWhitespace(s) == 0;
    assert s[0..] == s;
    assert TrailingWhitespace(s) == 0;
  }

  /** A line made only of whitespace trims to the empty string, and only such a line does. */
  lemma {:induction false} TrimEmptyIff(s: string)
    ensures Trim(s) == [] <==> forall k :: 0 <= k < |s| ==> IsWhitespace(s[k])
  {
    var i := LeadingWhitespace(s);
    if Trim(s) != [] {
      assert s[i] == Trim(s)[0];
    }
  }

  /** Trimming removes whitespace padding of any length, and only the padding. */
  lemma {:induction false} TrimPadding(lead: string, m: string, trail: string)
    requires forall k :: 0 <= k < |lead| ==> IsWhitespace(lead[k])
    requires forall k :: 0 <= k < |trail| ==> IsWhitespace(trail[k])
    requires m != [] && !IsWhitespace(m[0]) && !IsWhitespace(m[|m| - 1])
    ensures Trim(lead + m + trail) == m
  {
    var s := lead + m + trail;
    assert forall k :: 0 <= k < |lead| ==> s[k] == lead[k];
    assert s[|lead|] == m[0];
    assert LeadingWhitespace(s) == |lead|;
    assert s[|lead| + |m| - 1] == m[|m| - 1];
    assert forall k :: |lead| + |m| <= k < |s| ==> s[k] == trail[k - |lead| - |m|];
    var r := Trim(s);
    assert |r| == |m|;
    assert s[|lead|..|lead| + |m|] == m;
  }

  // ---------------------------------------------------------------------
  // Joining with a fixed separator, the partner of `SplitOnEach` and
  // `SplitLines` below (`SplitOnRuns` is partnered by `Interleave`)

  function JoinWith(ts: seq<string>, sep: string): string
  {
    if |ts| == 0 then []
    else if |ts| == 1 then ts[0]
    else ts[0] + sep + JoinWith(ts[1..], sep)
  }

  // ---------------------------------------------------------------------
  // `s.split(/ +/)`: cut at every maximal run of the separator

  /** Drop the leading run of `c`. */
  function SkipRun(s: string, c: char): (r: string)
    ensures |r| <= |s| && r == s[|s| - |r|..]
    ensures r != [] ==> r[0] != c
    ensures s != [] && s[0] == c ==> |r| < |s|
  {
    if s != [] && s[0] == c then SkipRun(s[1..], c) else s
  }

  /** `s.split(/c+/)`: an empty or separator-free string gives one piece;
      a leading or trailing run gives an empty first or last piece. */
  function SplitOnRuns(s: string, c: char): (r: seq<string>)
    ensures |r| >= 1
    ensures forall i :: 0 <= i < |r| ==> Avoids(r[i], {c})
    ensures s != [] && s[0] != c ==> r[0] != []
    ensures forall i :: 0 < i < |r| - 1 ==> r[i] != []
    decreases |s|
  {
    match IndexOfAny(s, {c})
    case None => [s]
    case Some(i) =>
      var t := SkipRun(s[i..], c);
      var rest := SplitOnRuns(t, c);
      assert t == [] ==> rest == [t];
      [s[..i]] + rest
  }

  /** A non-empty run of the character `c`. */
  predicate IsRunOf(g: string, c: char) {
    g != [] && forall k :: 0 <= k < |g| ==> g[k] == c
  }

  /** Pieces joined by gaps of their own: piece 0, gap 0, piece 1, ... */
  function Interleave(ts: seq<string>, gaps: seq<string>): string
    requires |gaps| + 1 == |ts|
    decreases |ts|
  {
    if |ts| == 1 then ts[0] else ts[0] + gaps[0] + Interleave(ts[1..], gaps[1..])
  }

  lemma {:induction false} InterleaveSnoc(ts: seq<string>, gaps: seq<string>, g: string, x: string)
    requires |gaps| + 1 == |ts|
    ensures Interleave(ts + [x], gaps + [g]) == Interleave(ts, gaps) + g + x
    decreases |ts|
  {
    if |ts| == 1 {
      assert (ts + [x])[1..] == [x];
      assert (gaps + [g])[1..] == [];
    } else {
      assert (ts + [x])[1..] == ts[1..] + [x];
      assert (gaps + [g])[1..] == gaps[1..] + [g];
      InterleaveSnoc(ts[1..], gaps[1..], g, x);
    }
  }

  /** An interleaving starts with its first piece, when that is non-empty. */
  lemma {:induction false} InterleaveHead(ts: seq<string>, gaps: seq<string>)
    requires |gaps| + 1 == |ts| && ts[0] != []
    ensures Interleave(ts, gaps) != [] && Interleave(ts, gaps)[0] == ts[0][0]
  {
    if |ts| > 1 {
      assert Interleave(ts, gaps) == ts[0] + (gaps[0] + Interleave(ts[1..], gaps[1..]));
    }
  }

  /** A character absent from every piece and every gap is absent from the interleaving. */
  lemma {:induction false} InterleaveAvoids(ts: seq<string>, gaps: seq<string>, c: char)
    requires |gaps| + 1 == |ts|
    requires forall i :: 0 <= i < |ts| ==> c !in ts[i]
    requires forall i :: 0 <= i < |gaps| ==> c !in gaps[i]
    ensures c !in Interleave(ts, gaps)
    decreases |ts|
  {
    if |ts| > 1 {
      InterleaveAvoids(ts[1..], gaps[1..], c);
    }
  }

  /** A whole run of `c` is skipped, and nothing after it. */
  lemma {:induction false} SkipRunOfRun(g: string, rest: string, c: char)
    requires IsRunOf(g, c)
    requires rest != [] ==> rest[0] != c
    ensures SkipRun(g + rest, c) == rest
    decreases |g|
  {
    assert (g + rest)[1..] == g[1..] + rest;
    if |g| > 1 {
      SkipRunOfRun(g[1..], rest, c);
    } else {
      assert g[1..] + rest == rest;
    }
  }

  /** One step of the split over a gap of any length. */
  lemma {:induction false} SplitOnRunsGapStep(head: string, gap: string, rest: string, c: char)
    requires Avoids(head, {c}) && IsRunOf(gap, c)
    requires rest != [] ==> rest[0] != c
    ensures SplitOnRuns(head + gap + rest, c) == [head] + SplitOnRuns(rest, c)
  {
    var s := head + gap + rest;
    IndexOfAnyAfterPrefix(head, gap + rest, {c});
    assert s == head + (gap + rest);
    assert s[..|head|] == head;
    assert s[|head|..] == gap + rest;
    SkipRunOfRun(gap, rest, c);
  }

  /** Splitting on runs undoes an interleaving whose gaps are runs of any
      length: a run of several separators counts as one. */
  lemma {:induction false} SplitOnRunsInterleave(ts: seq<string>, gaps: seq<string>, c: char)
    requires |gaps| + 1 == |ts|
    requires forall i :: 0 <= i < |ts| ==> Avoids(ts[i], {c})
    requires forall i :: 0 < i < |ts| - 1 ==> ts[i] != []
    requires forall i :: 0 <= i < |gaps| ==> IsRunOf(gaps[i], c)
    ensures SplitOnRuns(Interleave(ts, gaps), c) == ts
    decreases |ts|
  {
    if |ts| == 1 {
      assert IndexOfAny(ts[0], {c}).None?;
    } else {
      var rest := Interleave(ts[1..], gaps[1..]);
      if |ts| > 2 {
        InterleaveHead(ts[1..], gaps[1..]);
      }
      SplitOnRunsGapStep(ts[0], gaps[0], rest, c);
      SplitOnRunsInterleave(ts[1..], gaps[1..], c);
    }
  }

  // ---------------------------------------------------------------------
  // `s.split(/-/)`: cut at every single separator

  function SplitOnEach(s: string, c: char): (r: seq<string>)
    ensures |r| >= 1
    ensures forall i :: 0 <= i < |r| ==> Avoids(r[i], {c})
  {
    match IndexOfAny(s, {c})
    case None => [s]
    case Some(i) => [s[..i]] + SplitOnEach(s[i + 1..], c)
  }

  /** Splitting at each separator undoes joining, empty tokens included. */
  lemma {:induction false} SplitOnEachJoin(ts: seq<string>, c: char)
    requires |ts| >= 1
    requires forall i :: 0 <= i < |ts| ==> Avoids(ts[i], {c})
    ensures SplitOnEach(JoinWith(ts, [c]), c) == ts
  {
    if |ts| == 1 {
      assert IndexOfAny(ts[0], {c}).None?;
    } else {
      var rest := JoinWith(ts[1..], [c]);
      var s := ts[0] + [c] + rest;
      assert JoinWith(ts, [c]) == s;
      IndexOfAnyAfterPrefix(ts[0], [c] + rest, {c});
      assert s == ts[0] + ([c] + rest);
      assert s[..|ts[0]|] == ts[0];
      assert s[|ts[0]| + 1..] == rest;
      SplitOnEachJoin(ts[1..], c);
    }
  }

  // ---------------------------------------------------------------------
  // `eol.split`: lines separated by CRLF, CR or LF

  /** The length of the line break that starts at `s[i]`. */
  function BreakLength(s: string, i: nat): (n: nat)
    requires i < |s| && s[i] in LineBreaks
    ensures 1 <= n <= 2 && i + n <= |s|
  {
    if s[i] == '\r' && i + 1 < |s| && s[i + 1] == '\n' then 2 else 1
  }

  function SplitLines(s: string): (r: seq<string>)
    ensures |r| >= 1
    ensures forall i :: 0 <= i < |r| ==> Avoids(r[i], LineBreaks)
    decreases |s|
  {
    match IndexOfAny(s, LineBreaks)
    case None => [s]
    case Some(i) => [s[..i]] + SplitLines(s[i + BreakLength(s, i)..])
  }

  /** One step of the line split: a line, one LF or CRLF, and the rest. */
  lemma {:induction false} SplitLinesStep(line: string, sep: string, rest: string)
    requires sep == "\n" || sep == "\r\n"
    requires Avoids(line, LineBreaks)
    ensures SplitLines(line + sep + rest) == [line] + SplitLines(rest)
  {
    var s := line + sep + rest;
    IndexOfAnyAfterPrefix(line, sep + rest, LineBreaks);
    assert s == line + (sep + rest);
    assert s[..|line|] == line;
    assert BreakLength(s, |line|) == |sep|;
    assert s[|line| + |sep|..] == rest;
  }

  /** Splitting undoes joining with LF or with CRLF. In particular a text
      that ends in a line break has an empty last line. */
  lemma {:induction false} SplitLinesJoin(ls: seq<string>, sep: string)
    requires |ls| >= 1
    requires sep == "\n" || sep == "\r\n"
    requires forall i :: 0 <= i < |ls| ==> Avoids(ls[i], LineBreaks)
    ensures SplitLines(JoinWith(ls, sep)) == ls
  {
    if |ls| == 1 {
      assert IndexOfAny(ls[0], LineBreaks).None?;
    } else {
      var rest := JoinWith(ls[1..], sep);
      assert JoinWith(ls, sep) == ls[0] + sep + rest;
      SplitLinesStep(ls[0], sep, rest);
      SplitLinesJoin(ls[1..], sep);
    }
  }
}
