/**
 * The three regular expressions of the restore side (RepoTool.py:240-242),
 * as predicates on one line of text (a string holding no "\n"):
 *
 *   FILE_SECTION_RE   ^##\s+File:\s+(.+)$   (used with re.MULTILINE)
 *   FENCE_START_RE    ^```[a-zA-Z0-9_-]*\s*$
 *   FENCE_END_RE      ^```\s*$
 *
 * Each predicate is written the way a backtracking matcher settles on the
 * line, and a lemma beside it states the pattern declaratively, as the
 * concatenation of pieces the pattern allows.
 */
module Patterns {
  import opened Text

  /** The character class [a-zA-Z0-9_-]. */
  predicate IsTagChar(c: char) {
    ('a' <= c <= 'z') || ('A' <= c <= 'Z') || ('0' <= c <= '9') || c == '_' || c == '-'
  }

  predicate AllTag(s: string) {
    forall i | 0 <= i < |s| :: IsTagChar(s[i])
  }

  /** What is left of `s` once its leading whitespace run is skipped. */
  function SkipSpaces(s: string): (r: string)
    ensures |r| <= |s|
  {
    if s != [] && IsSpace(s[0]) then SkipSpaces(s[1..]) else s
  }

  /** Length of the longest prefix made of tag characters. */
  function LeadingTagChars(s: string): (k: nat)
    ensures k <= |s|
  {
    if s != [] && IsTagChar(s[0]) then 1 + LeadingTagChars(s[1..]) else 0
  }

  /** The skipped prefix is all whitespace, and what is left does not start
      with whitespace. */
  lemma {:induction false} SkipSpacesRun(s: string)
    ensures s[|s| - |SkipSpaces(s)|..] == SkipSpaces(s)
    ensures AllSpace(s[..|s| - |SkipSpaces(s)|])
    ensures SkipSpaces(s) == [] || !IsSpace(SkipSpaces(s)[0])
    decreases |s|
  {
    if s != [] && IsSpace(s[0]) {
      SkipSpacesRun(s[1..]);
      var n := |s| - |SkipSpaces(s)|;
      assert s[1..][n - 1..] == s[n..];
      assert s[..n] == [s[0]] + s[1..][..n - 1];
    }
  }

  /** The tag prefix is all tag characters and cannot be extended. */
  lemma {:induction false} LeadingTagCharsRun(s: string)
    ensures AllTag(s[..LeadingTagChars(s)])
    ensures LeadingTagChars(s) < |s| ==> !IsTagChar(s[LeadingTagChars(s)])
    decreases |s|
  {
    if s != [] && IsTagChar(s[0]) {
      LeadingTagCharsRun(s[1..]);
      assert s[..LeadingTagChars(s)] == [s[0]] + s[1..][..LeadingTagChars(s[1..])];
    }
  }

  /** A whitespace run stops at the first non-whitespace character. */
  lemma {:induction false} SkipSpacesConcat(w: string, x: string)
    requires AllSpace(w)
    requires x == [] || !IsSpace(x[0])
    ensures SkipSpaces(w + x) == x
    decreases |w|
  {
    if w == [] {
      assert w + x == x;
    } else {
      assert (w + x)[1..] == w[1..] + x;
      SkipSpacesConcat(w[1..], x);
    }
  }

  /** A run of tag characters stops at the first other character. */
  lemma {:induction false} LeadingTagCharsConcat(t: string, x: string)
    requires AllTag(t)
    requires x == [] || !IsTagChar(x[0])
    ensures LeadingTagChars(t + x) == |t|
    decreases |t|
  {
    if t == [] {
      assert t + x == x;
    } else {
      assert (t + x)[1..] == t[1..] + x;
      LeadingTagCharsConcat(t[1..], x);
    }
  }

  // ---------------------------------------------------------------------------
  // FILE_SECTION_RE
  // ---------------------------------------------------------------------------

  /** `File:`, one whitespace character, then at least one more character:
      the end of the pattern once its first whitespace run is consumed. */
  predicate IsFileTail(t: string) {
    && |t| >= 7
    && t[0] == 'F' && t[1] == 'i' && t[2] == 'l' && t[3] == 'e' && t[4] == ':'
    && IsSpace(t[5])
  }

  /** A non-empty whitespace run followed by a file tail. */
  predicate IsSpacedFileTail(s: string)
    decreases |s|
  {
    |s| >= 1 && IsSpace(s[0]) && (IsFileTail(s[1..]) || IsSpacedFileTail(s[1..]))
  }

  /** `##`, a whitespace run, `File:`, then at least one whitespace character
      followed by at least one more character. */
  predicate IsHeaderLine(line: string) {
    |line| >= 2 && line[0] == '#' && line[1] == '#' && IsSpacedFileTail(line[2..])
  }

  /** The first `\s+` of the pattern must take the whole whitespace run,
      since `F` is not whitespace. */
  lemma {:induction false} SpacedFileTailRun(s: string)
    ensures IsSpacedFileTail(s) <==> |s| >= 1 && IsSpace(s[0]) && IsFileTail(SkipSpaces(s))
    decreases |s|
  {
    if |s| >= 1 && IsSpace(s[0]) {
      SpacedFileTailRun(s[1..]);
    }
  }

  /** Everything after `File:` on a header line (on any other line, what is
      left once the same pieces are skipped as far as they go). */
  function HeaderRest(line: string): string {
    if |line| < 2 then ""
    else
      var after := SkipSpaces(line[2..]);
      if |after| < 5 then "" else after[5..]
  }

  /** Skips a whitespace run but always leaves at least one character. */
  function SkipSpacesKeepOne(s: string): (r: string)
    ensures s != [] ==> |r| >= 1
  {
    if |s| >= 2 && IsSpace(s[0]) then SkipSpacesKeepOne(s[1..]) else s
  }

  /** A whitespace run in front of a non-whitespace character is skipped
      entirely. */
  lemma {:induction false} SkipSpacesKeepOneConcat(w: string, x: string)
    requires AllSpace(w)
    requires |x| >= 1 && !IsSpace(x[0])
    ensures SkipSpacesKeepOne(w + x) == x
    decreases |w|
  {
    if w == [] {
      assert w + x == x;
    } else {
      assert (w + x)[1..] == w[1..] + x;
      SkipSpacesKeepOneConcat(w[1..], x);
    }
  }

  /** Group 1 of the match: the greedy `\s+` takes the whole whitespace run
      after `File:` but must leave one character for `(.+)`. The line is
      read on its own: a line "## File:  " followed by a line "x" gives a
      capture of blanks here, while in the whole document `re.MULTILINE`
      lets `\s+` cross the line break and capture "x". */
  function HeaderCapture(line: string): string {
    SkipSpacesKeepOne(HeaderRest(line))
  }

  /** On a header line, what follows `File:` starts with whitespace and holds
      at least one more character, so group 1 is never empty. */
  lemma HeaderCaptureNonEmpty(line: string)
    requires IsHeaderLine(line)
    ensures |HeaderRest(line)| >= 2 && IsSpace(HeaderRest(line)[0])
    ensures |HeaderCapture(line)| >= 1
  {
    SpacedFileTailRun(line[2..]);
  }

  /** `m.group(1).strip()`: the path a header names. */
  function HeaderPath(line: string): string {
    Strip(HeaderCapture(line))
  }

  /** The pattern as a concatenation: `##`, whitespace, `File:`, whitespace,
      and a non-empty tail. */
  predicate HeaderShape(line: string, w1: string, w2: string, tail: string) {
    && |w1| >= 1 && AllSpace(w1)
    && |w2| >= 1 && AllSpace(w2)
    && |tail| >= 1
    && line == "##" + w1 + "File:" + w2 + tail
  }

  /** The pieces of a file tail: `File:`, one whitespace character and the
      rest. */
  lemma FileTailPieces(r: string) returns (w2: string, tail: string)
    requires IsFileTail(r)
    ensures |w2| == 1 && AllSpace(w2) && |tail| >= 1
    ensures r == "File:" + w2 + tail
  {
    w2, tail := r[5..6], r[6..];
    assert r[..5] == "File:";
    assert r == r[..5] + w2 + tail;
  }

  /** The pieces the matcher finds on a header line. */
  lemma HeaderLinePieces(line: string) returns (w1: string, w2: string, tail: string)
    requires IsHeaderLine(line)
    ensures HeaderShape(line, w1, w2, tail)
  {
    var s := line[2..];
    SpacedFileTailRun(s);
    SkipSpacesRun(s);
    var r := SkipSpaces(s);
    w1 := s[..|s| - |r|];
    assert s == w1 + r;
    assert |w1| >= 1 by {
      assert r[0] == 'F';
    }
    w2, tail := FileTailPieces(r);
    assert line == "##" + s by {
      assert line[..2] == "##";
      assert line == line[..2] + line[2..];
    }
    Assoc("##", w1, r);
    Assoc("##" + w1, "File:" + w2, tail);
    Assoc("##" + w1, "File:", w2);
  }

  /** The line predicate accepts exactly the lines the pattern describes. */
  lemma HeaderLineIffShape(line: string)
    ensures IsHeaderLine(line) <==> exists w1, w2, tail :: HeaderShape(line, w1, w2, tail)
  {
    if IsHeaderLine(line) {
      var w1, w2, tail := HeaderLinePieces(line);
    }
    if exists w1, w2, tail :: HeaderShape(line, w1, w2, tail) {
      var w1, w2, tail :| HeaderShape(line, w1, w2, tail);
      HeaderShapeParts(line, w1, w2, tail);
    }
  }

  /** On a line of header shape the matcher finds the same pieces. */
  lemma HeaderShapeParts(line: string, w1: string, w2: string, tail: string)
    requires HeaderShape(line, w1, w2, tail)
    ensures IsHeaderLine(line)
    ensures HeaderRest(line) == w2 + tail
  {
    var s := line[2..];
    assert s == w1 + ("File:" + w2 + tail);
    SkipSpacesConcat(w1, "File:" + w2 + tail);
    assert IsFileTail(SkipSpaces(s));
    SpacedFileTailRun(s);
    assert ("File:" + w2 + tail)[5..] == w2 + tail;
  }

  /** The path of a header is its tail when the tail is already stripped,
      whatever whitespace surrounds `File:`. */
  lemma HeaderPathOfShape(line: string, w1: string, w2: string, tail: string)
    requires HeaderShape(line, w1, w2, tail)
    requires IsStripped(tail)
    ensures IsHeaderLine(line)
    ensures HeaderPath(line) == tail
  {
    HeaderShapeParts(line, w1, w2, tail);
    SkipSpacesKeepOneConcat(w2, tail);
    StripFixesStripped(tail);
  }

  /** The header line the serializer writes for a path: `## File: <path>`. */
  function HeaderFor(path: string): string {
    "## File: " + path
  }

  /** Any non-empty path without surrounding whitespace makes a header line
      that names exactly that path. */
  lemma HeaderForParses(path: string)
    requires |path| >= 1 && IsStripped(path)
    ensures IsHeaderLine(HeaderFor(path))
    ensures HeaderPath(HeaderFor(path)) == path
  {
    assert HeaderFor(path) == "##" + " " + "File:" + " " + path;
    HeaderPathOfShape(HeaderFor(path), " ", " ", path);
  }

  // ---------------------------------------------------------------------------
  // FENCE_START_RE and FENCE_END_RE (used with re.match, anchored at the start)
  // ---------------------------------------------------------------------------

  /** Three backticks, the longest run of tag characters, then only
      whitespace to the end of the line. */
  predicate IsFenceStart(line: string) {
    && StartsWith(line, "```")
    && var t := line[3..];
       AllSpace(t[LeadingTagChars(t)..])
  }

  /** Three backticks, then only whitespace to the end of the line. */
  predicate IsFenceEnd(line: string) {
    StartsWith(line, "```") && AllSpace(line[3..])
  }

  /** The fence-start pattern as a concatenation. */
  predicate FenceStartShape(line: string, tag: string, ws: string) {
    AllTag(tag) && AllSpace(ws) && line == "```" + tag + ws
  }

  /** The pieces the matcher finds on an opening-fence line. */
  lemma FenceStartPieces(line: string) returns (tag: string, ws: string)
    requires IsFenceStart(line)
    ensures FenceStartShape(line, tag, ws)
  {
    var t := line[3..];
    var k := LeadingTagChars(t);
    LeadingTagCharsRun(t);
    tag, ws := t[..k], t[k..];
    assert line == "```" + tag + ws;
  }

  /** Every line of the pattern's shape is an opening fence. */
  lemma FenceStartOfShape(line: string, tag: string, ws: string)
    requires FenceStartShape(line, tag, ws)
    ensures IsFenceStart(line)
  {
    var t := line[3..];
    assert t == tag + ws;
    LeadingTagCharsConcat(tag, ws);
    assert t[LeadingTagChars(t)..] == ws;
  }

  /** The fence-start predicate accepts exactly the lines the pattern
      describes. */
  lemma FenceStartIffShape(line: string)
    ensures IsFenceStart(line) <==> exists tag, ws :: FenceStartShape(line, tag, ws)
  {
    if IsFenceStart(line) {
      var tag, ws := FenceStartPieces(line);
    }
    if exists tag, ws :: FenceStartShape(line, tag, ws) {
      var tag, ws :| FenceStartShape(line, tag, ws);
      FenceStartOfShape(line, tag, ws);
    }
  }

  /** Every closing fence also matches the opening-fence pattern (with an
      empty tag), which is why a bare ``` line can open a block. */
  lemma FenceEndIsFenceStart(line: string)
    requires IsFenceEnd(line)
    ensures IsFenceStart(line)
  {
    assert line == "```" + "" + line[3..];
    FenceStartOfShape(line, "", line[3..]);
  }

  /** A header line never opens or closes a fence. */
  lemma HeaderIsNotFence(line: string)
    requires IsHeaderLine(line)
    ensures !IsFenceStart(line) && !IsFenceEnd(line)
  {
    assert line[0] == '#';
  }

  // ---------------------------------------------------------------------------
  // Scanning lines for the first match of a pattern
  // ---------------------------------------------------------------------------

  /** No line of ls matches p. */
  predicate NoMatch(ls: seq<string>, p: string -> bool) {
    forall i | 0 <= i < |ls| :: !p(ls[i])
  }

  /** No line from index from up to (not including) index to matches p. */
  predicate NoMatchIn(ls: seq<string>, from: nat, to: nat, p: string -> bool)
    requires from <= to <= |ls|
  {
    forall i | from <= i < to :: !p(ls[i])
  }

  /** The index of the first line from index i on that p matches, or |ls| if
      none does. */
  function FirstMatchFrom(ls: seq<string>, i: nat, p: string -> bool): (r: nat)
    requires i <= |ls|
    ensures i <= r <= |ls|
    decreases |ls| - i
  {
    if i == |ls| then i
    else if p(ls[i]) then i
    else FirstMatchFrom(ls, i + 1, p)
  }

  /** The index of the first line p matches, or |ls| if none does. */
  function FirstMatch(ls: seq<string>, p: string -> bool): (r: nat)
    ensures r <= |ls|
  {
    FirstMatchFrom(ls, 0, p)
  }

  /** The scan passes over lines that do not match and stops at the first
      one that does. */
  lemma {:induction false} FirstMatchFromStops(ls: seq<string>, i: nat, p: string -> bool)
    requires i <= |ls|
    ensures var r := FirstMatchFrom(ls, i, p);
            NoMatchIn(ls, i, r, p) && (r < |ls| ==> p(ls[r]))
    decreases |ls| - i
  {
    if i < |ls| && !p(ls[i]) {
      FirstMatchFromStops(ls, i + 1, p);
    }
  }

  /** Conversely, the scan stops at j when p matches no line from i up to j
      and matches line j (or j is the end). */
  lemma {:induction false} FirstMatchFromIs(ls: seq<string>, i: nat, j: nat, p: string -> bool)
    requires i <= j <= |ls| && NoMatchIn(ls, i, j, p)
    requires j < |ls| ==> p(ls[j])
    ensures FirstMatchFrom(ls, i, p) == j
    decreases j - i
  {
    if i < j {
      FirstMatchFromIs(ls, i + 1, j, p);
    }
  }

  /** Scanning a suffix is scanning the whole from further on. */
  lemma {:induction false} FirstMatchFromShift(ls: seq<string>, h: nat, j: nat, p: string -> bool)
    requires h + j <= |ls|
    ensures FirstMatchFrom(ls[h..], j, p) == FirstMatchFrom(ls, h + j, p) - h
    decreases |ls| - h - j
  {
    if h + j < |ls| {
      assert ls[h..][j] == ls[h + j];
      if !p(ls[h + j]) {
        FirstMatchFromShift(ls, h, j + 1, p);
      }
    }
  }

  /** The indices of the lines before line n that p matches, in increasing
      order: what a scan of the first n lines reports. */
  function MatchesBefore(ls: seq<string>, n: nat, p: string -> bool): (hs: seq<nat>)
    requires n <= |ls|
    ensures forall k | 0 <= k < |hs| :: hs[k] < n
  {
    if n == 0 then [] else MatchesBefore(ls, n - 1, p) + (if p(ls[n - 1]) then [n - 1] else [])
  }

  /** Where the scan that resumes after a matching line h stops: the next
      matching line, or the end. */
  function NextMatch(ls: seq<string>, h: nat, p: string -> bool): (e: nat)
    requires h < |ls|
    ensures h < e <= |ls|
  {
    FirstMatchFrom(ls, h + 1, p)
  }

  /** No line strictly between h and the next match matches, and the next
      match, unless it is the end, does. */
  lemma NextMatchStops(ls: seq<string>, h: nat, p: string -> bool)
    requires h < |ls|
    ensures var e := NextMatch(ls, h, p);
            NoMatchIn(ls, h + 1, e, p) && (e < |ls| ==> p(ls[e]))
  {
    FirstMatchFromStops(ls, h + 1, p);
  }

  /** Nothing before line n matches after the last match found (or at all,
      when none was found). */
  lemma {:induction false} MatchesBeforeGap(ls: seq<string>, n: nat, p: string -> bool)
    requires n <= |ls|
    ensures var hs := MatchesBefore(ls, n, p);
            && (hs == [] ==> NoMatchIn(ls, 0, n, p))
            && (hs != [] ==> hs[|hs| - 1] < n && NoMatchIn(ls, hs[|hs| - 1] + 1, n, p))
    decreases n
  {
    if n > 0 {
      MatchesBeforeGap(ls, n - 1, p);
      var prev := MatchesBefore(ls, n - 1, p);
      if p(ls[n - 1]) {
        assert MatchesBefore(ls, n, p) == prev + [n - 1];
      } else {
        assert MatchesBefore(ls, n, p) == prev;
        if prev == [] {
          NoMatchInExtend(ls, 0, n - 1, p);
        } else {
          NoMatchInExtend(ls, prev[|prev| - 1] + 1, n - 1, p);
        }
      }
    }
  }

  /** A stretch without matches grows by a line that does not match. */
  lemma NoMatchInExtend(ls: seq<string>, from: nat, to: nat, p: string -> bool)
    requires from <= to < |ls| && NoMatchIn(ls, from, to, p) && !p(ls[to])
    ensures NoMatchIn(ls, from, to + 1, p)
  {
  }

  /** The first match found is where a scan from the top stops. */
  lemma {:induction false} MatchesBeforeFirst(ls: seq<string>, n: nat, p: string -> bool)
    requires n <= |ls| && MatchesBefore(ls, n, p) != []
    ensures MatchesBefore(ls, n, p)[0] == FirstMatch(ls, p)
    decreases n
  {
    var prev := MatchesBefore(ls, n - 1, p);
    if prev == [] {
      MatchesBeforeGap(ls, n - 1, p);
      FirstMatchFromIs(ls, 0, n - 1, p);
    } else {
      MatchesBeforeFirst(ls, n - 1, p);
    }
  }

  /** Each match after the first is where the scan resumed after the
      previous one stops. */
  lemma {:induction false} MatchesBeforeNext(ls: seq<string>, n: nat, p: string -> bool, k: nat)
    requires n <= |ls| && k + 1 < |MatchesBefore(ls, n, p)|
    ensures MatchesBefore(ls, n, p)[k + 1] == NextMatch(ls, MatchesBefore(ls, n, p)[k], p)
    decreases n
  {
    var hs := MatchesBefore(ls, n, p);
    var prev := MatchesBefore(ls, n - 1, p);
    if k + 1 < |prev| {
      MatchesBeforeNext(ls, n - 1, p, k);
      assert hs[k] == prev[k] && hs[k + 1] == prev[k + 1];
    } else {
      MatchesBeforeGap(ls, n - 1, p);
      assert hs[k] == prev[k];
      FirstMatchFromIs(ls, hs[k] + 1, n - 1, p);
    }
  }

  /** The scan reports every matching line and nothing else. */
  lemma {:induction false} MatchesBeforeExact(ls: seq<string>, n: nat, p: string -> bool, j: nat)
    requires j < n <= |ls|
    ensures j in MatchesBefore(ls, n, p) <==> p(ls[j])
    decreases n
  {
    if j < n - 1 {
      MatchesBeforeExact(ls, n - 1, p, j);
    }
  }

  /** The matches of all lines. */
  function AllMatches(ls: seq<string>, p: string -> bool): seq<nat> {
    MatchesBefore(ls, |ls|, p)
  }

  /** Scanning the whole text: the first match is where a scan from the top
      stops, and a scan finds nothing when there is no match. */
  lemma AllMatchesFirst(ls: seq<string>, p: string -> bool)
    ensures AllMatches(ls, p) == [] ==> FirstMatch(ls, p) == |ls|
    ensures AllMatches(ls, p) != [] ==> AllMatches(ls, p)[0] == FirstMatch(ls, p)
  {
    if AllMatches(ls, p) == [] {
      MatchesBeforeGap(ls, |ls|, p);
      FirstMatchFromIs(ls, 0, |ls|, p);
    } else {
      MatchesBeforeFirst(ls, |ls|, p);
    }
  }

  /** Each match after the first is where the scan resumed after the previous
      one stops, and the scan after the last match runs to the end. */
  lemma AllMatchesNext(ls: seq<string>, p: string -> bool, k: nat)
    requires k < |AllMatches(ls, p)|
    ensures var hs := AllMatches(ls, p);
            NextMatch(ls, hs[k], p) == if k + 1 < |hs| then hs[k + 1] else |ls|
  {
    var hs := AllMatches(ls, p);
    if k + 1 < |hs| {
      MatchesBeforeNext(ls, |ls|, p, k);
    } else {
      MatchesBeforeGap(ls, |ls|, p);
      FirstMatchFromIs(ls, hs[k] + 1, |ls|, p);
    }
  }

  // ---------------------------------------------------------------------------
  // One value per match
  // ---------------------------------------------------------------------------

  /** The values f(k), f(k + 1), ..., f(n - 1), in that order. */
  function MapRange<T>(f: nat --> T, k: nat, n: nat): (r: seq<T>)
    requires k <= n
    requires forall i | k <= i < n :: f.requires(i)
    ensures |r| == n - k
    decreases n - k
  {
    if k == n then [] else [f(k)] + MapRange(f, k + 1, n)
  }

  /** The value at position i - k is f(i). */
  lemma {:induction false} MapRangeAt<T>(f: nat --> T, k: nat, n: nat, i: nat)
    requires k <= i < n
    requires forall j | k <= j < n :: f.requires(j)
    ensures MapRange(f, k, n)[i - k] == f(i)
    decreases i - k
  {
    if k < i {
      MapRangeAt(f, k + 1, n, i);
    }
  }

  /** Appending f(k) to the values before k leaves the values from k + 1 on
      to complete the range. */
  lemma MapRangeStep<T>(f: nat --> T, k: nat, n: nat, acc: seq<T>)
    requires k < n
    requires forall j | 0 <= j < n :: f.requires(j)
    requires acc + MapRange(f, k, n) == MapRange(f, 0, n)
    ensures (acc + [f(k)]) + MapRange(f, k + 1, n) == MapRange(f, 0, n)
  {
    assert MapRange(f, k, n) == [f(k)] + MapRange(f, k + 1, n);
  }
}
