/**
 * The restore side of the format: `restore_from_markdown` (RepoTool.py:244-284)
 * without the final disk writes.  A document is read as its "\n"-separated
 * lines.  Every line that matches the header pattern opens a section, which
 * runs to the next header line or to the end of the document, whatever
 * fences lie in between.  In each section the lines after the first opening
 * fence, up to the next closing fence, are the file's content.
 *
 * `Parse` is the specification, a recursive function over lines;
 * `RestoreFromMarkdown` follows the source step by step (match offsets, text
 * slices, splitlines, the `in_fence` loop) and is proved equal to it.
 */
module Parse {
  import opened Text
  import opened Patterns

  /** One restored file: the path its header names and its recovered text. */
  datatype Entry = Entry(path: string, content: string)

  // ---------------------------------------------------------------------------
  // Specification
  // ---------------------------------------------------------------------------

  /** The content lines of one section: those strictly after the first opening
      fence, up to but not including the next closing fence, or up to the end
      of the section when no fence closes.  None without an opening fence. */
  function FencedLines(section: seq<string>): seq<string> {
    var s := FirstMatch(section, IsFenceStart);
    if s == |section| then [] else section[s + 1..FirstMatchFrom(section, s + 1, IsFenceEnd)]
  }

  /** The lines `splitlines` gives for the section of header line h that ends
      where line e starts (e == |ls| for the last section): the empty rest of
      the header line, then the lines in between.  The last section also loses
      an empty final line, the one a trailing "\n" of the document leaves. */
  function SectionLines(ls: seq<string>, h: nat, e: nat): seq<string>
    requires h < e <= |ls|
  {
    if e < |ls| then [""] + ls[h + 1..e]
    else if h + 1 == |ls| then []
    else DropEmptyLast([""] + ls[h + 1..])
  }

  /** The entry of the section of header line h that ends where line e
      starts: the path the header names and the content lines, joined. */
  function SectionEntry(ls: seq<string>, h: nat, e: nat): Entry
    requires h < e <= |ls|
  {
    Entry(HeaderPath(ls[h]), Join(FencedLines(SectionLines(ls, h, e)), "\n"))
  }

  /** The entries of the sections from header line h on: each section runs
      to the next header line or to the end of the document. */
  function ParseFrom(ls: seq<string>, h: nat): seq<Entry>
    requires h < |ls|
    decreases |ls| - h
  {
    var e := NextMatch(ls, h, IsHeaderLine);
    [SectionEntry(ls, h, e)] + if e < |ls| then ParseFrom(ls, e) else []
  }

  /** The entries of a document given as lines; text before the first header
      is ignored. */
  function ParseLines(ls: seq<string>): seq<Entry> {
    var h := FirstMatch(ls, IsHeaderLine);
    if h == |ls| then [] else ParseFrom(ls, h)
  }

  /** The entries of a document. */
  function Parse(text: string): seq<Entry> {
    ParseLines(Split(text))
  }

  // ---------------------------------------------------------------------------
  // One entry per header line, in document order
  // ---------------------------------------------------------------------------

  /** The indices of the header lines, in increasing order. */
  function HeaderIndices(ls: seq<string>): seq<nat> {
    AllMatches(ls, IsHeaderLine)
  }

  /** The entry the k-th header line yields: its section runs from that header
      line up to the next header line, or up to the end of the document. */
  function EntryAt(ls: seq<string>, k: nat): Entry
    requires k < |HeaderIndices(ls)|
  {
    var h := HeaderIndices(ls)[k];
    SectionEntry(ls, h, NextMatch(ls, h, IsHeaderLine))
  }

  /** The entry of each header line, by its rank among the header lines. */
  function EntryFn(ls: seq<string>): nat --> Entry {
    (k: nat) requires k < |HeaderIndices(ls)| => EntryAt(ls, k)
  }

  /** One entry per header line from the k-th on, in document order. */
  function EntriesFrom(ls: seq<string>, k: nat): (es: seq<Entry>)
    requires k <= |HeaderIndices(ls)|
    ensures |es| == |HeaderIndices(ls)| - k
  {
    MapRange(EntryFn(ls), k, |HeaderIndices(ls)|)
  }

  /** One entry per header line, in document order. */
  function Entries(ls: seq<string>): (es: seq<Entry>)
    ensures |es| == |HeaderIndices(ls)|
  {
    EntriesFrom(ls, 0)
  }

  /** The k-th entry is the entry of the k-th header line. */
  lemma EntriesAt(ls: seq<string>, k: nat)
    requires k < |HeaderIndices(ls)|
    ensures Entries(ls)[k] == EntryAt(ls, k)
  {
    var n := |HeaderIndices(ls)|;
    assert Entries(ls) == MapRange(EntryFn(ls), 0, n);
    MapRangeAt(EntryFn(ls), 0, n, k);
    assert EntryFn(ls)(k) == EntryAt(ls, k);
  }

  /** The entries from the k-th header line on are the entries of the k-th and
      later header lines. */
  lemma {:induction false} ParseFromAt(ls: seq<string>, k: nat)
    requires k < |HeaderIndices(ls)|
    ensures ParseFrom(ls, HeaderIndices(ls)[k]) == EntriesFrom(ls, k)
    decreases |HeaderIndices(ls)| - k
  {
    var hs := HeaderIndices(ls);
    AllMatchesNext(ls, IsHeaderLine, k);
    if k + 1 < |hs| {
      ParseFromAt(ls, k + 1);
    }
  }

  /** The parser yields exactly one entry per header line, in document order,
      each built from the section that runs from its header line to the next
      header line or to the end of the document. */
  lemma OneEntryPerHeader(ls: seq<string>)
    ensures ParseLines(ls) == Entries(ls)
  {
    AllMatchesFirst(ls, IsHeaderLine);
    if HeaderIndices(ls) != [] {
      ParseFromAt(ls, 0);
    }
  }

  /** The header indices are exactly the lines that match the header pattern. */
  lemma HeaderIndicesExact(ls: seq<string>, j: nat)
    requires j < |ls|
    ensures j in HeaderIndices(ls) <==> IsHeaderLine(ls[j])
  {
    MatchesBeforeExact(ls, |ls|, IsHeaderLine, j);
  }

  /** A document without any header line restores nothing. */
  lemma NoHeaderNoEntries(text: string)
    requires NoMatch(Split(text), IsHeaderLine)
    ensures Parse(text) == []
  {
    var ls := Split(text);
    FirstMatchFromIs(ls, 0, |ls|, IsHeaderLine);
  }

  /** Entry paths are the header paths, in document order. */
  lemma EntryPaths(text: string, k: nat)
    requires k < |HeaderIndices(Split(text))|
    ensures |Parse(text)| == |HeaderIndices(Split(text))|
    ensures Parse(text)[k].path == HeaderPath(Split(text)[HeaderIndices(Split(text))[k]])
  {
    OneEntryPerHeader(Split(text));
    EntriesAt(Split(text), k);
  }

  // ---------------------------------------------------------------------------
  // What the recovered content can and cannot hold
  // ---------------------------------------------------------------------------

  /** Recovered lines are lines of the section and never closing-fence lines. */
  lemma FencedLinesFromSection(section: seq<string>)
    ensures NoMatch(FencedLines(section), IsFenceEnd)
    ensures forall l <- FencedLines(section) :: l in section
  {
    var s := FirstMatch(section, IsFenceStart);
    if s < |section| {
      var n := FirstMatchFrom(section, s + 1, IsFenceEnd);
      FirstMatchFromStops(section, s + 1, IsFenceEnd);
      forall l <- section[s + 1..n] ensures l in section {
        var j :| 0 <= j < n - s - 1 && section[s + 1..n][j] == l;
        assert section[s + 1 + j] == l;
      }
    }
  }

  /** No line of any restored content matches the closing-fence pattern. */
  lemma {:induction false} SectionContentHasNoFenceEnd(ls: seq<string>, h: nat, e: nat)
    requires h < e <= |ls| && NoNewline(ls)
    ensures NoMatch(Split(SectionEntry(ls, h, e).content), IsFenceEnd)
  {
    var section := SectionLines(ls, h, e);
    var fl := FencedLines(section);
    FencedLinesFromSection(section);
    if fl == [] {
      assert Split("") == [""];
    } else {
      assert forall l <- section :: l == "" || l in ls;
      SplitJoin(fl);
    }
  }

  /** Every line of every restored file's content: no line of it matches the
      closing-fence pattern, whatever the document. */
  lemma ContentHasNoFenceEnd(text: string, k: nat)
    requires k < |Parse(text)|
    ensures NoMatch(Split(Parse(text)[k].content), IsFenceEnd)
  {
    var ls := Split(text);
    OneEntryPerHeader(ls);
    EntriesAt(ls, k);
    var h := HeaderIndices(ls)[k];
    SectionContentHasNoFenceEnd(ls, h, NextMatch(ls, h, IsHeaderLine));
  }

  /** A section whose block never closes keeps every line after the opening
      fence. */
  lemma UnclosedFenceRunsToEnd(section: seq<string>, s: nat)
    requires s < |section| && IsFenceStart(section[s])
    requires NoMatchIn(section, 0, s, IsFenceStart)
    requires NoMatchIn(section, s + 1, |section|, IsFenceEnd)
    ensures FencedLines(section) == section[s + 1..]
  {
    FirstMatchFromIs(section, 0, s, IsFenceStart);
    FirstMatchFromIs(section, s + 1, |section|, IsFenceEnd);
  }

  /** A closing-fence line cuts the content short at that line. */
  lemma FenceEndTruncates(pre: seq<string>, open: string, c: seq<string>, close: string, post: seq<string>)
    requires NoMatch(pre, IsFenceStart) && IsFenceStart(open)
    requires NoMatch(c, IsFenceEnd) && IsFenceEnd(close)
    ensures FencedLines(pre + [open] + c + [close] + post) == c
  {
    var section := pre + [open] + c + [close] + post;
    var s := |pre|;
    var e := s + 1 + |c|;
    assert section[s] == open && section[e] == close;
    assert NoMatchIn(section, 0, s, IsFenceStart) by {
      forall i | 0 <= i < s ensures section[i] == pre[i] { }
    }
    FirstMatchFromIs(section, 0, s, IsFenceStart);
    assert section[s + 1..e] == c;
    FirstMatchFromIs(section, s + 1, e, IsFenceEnd);
  }

  // ---------------------------------------------------------------------------
  // The source's algorithm
  // ---------------------------------------------------------------------------

  /** One header match: where it starts and ends in the text, and group 1. */
  datatype Match = Match(start: nat, end: nat, capture: string)

  /** The match of header line h of a text whose lines are ls. */
  function MatchAt(ls: seq<string>, h: nat): Match
    requires h < |ls|
  {
    var start := LineStart(ls, h);
    Match(start, start + |ls[h]|, HeaderCapture(ls[h]))
  }

  /** Where line h starts in the "\n"-join of the lines. */
  function LineStart(ls: seq<string>, h: nat): nat
    requires h <= |ls|
  {
    |Terminated(ls[..h])|
  }

  /** A match covers exactly its header line: `(.+)$` runs to the end of the
      line and no further. Matches whose `\s+` crosses a line break ("##"
      then "File: x", or "## File:  " then "x") are not among the model's
      matches. */
  lemma MatchCoversLine(ls: seq<string>, h: nat)
    requires h < |ls|
    ensures MatchAt(ls, h).end <= |Join(ls, "\n")|
    ensures Join(ls, "\n")[MatchAt(ls, h).start..MatchAt(ls, h).end] == ls[h]
  {
    JoinAt(ls, h);
    var rest := Join(ls[h..], "\n");
    if h + 1 < |ls| {
      assert ls[h..][1..] == ls[h + 1..];
      assert rest == ls[h] + "\n" + Join(ls[h + 1..], "\n");
    } else {
      assert rest == ls[h];
    }
  }

  /** The match of each header line, by its rank among the header lines. */
  function MatchFn(ls: seq<string>): nat --> Match {
    (k: nat) requires k < |HeaderIndices(ls)| => MatchAt(ls, HeaderIndices(ls)[k])
  }

  /** `FILE_SECTION_RE.finditer(md_text)` on a text whose lines are ls: one
      match per header line, in document order. */
  function FindHeaders(ls: seq<string>): (ms: seq<Match>)
    ensures |ms| == |HeaderIndices(ls)|
  {
    MapRange(MatchFn(ls), 0, |HeaderIndices(ls)|)
  }

  /** The k-th match is the match of the k-th header line. */
  lemma FindHeadersAt(ls: seq<string>, k: nat)
    requires k < |HeaderIndices(ls)|
    ensures FindHeaders(ls)[k] == MatchAt(ls, HeaderIndices(ls)[k])
  {
    MapRangeAt(MatchFn(ls), 0, |HeaderIndices(ls)|, k);
  }

  /** The in_fence loop over the lines of one section (RepoTool.py:264-275). */
  method CollectFenced(lines: seq<string>) returns (content: seq<string>)
    ensures content == FencedLines(lines)
  {
    content := [];
    var inFence := false;
    var i := 0;
    ghost var s := FirstMatch(lines, IsFenceStart);
    FirstMatchFromStops(lines, 0, IsFenceStart);
    while i < |lines|
      invariant 0 <= i <= |lines|
      invariant inFence <==> s < i
      invariant !inFence ==> content == []
      invariant inFence ==> content == lines[s + 1..i]
      invariant inFence ==> NoMatchIn(lines, s + 1, i, IsFenceEnd)
    {
      var ln := lines[i];
      if !inFence && IsFenceStart(ln) {
        inFence := true;
        i := i + 1;
        continue;
      }
      if inFence && IsFenceEnd(ln) {
        break;
      }
      if inFence {
        assert lines[s + 1..i + 1] == lines[s + 1..i] + [ln];
        content := content + [ln];
      }
      i := i + 1;
    }
    if inFence {
      FencedLinesUpTo(lines, s, i);
    }
  }

  /** Where the in_fence loop stops: at the first closing fence after the
      opening one, or at the end of the section. */
  lemma FencedLinesUpTo(lines: seq<string>, s: nat, i: nat)
    requires s == FirstMatch(lines, IsFenceStart) && s < i <= |lines|
    requires NoMatchIn(lines, s + 1, i, IsFenceEnd)
    requires i < |lines| ==> IsFenceEnd(lines[i])
    ensures FencedLines(lines) == lines[s + 1..i]
  {
    FirstMatchFromIs(lines, s + 1, i, IsFenceEnd);
  }

  /** `restore_from_markdown` without the writes: the path (stripped group 1)
      and the content of every section, in document order. */
  method RestoreFromMarkdown(text: string) returns (entries: seq<Entry>)
    ensures entries == Parse(text)
  {
    ghost var lines := Split(text);
    JoinSplit(text);
    var matches := FindHeaders(Split(text));
    entries := RestoreSections(text, lines, matches);
    OneEntryPerHeader(lines);
  }

  /** The loop over the matches of a text whose lines are `lines`. */
  method RestoreSections(text: string, ghost lines: seq<string>, matches: seq<Match>)
    returns (entries: seq<Entry>)
    requires NoNewline(lines) && Join(lines, "\n") == text
    requires matches == FindHeaders(lines)
    ensures entries == Entries(lines)
  {
    entries := [];
    var idx := 0;
    while idx < |matches|
      invariant 0 <= idx <= |matches|
      invariant entries + EntriesFrom(lines, idx) == Entries(lines)
    {
      var entry := RestoreSection(text, lines, matches, idx);
      MapRangeStep(EntryFn(lines), idx, |matches|, entries);
      entries := entries + [entry];
      idx := idx + 1;
    }
  }

  /** The body of the loop over the matches: the section runs from the end of
      match idx to the start of the next match, or to the end of the text; its
      fenced lines, joined, are the content. */
  method RestoreSection(text: string, ghost lines: seq<string>, matches: seq<Match>, idx: nat)
    returns (entry: Entry)
    requires NoNewline(lines) && Join(lines, "\n") == text
    requires matches == FindHeaders(lines) && idx < |matches|
    ensures entry == EntryAt(lines, idx)
  {
    var m := matches[idx];
    var start := m.end;
    var end;
    if idx + 1 < |matches| {
      end := matches[idx + 1].start;
      RestoreInner(lines, idx);
    } else {
      end := |text|;
      RestoreLast(lines, idx);
    }
    var section := text[start..end];
    var sectionLines := SplitLines(section);
    var contentLines := CollectFenced(sectionLines);
    var content := Join(contentLines, "\n");
    entry := Entry(Strip(m.capture), content);
  }

  /** The k-th match spans the k-th header line. */
  lemma MatchSpan(ls: seq<string>, k: nat)
    requires k < |HeaderIndices(ls)|
    ensures var h := HeaderIndices(ls)[k];
            var m := FindHeaders(ls)[k];
            m.start == LineStart(ls, h) && m.end == LineStart(ls, h) + |ls[h]|
  {
    FindHeadersAt(ls, k);
  }

  /** The stripped group 1 of the k-th match is the path the k-th header line
      names. */
  lemma MatchPath(ls: seq<string>, k: nat)
    requires k < |HeaderIndices(ls)|
    ensures Strip(FindHeaders(ls)[k].capture) == HeaderPath(ls[HeaderIndices(ls)[k]])
  {
    FindHeadersAt(ls, k);
  }

  /** For a match that is not the last, the source slices from its end to the
      start of the next match: splitting that slice into lines gives the lines
      of the section of its header line. */
  lemma InnerSlice(ls: seq<string>, k: nat)
    requires k + 1 < |HeaderIndices(ls)| && NoNewline(ls)
    ensures var text := Join(ls, "\n");
            var ms := FindHeaders(ls);
            var h := HeaderIndices(ls)[k];
            && ms[k].end <= ms[k + 1].start <= |text|
            && SplitLines(text[ms[k].end..ms[k + 1].start]) == SectionLines(ls, h, NextMatch(ls, h, IsHeaderLine))
  {
    var hs := HeaderIndices(ls);
    var ms := FindHeaders(ls);
    MatchSpan(ls, k);
    MatchSpan(ls, k + 1);
    AllMatchesNext(ls, IsHeaderLine, k);
    SliceToLine(ls, hs[k], NextMatch(ls, hs[k], IsHeaderLine), ms[k].end, ms[k + 1].start);
  }

  /** For the last match the slice runs to the end of the text. */
  lemma LastSlice(ls: seq<string>, k: nat)
    requires k + 1 == |HeaderIndices(ls)| && NoNewline(ls)
    ensures var text := Join(ls, "\n");
            var ms := FindHeaders(ls);
            var h := HeaderIndices(ls)[k];
            && ms[k].end <= |text|
            && SplitLines(text[ms[k].end..|text|]) == SectionLines(ls, h, NextMatch(ls, h, IsHeaderLine))
  {
    var hs := HeaderIndices(ls);
    MatchSpan(ls, k);
    AllMatchesNext(ls, IsHeaderLine, k);
    SliceToEnd(ls, hs[k], NextMatch(ls, hs[k], IsHeaderLine), FindHeaders(ls)[k].end);
  }

  /** One pass of the source's loop over the matches, for a match that is not
      the last: slicing from its end to the start of the next match and
      keeping the fenced lines gives the entry of the k-th header line. */
  lemma RestoreInner(ls: seq<string>, k: nat)
    requires k + 1 < |HeaderIndices(ls)| && NoNewline(ls)
    ensures var text := Join(ls, "\n");
            var ms := FindHeaders(ls);
            && ms[k].end <= ms[k + 1].start <= |text|
            && Entry(Strip(ms[k].capture), Join(FencedLines(SplitLines(text[ms[k].end..ms[k + 1].start])), "\n"))
               == EntryAt(ls, k)
  {
    InnerSlice(ls, k);
    MatchPath(ls, k);
  }

  /** The same for the last match, whose section runs to the end of the
      text. */
  lemma RestoreLast(ls: seq<string>, k: nat)
    requires k + 1 == |HeaderIndices(ls)| && NoNewline(ls)
    ensures var text := Join(ls, "\n");
            var ms := FindHeaders(ls);
            && ms[k].end <= |text|
            && Entry(Strip(ms[k].capture), Join(FencedLines(SplitLines(text[ms[k].end..|text|])), "\n"))
               == EntryAt(ls, k)
  {
    LastSlice(ls, k);
    MatchPath(ls, k);
  }

  /** The text from the end of line h to the start of a later line e, split
      into lines, gives the lines of the section from h to e. */
  lemma SliceToLine(ls: seq<string>, h: nat, e: nat, start: nat, end: nat)
    requires h < e < |ls| && NoNewline(ls)
    requires start == LineStart(ls, h) + |ls[h]| && end == LineStart(ls, e)
    ensures start <= end <= |Join(ls, "\n")|
    ensures SplitLines(Join(ls, "\n")[start..end]) == SectionLines(ls, h, e)
  {
    var text := Join(ls, "\n");
    JoinAt(ls, e);
    TerminatedSplitAt(ls, h, e);
    var upto := Terminated(ls[..e]);
    assert text[..|upto|] == upto;
    assert upto[start..] == "\n" + Terminated(ls[h + 1..e]);
    SplitLinesAfterEnd(ls[h + 1..e]);
  }

  /** What follows line h in the text: a line break and the later lines, or
      nothing after the last line. */
  lemma TextAfterLine(ls: seq<string>, h: nat)
    requires h < |ls|
    ensures var start := LineStart(ls, h) + |ls[h]|;
            && start <= |Join(ls, "\n")|
            && Join(ls, "\n")[start..]
               == if h + 1 < |ls| then "\n" + Join(ls[h + 1..], "\n") else ""
  {
    var before := Terminated(ls[..h]);
    var tail := if h + 1 < |ls| then "\n" + Join(ls[h + 1..], "\n") else "";
    JoinAt(ls, h);
    JoinFrom(ls, h);
    assert Join(ls, "\n") == before + ls[h] + tail;
    assert (before + ls[h] + tail)[|before| + |ls[h]|..] == tail;
  }

  /** The text from the end of line h to the end of the document, split into
      lines, gives the lines of the last section. */
  lemma SliceToEnd(ls: seq<string>, h: nat, e: nat, start: nat)
    requires h < |ls| && e == |ls| && NoNewline(ls)
    requires start == LineStart(ls, h) + |ls[h]|
    ensures start <= |Join(ls, "\n")|
    ensures SplitLines(Join(ls, "\n")[start..|Join(ls, "\n")|]) == SectionLines(ls, h, e)
  {
    var text := Join(ls, "\n");
    TextAfterLine(ls, h);
    assert text[start..|text|] == text[start..];
    if h + 1 < |ls| {
      SplitLinesAfterLastEnd(ls[h + 1..]);
    }
  }
}
