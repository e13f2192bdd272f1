/**
 * What `restore_from_markdown` (RepoTool.py:240-284) recovers from a
 * document `render_markdown` (RepoTool.py:194-236) wrote: one entry per text
 * file, in the order of the files, holding the file's posix path and the
 * text that was embedded, provided nothing in the document imitates the two
 * patterns the parser cuts at (a content line that looks like a `## File:`
 * header or like a closing fence, a path with whitespace at either end, a
 * project name that turns the tree's first line into a header).
 */
module RoundTrip {
  import opened Text
  import opened Patterns
  import opened Language
  import opened Tree
  import opened Parse
  import opened Render

  // ---------------------------------------------------------------------------
  // The document as lines
  // ---------------------------------------------------------------------------

  /** The lines of the title and the structure section, for a tree whose
      lines are treeLines. */
  function HeadLines(rootName: string, treeLines: seq<string>): seq<string> {
    ["# Project: " + rootName, "", "## Structure", "```text"] + treeLines + ["```", "", "---", ""]
  }

  /** The lines after a text file's header line: the empty line, the opening
      fence, the content's lines c, the closing fence and the rule's lines. */
  function BlockLines(fence: string, c: seq<string>): seq<string> {
    ["", fence] + c + ["```"] + RuleLines
  }

  /** The lines of the rule that ends every block. */
  const RuleLines: seq<string> := ["", "---", ""]

  /** The lines a file contributes: its header line and its block's lines
      when it is text, none otherwise. */
  function FileLines(f: SourceFile): seq<string> {
    if f.isText then [HeaderFor(Posix(f.path))] + BlockLines(FenceFor(f.path), Split(Body(f.read))) else []
  }

  /** The lines of every file, file by file. */
  function FileLineBlocks(files: seq<SourceFile>): (cs: seq<seq<string>>)
    ensures |cs| == |files|
  {
    seq(|files|, i requires 0 <= i < |files| => FileLines(files[i]))
  }

  /** The blocks from index i on, in order. */
  function FlattenFrom(bs: seq<seq<string>>, i: nat): seq<string>
    requires i <= |bs|
    decreases |bs| - i
  {
    if i == |bs| then [] else bs[i] + FlattenFrom(bs, i + 1)
  }

  /** The lines of the assets section. */
  const AssetLines: seq<string> := ["## Binary assets", "", AssetsNote, "", "---", ""]

  /** The entries the text files from index i on should come back as. */
  function TextEntriesFrom(files: seq<SourceFile>, i: nat): seq<Entry>
    requires i <= |files|
    decreases |files| - i
  {
    if i == |files| then []
    else
      var f := files[i];
      (if f.isText then [Entry(Posix(f.path), Body(f.read))] else []) + TextEntriesFrom(files, i + 1)
  }

  /** A file whose section the parser cuts exactly where the renderer put
      it: a binary file, or a text file with a non-empty path without
      surrounding whitespace whose content has no line that is a header line
      or a closing fence, and breaks lines only at "\n" (the model's `Split`
      breaks at "\n" alone; `splitlines` would also break at "\r", "\v",
      "\f", "\x1c"-"\x1e", NEL and the Unicode separators). */
  predicate FileRestorable(f: SourceFile) {
    f.isText ==>
      && |Posix(f.path)| >= 1 && IsStripped(Posix(f.path))
      && OnlyNewlineBreaks(Body(f.read))
      && NoMatch(Split(Body(f.read)), IsHeaderLine)
      && NoMatch(Split(Body(f.read)), IsFenceEnd)
  }

  /** No part of any path holds a character `splitlines` breaks at besides
      "\n" (the names appear in the tree and in the headers). */
  predicate NamesBreakFree(paths: seq<RelPath>) {
    forall k | 0 <= k < |paths| :: forall j | 0 <= j < |paths[k]| :: OnlyNewlineBreaks(paths[k][j])
  }

  predicate FilesRestorable(files: seq<SourceFile>) {
    forall k | 0 <= k < |files| :: FileRestorable(files[k])
  }

  /** The conditions under which the round trip is exact: one-line names
      and project name, for "\n" and for every other break `splitlines`
      knows, a project name that does not make the tree's first line a
      header, and restorable files. */
  predicate Restorable(rootName: string, files: seq<SourceFile>) {
    && '\n' !in rootName && OnlyNewlineBreaks(rootName)
    && !IsHeaderLine(rootName + "/")
    && NamesOneLine(Paths(files)) && NamesBreakFree(Paths(files))
    && FilesRestorable(files)
  }

  // ---------------------------------------------------------------------------
  // Splitting the rendered document into lines
  // ---------------------------------------------------------------------------

  lemma SplitAllOne(x: string)
    ensures SplitAll([x]) == Split(x)
  {
    assert [x][1..] == [];
  }

  /** One-line strings split into themselves. */
  lemma {:induction false} SplitOneLines(es: seq<string>)
    requires NoNewline(es)
    ensures SplitAll(es) == es
    decreases |es|
  {
    if es != [] {
      assert es[0] in es;
      SplitNoNewline(es[0]);
      SplitOneLines(es[1..]);
      assert es == [es[0]] + es[1..];
    }
  }

  lemma SplitRule()
    ensures Split(HR) == ["", "---", ""]
  {
    var dashes := "---";
    SplitConcat("", dashes + "\n");
    SplitConcat(dashes, "");
    SplitNoNewline(dashes);
    SplitNoNewline("");
    assert "" + "\n" + (dashes + "\n") == HR;
    assert dashes + "\n" + "" == dashes + "\n";
  }

  lemma AssetsNoteOneLine()
    ensures '\n' !in AssetsNote
  {
  }

  lemma AssetsHeadOneLine()
    ensures NoNewline(["## Binary assets", "", AssetsNote])
  {
    AssetsNoteOneLine();
  }

  /** A join of one-line parts is one line. */
  lemma {:induction false} JoinOneLine(parts: seq<string>, sep: string)
    requires NoNewline(parts) && '\n' !in sep
    ensures '\n' !in Join(parts, sep)
    decreases |parts|
  {
    if |parts| > 1 {
      JoinOneLine(parts[1..], sep);
      assert parts[0] in parts;
    } else if |parts| == 1 {
      assert parts[0] in parts;
    }
  }

  /** Splitting the elements of three one-line strings, a text x and the
      rule. */
  lemma SplitFramed(a: seq<string>, x: string, b: seq<string>)
    requires |a| == 3 && NoNewline(a) && NoNewline(b)
    ensures SplitAll(a + [x] + b + [HR]) == a + Split(x) + b + ["", "---", ""]
  {
    SplitAllConcat(a + [x] + b, [HR]);
    SplitAllConcat(a + [x], b);
    SplitAllConcat(a, [x]);
    SplitOneLines(a);
    SplitOneLines(b);
    SplitAllOne(x);
    SplitAllOne(HR);
    SplitRule();
  }

  /** A text file's elements split into its header line and block lines. */
  lemma BlockSplit(hdr: string, fence: string, body: string)
    requires '\n' !in hdr && '\n' !in fence
    ensures SplitAll(FileBlock(hdr, fence, body)) == [hdr] + BlockLines(fence, Split(body))
  {
    assert FileBlock(hdr, fence, body) == [hdr, "", fence] + [body] + ["```"] + [HR];
    SplitFramed([hdr, "", fence], body, ["```"]);
  }

  lemma FenceOneLine(path: RelPath)
    ensures '\n' !in FenceFor(path)
  {
    var tag := DetectLanguageTag(NameOf(path));
    assert forall i | 0 <= i < |tag| :: tag[i] != '\n';
    assert FenceFor(path) == "```" + tag;
  }

  lemma FileSplit(f: SourceFile)
    requires NoNewline(f.path)
    ensures SplitAll(FileElements(f)) == FileLines(f)
  {
    if f.isText {
      JoinOneLine(f.path, "/");
      FenceOneLine(f.path);
      BlockSplit(HeaderFor(Posix(f.path)), FenceFor(f.path), Body(f.read));
    }
  }

  /** The title and structure section split into their lines. */
  lemma HeadSplit(rootName: string, tree: string, treeLines: seq<string>)
    requires '\n' !in rootName
    requires Split(tree) == ["```text"] + treeLines + ["```"]
    ensures SplitAll(HeadElements(rootName, tree)) == HeadLines(rootName, treeLines)
  {
    var title := "# Project: " + rootName;
    assert HeadElements(rootName, tree) == [title, "", "## Structure"] + [tree] + [] + [HR];
    SplitFramed([title, "", "## Structure"], tree, []);
  }

  /** The assets section split into its lines. */
  lemma AssetSplit()
    ensures SplitAll(AssetElements) == AssetLines
  {
    var a := ["## Binary assets", "", AssetsNote];
    AssetsHeadOneLine();
    assert AssetElements == a + [HR];
    SplitAllConcat(a, [HR]);
    SplitOneLines(a);
    SplitAllOne(HR);
    SplitRule();
  }

  /** Splitting blocks one by one splits their concatenation. */
  lemma {:induction false} SplitAllFlatten(bs: seq<seq<string>>, cs: seq<seq<string>>, n: nat)
    requires n <= |bs| == |cs|
    requires forall k | 0 <= k < |bs| :: SplitAll(bs[k]) == cs[k]
    ensures SplitAll(Flatten(bs, n)) == Flatten(cs, n)
  {
    if n > 0 {
      SplitAllFlatten(bs, cs, n - 1);
      SplitAllConcat(Flatten(bs, n - 1), bs[n - 1]);
    }
  }

  /** The concatenation read front to back. */
  lemma {:induction false} FlattenBeforeFrom(bs: seq<seq<string>>, n: nat)
    requires n <= |bs|
    ensures Flatten(bs, n) + FlattenFrom(bs, n) == FlattenFrom(bs, 0)
  {
    if n > 0 {
      FlattenBeforeFrom(bs, n - 1);
      Assoc(Flatten(bs, n - 1), bs[n - 1], FlattenFrom(bs, n));
    }
  }

  lemma BlocksSplit(files: seq<SourceFile>)
    requires NamesOneLine(Paths(files))
    ensures SplitAll(FileElementsBefore(files, |files|)) == FlattenFrom(FileLineBlocks(files), 0)
  {
    var bs := FileBlocks(files);
    var cs := FileLineBlocks(files);
    forall k | 0 <= k < |bs| ensures SplitAll(bs[k]) == cs[k] {
      assert Paths(files)[k] == files[k].path;
      FileSplit(files[k]);
    }
    SplitAllFlatten(bs, cs, |files|);
    FlattenBeforeFrom(cs, |files|);
  }

  lemma TailSplit(files: seq<SourceFile>, zipBinaries: bool)
    requires NamesOneLine(Paths(files))
    ensures SplitAll(TailElements(files, zipBinaries))
         == FlattenFrom(FileLineBlocks(files), 0) + if ZipsAssets(files, zipBinaries) then AssetLines else []
  {
    var assets := if ZipsAssets(files, zipBinaries) then AssetElements else [];
    SplitAllConcat(FileElementsBefore(files, |files|), assets);
    BlocksSplit(files);
    AssetSplit();
  }

  lemma RenderedLines(rootName: string, tree: string, treeLines: seq<string>, files: seq<SourceFile>, zipBinaries: bool)
    requires '\n' !in rootName && NamesOneLine(Paths(files))
    requires Split(tree) == ["```text"] + treeLines + ["```"]
    ensures Split(Rendered(rootName, tree, files, zipBinaries))
         == HeadLines(rootName, treeLines)
            + (FlattenFrom(FileLineBlocks(files), 0) + if ZipsAssets(files, zipBinaries) then AssetLines else [])
  {
    var head := HeadElements(rootName, tree);
    var tail := TailElements(files, zipBinaries);
    RenderedIsJoin(rootName, tree, files, zipBinaries);
    SplitJoinAll(head + tail);
    SplitAllConcat(head, tail);
    HeadSplit(rootName, tree, treeLines);
    TailSplit(files, zipBinaries);
  }

  /** The lines of the whole document: the head, the files' lines, then the
      assets section's lines when there is one. */
  lemma DocumentLines(rootName: string, files: seq<SourceFile>, zipBinaries: bool)
    requires '\n' !in rootName && NamesOneLine(Paths(files))
    ensures Split(Document(rootName, files, zipBinaries))
         == HeadLines(rootName, TreeLines(rootName, Paths(files)))
            + (FlattenFrom(FileLineBlocks(files), 0) + if ZipsAssets(files, zipBinaries) then AssetLines else [])
  {
    TreeTextLines(rootName, Paths(files));
    RenderedLines(rootName, TreeText(rootName, Paths(files)), TreeLines(rootName, Paths(files)), files, zipBinaries);
  }

  // ---------------------------------------------------------------------------
  // How the parser reads concatenated lines
  // ---------------------------------------------------------------------------

  /** The section from line off to line e, read from the lines from off on. */
  lemma SectionEntryDrop(ls: seq<string>, off: nat, n: nat, e: nat)
    requires off < e <= |ls| && e == off + n
    ensures SectionEntry(ls, off, e) == SectionEntry(ls[off..], 0, n)
  {
    var rest := ls[off..];
    assert ls[off] == rest[0];
    assert ls[off + 1..e] == rest[1..n];
    assert ls[off + 1..] == rest[1..];
  }

  /** The next header line after line off, found in the lines from off on. */
  lemma NextMatchDrop(ls: seq<string>, off: nat, n: nat, e: nat)
    requires off < |ls| && e == off + n
    requires NextMatch(ls[off..], 0, IsHeaderLine) == n
    ensures NextMatch(ls, off, IsHeaderLine) == e
  {
    FirstMatchFromShift(ls, off, 1, IsHeaderLine);
  }

  /** When the lines from off on start with a section of n lines, the lines
      from off on in the whole hold the same section. */
  lemma SectionAtOffset(ls: seq<string>, off: nat, n: nat, e: nat, entry: Entry)
    requires off < e <= |ls| && e == off + n
    requires NextMatch(ls[off..], 0, IsHeaderLine) == n
    requires SectionEntry(ls[off..], 0, n) == entry
    ensures NextMatch(ls, off, IsHeaderLine) == e
    ensures SectionEntry(ls, off, e) == entry
  {
    NextMatchDrop(ls, off, n, e);
    SectionEntryDrop(ls, off, n, e);
  }

  /** One step of the parser: the entry of the section at h, then those of
      the sections after it. */
  lemma ParseFromStep(ls: seq<string>, h: nat, e: nat, entry: Entry)
    requires h < e <= |ls|
    requires NextMatch(ls, h, IsHeaderLine) == e
    requires SectionEntry(ls, h, e) == entry
    ensures ParseFrom(ls, h) == [entry] + if e < |ls| then ParseFrom(ls, e) else []
  {
  }

  /** Lines without a header line in front of a header line: the parser
      starts at that header line. */
  lemma ParseAfterPreamble(pre: seq<string>, rest: seq<string>)
    requires NoMatch(pre, IsHeaderLine)
    requires |rest| >= 1 && IsHeaderLine(rest[0])
    ensures (pre + rest)[|pre|..] == rest
    ensures ParseLines(pre + rest) == ParseFrom(pre + rest, |pre|)
  {
    var ls := pre + rest;
    NoMatchBefore(pre, rest, IsHeaderLine);
    assert ls[|pre|] == rest[0];
    FirstMatchFromIs(ls, 0, |pre|, IsHeaderLine);
    assert ls[|pre|..] == rest;
  }

  lemma NoMatchBefore(pre: seq<string>, rest: seq<string>, p: string -> bool)
    requires NoMatch(pre, p)
    ensures NoMatchIn(pre + rest, 0, |pre|, p)
  {
    var ls := pre + rest;
    forall i | 0 <= i < |pre| ensures ls[i] == pre[i] { }
  }

  /** Lines without a header line give no entries. */
  lemma NoHeaderNoParse(ls: seq<string>)
    requires NoMatch(ls, IsHeaderLine)
    ensures ParseLines(ls) == []
  {
    FirstMatchFromIs(ls, 0, |ls|, IsHeaderLine);
  }

  // ---------------------------------------------------------------------------
  // One file's section
  // ---------------------------------------------------------------------------

  lemma DropEmptyLastAppend(x: seq<string>, y: seq<string>)
    requires |y| >= 1
    ensures DropEmptyLast(x + y) == x + DropEmptyLast(y)
  {
    if y[|y| - 1] == "" {
      assert (x + y)[..|x + y| - 1] == x + y[..|y| - 1];
    }
  }

  lemma NoMatchConcat(a: seq<string>, b: seq<string>, p: string -> bool)
    requires NoMatch(a, p) && NoMatch(b, p)
    ensures NoMatch(a + b, p)
  {
    forall i | 0 <= i < |a + b| ensures !p((a + b)[i]) {
      if i < |a| {
        assert (a + b)[i] == a[i];
      } else {
        assert (a + b)[i] == b[i - |a|];
      }
    }
  }

  /** The lines of a middle part hold no match when the part holds none. */
  lemma NoMatchAfterFirst(first: string, body: seq<string>, rest: seq<string>, p: string -> bool)
    requires NoMatch(body, p)
    ensures NoMatchIn([first] + body + rest, 1, 1 + |body|, p)
  {
    var ls := [first] + body + rest;
    forall i | 1 <= i < 1 + |body| ensures ls[i] == body[i - 1] { }
  }

  /** A line whose first character is not '#' is not a header line. */
  lemma NotHeaderByFirst(line: string)
    requires |line| >= 1 && line[0] != '#'
    ensures !IsHeaderLine(line)
  {
  }

  /** A line of two '#', a space and a letter other than 'F' is not a header
      line: the space run must end right before `File:`. */
  lemma NotHeaderByFourth(line: string)
    requires |line| >= 4 && IsSpace(line[2]) && !IsSpace(line[3]) && line[3] != 'F'
    ensures !IsHeaderLine(line)
  {
    var u := line[3..];
    assert u[0] == line[3];
    assert !IsFileTail(u) && !IsSpacedFileTail(u);
    assert line[2..][1..] == u;
  }

  /** A line whose second character is not '#' is not a header line. */
  lemma NotHeaderBySecond(line: string)
    requires |line| >= 2 && line[1] != '#'
    ensures !IsHeaderLine(line)
  {
  }

  lemma BlockHasNoHeader(fence: string, c: seq<string>)
    requires !IsHeaderLine(fence) && NoMatch(c, IsHeaderLine)
    ensures NoMatch(BlockLines(fence, c), IsHeaderLine)
  {
    NotHeaderByFirst("```");
    NotHeaderByFirst("---");
    NoMatchConcat(["", fence], c, IsHeaderLine);
    NoMatchConcat(["", fence] + c, ["```"], IsHeaderLine);
    NoMatchConcat(["", fence] + c + ["```"], RuleLines, IsHeaderLine);
  }

  lemma CloseIsFenceEnd()
    ensures IsFenceEnd("```")
  {
    assert "```"[3..] == [];
  }

  /** The section lines of a header line followed by body: the body after an
      empty line, without its last empty line when the section is the last. */
  lemma SectionLinesOf(hdr: string, body: seq<string>, rest: seq<string>)
    requires |body| >= 1
    ensures var ls := [hdr] + body + rest;
            SectionLines(ls, 0, 1 + |body|) == if rest != [] then [""] + body else DropEmptyLast([""] + body)
  {
    var ls := [hdr] + body + rest;
    assert ls[1..1 + |body|] == body;
    if rest == [] {
      assert ls[1..] == body;
    }
  }

  /** A block after the empty line the section starts with, regrouped as
      the lines up to the closing fence and the lines after it. */
  lemma OpenedSplit(fence: string, c: seq<string>, tail: seq<string>)
    ensures [""] + (BlockLines(fence, c) + tail) == ["", ""] + [fence] + c + ["```"] + (RuleLines + tail)
  {
    var p := ["", fence] + c + ["```"];
    Assoc(p, RuleLines, tail);
    Assoc([""], p, RuleLines + tail);
    Assoc([""], ["", fence] + c, ["```"]);
    Assoc([""], ["", fence], c);
    assert [""] + ["", fence] == ["", ""] + [fence];
  }

  /** The section of one rendered text file, followed by lines tail without
      a header line and then by lines rest that are empty or open with a
      header line, ends where rest starts and is read back as the file's
      path and content lines. */
  lemma SectionRead(path: string, fence: string, c: seq<string>, tail: seq<string>, rest: seq<string>)
    requires |path| >= 1 && IsStripped(path)
    requires IsFenceStart(fence) && !IsHeaderLine(fence)
    requires NoMatch(c, IsHeaderLine) && NoMatch(c, IsFenceEnd)
    requires NoMatch(tail, IsHeaderLine)
    requires rest == [] || IsHeaderLine(rest[0])
    ensures var ls := [HeaderFor(path)] + (BlockLines(fence, c) + tail) + rest;
            var n := 1 + |BlockLines(fence, c) + tail|;
            && NextMatch(ls, 0, IsHeaderLine) == n
            && SectionEntry(ls, 0, n) == Entry(path, Join(c, "\n"))
  {
    var hdr := HeaderFor(path);
    var body := BlockLines(fence, c) + tail;
    var ls := [hdr] + body + rest;
    var e := 1 + |body|;
    HeaderForParses(path);
    BlockHasNoHeader(fence, c);
    NoMatchConcat(BlockLines(fence, c), tail, IsHeaderLine);
    NoMatchAfterFirst(hdr, body, rest, IsHeaderLine);
    if rest != [] {
      assert ls[e] == rest[0];
    }
    FirstMatchFromIs(ls, 1, e, IsHeaderLine);
    assert ls[0] == hdr;
    SectionLinesOf(hdr, body, rest);
    OpenedSplit(fence, c, tail);
    var x := ["", ""] + [fence] + c + ["```"];
    var y := RuleLines + tail;
    if rest == [] {
      DropEmptyLastAppend(x, y);
    }
    var post := if rest != [] then y else DropEmptyLast(y);
    CloseIsFenceEnd();
    EmptyLinesOpenNoFence();
    FenceEndTruncates(["", ""], fence, c, "```", post);
  }

  lemma EmptyLinesOpenNoFence()
    ensures NoMatch(["", ""], IsFenceStart)
  {
  }

  // ---------------------------------------------------------------------------
  // The files' sections
  // ---------------------------------------------------------------------------

  /** The files' lines from index i on are empty or open with a header. */
  lemma {:induction false} FilesStart(files: seq<SourceFile>, i: nat)
    requires i <= |files| && FilesRestorable(files)
    ensures var ls := FlattenFrom(FileLineBlocks(files), i);
            ls == [] || IsHeaderLine(ls[0])
    decreases |files| - i
  {
    var cs := FileLineBlocks(files);
    if i < |files| {
      var f := files[i];
      assert cs[i] == FileLines(f);
      assert FileRestorable(f);
      if f.isText {
        HeaderForParses(Posix(f.path));
        assert FlattenFrom(cs, i)[0] == HeaderFor(Posix(f.path));
      } else {
        FilesStart(files, i + 1);
        assert FlattenFrom(cs, i) == FlattenFrom(cs, i + 1);
      }
    }
  }

  lemma AppendEmpty<T>(s: seq<T>)
    ensures s + [] == s
  {
  }

  lemma PrependEmpty<T>(s: seq<T>)
    ensures [] + s == s
  {
  }

  /** A restorable text file's lines, followed by lines tail without a
      header line and then by lines rest that are empty or open with a
      header line, make one section read back as the file's entry. */
  lemma FileSection(f: SourceFile, tail: seq<string>, rest: seq<string>)
    requires f.isText && FileRestorable(f)
    requires NoMatch(tail, IsHeaderLine)
    requires rest == [] || IsHeaderLine(rest[0])
    ensures var ls := FileLines(f) + tail + rest;
            var n := |FileLines(f) + tail|;
            && NextMatch(ls, 0, IsHeaderLine) == n
            && SectionEntry(ls, 0, n) == Entry(Posix(f.path), Body(f.read))
  {
    var fence := FenceFor(f.path);
    var c := Split(Body(f.read));
    FenceForParses(f.path);
    JoinSplit(Body(f.read));
    Assoc([HeaderFor(Posix(f.path))], BlockLines(fence, c), tail);
    SectionRead(Posix(f.path), fence, c, tail, rest);
  }

  /** A file contributes lines exactly when it is text. */
  lemma FileLinesEmpty(files: seq<SourceFile>, i: nat)
    requires i < |files|
    ensures FlattenFrom(FileLineBlocks(files), i) == FileLines(files[i]) + FlattenFrom(FileLineBlocks(files), i + 1)
    ensures FileLines(files[i]) == [] <==> !files[i].isText
  {
    var cs := FileLineBlocks(files);
    assert cs[i] == FileLines(files[i]);
  }

  /** Blocks, one per file, that are empty exactly for the files that are
      not text. */
  predicate MarksText(files: seq<SourceFile>, cs: seq<seq<string>>) {
    |cs| == |files| && forall k | 0 <= k < |cs| :: (cs[k] == []) == !files[k].isText
  }

  lemma FileLineBlocksMarkText(files: seq<SourceFile>)
    ensures MarksText(files, FileLineBlocks(files))
  {
    var cs := FileLineBlocks(files);
    forall k | 0 <= k < |cs| ensures (cs[k] == []) == !files[k].isText {
      assert cs[k] == FileLines(files[k]);
    }
  }

  /** Files from index i on whose blocks are all empty have no text file. */
  lemma {:induction false} NoLinesNoText(files: seq<SourceFile>, cs: seq<seq<string>>, i: nat)
    requires MarksText(files, cs) && i <= |files|
    requires FlattenFrom(cs, i) == []
    ensures TextEntriesFrom(files, i) == []
    decreases |files| - i
  {
    if i < |files| {
      assert |FlattenFrom(cs, i)| == |cs[i]| + |FlattenFrom(cs, i + 1)|;
      NoLinesNoText(files, cs, i + 1);
      PrependEmpty(TextEntriesFrom(files, i + 1));
    }
  }

  /** The section of a restorable text file whose lines start at line off,
      followed by lines tail without a header and then by lines rest that
      are empty or open with a header: it ends at e, where rest starts, and
      is read back as the file's entry. */
  lemma FileAtOffset(ls: seq<string>, off: nat, f: SourceFile, tail: seq<string>, rest: seq<string>) returns (e: nat)
    requires f.isText && FileRestorable(f)
    requires NoMatch(tail, IsHeaderLine)
    requires rest == [] || IsHeaderLine(rest[0])
    requires off <= |ls| && ls[off..] == FileLines(f) + tail + rest
    ensures off < e <= |ls| && ls[e..] == rest
    ensures NextMatch(ls, off, IsHeaderLine) == e
    ensures SectionEntry(ls, off, e) == Entry(Posix(f.path), Body(f.read))
  {
    FileSection(f, tail, rest);
    e := SectionOfLines(ls, off, FileLines(f) + tail, rest, Entry(Posix(f.path), Body(f.read)));
  }

  /** When the lines from off on are a section sec followed by lines rest,
      the section ends where rest starts. */
  lemma SectionOfLines(ls: seq<string>, off: nat, sec: seq<string>, rest: seq<string>, entry: Entry) returns (e: nat)
    requires |sec| >= 1 && off <= |ls| && ls[off..] == sec + rest
    requires NextMatch(sec + rest, 0, IsHeaderLine) == |sec|
    requires SectionEntry(sec + rest, 0, |sec|) == entry
    ensures off < e <= |ls| && ls[e..] == rest
    ensures NextMatch(ls, off, IsHeaderLine) == e
    ensures SectionEntry(ls, off, e) == entry
  {
    e := off + |sec|;
    SectionAtOffset(ls, off, |sec|, e, entry);
    SuffixAfter(ls, off, sec, rest, e);
  }

  /** What follows a part that starts at off. */
  lemma SuffixAfter<T>(s: seq<T>, off: nat, part: seq<T>, rest: seq<T>, e: nat)
    requires off <= |s| && s[off..] == part + rest && e == off + |part|
    ensures e <= |s| && s[e..] == rest
  {
    assert s[e..] == s[off..][|part|..];
  }

  /** When the lines from off on are the files' lines from index i on, not
      empty, followed by lines without a header, the parser from off reads
      back the text files from index i on. */
  lemma {:induction false} FilesParse(ls: seq<string>, off: nat, files: seq<SourceFile>, i: nat, tail: seq<string>)
    requires i <= |files| && FilesRestorable(files)
    requires NoMatch(tail, IsHeaderLine)
    requires FlattenFrom(FileLineBlocks(files), i) != []
    requires off <= |ls| && ls[off..] == FlattenFrom(FileLineBlocks(files), i) + tail
    ensures off < |ls| && ParseFrom(ls, off) == TextEntriesFrom(files, i)
    decreases |files| - i, 1
  {
    FileLinesEmpty(files, i);
    if !files[i].isText {
      PrependEmpty(FlattenFrom(FileLineBlocks(files), i + 1));
      FilesParse(ls, off, files, i + 1, tail);
      PrependEmpty(TextEntriesFrom(files, i + 1));
    } else {
      TextFileParse(ls, off, files, i, tail);
    }
  }

  /** The step of `FilesParse` at a text file: its section gives its entry,
      and the following files are read from where the section ends. */
  lemma {:induction false} TextFileParse(ls: seq<string>, off: nat, files: seq<SourceFile>, i: nat, tail: seq<string>)
    requires i < |files| && files[i].isText && FilesRestorable(files)
    requires NoMatch(tail, IsHeaderLine)
    requires off <= |ls| && ls[off..] == FlattenFrom(FileLineBlocks(files), i) + tail
    ensures off < |ls| && ParseFrom(ls, off) == TextEntriesFrom(files, i)
    decreases |files| - i, 0
  {
    var entry := Entry(Posix(files[i].path), Body(files[i].read));
    var e := TextSectionAt(ls, off, files, i, tail);
    assert TextEntriesFrom(files, i) == [entry] + TextEntriesFrom(files, i + 1);
    if e < |ls| {
      FilesParse(ls, e, files, i + 1, tail);
    } else {
      FileLineBlocksMarkText(files);
      NoLinesNoText(files, FileLineBlocks(files), i + 1);
      AppendEmpty([entry]);
    }
  }

  /** A text file's section, at the offset where its lines start, gives its
      entry and ends where the next file's lines start, or at the end of the
      lines when no file follows. */
  lemma TextSectionAt(ls: seq<string>, off: nat, files: seq<SourceFile>, i: nat, tail: seq<string>) returns (e: nat)
    requires i < |files| && files[i].isText && FilesRestorable(files)
    requires NoMatch(tail, IsHeaderLine)
    requires off <= |ls| && ls[off..] == FlattenFrom(FileLineBlocks(files), i) + tail
    ensures off < e <= |ls|
    ensures ParseFrom(ls, off) == [Entry(Posix(files[i].path), Body(files[i].read))] + if e < |ls| then ParseFrom(ls, e) else []
    ensures e < |ls| ==> FlattenFrom(FileLineBlocks(files), i + 1) != [] && ls[e..] == FlattenFrom(FileLineBlocks(files), i + 1) + tail
    ensures e == |ls| ==> FlattenFrom(FileLineBlocks(files), i + 1) == []
  {
    var f := files[i];
    var lines := FileLines(f);
    var next := FlattenFrom(FileLineBlocks(files), i + 1);
    assert FileRestorable(f);
    FileLinesEmpty(files, i);
    FilesStart(files, i + 1);
    if next == [] {
      AppendEmpty(lines);
      AppendEmpty(lines + tail);
      e := FileAtOffset(ls, off, f, tail, []);
    } else {
      Assoc(lines, next, tail);
      AppendEmpty(lines);
      e := FileAtOffset(ls, off, f, [], next + tail);
    }
    ParseFromStep(ls, off, e, Entry(Posix(f.path), Body(f.read)));
  }

  // ---------------------------------------------------------------------------
  // The whole document
  // ---------------------------------------------------------------------------

  lemma TitleNotHeader(rootName: string)
    ensures !IsHeaderLine("# Project: " + rootName)
  {
    NotHeaderBySecond("# Project: " + rootName);
  }

  /** No line drawn below the root is a header line. */
  lemma WalkHasNoHeader(files: seq<RelPath>)
    requires Descends(ChildrenOf(files), Height(files))
    ensures NoMatch(WalkLines(ChildrenOf(files), Height(files), [], ""), IsHeaderLine)
  {
    var walk := WalkLines(ChildrenOf(files), Height(files), [], "");
    WalkLinesShape(ChildrenOf(files), Height(files), [], "");
    forall k | 0 <= k < |walk| ensures !IsHeaderLine(walk[k]) {
      assert Shaped(walk[k], "");
      NotHeaderByFirst(walk[k]);
    }
  }

  /** The lines in front of the tree are not header lines. */
  lemma HeadOpeningHasNoHeader(title: string)
    requires !IsHeaderLine(title)
    ensures NoMatch([title, "", "## Structure", "```text"], IsHeaderLine)
  {
    NotHeaderByFourth("## Structure");
    NotHeaderByFirst("```text");
  }

  /** The lines after the tree are not header lines. */
  lemma HeadClosingHasNoHeader()
    ensures NoMatch(["```", "", "---", ""], IsHeaderLine)
  {
    NotHeaderByFirst("```");
    NotHeaderByFirst("---");
  }

  /** No line of the title and structure section is a header line. */
  lemma HeadHasNoHeader(rootName: string, files: seq<RelPath>)
    requires !IsHeaderLine(rootName + "/")
    ensures NoMatch(HeadLines(rootName, TreeLines(rootName, files)), IsHeaderLine)
  {
    ChildrenDescend(files);
    var walk := WalkLines(ChildrenOf(files), Height(files), [], "");
    WalkHasNoHeader(files);
    var a := ["# Project: " + rootName, "", "## Structure", "```text"];
    TitleNotHeader(rootName);
    HeadOpeningHasNoHeader("# Project: " + rootName);
    HeadClosingHasNoHeader();
    var t := [rootName + "/"] + walk;
    NoMatchConcat([rootName + "/"], walk, IsHeaderLine);
    NoMatchConcat(a, t, IsHeaderLine);
    NoMatchConcat(a + t, ["```", "", "---", ""], IsHeaderLine);
  }

  /** No line of the assets section is a header line. */
  lemma AssetsHaveNoHeader()
    ensures NoMatch(AssetLines, IsHeaderLine)
  {
    var note := AssetsNote;
    assert note[0] == 'С';
    NotHeaderByFirst(note);
    NotHeaderByFourth("## Binary assets");
    NotHeaderByFirst("---");
    assert AssetLines == ["## Binary assets", "", note, "", "---", ""];
  }

  /** Lines without a header, the files' lines, then lines without a header
      again, are read back as the text files, in order. */
  lemma LinesParse(head: seq<string>, files: seq<SourceFile>, tail: seq<string>)
    requires NoMatch(head, IsHeaderLine) && NoMatch(tail, IsHeaderLine)
    requires FilesRestorable(files)
    ensures ParseLines(head + (FlattenFrom(FileLineBlocks(files), 0) + tail)) == TextEntriesFrom(files, 0)
  {
    var blocks := FlattenFrom(FileLineBlocks(files), 0);
    var ls := head + (blocks + tail);
    if blocks == [] {
      PrependEmpty(tail);
      NoMatchConcat(head, tail, IsHeaderLine);
      NoHeaderNoParse(ls);
      FileLineBlocksMarkText(files);
      NoLinesNoText(files, FileLineBlocks(files), 0);
    } else {
      FilesStart(files, 0);
      assert (blocks + tail)[0] == blocks[0];
      ParseAfterPreamble(head, blocks + tail);
      FilesParse(ls, |head|, files, 0, tail);
    }
  }

  /** Restoring a rendered document gives back every text file, in order,
      with its posix path and the text that was embedded. */
  lemma RoundTrip(rootName: string, files: seq<SourceFile>, zipBinaries: bool)
    requires Restorable(rootName, files)
    ensures Parse.Parse(Document(rootName, files, zipBinaries)) == TextEntriesFrom(files, 0)
  {
    var head := HeadLines(rootName, TreeLines(rootName, Paths(files)));
    var tail := if ZipsAssets(files, zipBinaries) then AssetLines else [];
    DocumentLines(rootName, files, zipBinaries);
    HeadHasNoHeader(rootName, Paths(files));
    AssetsHaveNoHeader();
    LinesParse(head, files, tail);
  }
}
