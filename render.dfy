/**
 * `render_markdown` (RepoTool.py:194-236): the Markdown document that
 * describes a project, and which binary files go into the assets archive.
 *
 * The document is built as a list of elements joined with "\n": the title,
 * the structure section holding `build_tree`'s fenced tree, then per text
 * file a header line, an empty line, the opening fence, the content and the
 * closing fence, each block followed by the horizontal rule HR; last, when
 * binaries are zipped, the assets section.  Trailing whitespace of the join
 * is replaced by exactly one "\n".
 */
module Render {
  import opened Wrappers
  import opened Text
  import opened Patterns
  import opened Language
  import opened Tree

  /** The horizontal rule put after every block (RepoTool.py:49). */
  const HR := "\n---\n"

  /** The sentence of the assets section pointing at the archive, written
      word by word so that the verifier can see that it is one line. */
  const AssetsNote := "См." + " рядом" + " лежащий" + " архив" + " `assets.zip`" + " с" + " нетекстовыми" + " файлами" + " проекта."

  /** What reading a text file gave: its decoded text, or the message of the
      exception that reading raised. */
  datatype ReadResult = Read(text: string) | ReadError(message: string)

  /** A file handed to the renderer: its path relative to the root, whether
      the text heuristic accepts it, and what reading it gives. */
  datatype SourceFile = SourceFile(path: RelPath, isText: bool, read: ReadResult)

  /** `Path.as_posix()` of a relative path. */
  function Posix(path: RelPath): string {
    Join(path, "/")
  }

  /** The element a text file's content contributes: the text read, or the
      error placeholder. */
  function Body(read: ReadResult): string {
    match read
    case Read(text) => text
    case ReadError(message) => "<<ERROR READING FILE: " + message + ">>"
  }

  /** The opening fence of a file's block: three backticks and the tag its
      name gives (the strip the source applies changes nothing, as
      `OpeningFenceParses` shows). */
  function FenceFor(path: RelPath): string {
    "```" + DetectLanguageTag(NameOf(path))
  }

  /** A text file's block: its header line, an empty line, the opening fence,
      the content, the closing fence and a rule. */
  function FileBlock(header: string, fence: string, body: string): seq<string> {
    [header, "", fence, body, "```", HR]
  }

  /** The elements a file adds: its block when it is text, none otherwise. */
  function FileElements(f: SourceFile): seq<string> {
    if f.isText then FileBlock(HeaderFor(Posix(f.path)), FenceFor(f.path), Body(f.read))
    else []
  }

  /** The elements each file adds, file by file. */
  function FileBlocks(files: seq<SourceFile>): (bs: seq<seq<string>>)
    ensures |bs| == |files|
  {
    seq(|files|, i requires 0 <= i < |files| => FileElements(files[i]))
  }

  /** The first n runs, one after the other. */
  function Flatten(bs: seq<seq<string>>, n: nat): seq<string>
    requires n <= |bs|
  {
    if n == 0 then [] else Flatten(bs, n - 1) + bs[n - 1]
  }

  /** The blocks of the first n files, in order. */
  function FileElementsBefore(files: seq<SourceFile>, n: nat): seq<string>
    requires n <= |files|
  {
    Flatten(FileBlocks(files), n)
  }

  /** The relative paths of all files, text and binary alike: what the tree
      is drawn from. */
  function Paths(files: seq<SourceFile>): seq<RelPath> {
    seq(|files|, i requires 0 <= i < |files| => files[i].path)
  }

  /** The title, the structure heading, the tree and a rule. */
  function HeadElements(rootName: string, tree: string): seq<string> {
    ["# Project: " + rootName, "", "## Structure", tree, HR]
  }

  /** The paths of the binary files among the first n, in order. */
  function BinariesBefore(files: seq<SourceFile>, n: nat): seq<RelPath>
    requires n <= |files|
  {
    if n == 0 then []
    else BinariesBefore(files, n - 1) + if files[n - 1].isText then [] else [files[n - 1].path]
  }

  function Binaries(files: seq<SourceFile>): seq<RelPath> {
    BinariesBefore(files, |files|)
  }

  /** The assets section. */
  const AssetElements: seq<string> := ["## Binary assets", "", AssetsNote, HR]

  /** Whether the archive and the assets section are produced. */
  predicate ZipsAssets(files: seq<SourceFile>, zipBinaries: bool) {
    zipBinaries && Binaries(files) != []
  }

  /** The elements after the structure section: the file blocks, then the
      assets section when there is one. */
  function TailElements(files: seq<SourceFile>, zipBinaries: bool): seq<string> {
    FileElementsBefore(files, |files|) + if ZipsAssets(files, zipBinaries) then AssetElements else []
  }

  /** All elements of the document, for a given tree text, in order. */
  function Elements(rootName: string, tree: string, files: seq<SourceFile>, zipBinaries: bool): seq<string> {
    HeadElements(rootName, tree) + TailElements(files, zipBinaries)
  }

  /** The elements joined with "\n", right-stripped, plus one "\n". */
  function Rendered(rootName: string, tree: string, files: seq<SourceFile>, zipBinaries: bool): string {
    RStrip(Join(Elements(rootName, tree, files, zipBinaries), "\n")) + "\n"
  }

  /** The document, with the tree `build_tree` draws from all the files. */
  function Document(rootName: string, files: seq<SourceFile>, zipBinaries: bool): string {
    Rendered(rootName, TreeText(rootName, Paths(files)), files, zipBinaries)
  }

  /** The archive's member names: each binary's posix path, in order. */
  function ArchiveNames(binaries: seq<RelPath>): (names: seq<string>)
    ensures |names| == |binaries|
    ensures forall i | 0 <= i < |binaries| :: names[i] == Posix(binaries[i])
  {
    seq(|binaries|, i requires 0 <= i < |binaries| => Posix(binaries[i]))
  }

  /** The archive, when there is one: the names its members are stored under. */
  function Archive(files: seq<SourceFile>, zipBinaries: bool): Option<seq<string>> {
    if ZipsAssets(files, zipBinaries) then Some(ArchiveNames(Binaries(files))) else None
  }

  // ---------------------------------------------------------------------------
  // The source's algorithm
  // ---------------------------------------------------------------------------

  /** `render_markdown`: the document and the names of the archive's members
      (the archive's bytes are not modelled). */
  method RenderMarkdown(rootName: string, files: seq<SourceFile>, zipBinaries: bool)
    returns (doc: string, archive: Option<seq<string>>)
    requires BelowRoot(Paths(files))
    ensures doc == Document(rootName, files, zipBinaries)
    ensures archive == Archive(files, zipBinaries)
  {
    var lines: seq<string> := ["# Project: " + rootName, "", "## Structure"];
    var tree := BuildTree(rootName, Paths(files));
    lines := lines + [tree, HR];
    assert lines == HeadElements(rootName, tree);
    var blocks, binaries := RenderFiles(files);
    lines := lines + blocks;
    if zipBinaries && binaries != [] {
      var names := ZipNames(binaries);
      archive := Some(names);
      lines := lines + AssetElements;
      Assoc(HeadElements(rootName, tree), blocks, AssetElements);
    } else {
      archive := None;
      assert blocks + [] == blocks;
    }
    doc := RStrip(Join(lines, "\n")) + "\n";
  }

  /** The loop over the files: a block per text file, in order, and the
      binaries set aside, in order. */
  method RenderFiles(files: seq<SourceFile>) returns (blocks: seq<string>, binaries: seq<RelPath>)
    ensures blocks == FileElementsBefore(files, |files|)
    ensures binaries == Binaries(files)
  {
    blocks := [];
    binaries := [];
    for i := 0 to |files|
      invariant blocks == FileElementsBefore(files, i) && binaries == BinariesBefore(files, i)
    {
      blocks, binaries := RenderStep(files, i, blocks, binaries);
    }
  }

  /** One turn of the loop: a text file's block is appended, a binary file
      is set aside. */
  method RenderStep(files: seq<SourceFile>, i: nat, blocks: seq<string>, binaries: seq<RelPath>)
    returns (blocks': seq<string>, binaries': seq<RelPath>)
    requires i < |files|
    requires blocks == FileElementsBefore(files, i) && binaries == BinariesBefore(files, i)
    ensures blocks' == FileElementsBefore(files, i + 1) && binaries' == BinariesBefore(files, i + 1)
  {
    var f := files[i];
    if f.isText {
      var block := RenderFile(f);
      blocks', binaries' := blocks + block, binaries + [];
    } else {
      blocks', binaries' := blocks + [], binaries + [f.path];
    }
  }

  /** The lines a text file appends: its header, an empty line, the opening
      fence with the tag its name gives, the content read, the closing fence
      and a rule. */
  method RenderFile(f: SourceFile) returns (block: seq<string>)
    requires f.isText
    ensures block == FileElements(f)
  {
    var rel := Posix(f.path);
    var lang := DetectLanguageTag(NameOf(f.path));
    var fence := RStrip("```" + lang);
    OpeningFenceParses(lang);
    block := [HeaderFor(rel), "", fence, Body(f.read), "```", HR];
  }

  /** The `arcname` of each binary written to the archive, in order. */
  method ZipNames(binaries: seq<RelPath>) returns (names: seq<string>)
    ensures names == ArchiveNames(binaries)
  {
    names := [];
    for j := 0 to |binaries|
      invariant names == ArchiveNames(binaries[..j])
    {
      assert binaries[..j + 1] == binaries[..j] + [binaries[j]];
      names := names + [Posix(binaries[j])];
    }
    assert binaries[..|binaries|] == binaries;
  }

  // ---------------------------------------------------------------------------
  // The document's frame
  // ---------------------------------------------------------------------------

  /** The elements always end with a rule. */
  lemma ElementsEndWithRule(rootName: string, tree: string, files: seq<SourceFile>, zipBinaries: bool)
    ensures var es := Elements(rootName, tree, files, zipBinaries);
            |es| >= 1 && es[|es| - 1] == HR
  {
    var fs := FileElementsBefore(files, |files|);
    FileElementsEndWithRule(files, |files|);
    if ZipsAssets(files, zipBinaries) {
      LastOfAppend(fs, AssetElements, HR);
    } else {
      assert fs + [] == fs;
    }
    LastOfAppend(HeadElements(rootName, tree), TailElements(files, zipBinaries), HR);
  }

  /** A file's elements: none, or a block whose third element is an opening
      fence and whose last is a rule. */
  predicate BlockShaped(b: seq<string>) {
    b == [] || (|b| == 6 && StartsWith(b[2], "```") && b[5] == HR)
  }

  lemma FileBlocksShaped(files: seq<SourceFile>)
    ensures forall k | 0 <= k < |files| :: BlockShaped(FileBlocks(files)[k])
  {
    forall k | 0 <= k < |files|
      ensures BlockShaped(FileBlocks(files)[k])
    {
      FileShaped(files[k]);
    }
  }

  lemma FileShaped(f: SourceFile)
    ensures BlockShaped(FileElements(f))
  {
    if f.isText {
      assert FileElements(f)[2] == FenceFor(f.path);
    }
  }

  lemma FileElementsEndWithRule(files: seq<SourceFile>, n: nat)
    requires n <= |files|
    ensures var fs := FileElementsBefore(files, n);
            fs == [] || fs[|fs| - 1] == HR
  {
    FileBlocksShaped(files);
    FlattenEndsWithRule(FileBlocks(files), n);
  }

  lemma {:induction false} FlattenEndsWithRule(bs: seq<seq<string>>, n: nat)
    requires n <= |bs|
    requires forall k | 0 <= k < |bs| :: BlockShaped(bs[k])
    ensures var fs := Flatten(bs, n);
            fs == [] || fs[|fs| - 1] == HR
  {
    if n > 0 {
      FlattenEndsWithRule(bs, n - 1);
      var fs := Flatten(bs, n - 1);
      assert BlockShaped(bs[n - 1]);
      if fs + bs[n - 1] != [] {
        LastOfAppend(fs, bs[n - 1], HR);
      }
    }
  }

  /** Appending a run that is empty or ends in x to one that ends in x. */
  lemma LastOfAppend<T>(a: seq<T>, b: seq<T>, x: T)
    requires (|a| >= 1 && a[|a| - 1] == x) || (|b| >= 1 && b[|b| - 1] == x)
    requires b == [] || b[|b| - 1] == x
    ensures |a + b| >= 1 && (a + b)[|a + b| - 1] == x
  {
  }

  /** Stripping a text that ends in a rule removes only the rule's "\n". */
  lemma RStripRule(x: string)
    ensures RStrip(x + "-\n") == x + "-"
  {
    var s := x + "-\n";
    var r := RStrip(s);
    assert s[|s| - 2] == '-' && !IsSpace('-');
    assert IsSpace('\n');
    assert |r| == |s| - 1;
  }

  /** A join whose last element is a rule ends with the rule. */
  lemma JoinEndsWithRule(es: seq<string>)
    requires |es| >= 1 && es[|es| - 1] == HR
    ensures Join(es, "\n") == Join(es[..|es| - 1], "\n") + (if |es| == 1 then "" else "\n") + HR
  {
    var init := es[..|es| - 1];
    if |es| > 1 {
      assert es == init + [HR];
      JoinConcat(init, [HR], "\n");
    }
  }

  /** The strip removes just the "\n" a final rule ends with, and the "\n"
      added back replaces it. */
  lemma RStripJoinRule(es: seq<string>)
    requires |es| >= 1 && es[|es| - 1] == HR
    ensures RStrip(Join(es, "\n")) + "\n" == Join(es, "\n")
  {
    JoinEndsWithRule(es);
    RStripEndingRule(Join(es, "\n"), Join(es[..|es| - 1], "\n") + (if |es| == 1 then "" else "\n"));
  }

  lemma RStripEndingRule(j: string, y: string)
    requires j == y + HR
    ensures RStrip(j) + "\n" == j
  {
    var x := y + "\n--";
    assert j == x + "-\n";
    RStripRule(x);
  }

  /** Whatever the tree, the document is exactly the join of its elements. */
  lemma RenderedIsJoin(rootName: string, tree: string, files: seq<SourceFile>, zipBinaries: bool)
    ensures Rendered(rootName, tree, files, zipBinaries) == Join(Elements(rootName, tree, files, zipBinaries), "\n")
  {
    ElementsEndWithRule(rootName, tree, files, zipBinaries);
    RStripJoinRule(Elements(rootName, tree, files, zipBinaries));
  }

  /** The document ends in the last rule followed by exactly one line break. */
  lemma DocumentEnding(rootName: string, files: seq<SourceFile>, zipBinaries: bool)
    ensures var doc := Document(rootName, files, zipBinaries);
            EndsWith(doc, "\n---\n") && doc[|doc| - 2] != '\n'
  {
    var tree := TreeText(rootName, Paths(files));
    var es := Elements(rootName, tree, files, zipBinaries);
    ElementsEndWithRule(rootName, tree, files, zipBinaries);
    RenderedIsJoin(rootName, tree, files, zipBinaries);
    JoinEndsWithRule(es);
  }

  /** The document opens with the title, an empty line, the structure
      heading, `build_tree`'s text and a rule. */
  lemma DocumentStart(rootName: string, files: seq<SourceFile>, zipBinaries: bool)
    ensures StartsWith(Document(rootName, files, zipBinaries),
                       "# Project: " + rootName + "\n\n## Structure\n" + TreeText(rootName, Paths(files)) + "\n" + HR)
  {
    var tree := TreeText(rootName, Paths(files));
    RenderedStart(rootName, tree, files, zipBinaries);
  }

  lemma RenderedStart(rootName: string, tree: string, files: seq<SourceFile>, zipBinaries: bool)
    ensures StartsWith(Rendered(rootName, tree, files, zipBinaries),
                       "# Project: " + rootName + "\n\n## Structure\n" + tree + "\n" + HR)
  {
    var head := HeadElements(rootName, tree);
    var rest := TailElements(files, zipBinaries);
    RenderedIsJoin(rootName, tree, files, zipBinaries);
    HeadJoin(rootName, tree);
    if rest == [] {
      assert head + rest == head;
      PrefixOfConcat(Join(head, "\n"), "");
    } else {
      JoinConcat(head, rest, "\n");
      PrefixOfConcat(Join(head, "\n"), "\n" + Join(rest, "\n"));
    }
  }

  lemma PrefixOfConcat(p: string, q: string)
    ensures StartsWith(p + q, p)
  {
    assert (p + q)[..|p|] == p;
  }

  /** The structure section's elements, joined. */
  lemma HeadJoin(rootName: string, tree: string)
    ensures Join(HeadElements(rootName, tree), "\n") == "# Project: " + rootName + "\n\n## Structure\n" + tree + "\n" + HR
  {
    var title := "# Project: " + rootName;
    JoinFive(title, "", "## Structure", tree, HR, "\n");
    assert title + "\n" + "" + "\n" + "## Structure" + "\n" == title + "\n\n## Structure\n";
  }

  lemma JoinFive(a: string, b: string, c: string, d: string, e: string, sep: string)
    ensures Join([a, b, c, d, e], sep) == a + sep + b + sep + c + sep + d + sep + e
  {
    assert [a, b, c, d, e][1..] == [b, c, d, e];
    assert [b, c, d, e][1..] == [c, d, e];
    assert [c, d, e][1..] == [d, e];
    assert [d, e][1..] == [e];
    assert Join([e], sep) == e;
    assert Join([d, e], sep) == d + sep + e;
    var j3 := Join([c, d, e], sep);
    assert j3 == c + sep + d + sep + e;
    var j4 := Join([b, c, d, e], sep);
    assert j4 == b + sep + j3;
    assert j4 == b + sep + c + sep + d + sep + e;
    assert Join([a, b, c, d, e], sep) == a + sep + j4;
  }

  /** The elements end with the assets section exactly when the binaries
      are zipped and there is at least one. */
  lemma AssetsSectionIff(rootName: string, tree: string, files: seq<SourceFile>, zipBinaries: bool)
    ensures var es := Elements(rootName, tree, files, zipBinaries);
            (|es| >= 4 && es[|es| - 4..] == AssetElements) <==> ZipsAssets(files, zipBinaries)
  {
    var es := Elements(rootName, tree, files, zipBinaries);
    var head := HeadElements(rootName, tree);
    var fs := FileElementsBefore(files, |files|);
    if ZipsAssets(files, zipBinaries) {
      Assoc(head, fs, AssetElements);
      assert es[|es| - 4..] == AssetElements;
    } else {
      assert fs + [] == fs;
      FileElementsFourthLast(files, |files|);
      var x := es[|es| - 4];
      if fs == [] {
        assert x == "";
      } else {
        assert x == fs[|fs| - 4];
      }
      assert "## Binary assets"[0] == '#';
      assert x != "## Binary assets";
    }
  }

  /** Four elements before the end of the file blocks stands an opening
      fence, never the assets heading. */
  lemma FileElementsFourthLast(files: seq<SourceFile>, n: nat)
    requires n <= |files|
    ensures var fs := FileElementsBefore(files, n);
            fs == [] || (|fs| >= 6 && StartsWith(fs[|fs| - 4], "```"))
  {
    FileBlocksShaped(files);
    FlattenFourthLast(FileBlocks(files), n);
  }

  lemma {:induction false} FlattenFourthLast(bs: seq<seq<string>>, n: nat)
    requires n <= |bs|
    requires forall k | 0 <= k < |bs| :: BlockShaped(bs[k])
    ensures var fs := Flatten(bs, n);
            fs == [] || (|fs| >= 6 && StartsWith(fs[|fs| - 4], "```"))
  {
    if n > 0 {
      FlattenFourthLast(bs, n - 1);
      var a := Flatten(bs, n - 1);
      var b := bs[n - 1];
      assert BlockShaped(b);
      if b != [] {
        IndexFromEnd(a, b, 4);
      } else {
        assert a + b == a;
      }
    }
  }

  lemma IndexFromEnd<T>(a: seq<T>, b: seq<T>, k: nat)
    requires 1 <= k <= |b|
    ensures (a + b)[|a + b| - k] == b[|b| - k]
  {
  }

  /** A file's opening fence matches the fence-start pattern and is not a
      header line. */
  lemma FenceForParses(path: RelPath)
    ensures IsFenceStart(FenceFor(path)) && !IsHeaderLine(FenceFor(path))
    ensures IsFenceEnd(FenceFor(path)) <==> DetectLanguageTag(NameOf(path)) == ""
  {
    OpeningFenceParses(DetectLanguageTag(NameOf(path)));
  }

  /** An archive is produced exactly when the assets section is written. */
  lemma ArchiveIffAssets(files: seq<SourceFile>, zipBinaries: bool)
    ensures Archive(files, zipBinaries).Some? <==> zipBinaries && exists f <- files :: !f.isText
  {
    BinariesExist(files, |files|);
  }

  /** The indices of the binary files among the first `n`. */
  function BinaryIndices(files: seq<SourceFile>, n: nat): set<nat>
    requires n <= |files|
  {
    set i: nat | i < n && !files[i].isText
  }

  /** The archive holds exactly the posix paths of the binary files, one
      member per binary file. */
  lemma ArchiveExact(files: seq<SourceFile>, zipBinaries: bool)
    ensures Archive(files, zipBinaries).Some? ==>
              var names := Archive(files, zipBinaries).value;
              && |names| == |BinaryIndices(files, |files|)|
              && forall name :: name in names <==> exists i | 0 <= i < |files| :: !files[i].isText && Posix(files[i].path) == name
  {
    if Archive(files, zipBinaries).Some? {
      var binaries := Binaries(files);
      var names := Archive(files, zipBinaries).value;
      BinariesExact(files, |files|);
      forall name
        ensures name in names <==> exists i | 0 <= i < |files| :: !files[i].isText && Posix(files[i].path) == name
      {
        if name in names {
          var j :| 0 <= j < |names| && names[j] == name;
          assert binaries[j] in binaries;
        }
        if exists i | 0 <= i < |files| :: !files[i].isText && Posix(files[i].path) == name {
          var i :| 0 <= i < |files| && !files[i].isText && Posix(files[i].path) == name;
          assert files[i].path in binaries;
          var j :| 0 <= j < |binaries| && binaries[j] == files[i].path;
          assert names[j] == name;
        }
      }
    }
  }

  /** The binaries set aside from the first `n` files are exactly their
      binary files' paths, one per binary file. */
  lemma {:induction false} BinariesExact(files: seq<SourceFile>, n: nat)
    requires n <= |files|
    ensures |BinariesBefore(files, n)| == |BinaryIndices(files, n)|
    ensures forall p :: p in BinariesBefore(files, n) <==> exists i | 0 <= i < n :: !files[i].isText && files[i].path == p
  {
    if n > 0 {
      BinariesExact(files, n - 1);
      var before := BinaryIndices(files, n - 1);
      if files[n - 1].isText {
        assert BinaryIndices(files, n) == before;
      } else {
        assert BinaryIndices(files, n) == before + {n - 1};
        assert n - 1 !in before;
      }
    }
  }

  lemma {:induction false} BinariesExist(files: seq<SourceFile>, n: nat)
    requires n <= |files|
    ensures BinariesBefore(files, n) != [] <==> exists i | 0 <= i < n :: !files[i].isText
  {
    if n > 0 {
      BinariesExist(files, n - 1);
    }
  }
}
