# RepoTool's Markdown format, modelled in Dafny

RepoTool turns a project directory into one Markdown document and turns such a document back into files. The document has these parts, in order:

1. A title, `# Project: <root name>`.
2. A `## Structure` section. It holds an ASCII tree of the project's files inside a ```` ```text ```` fence.
3. One section per text file. Each section is:
   - a `## File: <posix path>` header;
   - an empty line;
   - an opening fence tagged with the file's language;
   - the file's text;
   - a closing fence;
   - a `---` rule.
4. When binary files are to be zipped, a `## Binary assets` section that points at the archive.

Restoring a document works in three steps:

- Every line that matches the header pattern opens a section. The section runs to the next such line, whatever fences lie in between.
- In each section, the lines after the first opening fence and up to the next closing fence are the file's content.
- The file's path is the header's capture, stripped.

This project models that core:

- **Patterns** (`patterns.dfy`): the three regular expressions of the restore side, as predicates on one line. Each predicate has a declarative counterpart, and lemmas prove the two agree.
- **Parse** (`parse.dfy`):
  - The function `Parse` is the specification of `restore_from_markdown`, minus the disk writes.
  - The method `RestoreFromMarkdown` follows the source step by step: match offsets, text slices, `splitlines`, and the `in_fence` loop. It is proved equal to `Parse`.
  - Lemmas give the properties of `Parse`:
    - one entry per header line, in document order;
    - the path is the stripped capture;
    - content never holds a closing-fence line;
    - a closing fence truncates the content.
- **Render** (`render.dfy`):
  - The function `Document` is the specification of `render_markdown`.
  - The method `RenderMarkdown` mirrors its loop.
  - Lemmas cover the document's frame: how it starts and ends, and when the assets section and the archive appear.
- **Tree** (`tree.dfy`): `build_tree`. The methods (directory collection, grouping by parent, the recursive walk) are proved against the function `TreeText`. The stable sort by lower-cased name is proved to be a sorted permutation.
- **Language** (`language.dfy`): `detect_language_tag`, and a proof that every opening fence the serializer writes parses as one.
- **Ignore** (`ignore.dfy`):
  - `should_ignore`, with an exact characterisation of when a path is ignored;
  - the line filter of `load_extra_ignores`.
- **RoundTrip** (`roundtrip.dfy`):
  - Restoring a rendered document gives back every text file, in order, with its posix path and the exact text that was embedded.
  - This holds under the conditions in `Restorable`:
    - no line break in names;
    - contents, names and the project name break lines only at "\n";
    - no content line is a header line or a closing fence;
    - paths are non-empty and have no surrounding whitespace;
    - the project name does not make the tree's first line a header.
- **Text** (`text.dfy`): the Python string operations these rely on. They are `strip`, `rstrip`, `split("\n")`, `"\n".join`, `splitlines` and `lower`.

Two behaviours of the code matter for restoring:

- The restored path is the stripped capture as it stands. No `..` segment is rejected and nothing is sanitised, so a header can name a path outside the output directory.
- Besides lines that look like a closing fence, the round trip also needs content without header-like lines. The parser is not fence-aware: a header-like line inside a block starts a new section.

Inputs from outside the core become parameters:

- whether a file counts as text (`SourceFile.isText`);
- what reading it gave (`ReadResult`, the text or the exception's message);
- the text of the ignore file (`Option<string>`).

## Model

| member | source | states |
|---|---|---|
| Patterns.HeaderLineIffShape | RepoTool.py:240 | a line matches the header pattern exactly when it is `##`, whitespace, `File:`, whitespace and a non-empty tail |
| Patterns.HeaderCaptureNonEmpty | RepoTool.py:240 | on a header line the text after `File:` starts with whitespace and group 1 is non-empty |
| Patterns.HeaderPathOfShape | RepoTool.py:258 | the stripped capture of a header is its tail when the tail has no surrounding whitespace, whatever whitespace surrounds `File:` |
| Patterns.HeaderForParses | RepoTool.py:208 | the header the serializer writes for a non-empty stripped path matches the pattern and names exactly that path |
| Patterns.FenceStartIffShape | RepoTool.py:241 | a line matches the fence-start pattern exactly when it is three backticks, tag characters, then whitespace |
| Patterns.FenceEndIsFenceStart | RepoTool.py:241-242 | every closing-fence line also matches the opening-fence pattern |
| Patterns.HeaderIsNotFence | RepoTool.py:240-242 | a header line neither opens nor closes a fence |
| Language.Suffix | RepoTool.py:87 | the suffix is empty or a "." followed by a dot-free non-empty tail that ends the name; when the name's last "." is neither its first nor its last character, the suffix is the name from that "." on |
| Language.DetectLanguageTag | RepoTool.py:85-96 | the tag is non-empty exactly when the lower-cased suffix is in the table, and is then the table's entry for it, a lower-case word |
| Language.UpperCaseSuffixTag | RepoTool.py:87-96 | "setup.PY" gets "python": the suffix is lower-cased before the lookup |
| Language.LastSuffixOnly | RepoTool.py:87-96 | "a.tar.gz" gets no tag: only the last suffix, ".gz", is looked up |
| Language.DotFileHasNoTag | RepoTool.py:87-96 | a dot file such as ".bashrc" has no suffix and gets no tag |
| Language.TrailingDotHasNoTag | RepoTool.py:87-96 | a name ending in "." such as "a." has no suffix and gets no tag |
| Language.TagsAreWords | RepoTool.py:88-95 | every tag of the table is a non-empty lower-case ASCII word |
| Language.OpeningFenceParses | RepoTool.py:211 | `rstrip` leaves the opening fence unchanged; it matches the fence-start pattern; it is a closing fence exactly when there is no tag; it is never a header |
| Ignore.Slashed | RepoTool.py:119 | the length is kept, no backslash is left, and a text without a backslash comes back unchanged |
| Ignore.AnyPatternMatchesIff | RepoTool.py:120-135 | the loop over the extra patterns returns true exactly when some pattern matches |
| Ignore.ShouldIgnoreIff | RepoTool.py:110-135 | a path is ignored exactly when a part is a default name, a part is hidden, or some extra pattern matches its "/"-text |
| Ignore.DefaultIgnoresDependencies | RepoTool.py:37-45 | with the default names, a path through "node_modules" is ignored |
| Ignore.DefaultIgnoresHidden | RepoTool.py:115-117 | a hidden part such as ".env" makes a path ignored |
| Ignore.DefaultIgnoresKeep | RepoTool.py:110-135 | "src/main.py" is kept with the default names and no extra patterns |
| Ignore.DirPatternRule | RepoTool.py:125-128 | `base/*` matches `base` itself and every path under `base/`, with case significant |
| Ignore.ExtensionPatternRule | RepoTool.py:129-131 | `*.ext` is a case-insensitive suffix test |
| Ignore.SubstringPatternRule | RepoTool.py:132-134 | any other pattern is a case-insensitive substring test |
| Ignore.PatternCaseInsensitive | RepoTool.py:129-134 | apart from the directory rule, matching ignores the path's case |
| Ignore.KeptPatternsExact | RepoTool.py:103-107 | every kept pattern is non-empty, stripped, not a comment and comes from a line; every such line gives its pattern |
| Ignore.KeptPatternsConcat | RepoTool.py:103-107 | the filter keeps file order: the patterns of two runs of lines are the first run's, then the second's |
| Ignore.FilterLine | RepoTool.py:104-107 | one line of the filter adds its stripped text exactly when that is non-empty and not a comment |
| Ignore.FilterLines | RepoTool.py:103-107 | the loop collects exactly the kept patterns, in order |
| Ignore.LoadExtraIgnores | RepoTool.py:98-108 | no patterns without an ignore file, else the kept patterns of its lines |
| Tree.StrLeTotal | RepoTool.py:152-153 | Python's string order is total |
| Tree.StrLeTrans | RepoTool.py:152-153 | Python's string order is transitive |
| Tree.InsertByPerm | RepoTool.py:152-153 | inserting adds the element and keeps all others |
| Tree.InsertBySorted | RepoTool.py:152-153 | inserting into a sorted list keeps it sorted |
| Tree.SortByPerm | RepoTool.py:152-153 | `sorted` returns a permutation of its input |
| Tree.SortBySorted | RepoTool.py:152-153 | `sorted` returns its input ordered by key |
| Tree.DirsBeforeWitness | RepoTool.py:157-164 | every collected directory is a proper prefix of some file's path |
| Tree.DirsBeforeHas | RepoTool.py:157-164 | every proper prefix of every file's path is collected, the root included |
| Tree.CollectDirs | RepoTool.py:157-164 | the climbing loops build exactly `all_dirs` |
| Tree.GroupsBeforeAt | RepoTool.py:141-143 | `dirs[d]` is the list of files whose parent is d, in list order |
| Tree.FilesInBeforeSound | RepoTool.py:141-143 | every file grouped under d is a file of the list whose parent is d |
| Tree.SubdirsExact | RepoTool.py:151-152 | the subdirectories of d are exactly the members of `all_dirs` one level below d, each once, sorted by lower-cased name |
| Tree.LeafsExact | RepoTool.py:151-153 | the files of d are a permutation of those whose parent is d, sorted by lower-cased name |
| Tree.SubdirBelow | RepoTool.py:151-152 | a subdirectory is one level below d and above some file |
| Tree.SubdirNamed | RepoTool.py:151-152 | a subdirectory is a prefix of some file's path |
| Tree.ChildrenDescend | RepoTool.py:151-171 | the walk only descends, so it terminates |
| Tree.WalkLeafs | RepoTool.py:172-174 | the file loop appends one entry per file, the last one closing the branch |
| Tree.WalkSubdir | RepoTool.py:168-171 | one turn of the subdirectory loop appends the entry and then the subdirectory's walk |
| Tree.WalkSubdirs | RepoTool.py:168-171 | the subdirectory loop appends every subdirectory's block in order |
| Tree.Walk | RepoTool.py:166-174 | `walk` appends exactly the lines the recursive specification function gives |
| Tree.BuildTree | RepoTool.py:137-178 | the result is the fenced tree text the specification function gives |
| Tree.WalkLinesShape | RepoTool.py:166-174 | every line of a walk is its prefix followed by a connector or indentation mark |
| Tree.TreeLinesOneLine | RepoTool.py:176-177 | with one-line names, no tree line holds a line break |
| Tree.TreeTextLines | RepoTool.py:178 | split at line breaks, the tree text is the `text` fence, the root's line, the walk and the closing fence |
| Render.ArchiveExact | RepoTool.py:221-227 | the archive holds exactly the posix paths of the non-text files, one member per non-text file |
| Render.RenderFile | RepoTool.py:206-217 | a text file appends its header, an empty line, its fence, its content or the error text, the closing fence and a rule |
| Render.RenderStep | RepoTool.py:204-219 | one turn of the file loop appends a text file's block or sets a binary aside |
| Render.RenderFiles | RepoTool.py:203-219 | the loop yields every text file's block, and every binary, in order |
| Render.ZipNames | RepoTool.py:226-227 | the archive loop names members by posix path, in order |
| Render.RenderMarkdown | RepoTool.py:194-236 | the method returns the specified document and an archive exactly when binaries are zipped |
| Render.ElementsEndWithRule | RepoTool.py:196-234 | the elements always end with a rule |
| Render.FileBlocksShaped | RepoTool.py:206-219 | each file adds nothing, or six elements with an opening fence third and a rule last |
| Render.RenderedIsJoin | RepoTool.py:236 | `rstrip` plus "\n" gives back exactly the "\n"-join of the elements |
| Render.DocumentEnding | RepoTool.py:234-236 | the document ends with the rule and exactly one line break |
| Render.DocumentStart | RepoTool.py:197-201 | the document starts with the title, an empty line, the structure heading, the tree and a rule |
| Render.AssetsSectionIff | RepoTool.py:222-234 | the document ends with the assets section exactly when binaries are zipped and there is one |
| Render.ArchiveIffAssets | RepoTool.py:221-228 | an archive is produced exactly when zipping is asked for and some file is not text |
| Render.FenceForParses | RepoTool.py:207-211 | each file's opening fence matches the fence-start pattern, is not a header, and is a closing fence exactly when there is no tag |
| Parse.OneEntryPerHeader | RepoTool.py:256-275 | the parser yields exactly one entry per header line, in document order, from the section between that header and the next |
| Parse.EntriesAt | RepoTool.py:257-260 | the k-th entry comes from the k-th header line |
| Parse.HeaderIndicesExact | RepoTool.py:256 | the header indices are exactly the lines that match the header pattern |
| Parse.NoHeaderNoEntries | RepoTool.py:256-257 | a document without a header line restores nothing |
| Parse.EntryPaths | RepoTool.py:256-258 | the k-th entry's path is the stripped capture of the k-th header, with no check for `..` |
| Parse.FencedLinesFromSection | RepoTool.py:264-275 | recovered lines are lines of the section and never closing-fence lines |
| Parse.ContentHasNoFenceEnd | RepoTool.py:256-275 | in any document, no line of any restored content is a closing fence |
| Parse.UnclosedFenceRunsToEnd | RepoTool.py:267-274 | a block that never closes keeps every line after its opening fence |
| Parse.FenceEndTruncates | RepoTool.py:267-274 | the first closing fence after the opening one ends the content there |
| Parse.MatchCoversLine | RepoTool.py:256 | a header match spans exactly its line of the text |
| Parse.FindHeadersAt | RepoTool.py:256 | the k-th match is that of the k-th header line |
| Parse.MatchSpan | RepoTool.py:259-260 | the k-th match starts and ends where the k-th header line does |
| Parse.MatchPath | RepoTool.py:258 | the stripped group 1 of the k-th match is the k-th header's path |
| Parse.InnerSlice | RepoTool.py:259-264 | the text from one match's end to the next match's start, split into lines, is that header's section |
| Parse.LastSlice | RepoTool.py:259-264 | the text from the last match's end to the end of the text, split into lines, is the last section |
| Parse.SliceToLine | RepoTool.py:259-264 | the text between two lines, split into lines, is an empty line plus the lines in between |
| Parse.SliceToEnd | RepoTool.py:259-264 | the text after a line, split into lines, is the last section's lines |
| Parse.RestoreInner | RepoTool.py:257-275 | one pass of the loop for a match that is not the last yields that header's entry |
| Parse.RestoreLast | RepoTool.py:257-275 | one pass for the last match yields the last header's entry |
| Parse.CollectFenced | RepoTool.py:264-275 | the `in_fence` loop collects exactly the lines after the first opening fence, up to the next closing fence |
| Parse.RestoreSection | RepoTool.py:258-275 | the loop body yields the entry of the idx-th header line |
| Parse.RestoreSections | RepoTool.py:256-275 | the loop over the matches yields one entry per header line, in order |
| Parse.RestoreFromMarkdown | RepoTool.py:244-275 | the method returns exactly the specified entries of the document |
| Text.RStrip | RepoTool.py:236 | the result is a prefix of the input, the part removed is whitespace, and it does not end in whitespace |
| Text.Strip | RepoTool.py:258 | the result has no surrounding whitespace and is a slice of the input with only whitespace on either side of it |
| Text.LowerRemovesCapitals | RepoTool.py:87 | lower-casing leaves no capital letter, and a text without one is unchanged |
| Text.StripIdempotent | RepoTool.py:104 | stripping twice is stripping once |
| Text.JoinSplit | RepoTool.py:275 | joining the pieces of a split with "\n" gives back the text |
| Text.SplitJoin | RepoTool.py:236 | splitting a "\n"-join of one-line strings gives them back |
| Text.SplitLinesAfterEnd | RepoTool.py:261-264 | the lines of a slice that starts with a line end are an empty line plus the lines it terminates |
| Text.SplitLinesAfterLastEnd | RepoTool.py:261-264 | at the end of the text, `splitlines` drops the empty piece a trailing "\n" leaves |
| RoundTrip.DocumentLines | RepoTool.py:194-236 | the document's lines are the head, each text file's header and block lines, then the assets lines if any |
| RoundTrip.HeadHasNoHeader | RepoTool.py:197-201 | no line of the title and structure section is a header line when the root's tree line is not one |
| RoundTrip.WalkHasNoHeader | RepoTool.py:166-174 | no line drawn below the root is a header line |
| RoundTrip.AssetsHaveNoHeader | RepoTool.py:231-234 | no line of the assets section is a header line |
| RoundTrip.SectionRead | RepoTool.py:256-275 | a rendered block is read as one section, ending at the next header, that gives back its path and exact content lines |
| RoundTrip.FileSection | RepoTool.py:208-217 | each rendered text file is read back as its posix path and embedded text |
| RoundTrip.FilesParse | RepoTool.py:256-275 | the file sections, read from the first, give back every text file, in order, and nothing for binaries |
| RoundTrip.LinesParse | RepoTool.py:256-275 | header-free lines around the file sections contribute no entries |
| RoundTrip.RoundTrip | RepoTool.py:194-275 | restoring a rendered document gives back every text file, in order, with its posix path and exact text |

## Left out

- Command-line handling, `main`, `gather_files` and the interactive pickers are not part of this model. They are I/O around the core.
- `is_probably_text` is a boolean on each file. It inspects bytes on disk.
- `read_text_best_effort` and its encoding fallbacks are a given `ReadResult`: the decoded text, or the message of the exception raised.
- The archive's bytes (zip, deflate) are not modelled. Only the member names (`arcname`) and whether an archive is produced are.
- The disk writes of `restore_from_markdown` (`mkdir`, `write_text` and its fallback) are left out. Entries carry the stripped capture string, so `Path(...)` normalisation of the restored path (for example a repeated "/") is not modelled.
- The ignore file's reading (`exists`, `read_text(errors="ignore")`) is a given `Option<string>`.
- Only "\n" is a line break. `splitlines` also breaks at "\r", "\r\n", "\x0b", "\x0c", "\x1c"-"\x1e", "\x85", "\u2028" and "\u2029"; the model does not. `Restorable` therefore asks that the contents, the names and the project name hold none of these (`Text.OnlyNewlineBreaks`).
- Patterns.IsHeaderLine: matches the header pattern one line at a time.
  - With `re.MULTILINE`, the source's `\s+` may also run across a line break, so a line "##" followed by a line "File: x" matches there.
  - In the other direction, a line "## File:  " (only blanks after `File:`) followed by a line "x" gives the source the path "x", with the section starting after the "x" line. The model gives the path "" and starts the section on the "x" line.
  - The model, `RoundTrip.RoundTrip` and `Restorable` do not cover such multi-line matches.
- Text.Lower: lower-cases ASCII letters only. `str.lower` also folds other scripts, which affects the tag lookup, the sort key and the case-insensitive ignore patterns.
- Tree.Subdirs: Python sorts the subdirectories taken from a set. Two names equal once lower-cased are left in set order; the model keeps the order in which the files first reach them.
- Lines 146-149 of `build_tree` are dead code. `all_dirs` is reassigned at line 157 before any use, and the climb to the filesystem root has no effect. They are not modelled.
- Language.DetectLanguageTag: takes the file's name (`Path.name`), because `Path.suffix` depends only on it. The table is split into three maps with the same contents.
- Render.AssetsNote: the sentence is written as a concatenation of words. Its value is the source's sentence.
- Paths are sequences of parts. `Path.parts`, `relative_to` and `as_posix` are the parts, and the parts joined with "/".
