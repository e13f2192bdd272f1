/**
 * `detect_language_tag` (RepoTool.py:85-96): the fence tag a file's content
 * is embedded under, looked up from the file's lower-cased suffix.
 */
module Language {
  import opened Text
  import opened Patterns

  /** `Path.suffix`: from the last "." of the name on, provided that "." is
      neither the first nor the last character of the name. */
  function Suffix(name: string): (r: string)
    ensures r == [] || (|r| >= 2 && r[0] == '.' && '.' !in r[1..] && |r| < |name| && EndsWith(name, r))
    ensures forall i | 0 < i < |name| - 1 && name[i] == '.' && (forall k | i < k < |name| :: name[k] != '.') ::
              r == name[i..]
  {
    var i := RFind(name, '.');
    if 0 < i < |name| - 1 then name[i..] else ""
  }

  /** The extension-to-tag table. */
  const LanguageTags: map<string, string> := ScriptTags + MarkupTags + CompiledTags

  const ScriptTags: map<string, string> := map[
    ".py" := "python", ".js" := "javascript", ".jsx" := "jsx", ".ts" := "typescript", ".tsx" := "tsx",
    ".sh" := "bash", ".ps1" := "powershell", ".bat" := "bat", ".cmd" := "bat", ".sql" := "sql"
  ]

  const MarkupTags: map<string, string> := map[
    ".json" := "json", ".yaml" := "yaml", ".yml" := "yaml", ".toml" := "toml", ".ini" := "ini",
    ".md" := "markdown", ".html" := "html", ".css" := "css", ".xml" := "xml", ".vue" := "vue", ".svelte" := "svelte"
  ]

  const CompiledTags: map<string, string> := map[
    ".java" := "java", ".kt" := "kotlin", ".cs" := "csharp", ".go" := "go", ".rs" := "rust",
    ".c" := "c", ".h" := "c", ".cpp" := "cpp", ".hpp" := "cpp"
  ]

  /** A non-empty run of lower-case ASCII letters. */
  predicate IsLowerWord(s: string) {
    |s| >= 1 && forall i | 0 <= i < |s| :: 'a' <= s[i] <= 'z'
  }

  /** Every tag in the table is a lower-case word. */
  lemma TagsAreWords(ext: string)
    requires ext in LanguageTags
    ensures IsLowerWord(LanguageTags[ext])
  {
    if ext in CompiledTags {
      CompiledTagsAreWords(ext);
    } else if ext in MarkupTags {
      MarkupTagsAreWords(ext);
    } else {
      ScriptTagsAreWords(ext);
    }
  }

  lemma ScriptTagsAreWords(ext: string)
    requires ext in ScriptTags
    ensures IsLowerWord(ScriptTags[ext])
  {
  }

  lemma MarkupTagsAreWords(ext: string)
    requires ext in MarkupTags
    ensures IsLowerWord(MarkupTags[ext])
  {
  }

  lemma CompiledTagsAreWords(ext: string)
    requires ext in CompiledTags
    ensures IsLowerWord(CompiledTags[ext])
  {
  }

  /** The tag for a file, given its name (`Path.name`, the last part of its
      path): the lower-cased suffix looked up in the table, or no tag at
      all. */
  function DetectLanguageTag(name: string): (tag: string)
    ensures tag == "" || IsLowerWord(tag)
    ensures tag != "" <==> Lower(Suffix(name)) in LanguageTags
    ensures tag != "" ==> tag == LanguageTags[Lower(Suffix(name))]
  {
    var ext := Lower(Suffix(name));
    if ext in LanguageTags then
      TagsAreWords(ext);
      LanguageTags[ext]
    else ""
  }

  /** The suffix is looked up lower-cased: "setup.PY" is Python. */
  lemma UpperCaseSuffixTag()
    ensures DetectLanguageTag("setup.PY") == "python"
  {
    SetupSuffix();
    PythonTag();
  }

  lemma SetupSuffix()
    ensures Lower(Suffix("setup.PY")) == ".py"
  {
    var name := "setup.PY";
    assert name[5] == '.' && name[6] == 'P' && name[7] == 'Y';
    assert Suffix(name) == name[5..];
  }

  lemma PythonTag()
    ensures ".py" in LanguageTags && LanguageTags[".py"] == "python"
  {
    PyIsScript();
    PyIsNotMarkup();
    PyIsNotCompiled();
    LookupFirst(ScriptTags, MarkupTags, CompiledTags, ".py");
  }

  lemma PyIsScript()
    ensures ".py" in ScriptTags && ScriptTags[".py"] == "python"
  {
  }

  lemma PyIsNotMarkup()
    ensures ".py" !in MarkupTags
  {
  }

  lemma PyIsNotCompiled()
    ensures ".py" !in CompiledTags
  {
  }

  /** A key of the first of three merged maps that the other two lack keeps
      its value. */
  lemma LookupFirst<K, V>(a: map<K, V>, b: map<K, V>, c: map<K, V>, k: K)
    requires k in a && k !in b && k !in c
    ensures k in a + b + c && (a + b + c)[k] == a[k]
  {
  }

  /** Only the last suffix counts: "a.tar.gz" has the suffix ".gz", which is
      not in the table. */
  lemma LastSuffixOnly()
    ensures DetectLanguageTag("a.tar.gz") == ""
  {
    TarSuffix();
    GzHasNoTag();
  }

  lemma TarSuffix()
    ensures Lower(Suffix("a.tar.gz")) == ".gz"
  {
    var name := "a.tar.gz";
    assert name[5] == '.' && name[6] == 'g' && name[7] == 'z';
    assert Suffix(name) == name[5..];
  }

  lemma GzHasNoTag()
    ensures ".gz" !in LanguageTags
  {
  }

  /** A name whose only "." comes first has no suffix: ".bashrc". */
  lemma DotFileHasNoTag()
    ensures DetectLanguageTag(".bashrc") == ""
  {
    DotFileSuffix();
    EmptyHasNoTag();
  }

  lemma DotFileSuffix()
    ensures Lower(Suffix(".bashrc")) == ""
  {
    var name := ".bashrc";
    var r := Suffix(name);
    if r != [] {
      assert false;
    }
  }

  /** A name ending in "." has no suffix: "a.". */
  lemma TrailingDotHasNoTag()
    ensures DetectLanguageTag("a.") == ""
  {
    assert Lower(Suffix("a.")) == [];
    EmptyHasNoTag();
  }

  lemma EmptyHasNoTag()
    ensures "" !in LanguageTags
  {
  }

  /** The opening fence the serializer writes for a tag: three backticks and
      the tag, with trailing whitespace stripped. */
  function OpeningFence(tag: string): string {
    RStrip("```" + tag)
  }

  /** For every tag the lookup can give, the opening fence is the backticks
      followed by the tag, unchanged by the strip, and matches the
      fence-start pattern; it is a bare closing fence exactly when there is
      no tag. */
  lemma OpeningFenceParses(tag: string)
    requires tag == "" || IsLowerWord(tag)
    ensures OpeningFence(tag) == "```" + tag
    ensures IsFenceStart(OpeningFence(tag))
    ensures IsFenceEnd(OpeningFence(tag)) <==> tag == ""
    ensures !IsHeaderLine(OpeningFence(tag))
  {
    var line := "```" + tag;
    assert !IsSpace(line[|line| - 1]);
    assert AllTag(tag);
    assert line == "```" + tag + "";
    FenceStartOfShape(line, tag, "");
    assert line[3..] == tag;
    if tag != "" {
      assert !IsSpace(line[3]);
    }
  }
}
