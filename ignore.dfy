/**
 * Which files the document leaves out: `should_ignore` (RepoTool.py:110-135)
 * and the line filter of `load_extra_ignores` (RepoTool.py:98-108).
 *
 * A relative path is given by its parts, as `Path.parts` has them; its text
 * is the parts joined with "/" (the `str()` of a relative path), with every
 * backslash then turned into "/".
 */
module Ignore {
  import opened Wrappers
  import opened Text

  /** The names ignored at any depth unless the caller passes others
      (RepoTool.py:37-45). */
  const DefaultIgnores: set<string> := {
    ".git", ".hg", ".svn",
    ".idea", ".vscode", ".vs",
    "__pycache__", ".pytest_cache", ".mypy_cache", ".ruff_cache",
    "node_modules", "dist", "build", ".next", ".nuxt", ".turbo", ".cache",
    "venv", ".venv", "env", ".tox",
    ".DS_Store", "Thumbs.db",
    ".scannerwork", "coverage", "target", "out"
  }

  // ---------------------------------------------------------------------------
  // should_ignore
  // ---------------------------------------------------------------------------

  /** A hidden part: it starts with "." and is neither "." nor "..". */
  predicate IsHidden(part: string) {
    StartsWith(part, ".") && part != "." && part != ".."
  }

  /** Every backslash replaced by "/": no backslash is left, and a text
      without one comes back unchanged. */
  function Slashed(s: string): (r: string)
    ensures |r| == |s|
    ensures '\\' !in r
    ensures '\\' !in s ==> r == s
  {
    seq(|s|, i requires 0 <= i < |s| => if s[i] == '\\' then '/' else s[i])
  }

  /** The "/"-normalised text of a relative path (`str(rel_path)` with
      backslashes replaced); the empty path is written ".". */
  function PathText(parts: seq<string>): string {
    Slashed(if parts == [] then "." else Join(parts, "/"))
  }

  /** One pattern from the ignore file against the path text: a pattern
      ending in "/" and "*" takes the directory before them and everything
      under it (case-sensitive), `*.ext` is a case-insensitive suffix and
      anything else a case-insensitive substring. */
  predicate MatchesPattern(s: string, pat: string) {
    if EndsWith(pat, "/*") then
      var base := pat[..|pat| - 2];
      StartsWith(s, base + "/") || s == base
    else if StartsWith(pat, "*.") then
      EndsWith(Lower(s), Lower(pat[1..]))
    else
      Contains(Lower(s), Lower(pat))
  }

  /** The loop over the extra patterns: true at the first one that matches. */
  predicate AnyPatternMatches(s: string, extra: seq<string>)
    decreases |extra|
  {
    if extra == [] then false
    else if MatchesPattern(s, extra[0]) then true
    else AnyPatternMatches(s, extra[1..])
  }

  /** `should_ignore(rel_path, default_names, extra)`. */
  predicate ShouldIgnore(parts: seq<string>, defaults: set<string>, extra: seq<string>) {
    if exists p <- parts :: p in defaults then true
    else if exists p <- parts :: IsHidden(p) then true
    else AnyPatternMatches(PathText(parts), extra)
  }

  /** With the default names and no extra patterns, anything under
      `node_modules` is left out. */
  lemma DefaultIgnoresDependencies()
    ensures ShouldIgnore(["web", "node_modules", "index.js"], DefaultIgnores, [])
  {
    assert "node_modules" in DefaultIgnores;
    assert ["web", "node_modules", "index.js"][1] == "node_modules";
  }

  /** A hidden file is left out. */
  lemma DefaultIgnoresHidden()
    ensures ShouldIgnore(["src", ".env"], DefaultIgnores, [])
  {
    assert IsHidden(".env");
    assert ["src", ".env"][1] == ".env";
  }

  /** An ordinary source file is kept. */
  lemma DefaultIgnoresKeep()
    ensures !ShouldIgnore(["src", "main.py"], DefaultIgnores, [])
  {
    DefaultNamesNotIgnored();
    assert "main.py"[..1][0] == 'm' && "src"[..1][0] == 's';
    ShouldIgnoreIff(["src", "main.py"], DefaultIgnores, []);
  }

  lemma DefaultNamesNotIgnored()
    ensures "src" !in DefaultIgnores && "main.py" !in DefaultIgnores
  {
  }

  /** The loop finds a match exactly when some pattern matches. */
  lemma {:induction false} AnyPatternMatchesIff(s: string, extra: seq<string>)
    ensures AnyPatternMatches(s, extra) <==> exists k | 0 <= k < |extra| :: MatchesPattern(s, extra[k])
    decreases |extra|
  {
    if extra != [] {
      AnyPatternMatchesIff(s, extra[1..]);
      if exists k | 0 <= k < |extra| :: MatchesPattern(s, extra[k]) {
        var k :| 0 <= k < |extra| && MatchesPattern(s, extra[k]);
        if k > 0 {
          assert extra[1..][k - 1] == extra[k];
        }
      }
      if exists k | 0 <= k < |extra| - 1 :: MatchesPattern(s, extra[1..][k]) {
        var k :| 0 <= k < |extra| - 1 && MatchesPattern(s, extra[1..][k]);
        assert extra[k + 1] == extra[1..][k];
      }
    }
  }

  /** A path is ignored exactly when one of its parts is a default name, one
      of its parts is hidden, or one of the extra patterns matches its text. */
  lemma ShouldIgnoreIff(parts: seq<string>, defaults: set<string>, extra: seq<string>)
    ensures ShouldIgnore(parts, defaults, extra) <==>
      || (exists i | 0 <= i < |parts| :: parts[i] in defaults)
      || (exists i | 0 <= i < |parts| :: IsHidden(parts[i]))
      || (exists k | 0 <= k < |extra| :: MatchesPattern(PathText(parts), extra[k]))
  {
    AnyPatternMatchesIff(PathText(parts), extra);
    if exists i | 0 <= i < |parts| :: parts[i] in defaults {
      var i :| 0 <= i < |parts| && parts[i] in defaults;
      assert parts[i] in parts;
    }
    if exists i | 0 <= i < |parts| :: IsHidden(parts[i]) {
      var i :| 0 <= i < |parts| && IsHidden(parts[i]);
      assert parts[i] in parts;
    }
  }

  /** A pattern ending in "/" and "*" takes the directory before them and
      every path under it, with case significant. */
  lemma DirPatternRule(s: string, base: string)
    ensures MatchesPattern(s, base + "/*") <==> s == base || StartsWith(s, base + "/")
  {
    var pat := base + "/*";
    assert pat[|pat| - 2..] == "/*";
    assert pat[..|pat| - 2] == base;
  }

  /** `*.ext`, unless it also ends in "/" and "*", is a suffix test on the
      lower-cased text. */
  lemma ExtensionPatternRule(s: string, ext: string)
    requires !EndsWith("*." + ext, "/*")
    ensures MatchesPattern(s, "*." + ext) <==> EndsWith(Lower(s), Lower("." + ext))
  {
    var pat := "*." + ext;
    assert pat[..2] == "*.";
    assert pat[1..] == "." + ext;
  }

  /** Any other pattern is a substring test on the lower-cased text. */
  lemma SubstringPatternRule(s: string, pat: string)
    requires !EndsWith(pat, "/*") && !StartsWith(pat, "*.")
    ensures MatchesPattern(s, pat) <==> Contains(Lower(s), Lower(pat))
  {
  }

  /** Lower-casing twice is lower-casing once. */
  lemma LowerIdempotent(s: string)
    ensures Lower(Lower(s)) == Lower(s)
  {
  }

  /** The extension and substring rules ignore case in the path; only the
      directory rule tells "Src" from "src". */
  lemma PatternCaseInsensitive(s: string, pat: string)
    requires !EndsWith(pat, "/*")
    ensures MatchesPattern(s, pat) == MatchesPattern(Lower(s), pat)
  {
    LowerIdempotent(s);
  }

  // ---------------------------------------------------------------------------
  // load_extra_ignores
  // ---------------------------------------------------------------------------

  /** A line of the ignore file that yields a pattern: not blank once
      stripped, and not a comment. */
  predicate KeepsLine(line: string) {
    var s := Strip(line);
    s != [] && !StartsWith(s, "#")
  }

  /** The pattern one line yields: its stripped text, or nothing. */
  function LinePattern(line: string): seq<string> {
    if KeepsLine(line) then [Strip(line)] else []
  }

  /** What f yields for each of the first n lines in turn, concatenated. */
  function CollectBefore(lines: seq<string>, n: nat, f: string -> seq<string>): seq<string>
    requires n <= |lines|
  {
    if n == 0 then [] else CollectBefore(lines, n - 1, f) + f(lines[n - 1])
  }

  /** Everything collected comes from one of the lines, and everything a line
      yields is collected. */
  lemma {:induction false} CollectBeforeExact(lines: seq<string>, n: nat, f: string -> seq<string>)
    requires n <= |lines|
    ensures forall x <- CollectBefore(lines, n, f) :: exists j | 0 <= j < n :: x in f(lines[j])
    ensures forall j, x | 0 <= j < n && x in f(lines[j]) :: x in CollectBefore(lines, n, f)
  {
    if n > 0 {
      CollectBeforeExact(lines, n - 1, f);
    }
  }

  /** Collecting keeps the order of the lines: the first m lines' yield comes
      before the yield of the rest. */
  lemma {:induction false} CollectBeforeSplit(lines: seq<string>, n: nat, m: nat, f: string -> seq<string>)
    requires m <= n <= |lines|
    ensures CollectBefore(lines, n, f) == CollectBefore(lines, m, f) + CollectBefore(lines[m..], n - m, f)
  {
    if n > m {
      CollectBeforeSplit(lines, n - 1, m, f);
      assert lines[m..][n - 1 - m] == lines[n - 1];
    }
  }

  /** The patterns the lines yield, in file order. */
  function KeptPatterns(lines: seq<string>): seq<string> {
    CollectBefore(lines, |lines|, LinePattern)
  }

  /** Every pattern is non-empty, has no surrounding whitespace and does not
      start with "#"; each is the stripped text of a kept line, and every kept
      line gives its pattern. */
  lemma KeptPatternsExact(lines: seq<string>)
    ensures forall x <- KeptPatterns(lines) :: x != [] && IsStripped(x) && !StartsWith(x, "#")
    ensures forall x <- KeptPatterns(lines) :: exists l <- lines :: KeepsLine(l) && Strip(l) == x
    ensures forall l <- lines :: KeepsLine(l) ==> Strip(l) in KeptPatterns(lines)
  {
    CollectBeforeExact(lines, |lines|, LinePattern);
    forall x <- KeptPatterns(lines)
      ensures x != [] && IsStripped(x) && !StartsWith(x, "#")
      ensures exists l <- lines :: KeepsLine(l) && Strip(l) == x
    {
      var j :| 0 <= j < |lines| && x in LinePattern(lines[j]);
      assert lines[j] in lines;
    }
    forall l <- lines | KeepsLine(l)
      ensures Strip(l) in KeptPatterns(lines)
    {
      var j :| 0 <= j < |lines| && lines[j] == l;
      assert Strip(l) in LinePattern(lines[j]);
    }
  }

  /** The patterns of two runs of lines are those of the first run, then those
      of the second. */
  lemma KeptPatternsConcat(a: seq<string>, b: seq<string>)
    ensures KeptPatterns(a + b) == KeptPatterns(a) + KeptPatterns(b)
  {
    var ab := a + b;
    CollectBeforeSplit(ab, |ab|, |a|, LinePattern);
    CollectBeforeAgree(ab, a, |a|, LinePattern);
    assert ab[|a|..] == b;
  }

  /** Collecting over the first n lines looks at nothing past them. */
  lemma {:induction false} CollectBeforeAgree(a: seq<string>, b: seq<string>, n: nat, f: string -> seq<string>)
    requires n <= |a| && n <= |b| && a[..n] == b[..n]
    ensures CollectBefore(a, n, f) == CollectBefore(b, n, f)
  {
    if n > 0 {
      assert a[..n - 1] == b[..n - 1] by {
        assert a[..n - 1] == a[..n][..n - 1];
        assert b[..n - 1] == b[..n][..n - 1];
      }
      assert a[n - 1] == a[..n][n - 1];
      assert b[n - 1] == b[..n][n - 1];
      CollectBeforeAgree(a, b, n - 1, f);
    }
  }

  /** One more line: its pattern, if it yields one, joins the collected ones. */
  lemma CollectStep(lines: seq<string>, i: nat, s: string)
    requires i < |lines| && s == Strip(lines[i])
    ensures CollectBefore(lines, i + 1, LinePattern)
      == CollectBefore(lines, i, LinePattern) + if s == [] || StartsWith(s, "#") then [] else [s]
  {
  }

  /** `load_extra_ignores`: the patterns of the ignore file, or none when
      there is no such file.  The file's text is given, read as UTF-8 with
      undecodable bytes dropped. */
  method LoadExtraIgnores(file: Option<string>) returns (ignores: seq<string>)
    ensures ignores == if file.None? then [] else KeptPatterns(SplitLines(file.value))
  {
    ignores := [];
    if file.Some? {
      ignores := FilterLines(SplitLines(file.value));
    }
  }

  /** The loop of `load_extra_ignores` over the file's lines: each stripped
      line that is neither blank nor a comment, in order. */
  method FilterLines(lines: seq<string>) returns (ignores: seq<string>)
    ensures ignores == KeptPatterns(lines)
  {
    ignores := [];
    var i := 0;
    while i < |lines|
      invariant 0 <= i <= |lines|
      invariant ignores == CollectBefore(lines, i, LinePattern)
    {
      ignores := FilterLine(lines, i, ignores);
      i := i + 1;
    }
  }

  /** One turn of that loop: the stripped line is skipped when it is blank
      or a comment, and appended otherwise. */
  method FilterLine(lines: seq<string>, i: nat, ignores: seq<string>) returns (ignores': seq<string>)
    requires i < |lines| && ignores == CollectBefore(lines, i, LinePattern)
    ensures ignores' == CollectBefore(lines, i + 1, LinePattern)
  {
    var s := Strip(lines[i]);
    CollectStep(lines, i, s);
    if s == [] || StartsWith(s, "#") {
      return ignores;
    }
    ignores' := ignores + [s];
  }
}
