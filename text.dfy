/**
 * String helpers shared by the model, with the meaning Python gives them:
 * whitespace as str.isspace() sees it, str.strip/lstrip/rstrip, splitting
 * and joining on "\n", str.splitlines restricted to "\n" as the only line
 * boundary, and lower-casing (ASCII letters only).
 */
module Text {

  /** Python's str.isspace(): also what `\s` matches in a str pattern and what
      str.strip() removes. */
  predicate IsSpace(c: char) {
    || ('\U{9}' <= c <= '\U{D}')
    || ('\U{1C}' <= c <= '\U{20}')
    || c == '\U{85}' || c == '\U{A0}' || c == '\U{1680}'
    || ('\U{2000}' <= c <= '\U{200A}')
    || c == '\U{2028}' || c == '\U{2029}' || c == '\U{202F}' || c == '\U{205F}'
    || c == '\U{3000}'
  }

  predicate AllSpace(s: string) {
    forall i | 0 <= i < |s| :: IsSpace(s[i])
  }

  predicate StartsWith(s: string, p: string) {
    |p| <= |s| && s[..|p|] == p
  }

  predicate EndsWith(s: string, p: string) {
    |p| <= |s| && s[|s| - |p|..] == p
  }

  /** Python's `p in s` for strings. */
  predicate Contains(s: string, p: string)
    decreases |s|
  {
    StartsWith(s, p) || (s != [] && Contains(s[1..], p))
  }

  /** str.rfind for one character: the last index holding c, or -1. */
  function RFind(s: string, c: char): (i: int)
    ensures -1 <= i < |s|
    ensures i >= 0 ==> s[i] == c
    ensures forall j | i < j < |s| :: s[j] != c
    decreases |s|
  {
    if s == [] then -1 else if s[|s| - 1] == c then |s| - 1 else RFind(s[..|s| - 1], c)
  }

  /** Where the run of whitespace that ends at j starts. */
  function SpaceRunStart(s: string, j: nat): (k: nat)
    requires j <= |s|
    ensures k <= j
    ensures forall i | k <= i < j :: IsSpace(s[i])
    ensures k == 0 || !IsSpace(s[k - 1])
  {
    if j > 0 && IsSpace(s[j - 1]) then SpaceRunStart(s, j - 1) else j
  }

  /** str.rstrip(): drops the trailing whitespace run and nothing else. */
  function RStrip(s: string): (r: string)
    ensures |r| <= |s| && r == s[..|r|]
    ensures AllSpace(s[|r|..])
    ensures r == [] || !IsSpace(r[|r| - 1])
  {
    var k := SpaceRunStart(s, |s|);
    assert forall i | 0 <= i < |s| - k :: s[k..][i] == s[k + i];
    s[..k]
  }

  /** A string with no whitespace at either end. */
  predicate IsStripped(s: string) {
    s == [] || (!IsSpace(s[0]) && !IsSpace(s[|s| - 1]))
  }

  /** Every character from i up to j is whitespace. */
  predicate SpaceBetween(s: string, i: nat, j: nat)
    requires i <= j <= |s|
  {
    forall k | i <= k < j :: IsSpace(s[k])
  }

  /** r is the part of s[b..e] that starts at a, and only whitespace lies
      around it within s[b..e]. */
  predicate TrimmedAt(s: string, b: nat, e: nat, r: string, a: nat) {
    && b <= a && a + |r| <= e <= |s|
    && r == s[a..a + |r|]
    && SpaceBetween(s, b, a) && SpaceBetween(s, a + |r|, e)
  }

  /** str.strip(): the text between b and e without the whitespace runs at
      either end. */
  function StripBetween(s: string, b: nat, e: nat): (r: string)
    requires b <= e <= |s|
    ensures IsStripped(r)
    ensures exists a :: TrimmedAt(s, b, e, r, a)
    decreases e - b
  {
    if b < e && IsSpace(s[b]) then
      var r := StripBetween(s, b + 1, e);
      var a :| TrimmedAt(s, b + 1, e, r, a);
      assert TrimmedAt(s, b, e, r, a);
      r
    else if b < e && IsSpace(s[e - 1]) then
      var r := StripBetween(s, b, e - 1);
      var a :| TrimmedAt(s, b, e - 1, r, a);
      assert TrimmedAt(s, b, e, r, a);
      r
    else
      assert TrimmedAt(s, b, e, s[b..e], b);
      s[b..e]
  }

  /** str.strip(): the input with its leading and trailing whitespace runs
      removed, so that what is left starts and ends with non-whitespace. */
  function Strip(s: string): (r: string)
    ensures IsStripped(r)
    ensures exists a :: TrimmedAt(s, 0, |s|, r, a)
  {
    StripBetween(s, 0, |s|)
  }

  lemma StripFixesStripped(s: string)
    requires IsStripped(s)
    ensures Strip(s) == s
  {
  }

  /** Stripping twice is stripping once. */
  lemma StripIdempotent(s: string)
    ensures Strip(Strip(s)) == Strip(s)
  {
    StripFixesStripped(Strip(s));
  }

  /** `s.split("\n")`: always at least one piece, and no piece holds a "\n". */
  function Split(s: string): (r: seq<string>)
    ensures |r| >= 1
    ensures forall l <- r :: '\n' !in l
  {
    SplitFrom(s, 0)
  }

  /** The pieces of the text from index i on. */
  function SplitFrom(s: string, i: nat): (r: seq<string>)
    requires i <= |s|
    ensures |r| >= 1
    ensures forall l <- r :: '\n' !in l
    decreases |s| - i
  {
    if i == |s| then [""]
    else if s[i] == '\n' then [""] + SplitFrom(s, i + 1)
    else
      var t := SplitFrom(s, i + 1);
      [[s[i]] + t[0]] + t[1..]
  }

  /** `sep.join(ls)`. */
  function Join(ls: seq<string>, sep: string): string
    decreases |ls|
  {
    if |ls| == 0 then ""
    else if |ls| == 1 then ls[0]
    else ls[0] + sep + Join(ls[1..], sep)
  }

  /** Every line followed by "\n": the text between two line starts. */
  function Terminated(ls: seq<string>): string
    decreases |ls|
  {
    if ls == [] then "" else ls[0] + "\n" + Terminated(ls[1..])
  }

  /** `s.splitlines()` when "\n" is the only line boundary: no piece for a
      trailing "\n", and none at all for the empty string. */
  function SplitLines(s: string): (r: seq<string>)
    ensures forall l <- r :: '\n' !in l
  {
    if s == [] then [] else DropEmptyLast(Split(s))
  }

  /** The pieces without a last empty one. */
  function DropEmptyLast(p: seq<string>): seq<string>
    requires |p| >= 1
  {
    if p[|p| - 1] == "" then p[..|p| - 1] else p
  }

  /** The lines of each string in turn, as splitting their "\n"-join gives them. */
  function SplitAll(es: seq<string>): seq<string>
    decreases |es|
  {
    if es == [] then [] else Split(es[0]) + SplitAll(es[1..])
  }

  predicate NoNewline(ls: seq<string>) {
    forall l <- ls :: '\n' !in l
  }

  function LowerChar(c: char): char {
    if 'A' <= c <= 'Z' then (c as int + 32) as char else c
  }

  /** A character `str.splitlines` breaks at besides "\n": "\r", "\v", "\f",
      the three separators "\x1c" to "\x1e", NEL, LINE SEPARATOR and
      PARAGRAPH SEPARATOR. */
  predicate IsOtherLineBreak(c: char) {
    || c == '\r' || c == '\U{B}' || c == '\U{C}'
    || ('\U{1C}' <= c <= '\U{1E}')
    || c == '\U{85}' || c == '\U{2028}' || c == '\U{2029}'
  }

  /** A text whose only line breaks, for `str.splitlines`, are "\n". */
  predicate OnlyNewlineBreaks(s: string) {
    forall i | 0 <= i < |s| :: !IsOtherLineBreak(s[i])
  }

  /** An ASCII capital letter. */
  predicate IsUpper(c: char) {
    'A' <= c <= 'Z'
  }

  /** str.lower() on ASCII letters; other characters are kept. */
  function Lower(s: string): (r: string)
    ensures |r| == |s|
    ensures forall i | 0 <= i < |s| :: r[i] == LowerChar(s[i])
  {
    seq(|s|, i requires 0 <= i < |s| => LowerChar(s[i]))
  }

  /** Lower-casing leaves no capital letter and changes a text without
      one not at all. */
  lemma LowerRemovesCapitals(s: string)
    ensures forall i | 0 <= i < |s| :: !IsUpper(Lower(s)[i])
    ensures (forall i | 0 <= i < |s| :: !IsUpper(s[i])) ==> Lower(s) == s
  {
  }

  // ---------------------------------------------------------------------------
  // Splitting and joining are inverse to each other.
  // ---------------------------------------------------------------------------

  /** The pieces of a text after a prefix do not depend on the prefix. */
  lemma {:induction false} SplitFromShift(p: string, q: string, j: nat)
    requires j <= |q|
    ensures SplitFrom(p + q, |p| + j) == SplitFrom(q, j)
    decreases |q| - j
  {
    if j < |q| {
      SplitFromShift(p, q, j + 1);
      assert (p + q)[|p| + j] == q[j];
    }
  }

  /** Splitting a text that starts with c: the split of the rest, with c
      opening a new first piece or put before the first piece. */
  lemma SplitCons(c: char, r: string)
    ensures Split([c] + r) == if c == '\n' then [""] + Split(r) else [[c] + Split(r)[0]] + Split(r)[1..]
  {
    SplitFromShift([c], r, 0);
    assert ([c] + r)[0] == c;
  }

  lemma {:induction false} SplitNoNewline(s: string)
    requires '\n' !in s
    ensures Split(s) == [s]
    decreases |s|
  {
    if s != [] {
      var r := s[1..];
      assert s == [s[0]] + r;
      SplitNoNewline(r);
      SplitCons(s[0], r);
    }
  }

  /** Splitting at one "\n" splits the two sides independently. */
  lemma {:induction false} SplitConcat(a: string, b: string)
    ensures Split(a + "\n" + b) == Split(a) + Split(b)
    decreases |a|
  {
    if a == [] {
      assert a + "\n" + b == ['\n'] + b;
      SplitCons('\n', b);
    } else {
      var rest := a[1..];
      assert a == [a[0]] + rest;
      assert a + "\n" + b == [a[0]] + (rest + "\n" + b);
      SplitConcat(rest, b);
      SplitCons(a[0], rest + "\n" + b);
      SplitCons(a[0], rest);
    }
  }

  /** Joining the pieces of a split gives the text back. */
  lemma {:induction false} JoinSplit(s: string)
    ensures Join(Split(s), "\n") == s
    decreases |s|
  {
    if s != [] {
      var r := s[1..];
      assert s == [s[0]] + r;
      JoinSplit(r);
      SplitCons(s[0], r);
      var t := Split(r);
      if s[0] == '\n' {
        assert ([""] + t)[1..] == t;
      } else {
        var u := [[s[0]] + t[0]] + t[1..];
        assert u[1..] == t[1..];
        if |t| > 1 {
          assert Join(t, "\n") == t[0] + "\n" + Join(t[1..], "\n");
        }
      }
    }
  }

  /** Splitting the join of newline-free lines gives the lines back. */
  lemma {:induction false} SplitJoin(ls: seq<string>)
    requires |ls| >= 1
    requires NoNewline(ls)
    ensures Split(Join(ls, "\n")) == ls
    decreases |ls|
  {
    SplitNoNewline(ls[0]);
    if |ls| > 1 {
      SplitJoin(ls[1..]);
      SplitConcat(ls[0], Join(ls[1..], "\n"));
      assert [ls[0]] + ls[1..] == ls;
    }
  }

  /** Splitting a "\n"-join splits each joined string in turn. */
  lemma {:induction false} SplitJoinAll(es: seq<string>)
    requires |es| >= 1
    ensures Split(Join(es, "\n")) == SplitAll(es)
    decreases |es|
  {
    if |es| == 1 {
      assert SplitAll(es) == Split(es[0]) + SplitAll([]);
    } else {
      SplitJoinAll(es[1..]);
      SplitConcat(es[0], Join(es[1..], "\n"));
    }
  }

  lemma {:induction false} SplitAllConcat(a: seq<string>, b: seq<string>)
    ensures SplitAll(a + b) == SplitAll(a) + SplitAll(b)
    decreases |a|
  {
    if a != [] {
      SplitAllConcat(a[1..], b);
      assert (a + b)[1..] == a[1..] + b;
    } else {
      assert a + b == b;
    }
  }

  /** Joining two non-empty runs of strings puts one separator between them. */
  lemma {:induction false} JoinConcat(a: seq<string>, b: seq<string>, sep: string)
    requires |a| >= 1 && |b| >= 1
    ensures Join(a + b, sep) == Join(a, sep) + sep + Join(b, sep)
    decreases |a|
  {
    if |a| > 1 {
      JoinConcat(a[1..], b, sep);
      assert (a + b)[1..] == a[1..] + b;
    } else {
      assert (a + b)[1..] == b;
    }
  }

  /** Splitting newline-terminated lines gives them back and one empty piece. */
  lemma {:induction false} SplitTerminated(ls: seq<string>)
    requires NoNewline(ls)
    ensures Split(Terminated(ls)) == ls + [""]
    decreases |ls|
  {
    if ls != [] {
      SplitTerminated(ls[1..]);
      SplitConcat(ls[0], Terminated(ls[1..]));
      SplitNoNewline(ls[0]);
      assert [ls[0]] + (ls[1..] + [""]) == ls + [""];
    }
  }

  lemma {:induction false} TerminatedConcat(a: seq<string>, b: seq<string>)
    ensures Terminated(a + b) == Terminated(a) + Terminated(b)
    decreases |a|
  {
    if a != [] {
      TerminatedConcat(a[1..], b);
      assert (a + b)[1..] == a[1..] + b;
    } else {
      assert a + b == b;
    }
  }

  /** The join of the lines from index i on starts right after the terminated
      lines before i. */
  lemma {:induction false} JoinAt(ls: seq<string>, i: nat)
    requires i < |ls|
    ensures Join(ls, "\n") == Terminated(ls[..i]) + Join(ls[i..], "\n")
    decreases i
  {
    if i > 0 {
      JoinAt(ls, i - 1);
      assert ls[..i] == ls[..i - 1] + [ls[i - 1]];
      TerminatedConcat(ls[..i - 1], [ls[i - 1]]);
      assert ls[i - 1..][1..] == ls[i..];
    }
  }

  /** Concatenation is associative. */
  lemma Assoc<T>(a: seq<T>, b: seq<T>, c: seq<T>)
    ensures a + (b + c) == a + b + c
  {
  }

  /** The lines up to e, terminated, are those up to h, line h, a "\n" and
      the lines strictly between h and e, terminated. */
  lemma TerminatedSplitAt(ls: seq<string>, h: nat, e: nat)
    requires h < e <= |ls|
    ensures Terminated(ls[..e]) == Terminated(ls[..h]) + ls[h] + "\n" + Terminated(ls[h + 1..e])
  {
    assert ls[..e] == ls[..h] + [ls[h]] + ls[h + 1..e];
    TerminatedConcat(ls[..h] + [ls[h]], ls[h + 1..e]);
    TerminatedConcat(ls[..h], [ls[h]]);
  }

  /** The join from line h on is line h, then a "\n" and the join of the rest
      if there is a rest. */
  lemma JoinFrom(ls: seq<string>, h: nat)
    requires h < |ls|
    ensures Join(ls[h..], "\n") == ls[h] + if h + 1 < |ls| then "\n" + Join(ls[h + 1..], "\n") else ""
  {
    assert ls[h..][1..] == ls[h + 1..];
  }

  /** A line end, then newline-terminated lines: an empty piece, the lines
      and an empty piece. */
  lemma SplitAfterEnd(ls: seq<string>)
    requires NoNewline(ls)
    ensures Split("\n" + Terminated(ls)) == [""] + ls + [""]
  {
    assert "\n" + Terminated(ls) == ['\n'] + Terminated(ls);
    SplitCons('\n', Terminated(ls));
    SplitTerminated(ls);
  }

  /** A line end, then joined lines: an empty piece and the lines. */
  lemma SplitAfterLastEnd(ls: seq<string>)
    requires |ls| >= 1 && NoNewline(ls)
    ensures Split("\n" + Join(ls, "\n")) == [""] + ls
  {
    assert "\n" + Join(ls, "\n") == ['\n'] + Join(ls, "\n");
    SplitCons('\n', Join(ls, "\n"));
    SplitJoin(ls);
  }

  /** The text after a line end, up to the start of line e: its lines are an
      empty first line and the lines in between. */
  lemma SplitLinesAfterEnd(ls: seq<string>)
    requires NoNewline(ls)
    ensures SplitLines("\n" + Terminated(ls)) == [""] + ls
  {
    SplitAfterEnd(ls);
    assert ([""] + ls + [""])[..|ls| + 1] == [""] + ls;
  }

  /** The text after a line end, up to the end of the text. */
  lemma SplitLinesAfterLastEnd(ls: seq<string>)
    requires |ls| >= 1 && NoNewline(ls)
    ensures SplitLines("\n" + Join(ls, "\n")) == DropEmptyLast([""] + ls)
  {
    SplitAfterLastEnd(ls);
  }
}
