/**
 * `build_tree` (RepoTool.py:137-178): the ASCII tree of the project's files,
 * in a ```text fence.  A file is given by the parts of its path relative to
 * the project root; a directory likewise, the root being the empty path.
 *
 * In every directory the subdirectories come first, then the files, each
 * group sorted by lower-cased name with a stable sort.  Python takes the
 * subdirectories from a set, so the order of two subdirectories whose names
 * are equal once lower-cased is left to the set; the model lists them in the
 * order the files first mention them.
 */
module Tree {
  import opened Text

  /** A path relative to the project root, as its parts. */
  type RelPath = seq<string>

  /** `Path.name`: the last part ("" for the root). */
  function NameOf(p: RelPath): string {
    if p == [] then "" else p[|p| - 1]
  }

  /** The sort key: the name, lower-cased. */
  function SortKey(p: RelPath): string {
    Lower(NameOf(p))
  }

  // ---------------------------------------------------------------------------
  // String order and the stable sort by name
  // ---------------------------------------------------------------------------

  /** Python's `a <= b` on strings, comparing from position i on: the first
      differing code point decides, and a prefix comes first. */
  predicate StrLeFrom(a: string, b: string, i: nat)
    decreases |a| - i
  {
    i >= |a| || (i < |b| && (a[i] < b[i] || (a[i] == b[i] && StrLeFrom(a, b, i + 1))))
  }

  /** Python's `a <= b` on strings: lexicographic by code point. */
  predicate StrLe(a: string, b: string) {
    StrLeFrom(a, b, 0)
  }

  /** Any two strings are ordered one way or the other. */
  lemma {:induction false} StrLeTotal(a: string, b: string, i: nat)
    requires i <= |a| && i <= |b|
    ensures StrLeFrom(a, b, i) || StrLeFrom(b, a, i)
    decreases |a| - i
  {
    if i < |a| && i < |b| && a[i] == b[i] {
      StrLeTotal(a, b, i + 1);
    }
  }

  /** The order is transitive. */
  lemma {:induction false} StrLeTrans(a: string, b: string, c: string, i: nat)
    requires StrLeFrom(a, b, i) && StrLeFrom(b, c, i)
    ensures StrLeFrom(a, c, i)
    decreases |a| - i
  {
    if i < |a| && i < |b| && i < |c| && a[i] == b[i] && b[i] == c[i] {
      StrLeTrans(a, b, c, i + 1);
    }
  }

  /** Sorted by the key, in Python's string order. */
  predicate SortedBy(xs: seq<RelPath>, key: RelPath -> string) {
    forall i, j | 0 <= i < j < |xs| :: StrLe(key(xs[i]), key(xs[j]))
  }

  /** Puts x after the last element whose key is not greater than its own, so
      that equal keys keep their order. */
  function InsertBy(ys: seq<RelPath>, x: RelPath, key: RelPath -> string): (r: seq<RelPath>)
    ensures |r| == |ys| + 1
    decreases |ys|
  {
    if ys == [] || StrLe(key(ys[|ys| - 1]), key(x)) then ys + [x]
    else InsertBy(ys[..|ys| - 1], x, key) + [ys[|ys| - 1]]
  }

  /** Inserting adds x and keeps everything else. */
  lemma {:induction false} InsertByPerm(ys: seq<RelPath>, x: RelPath, key: RelPath -> string)
    ensures multiset(InsertBy(ys, x, key)) == multiset(ys) + multiset{x}
    decreases |ys|
  {
    if !(ys == [] || StrLe(key(ys[|ys| - 1]), key(x))) {
      var init := ys[..|ys| - 1];
      assert ys == init + [ys[|ys| - 1]];
      InsertByPerm(init, x, key);
    }
  }

  /** Inserting into a sorted sequence keeps it sorted. */
  lemma {:induction false} InsertBySorted(ys: seq<RelPath>, x: RelPath, key: RelPath -> string)
    requires SortedBy(ys, key)
    ensures SortedBy(InsertBy(ys, x, key), key)
    decreases |ys|
  {
    if ys == [] || StrLe(key(ys[|ys| - 1]), key(x)) {
      var r := ys + [x];
      forall i, j | 0 <= i < j < |r|
        ensures StrLe(key(r[i]), key(r[j]))
      {
        if j == |ys| && i < |ys| - 1 {
          StrLeTrans(key(ys[i]), key(ys[|ys| - 1]), key(x), 0);
        }
      }
    } else {
      var last := ys[|ys| - 1];
      var init := ys[..|ys| - 1];
      InsertBySorted(init, x, key);
      InsertByPerm(init, x, key);
      var s := InsertBy(init, x, key);
      StrLeTotal(key(last), key(x), 0);
      var r := s + [last];
      forall i, j | 0 <= i < j < |r|
        ensures StrLe(key(r[i]), key(r[j]))
      {
        if j == |s| {
          assert r[i] in multiset(s);
          assert r[i] == x || r[i] in multiset(init);
          if r[i] != x {
            var k :| 0 <= k < |init| && init[k] == r[i];
            assert ys[k] == r[i];
          }
        }
      }
    }
  }

  /** The first n elements of xs, sorted by inserting each in turn. */
  function SortBefore(xs: seq<RelPath>, n: nat, key: RelPath -> string): (ys: seq<RelPath>)
    requires n <= |xs|
    ensures |ys| == n
  {
    if n == 0 then [] else InsertBy(SortBefore(xs, n - 1, key), xs[n - 1], key)
  }

  /** `sorted(xs, key=...)`: a stable insertion sort. */
  function SortBy(xs: seq<RelPath>, key: RelPath -> string): (ys: seq<RelPath>)
    ensures |ys| == |xs|
  {
    SortBefore(xs, |xs|, key)
  }

  /** The sorted prefix is a permutation of the prefix. */
  lemma {:induction false} SortBeforePerm(xs: seq<RelPath>, n: nat, key: RelPath -> string)
    requires n <= |xs|
    ensures multiset(SortBefore(xs, n, key)) == multiset(xs[..n])
  {
    if n > 0 {
      var prev := SortBefore(xs, n - 1, key);
      assert SortBefore(xs, n, key) == InsertBy(prev, xs[n - 1], key);
      SortBeforePerm(xs, n - 1, key);
      InsertByPerm(prev, xs[n - 1], key);
      assert multiset(xs[..n]) == multiset(xs[..n - 1]) + multiset{xs[n - 1]} by {
        assert xs[..n] == xs[..n - 1] + [xs[n - 1]];
      }
    }
  }

  /** The sorted prefix is sorted. */
  lemma {:induction false} SortBeforeSorted(xs: seq<RelPath>, n: nat, key: RelPath -> string)
    requires n <= |xs|
    ensures SortedBy(SortBefore(xs, n, key), key)
  {
    if n > 0 {
      SortBeforeSorted(xs, n - 1, key);
      InsertBySorted(SortBefore(xs, n - 1, key), xs[n - 1], key);
    }
  }

  /** The sort's result is a permutation of its input. */
  lemma SortByPerm(xs: seq<RelPath>, key: RelPath -> string)
    ensures multiset(SortBy(xs, key)) == multiset(xs)
  {
    SortBeforePerm(xs, |xs|, key);
    assert xs[..|xs|] == xs;
  }

  /** The sort's result is sorted. */
  lemma SortBySorted(xs: seq<RelPath>, key: RelPath -> string)
    ensures SortedBy(SortBy(xs, key), key)
  {
    SortBeforeSorted(xs, |xs|, key);
  }

  /** `sorted(..., key=lambda p: p.name.lower())`. */
  function SortByName(xs: seq<RelPath>): seq<RelPath> {
    SortBy(xs, SortKey)
  }

  // ---------------------------------------------------------------------------
  // Directories and their contents
  // ---------------------------------------------------------------------------

  /** Every file lies strictly below the root.  `build_tree` climbs from each
      file's parent to the root, and would climb forever otherwise. */
  predicate BelowRoot(files: seq<RelPath>) {
    forall f <- files :: f != []
  }

  /** `Path.parent` of a file. */
  function Parent(f: RelPath): RelPath
    requires f != []
  {
    f[..|f| - 1]
  }

  /** The depth of the deepest of the first n files. */
  function HeightBefore(files: seq<RelPath>, n: nat): (h: nat)
    requires n <= |files|
    ensures forall i | 0 <= i < n :: |files[i]| <= h
  {
    if n == 0 then 0
    else
      var t := HeightBefore(files, n - 1);
      if |files[n - 1]| > t then |files[n - 1]| else t
  }

  /** The deepest file's depth. */
  function Height(files: seq<RelPath>): (h: nat)
    ensures forall i | 0 <= i < |files| :: |files[i]| <= h
  {
    HeightBefore(files, |files|)
  }

  /** f[..m] for every m from k up to, not including, |f|: the directories
      from the file's parent up to the one k parts below the root. */
  function AncestorsFrom(f: RelPath, k: nat): set<RelPath>
    decreases |f| - k
  {
    if k >= |f| then {} else {f[..k]} + AncestorsFrom(f, k + 1)
  }

  /** The directories from the parents of the first n files up to the
      root. */
  function DirsBefore(files: seq<RelPath>, n: nat): set<RelPath>
    requires n <= |files|
  {
    if n == 0 then {} else DirsBefore(files, n - 1) + AncestorsFrom(files[n - 1], 0)
  }

  /** `all_dirs` (RepoTool.py:157-164): the parent of every file and every
      directory between it and the root, the root included. */
  function AllDirs(files: seq<RelPath>): set<RelPath> {
    DirsBefore(files, |files|)
  }

  lemma {:induction false} AncestorsFromHas(f: RelPath, k: nat, m: nat)
    requires k <= m < |f|
    ensures f[..m] in AncestorsFrom(f, k)
    decreases m - k
  {
    if k < m {
      AncestorsFromHas(f, k + 1, m);
    }
  }

  lemma {:induction false} AncestorsFromWitness(f: RelPath, k: nat, c: RelPath) returns (m: nat)
    requires c in AncestorsFrom(f, k)
    ensures k <= m < |f| && f[..m] == c
    decreases |f| - k
  {
    if c == f[..k] {
      m := k;
    } else {
      m := AncestorsFromWitness(f, k + 1, c);
    }
  }

  /** A directory is in `all_dirs` exactly when it is a proper prefix of some
      file's path. */
  lemma {:induction false} DirsBeforeWitness(files: seq<RelPath>, n: nat, c: RelPath) returns (i: nat, m: nat)
    requires n <= |files|
    requires c in DirsBefore(files, n)
    ensures i < n && m < |files[i]| && files[i][..m] == c
  {
    if c in DirsBefore(files, n - 1) {
      i, m := DirsBeforeWitness(files, n - 1, c);
    } else {
      i := n - 1;
      m := AncestorsFromWitness(files[n - 1], 0, c);
    }
  }

  lemma {:induction false} DirsBeforeHas(files: seq<RelPath>, n: nat, i: nat, m: nat)
    requires i < n <= |files|
    requires m < |files[i]|
    ensures files[i][..m] in DirsBefore(files, n)
  {
    if i == n - 1 {
      AncestorsFromHas(files[i], 0, m);
    } else {
      DirsBeforeHas(files, n - 1, i, m);
    }
  }

  /** The loop that builds `all_dirs`: for each file, climb from its parent to
      the root. */
  method CollectDirs(files: seq<RelPath>) returns (allDirs: set<RelPath>)
    requires BelowRoot(files)
    ensures allDirs == AllDirs(files)
  {
    allDirs := {};
    var i := 0;
    while i < |files|
      invariant 0 <= i <= |files|
      invariant allDirs == DirsBefore(files, i)
    {
      var f := files[i];
      assert f in files;
      var k := |f| - 1;
      while true
        invariant 0 <= k < |f|
        invariant allDirs == DirsBefore(files, i) + AncestorsFrom(f, k + 1)
        decreases k
      {
        allDirs := allDirs + {f[..k]};
        if k == 0 {
          break;
        }
        k := k - 1;
      }
      i := i + 1;
    }
  }

  /** The directory of d's children that holds file f, if f lies below a
      child of d. */
  predicate UnderChild(f: RelPath, d: RelPath) {
    |f| >= |d| + 2 && f[..|d|] == d
  }

  /** The children of d that hold some of the first n files, in the order the
      files first reach them, each once. */
  function ChildDirsBefore(files: seq<RelPath>, d: RelPath, n: nat): seq<RelPath>
    requires n <= |files|
  {
    if n == 0 then []
    else
      var prev := ChildDirsBefore(files, d, n - 1);
      var f := files[n - 1];
      if UnderChild(f, d) && f[..|d| + 1] !in prev then prev + [f[..|d| + 1]] else prev
  }

  /** Each listed child of d holds one of the first n files. */
  lemma {:induction false} ChildDirSource(files: seq<RelPath>, d: RelPath, n: nat, c: RelPath) returns (i: nat)
    requires n <= |files|
    requires c in ChildDirsBefore(files, d, n)
    ensures i < n && UnderChild(files[i], d) && files[i][..|d| + 1] == c
  {
    var prev := ChildDirsBefore(files, d, n - 1);
    if c in prev {
      i := ChildDirSource(files, d, n - 1, c);
    } else {
      i := n - 1;
    }
  }

  /** Each child of d that holds one of the first n files is listed. */
  lemma {:induction false} ChildDirListed(files: seq<RelPath>, d: RelPath, n: nat, i: nat)
    requires i < n <= |files|
    requires UnderChild(files[i], d)
    ensures files[i][..|d| + 1] in ChildDirsBefore(files, d, n)
  {
    if i < n - 1 {
      ChildDirListed(files, d, n - 1, i);
    }
  }

  /** No child is listed twice. */
  lemma {:induction false} ChildDirsDistinct(files: seq<RelPath>, d: RelPath, n: nat)
    requires n <= |files|
    ensures forall i, j | 0 <= i < j < |ChildDirsBefore(files, d, n)| ::
      ChildDirsBefore(files, d, n)[i] != ChildDirsBefore(files, d, n)[j]
  {
    if n > 0 {
      ChildDirsDistinct(files, d, n - 1);
    }
  }

  /** The files whose parent is d, in list order (`dirs[d]`). */
  function FilesInBefore(files: seq<RelPath>, d: RelPath, n: nat): seq<RelPath>
    requires n <= |files|
  {
    if n == 0 then []
    else
      var prev := FilesInBefore(files, d, n - 1);
      var f := files[n - 1];
      if f != [] && Parent(f) == d then prev + [f] else prev
  }

  function FilesIn(files: seq<RelPath>, d: RelPath): seq<RelPath> {
    FilesInBefore(files, d, |files|)
  }

  /** `dirs` after the first n files: each file appended to its parent's
      list. */
  function GroupsBefore(files: seq<RelPath>, n: nat): map<RelPath, seq<RelPath>>
    requires n <= |files|
    requires BelowRoot(files)
  {
    if n == 0 then map[]
    else
      var g := GroupsBefore(files, n - 1);
      assert files[n - 1] in files;
      var p := Parent(files[n - 1]);
      g[p := (if p in g then g[p] else []) + [files[n - 1]]]
  }

  /** The group of d is the list of files whose parent is d; a directory
      without files has no group. */
  lemma {:induction false} GroupsBeforeAt(files: seq<RelPath>, n: nat, d: RelPath)
    requires n <= |files|
    requires BelowRoot(files)
    ensures (if d in GroupsBefore(files, n) then GroupsBefore(files, n)[d] else []) == FilesInBefore(files, d, n)
  {
    if n > 0 {
      GroupsBeforeAt(files, n - 1, d);
      assert files[n - 1] in files;
    }
  }

  /** `children(d)`: the subdirectories, sorted by name. */
  function Subdirs(files: seq<RelPath>, d: RelPath): seq<RelPath> {
    SortByName(ChildDirsBefore(files, d, |files|))
  }

  /** `children(d)`: the files, sorted by name. */
  function Leafs(files: seq<RelPath>, d: RelPath): seq<RelPath> {
    SortByName(FilesIn(files, d))
  }

  /** A subdirectory is one level below d and above some file. */
  lemma SubdirBelow(files: seq<RelPath>, d: RelPath, k: nat)
    requires k < |Subdirs(files, d)|
    ensures |Subdirs(files, d)[k]| == |d| + 1 < Height(files)
    ensures Subdirs(files, d)[k][..|d|] == d
  {
    var cs := ChildDirsBefore(files, d, |files|);
    var c := Subdirs(files, d)[k];
    SortByPerm(cs, SortKey);
    assert c in multiset(cs);
    var i := ChildDirSource(files, d, |files|, c);
    assert |files[i]| <= Height(files);
  }

  /** The subdirectories of d are exactly the directories in `all_dirs` whose
      parent is d, each once, sorted by lower-cased name. */
  lemma SubdirsExact(files: seq<RelPath>, d: RelPath)
    ensures SortedBy(Subdirs(files, d), SortKey)
    ensures forall i, j | 0 <= i < j < |Subdirs(files, d)| :: Subdirs(files, d)[i] != Subdirs(files, d)[j]
    ensures forall c :: c in Subdirs(files, d) <==> c in AllDirs(files) && |c| == |d| + 1 && c[..|d|] == d
  {
    SortBySorted(ChildDirsBefore(files, d, |files|), SortKey);
    SubdirsDistinct(files, d);
    forall c
      ensures c in Subdirs(files, d) <==> c in AllDirs(files) && |c| == |d| + 1 && c[..|d|] == d
    {
      SubdirIff(files, d, c);
    }
  }

  lemma SubdirsDistinct(files: seq<RelPath>, d: RelPath)
    ensures forall i, j | 0 <= i < j < |Subdirs(files, d)| :: Subdirs(files, d)[i] != Subdirs(files, d)[j]
  {
    var cs := ChildDirsBefore(files, d, |files|);
    var ss := Subdirs(files, d);
    ChildDirsDistinct(files, d, |files|);
    forall i, j | 0 <= i < j < |ss|
      ensures ss[i] != ss[j]
    {
      if ss[i] == ss[j] {
        assert multiset(ss)[ss[i]] >= 2 by {
          assert ss == ss[..i] + [ss[i]] + ss[i + 1..j] + [ss[j]] + ss[j + 1..];
        }
        SortByPerm(cs, SortKey);
        DistinctCount(cs, ss[i]);
      }
    }
  }

  lemma SubdirIff(files: seq<RelPath>, d: RelPath, c: RelPath)
    ensures c in Subdirs(files, d) <==> c in AllDirs(files) && |c| == |d| + 1 && c[..|d|] == d
  {
    if c in Subdirs(files, d) {
      SubdirInAllDirs(files, d, c);
    }
    if c in AllDirs(files) && |c| == |d| + 1 && c[..|d|] == d {
      AllDirsChildIsSubdir(files, d, c);
    }
  }

  lemma SubdirInAllDirs(files: seq<RelPath>, d: RelPath, c: RelPath)
    requires c in Subdirs(files, d)
    ensures c in AllDirs(files) && |c| == |d| + 1 && c[..|d|] == d
  {
    var cs := ChildDirsBefore(files, d, |files|);
    SortByPerm(cs, SortKey);
    assert c in multiset(cs);
    var i := ChildDirSource(files, d, |files|, c);
    var f := files[i];
    DirsBeforeHas(files, |files|, i, |d| + 1);
    assert f[..|d| + 1][..|d|] == f[..|d|];
  }

  lemma AllDirsChildIsSubdir(files: seq<RelPath>, d: RelPath, c: RelPath)
    requires c in AllDirs(files) && |c| == |d| + 1 && c[..|d|] == d
    ensures c in Subdirs(files, d)
  {
    var cs := ChildDirsBefore(files, d, |files|);
    var i, k := DirsBeforeWitness(files, |files|, c);
    var f := files[i];
    assert f[..|d|] == c[..|d|];
    ChildDirListed(files, d, |files|, i);
    SortByPerm(cs, SortKey);
    assert c in multiset(cs);
  }

  /** An element of a sequence without repeats occurs in it once. */
  lemma {:induction false} DistinctCount(xs: seq<RelPath>, x: RelPath)
    requires forall i, j | 0 <= i < j < |xs| :: xs[i] != xs[j]
    ensures multiset(xs)[x] <= 1
    decreases |xs|
  {
    if xs != [] {
      DistinctCount(xs[1..], x);
      assert xs == [xs[0]] + xs[1..];
      if xs[0] == x {
        assert x !in xs[1..];
      }
    }
  }

  /** The files of d are those whose parent is d, sorted by lower-cased
      name. */
  lemma LeafsExact(files: seq<RelPath>, d: RelPath)
    ensures SortedBy(Leafs(files, d), SortKey)
    ensures multiset(Leafs(files, d)) == multiset(FilesIn(files, d))
  {
    SortByPerm(FilesIn(files, d), SortKey);
    SortBySorted(FilesIn(files, d), SortKey);
  }

  /** A subdirectory of d is named by a part of some file's path. */
  lemma SubdirNamed(files: seq<RelPath>, d: RelPath, k: nat)
    requires k < |Subdirs(files, d)|
    ensures exists f <- files :: |f| > |d| + 1 && f[..|d| + 1] == Subdirs(files, d)[k]
  {
    var c := Subdirs(files, d)[k];
    SortByPerm(ChildDirsBefore(files, d, |files|), SortKey);
    assert c in multiset(ChildDirsBefore(files, d, |files|));
    var i := ChildDirSource(files, d, |files|, c);
    assert files[i] in files;
  }

  /** The files listed for d are files whose parent is d. */
  lemma {:induction false} FilesInBeforeSound(files: seq<RelPath>, d: RelPath, n: nat)
    requires n <= |files|
    ensures forall x <- FilesInBefore(files, d, n) :: x in files && x != [] && Parent(x) == d
  {
    if n > 0 {
      FilesInBeforeSound(files, d, n - 1);
      assert files[n - 1] in files;
    }
  }

  // ---------------------------------------------------------------------------
  // walk
  // ---------------------------------------------------------------------------

  /** What `children(d)` returns: the subdirectories, then the files. */
  datatype Listing = Listing(subdirs: seq<RelPath>, leafs: seq<RelPath>)

  /** `children(d)`. */
  function Children(files: seq<RelPath>, d: RelPath): Listing {
    Listing(Subdirs(files, d), Leafs(files, d))
  }

  /** `children` as the walk sees it. */
  function ChildrenOf(files: seq<RelPath>): RelPath -> Listing {
    d => Children(files, d)
  }

  /** Every subdirectory is one level deeper than its directory, and no
      deeper than h: what makes the walk stop. */
  ghost predicate Descends(children: RelPath -> Listing, h: nat) {
    forall d: RelPath, k: nat | k < |children(d).subdirs| ::
      |children(d).subdirs[k]| == |d| + 1 <= h
  }

  /** The connector before an entry: the last entry of a directory closes
      the branch. */
  function Branch(last: bool): string {
    if last then "└── " else "├── "
  }

  /** What the entries below a subdirectory are indented by: a bar while
      more entries follow it. */
  function Indent(last: bool): string {
    if last then "    " else "│   "
  }

  /** The lines `walk(d, prefix)` appends: the subdirectories, each followed
      by its own walk, then the files. */
  function WalkLines(children: RelPath -> Listing, h: nat, d: RelPath, prefix: string): seq<string>
    requires Descends(children, h) && |d| <= h
    decreases h - |d|, |children(d).subdirs| + 1
  {
    var leafs := children(d).leafs;
    SubdirBlock(children, h, d, prefix, |children(d).subdirs|) + LeafBlock(prefix, leafs, |leafs|)
  }

  /** The lines for the first i subdirectories of d.  A subdirectory is the
      last entry of d when it is the last subdirectory and d has no files. */
  function SubdirBlock(children: RelPath -> Listing, h: nat, d: RelPath, prefix: string, i: nat): seq<string>
    requires Descends(children, h) && |d| <= h
    requires i <= |children(d).subdirs|
    decreases h - |d|, i
  {
    if i == 0 then []
    else
      var subs := children(d).subdirs;
      var last := i == |subs| && children(d).leafs == [];
      SubdirBlock(children, h, d, prefix, i - 1)
        + [prefix + Branch(last) + NameOf(subs[i - 1]) + "/"]
        + WalkLines(children, h, subs[i - 1], prefix + Indent(last))
  }

  /** One more subdirectory: its entry line, then its own walk. */
  lemma SubdirBlockStep(children: RelPath -> Listing, h: nat, d: RelPath, prefix: string, i: nat)
    requires Descends(children, h) && |d| <= h
    requires i < |children(d).subdirs|
    ensures |children(d).subdirs[i]| == |d| + 1 <= h
    ensures var subs := children(d).subdirs;
            var last := i == |subs| - 1 && children(d).leafs == [];
            SubdirBlock(children, h, d, prefix, i + 1)
              == SubdirBlock(children, h, d, prefix, i)
                 + [prefix + Branch(last) + NameOf(subs[i]) + "/"]
                 + WalkLines(children, h, subs[i], prefix + Indent(last))
  {
  }

  /** The lines for the first j files of a directory. */
  function LeafBlock(prefix: string, leafs: seq<RelPath>, j: nat): seq<string>
    requires j <= |leafs|
  {
    if j == 0 then []
    else LeafBlock(prefix, leafs, j - 1) + [prefix + Branch(j == |leafs|) + NameOf(leafs[j - 1])]
  }

  /** The children of every directory lie one level below it. */
  lemma ChildrenDescend(files: seq<RelPath>)
    ensures Descends(ChildrenOf(files), Height(files))
  {
    forall d: RelPath, k: nat | k < |ChildrenOf(files)(d).subdirs|
      ensures |ChildrenOf(files)(d).subdirs[k]| == |d| + 1 <= Height(files)
    {
      SubdirBelow(files, d, k);
    }
  }

  /** The tree's lines: the root's name, then the walk from the root. */
  function TreeLines(rootName: string, files: seq<RelPath>): seq<string> {
    ChildrenDescend(files);
    [rootName + "/"] + WalkLines(ChildrenOf(files), Height(files), [], "")
  }

  /** `build_tree`'s result: the lines in a ```text fence. */
  function TreeText(rootName: string, files: seq<RelPath>): string {
    "```text" + "\n" + Join(TreeLines(rootName, files), "\n") + "\n" + "```"
  }

  /** Regrouping appended lines (kept out of the methods, where the solver
      finds it costly). */
  lemma ConcatAssoc3(a: seq<string>, b: seq<string>, c: seq<string>)
    ensures a + b + c == a + (b + c)
  {
  }

  lemma ConcatAssoc(a: seq<string>, b: seq<string>, c: seq<string>, d: seq<string>)
    ensures a + b + c + d == a + (b + c + d)
  {
  }

  /** `walk(d, prefix, lines)`: appends d's entries to `lines`. */
  method Walk(files: seq<RelPath>, dirs: map<RelPath, seq<RelPath>>, ghost allDirs: set<RelPath>,
              d: RelPath, prefix: string, lines: seq<string>) returns (out: seq<string>)
    requires BelowRoot(files) && dirs == GroupsBefore(files, |files|) && allDirs == AllDirs(files)
    requires Descends(ChildrenOf(files), Height(files)) && |d| <= Height(files)
    ensures out == lines + WalkLines(ChildrenOf(files), Height(files), d, prefix)
    decreases Height(files) - |d|, 2
  {
    var group := if d in dirs then dirs[d] else [];
    GroupsBeforeAt(files, |files|, d);
    var leafs := SortByName(group);
    // The subdirectories are the collected directories one level below d.
    assert forall c :: c in Subdirs(files, d) <==> c in allDirs && |c| == |d| + 1 && c[..|d|] == d by {
      SubdirsExact(files, d);
    }
    out := WalkSubdirs(files, dirs, allDirs, d, prefix, leafs == [], lines);
    out := WalkLeafs(prefix, leafs, out);
    ghost var children := ChildrenOf(files);
    ghost var sub := SubdirBlock(children, Height(files), d, prefix, |children(d).subdirs|);
    ghost var leaf := LeafBlock(prefix, leafs, |leafs|);
    assert WalkLines(children, Height(files), d, prefix) == sub + leaf;
    ConcatAssoc3(lines, sub, leaf);
  }

  /** The first loop of `walk`: each subdirectory's entry, then its walk. */
  method WalkSubdirs(files: seq<RelPath>, dirs: map<RelPath, seq<RelPath>>, ghost allDirs: set<RelPath>,
                     d: RelPath, prefix: string, noLeafs: bool, lines: seq<string>) returns (out: seq<string>)
    requires BelowRoot(files) && dirs == GroupsBefore(files, |files|) && allDirs == AllDirs(files)
    requires Descends(ChildrenOf(files), Height(files)) && |d| <= Height(files)
    requires noLeafs == (Leafs(files, d) == [])
    ensures out == lines + SubdirBlock(ChildrenOf(files), Height(files), d, prefix, |Subdirs(files, d)|)
    decreases Height(files) - |d|, 1
  {
    var subdirs := Subdirs(files, d);
    out := lines;
    var i := 0;
    while i < |subdirs|
      invariant 0 <= i <= |subdirs|
      invariant out == lines + SubdirBlock(ChildrenOf(files), Height(files), d, prefix, i)
    {
      out := WalkSubdir(files, dirs, allDirs, d, prefix, noLeafs, i, lines, out);
      i := i + 1;
    }
  }

  /** One turn of that loop: the i-th subdirectory's entry, then its walk. */
  method WalkSubdir(files: seq<RelPath>, dirs: map<RelPath, seq<RelPath>>, ghost allDirs: set<RelPath>,
                    d: RelPath, prefix: string, noLeafs: bool, i: nat, ghost lines: seq<string>, sofar: seq<string>)
    returns (out: seq<string>)
    requires BelowRoot(files) && dirs == GroupsBefore(files, |files|) && allDirs == AllDirs(files)
    requires Descends(ChildrenOf(files), Height(files)) && |d| <= Height(files)
    requires noLeafs == (Leafs(files, d) == [])
    requires i < |Subdirs(files, d)|
    requires sofar == lines + SubdirBlock(ChildrenOf(files), Height(files), d, prefix, i)
    ensures out == lines + SubdirBlock(ChildrenOf(files), Height(files), d, prefix, i + 1)
    decreases Height(files) - |d|, 0
  {
    ghost var children := ChildrenOf(files);
    ghost var h := Height(files);
    var subdirs := Subdirs(files, d);
    assert children(d) == Listing(subdirs, Leafs(files, d));
    var last := i == |subdirs| - 1 && noLeafs;
    var entry := prefix + Branch(last) + NameOf(subdirs[i]) + "/";
    ghost var block := SubdirBlock(children, h, d, prefix, i);
    SubdirBlockStep(children, h, d, prefix, i);
    out := Walk(files, dirs, allDirs, subdirs[i], prefix + Indent(last), sofar + [entry]);
    ConcatAssoc(lines, block, [entry], WalkLines(children, h, subdirs[i], prefix + Indent(last)));
  }

  /** The second loop of `walk`: one entry per file. */
  method WalkLeafs(prefix: string, leafs: seq<RelPath>, lines: seq<string>) returns (out: seq<string>)
    ensures out == lines + LeafBlock(prefix, leafs, |leafs|)
  {
    out := lines;
    var j := 0;
    while j < |leafs|
      invariant 0 <= j <= |leafs|
      invariant out == lines + LeafBlock(prefix, leafs, j)
    {
      var isLast := j == |leafs| - 1;
      out := out + [prefix + Branch(isLast) + NameOf(leafs[j])];
      j := j + 1;
    }
  }

  /** `build_tree(root, files)`: groups the files by parent, collects the
      directories, walks from the root. */
  method BuildTree(rootName: string, files: seq<RelPath>) returns (tree: string)
    requires BelowRoot(files)
    ensures tree == TreeText(rootName, files)
  {
    var dirs: map<RelPath, seq<RelPath>> := map[];
    var i := 0;
    while i < |files|
      invariant 0 <= i <= |files|
      invariant dirs == GroupsBefore(files, i)
    {
      var f := files[i];
      assert f in files;
      var p := Parent(f);
      dirs := dirs[p := (if p in dirs then dirs[p] else []) + [f]];
      i := i + 1;
    }
    var allDirs := CollectDirs(files);
    ChildrenDescend(files);
    var lines := Walk(files, dirs, allDirs, [], "", [rootName + "/"]);
    tree := "```text" + "\n" + Join(lines, "\n") + "\n" + "```";
  }

  // ---------------------------------------------------------------------------
  // What the tree's lines look like
  // ---------------------------------------------------------------------------

  /** The first character of an entry after the prefix: a connector, or the
      bar or blank of a deeper indentation. */
  predicate IsTreeMark(c: char) {
    c == '├' || c == '└' || c == '│' || c == ' '
  }

  /** A line of the tree below a directory drawn with this prefix. */
  predicate Shaped(l: string, prefix: string) {
    |l| > |prefix| && l[..|prefix|] == prefix && IsTreeMark(l[|prefix|])
  }

  predicate AllShaped(ls: seq<string>, prefix: string) {
    forall l <- ls :: Shaped(l, prefix)
  }

  /** A file's entry: the prefix, then a connector, then the name. */
  lemma EntryShaped(prefix: string, last: bool, name: string)
    ensures AllShaped([prefix + Branch(last) + name], prefix)
  {
    var l := prefix + Branch(last) + name;
    assert l[..|prefix|] == prefix;
    assert l[|prefix|] == Branch(last)[0];
  }

  /** A subdirectory's entry: the same, with "/" after the name. */
  lemma DirEntryShaped(prefix: string, last: bool, name: string)
    ensures AllShaped([prefix + Branch(last) + name + "/"], prefix)
  {
    var l := prefix + Branch(last) + name + "/";
    assert l[..|prefix|] == prefix;
    assert l[|prefix|] == Branch(last)[0];
  }

  lemma AllShapedConcat(a: seq<string>, b: seq<string>, prefix: string)
    requires AllShaped(a, prefix) && AllShaped(b, prefix)
    ensures AllShaped(a + b, prefix)
  {
  }

  /** A line drawn with a longer prefix is drawn with the shorter one. */
  lemma DeeperShaped(ls: seq<string>, prefix: string, indent: string)
    requires indent != [] && IsTreeMark(indent[0])
    requires AllShaped(ls, prefix + indent)
    ensures AllShaped(ls, prefix)
  {
    forall l <- ls
      ensures Shaped(l, prefix)
    {
      var p2 := prefix + indent;
      assert l[..|p2|][..|prefix|] == l[..|prefix|];
      assert l[|prefix|] == p2[|prefix|];
    }
  }

  /** Every line of a walk is its prefix followed by a tree mark. */
  lemma {:induction false} WalkLinesShape(children: RelPath -> Listing, h: nat, d: RelPath, prefix: string)
    requires Descends(children, h) && |d| <= h
    ensures AllShaped(WalkLines(children, h, d, prefix), prefix)
    decreases h - |d|, |children(d).subdirs| + 1
  {
    var leafs := children(d).leafs;
    SubdirBlockShape(children, h, d, prefix, |children(d).subdirs|);
    LeafBlockShape(prefix, leafs, |leafs|);
    AllShapedConcat(SubdirBlock(children, h, d, prefix, |children(d).subdirs|), LeafBlock(prefix, leafs, |leafs|), prefix);
  }

  lemma {:induction false} SubdirBlockShape(children: RelPath -> Listing, h: nat, d: RelPath, prefix: string, i: nat)
    requires Descends(children, h) && |d| <= h
    requires i <= |children(d).subdirs|
    ensures AllShaped(SubdirBlock(children, h, d, prefix, i), prefix)
    decreases h - |d|, i
  {
    if i > 0 {
      var subs := children(d).subdirs;
      var last := i == |subs| && children(d).leafs == [];
      var sub := subs[i - 1];
      var p2 := prefix + Indent(last);
      var block := SubdirBlock(children, h, d, prefix, i - 1);
      var entry := [prefix + Branch(last) + NameOf(sub) + "/"];
      var below := WalkLines(children, h, sub, p2);
      SubdirBlockShape(children, h, d, prefix, i - 1);
      WalkLinesShape(children, h, sub, p2);
      DeeperShaped(below, prefix, Indent(last));
      DirEntryShaped(prefix, last, NameOf(sub));
      AllShapedConcat(block, entry, prefix);
      AllShapedConcat(block + entry, below, prefix);
    }
  }

  lemma {:induction false} LeafBlockShape(prefix: string, leafs: seq<RelPath>, j: nat)
    requires j <= |leafs|
    ensures AllShaped(LeafBlock(prefix, leafs, j), prefix)
  {
    if j > 0 {
      LeafBlockShape(prefix, leafs, j - 1);
      EntryShaped(prefix, j == |leafs|, NameOf(leafs[j - 1]));
      AllShapedConcat(LeafBlock(prefix, leafs, j - 1), [prefix + Branch(j == |leafs|) + NameOf(leafs[j - 1])], prefix);
    }
  }

  /** No part of any file's path holds a line break. */
  predicate NamesOneLine(files: seq<RelPath>) {
    forall f <- files :: NoNewline(f)
  }

  /** No entry's name holds a line break. */
  ghost predicate ListingsOneLine(children: RelPath -> Listing) {
    forall d: RelPath ::
      && (forall k | 0 <= k < |children(d).subdirs| :: '\n' !in NameOf(children(d).subdirs[k]))
      && (forall k | 0 <= k < |children(d).leafs| :: '\n' !in NameOf(children(d).leafs[k]))
  }

  lemma NoNewlineConcat(a: seq<string>, b: seq<string>)
    requires NoNewline(a) && NoNewline(b)
    ensures NoNewline(a + b)
  {
  }

  /** An entry of one-line pieces is one line. */
  lemma EntryOneLine(prefix: string, last: bool, name: string)
    requires '\n' !in prefix && '\n' !in name
    ensures NoNewline([prefix + Branch(last) + name])
  {
  }

  lemma DirEntryOneLine(prefix: string, last: bool, name: string)
    requires '\n' !in prefix && '\n' !in name
    ensures NoNewline([prefix + Branch(last) + name + "/"])
  {
  }

  /** With one-line names and prefix, every line of a walk is one line. */
  lemma {:induction false} WalkLinesOneLine(children: RelPath -> Listing, h: nat, d: RelPath, prefix: string)
    requires Descends(children, h) && |d| <= h
    requires ListingsOneLine(children) && '\n' !in prefix
    ensures NoNewline(WalkLines(children, h, d, prefix))
    decreases h - |d|, |children(d).subdirs| + 1
  {
    var leafs := children(d).leafs;
    SubdirBlockOneLine(children, h, d, prefix, |children(d).subdirs|);
    LeafBlockOneLine(prefix, leafs, |leafs|);
    NoNewlineConcat(SubdirBlock(children, h, d, prefix, |children(d).subdirs|), LeafBlock(prefix, leafs, |leafs|));
  }

  lemma {:induction false} SubdirBlockOneLine(children: RelPath -> Listing, h: nat, d: RelPath, prefix: string, i: nat)
    requires Descends(children, h) && |d| <= h
    requires i <= |children(d).subdirs|
    requires ListingsOneLine(children) && '\n' !in prefix
    ensures NoNewline(SubdirBlock(children, h, d, prefix, i))
    decreases h - |d|, i
  {
    if i > 0 {
      var subs := children(d).subdirs;
      var last := i == |subs| && children(d).leafs == [];
      var sub := subs[i - 1];
      var p2 := prefix + Indent(last);
      var block := SubdirBlock(children, h, d, prefix, i - 1);
      var entry := [prefix + Branch(last) + NameOf(sub) + "/"];
      var below := WalkLines(children, h, sub, p2);
      SubdirBlockOneLine(children, h, d, prefix, i - 1);
      WalkLinesOneLine(children, h, sub, p2);
      DirEntryOneLine(prefix, last, NameOf(sub));
      NoNewlineConcat(block, entry);
      NoNewlineConcat(block + entry, below);
    }
  }

  lemma {:induction false} LeafBlockOneLine(prefix: string, leafs: seq<RelPath>, j: nat)
    requires j <= |leafs|
    requires forall k | 0 <= k < |leafs| :: '\n' !in NameOf(leafs[k])
    requires '\n' !in prefix
    ensures NoNewline(LeafBlock(prefix, leafs, j))
  {
    if j > 0 {
      LeafBlockOneLine(prefix, leafs, j - 1);
      EntryOneLine(prefix, j == |leafs|, NameOf(leafs[j - 1]));
      NoNewlineConcat(LeafBlock(prefix, leafs, j - 1), [prefix + Branch(j == |leafs|) + NameOf(leafs[j - 1])]);
    }
  }

  /** A subdirectory's name is a part of some file's path. */
  lemma SubdirOneLine(files: seq<RelPath>, d: RelPath, k: nat)
    requires NamesOneLine(files) && k < |Subdirs(files, d)|
    ensures '\n' !in NameOf(Subdirs(files, d)[k])
  {
    SubdirNamed(files, d, k);
    var c := Subdirs(files, d)[k];
    var f :| f in files && |f| > |d| + 1 && f[..|d| + 1] == c;
    assert NameOf(c) == f[|d|];
    assert f[|d|] in f;
  }

  /** A file's name is the last part of its path. */
  lemma LeafOneLine(files: seq<RelPath>, d: RelPath, k: nat)
    requires NamesOneLine(files) && k < |Leafs(files, d)|
    ensures '\n' !in NameOf(Leafs(files, d)[k])
  {
    var x := Leafs(files, d)[k];
    FilesInBeforeSound(files, d, |files|);
    SortByPerm(FilesIn(files, d), SortKey);
    assert x in multiset(FilesIn(files, d));
    assert x in FilesIn(files, d);
    assert x in files;
    assert x[|x| - 1] in x;
  }

  /** One-line path parts give one-line entry names. */
  lemma ChildrenOneLine(files: seq<RelPath>)
    requires NamesOneLine(files)
    ensures ListingsOneLine(ChildrenOf(files))
  {
    forall d: RelPath
      ensures forall k | 0 <= k < |ChildrenOf(files)(d).subdirs| :: '\n' !in NameOf(ChildrenOf(files)(d).subdirs[k])
      ensures forall k | 0 <= k < |ChildrenOf(files)(d).leafs| :: '\n' !in NameOf(ChildrenOf(files)(d).leafs[k])
    {
      forall k | 0 <= k < |Subdirs(files, d)|
        ensures '\n' !in NameOf(Subdirs(files, d)[k])
      {
        SubdirOneLine(files, d, k);
      }
      forall k | 0 <= k < |Leafs(files, d)|
        ensures '\n' !in NameOf(Leafs(files, d)[k])
      {
        LeafOneLine(files, d, k);
      }
    }
  }

  /** With one-line names, every line of the tree is one line. */
  lemma TreeLinesOneLine(rootName: string, files: seq<RelPath>)
    requires '\n' !in rootName && NamesOneLine(files)
    ensures NoNewline(TreeLines(rootName, files))
  {
    ChildrenDescend(files);
    ChildrenOneLine(files);
    WalkLinesOneLine(ChildrenOf(files), Height(files), [], "");
    NoNewlineConcat([rootName + "/"], WalkLines(ChildrenOf(files), Height(files), [], ""));
  }

  /** Lines between an opening and a closing fence line, "\n"-joined. */
  lemma FencedJoin(tl: seq<string>, open: string, close: string)
    requires |tl| >= 1
    ensures open + "\n" + Join(tl, "\n") + "\n" + close == Join([open] + tl + [close], "\n")
  {
    JoinConcat([open], tl, "\n");
    JoinConcat([open] + tl, [close], "\n");
  }

  /** The tree's text, split at line breaks, is the opening fence, the root's
      line, the walk's lines and the closing fence. */
  lemma TreeTextLines(rootName: string, files: seq<RelPath>)
    requires '\n' !in rootName && NamesOneLine(files)
    ensures Split(TreeText(rootName, files)) == ["```text"] + TreeLines(rootName, files) + ["```"]
  {
    var tl := TreeLines(rootName, files);
    FencedJoin(tl, "```text", "```");
    TreeLinesOneLine(rootName, files);
    NoNewlineConcat(["```text"], tl);
    NoNewlineConcat(["```text"] + tl, ["```"]);
    SplitJoin(["```text"] + tl + ["```"]);
  }
}
