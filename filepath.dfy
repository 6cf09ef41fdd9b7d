/** The parts of Go's `path/filepath` that groot uses, for slash-separated
    paths: `Ext`, `Base`, `Dir` and `Join`. `Dir` and `Join` are modelled for
    clean paths (no `.`/`..` elements, no doubled or trailing separators),
    which is what `filepath.Abs` and `filepath.WalkDir` hand to groot. */
module FilePath {

  const Separator: char := '/'

  /** A directory entry name as the operating system reports it. */
  predicate ValidName(name: string) {
    name != [] && Separator !in name
  }

  /** A clean directory path: non-empty, and ending in a separator only when
      it is the file-system root itself. */
  predicate CleanDir(dir: string) {
    dir != [] && (dir == [Separator] || dir[|dir| - 1] != Separator)
  }

  /** Index of the last separator in `s`, or -1 when there is none. */
  function LastSeparator(s: string): (i: int)
    ensures -1 <= i < |s|
    ensures i >= 0 ==> s[i] == Separator
    ensures forall k :: i < k < |s| ==> s[k] != Separator
  {
    if s == [] then -1
    else if s[|s| - 1] == Separator then |s| - 1
    else LastSeparator(s[..|s| - 1])
  }

  /** `filepath.Ext`: the suffix of the final path element that starts at its
      last dot, or "" when the final element has no dot. */
  function Ext(path: string): (r: string)
    ensures |r| <= |path| && r == path[|path| - |r|..]
    ensures r == [] || r[0] == '.'
    ensures Separator !in r
    ensures forall i :: 0 < i < |r| ==> r[i] != '.'
    ensures r == [] ==> forall i :: LastSeparator(path) < i < |path| ==> path[i] != '.'
  {
    if path == [] || path[|path| - 1] == Separator then []
    else if path[|path| - 1] == '.' then ['.']
    else
      var e := Ext(path[..|path| - 1]);
      if e == [] then [] else e + [path[|path| - 1]]
  }

  function StripTrailingSeparators(s: string): (r: string)
    ensures |r| <= |s| && r == s[..|r|]
    ensures r == [] || r[|r| - 1] != Separator
  {
    if s != [] && s[|s| - 1] == Separator then StripTrailingSeparators(s[..|s| - 1]) else s
  }

  /** `filepath.Base`: the last element of the path, trailing separators
      removed; "." for the empty path and "/" for a path of separators. */
  function Base(path: string): (r: string)
    ensures path == [] ==> r == "."
    ensures path != [] ==> r != []
    ensures path != [] && r != [Separator] ==> Separator !in r
  {
    if path == [] then "."
    else
      var p := StripTrailingSeparators(path);
      if p == [] then [Separator] else p[LastSeparator(p) + 1..]
  }

  /** `filepath.Dir` on a clean path: everything before the last separator,
      "/" when that separator is the leading one, "." when there is none. */
  function Dir(path: string): string {
    var i := LastSeparator(path);
    if i < 0 then "." else if i == 0 then [Separator] else path[..i]
  }

  /** `filepath.Join(dir, name)` for a clean directory and an entry name. */
  function Join(dir: string, name: string): (r: string)
    ensures |r| >= |dir| + |name| && r[..|dir|] == dir
  {
    if dir != [] && dir[|dir| - 1] == Separator then dir + name else dir + [Separator] + name
  }

  lemma LastSeparatorOfJoin(dir: string, name: string)
    requires CleanDir(dir) && ValidName(name)
    ensures LastSeparator(Join(dir, name)) == |Join(dir, name)| - |name| - 1
  {
    var p := Join(dir, name);
    var i := |p| - |name| - 1;
    assert p[i] == Separator;
    assert p[i + 1..] == name;
    LastSeparatorIs(p, i);
  }

  lemma {:induction false} LastSeparatorIs(s: string, i: int)
    requires 0 <= i < |s| && s[i] == Separator
    requires forall k :: i < k < |s| ==> s[k] != Separator
    ensures LastSeparator(s) == i
  {
    if s[|s| - 1] != Separator {
      LastSeparatorIs(s[..|s| - 1], i);
    }
  }

  /** Joining an entry name onto a clean directory gives a longer clean
      path. */
  lemma JoinIsClean(dir: string, name: string)
    requires CleanDir(dir) && ValidName(name)
    ensures CleanDir(Join(dir, name)) && |Join(dir, name)| > |dir|
  {
    var p := Join(dir, name);
    assert p[|p| - 1] == name[|name| - 1];
  }

  /** The walk's parent lookup is sound: the directory of a joined path is the
      directory it was joined onto. */
  lemma DirOfJoin(dir: string, name: string)
    requires CleanDir(dir) && ValidName(name)
    ensures Dir(Join(dir, name)) == dir
  {
    LastSeparatorOfJoin(dir, name);
  }

  /** The base of a joined path is the entry name. */
  lemma BaseOfJoin(dir: string, name: string)
    requires CleanDir(dir) && ValidName(name)
    ensures Base(Join(dir, name)) == name
  {
    var p := Join(dir, name);
    assert StripTrailingSeparators(p) == p;
    LastSeparatorOfJoin(dir, name);
  }

  /** The extension of a joined path is the extension of the entry name. */
  lemma {:induction false} ExtOfJoin(dir: string, name: string)
    requires ValidName(name)
    ensures Ext(Join(dir, name)) == Ext(name)
  {
    var p := Join(dir, name);
    ExtOfSuffix(p, |p| - |name|);
  }

  lemma {:induction false} ExtOfSuffix(p: string, k: nat)
    requires 0 < k <= |p| && p[k - 1] == Separator && Separator !in p[k..]
    ensures Ext(p) == Ext(p[k..])
    decreases |p|
  {
    if k == |p| {
      assert p[k..] == [];
    } else {
      var q := p[..|p| - 1];
      assert p[k..][..|p[k..]| - 1] == q[k..];
      if p[|p| - 1] != '.' {
        ExtOfSuffix(q, k);
      }
    }
  }

  /** A dot followed by characters that are neither dots nor separators. */
  predicate DottedSuffix(e: string) {
    |e| >= 1 && e[0] == '.' && forall i :: 1 <= i < |e| ==> e[i] != '.' && e[i] != Separator
  }

  /** Such a suffix is the extension of any path it ends. */
  lemma {:induction false} ExtOfDottedSuffix(p: string, e: string)
    requires DottedSuffix(e)
    ensures Ext(p + e) == e
    decreases |e|
  {
    if |e| > 1 {
      var e' := e[..|e| - 1];
      assert (p + e)[..|p + e| - 1] == p + e';
      ExtOfDottedSuffix(p, e');
    }
  }
}
