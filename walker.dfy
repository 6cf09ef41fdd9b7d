/** Tree construction (internal/walker/walker.go): the ignore patterns are
    layered, the file system is walked once in pre-order with a
    path-to-directory lookup that attaches every kept entry to its already
    created parent, ignored directories are pruned, and finally every
    directory's children are sorted, directories first and then by name.

    The file system is a rose tree of `FsEntry`. `filepath.WalkDir` visits it
    in pre-order; the model flattens the tree into that visiting order, each
    event carrying the number of events below it, so that returning
    `filepath.SkipDir` for a directory is a jump over its subtree. The
    gitignore matcher is a function of the pattern list and a path that the
    model does not interpret. */
module Walker {
  import opened Wrappers
  import opened Model
  import Text
  import FilePath
  import Sorting

  // ---------------------------------------------------------------------
  // Ignore patterns
  // ---------------------------------------------------------------------

  const DefaultIgnorePatterns: seq<string> := [
    ".DS_Store", "*.log", "*.lock",
    ".git",
    ".vscode", ".idea",
    "node_modules", ".next", "dist", "build", "coverage",
    "vendor",
    "__pycache__", ".venv", "venv", "*.pyc", ".env",
    "target", ".gradle",
    "tmp", "log",
    "_build", "deps"
  ]

  /** The pattern list handed to the matcher: the defaults, then the user's
      skip list, then the lines of the root's `.gitignore` when it could be
      stat'ed and read (`gitignore` is None otherwise). Later sources are only
      ever appended, so every default and every user pattern stays in force,
      and a missing `.gitignore` adds nothing. */
  function CombinePatterns(custom: seq<string>, gitignore: Option<string>): (r: seq<string>)
    ensures |r| >= |DefaultIgnorePatterns| + |custom|
    ensures r[..|DefaultIgnorePatterns|] == DefaultIgnorePatterns
    ensures r[|DefaultIgnorePatterns|..|DefaultIgnorePatterns| + |custom|] == custom
    ensures gitignore.None? ==> |r| == |DefaultIgnorePatterns| + |custom|
    ensures gitignore.Some? ==>
      r[|DefaultIgnorePatterns| + |custom|..] == Text.Split(gitignore.value, '\n') &&
      |r| == |DefaultIgnorePatterns| + |custom| + Text.Count(gitignore.value, '\n') + 1
  {
    var patterns := DefaultIgnorePatterns + custom;
    if gitignore.Some? then patterns + Text.Split(gitignore.value, '\n') else patterns
  }

  // ---------------------------------------------------------------------
  // The file system and its pre-order walk
  // ---------------------------------------------------------------------

  /** A file-system entry; `readable` says whether listing a directory
      succeeds, and `children` are a directory's entries in the order
      `os.ReadDir` reports them. */
  datatype FsEntry = FsEntry(name: string, isDir: bool, readable: bool, children: seq<FsEntry>)

  /** One visit of `filepath.WalkDir`: the entry's joined path, its name and
      kind, and `size`, the number of visits below it. */
  datatype Event = Event(path: string, name: string, isDir: bool, readable: bool, size: nat)

  /** The visits of `e` (at `path`) and everything below it, in pre-order. */
  function Flatten(e: FsEntry, path: string): (r: seq<Event>)
    ensures |r| >= 1 && r[0].path == path && r[0].size == |r| - 1
    decreases e, 1
  {
    var below := if e.isDir then FlattenAll(e.children, path) else [];
    [Event(path, e.name, e.isDir, e.readable, |below|)] + below
  }

  /** The visits of the entries of directory `dir`, one subtree after the
      other. */
  function FlattenAll(es: seq<FsEntry>, dir: string): seq<Event>
    decreases es, 0
  {
    if es == [] then []
    else Flatten(es[0], FilePath.Join(dir, es[0].name)) + FlattenAll(es[1..], dir)
  }

  /** The visits below the root, or none when the root is a file; their
      subtrees are properly nested. */
  function Events(absRoot: string, root: FsEntry): (r: seq<Event>)
    ensures WellNested(r)
  {
    if root.isDir then
      FlattenAllWellNested(root.children, absRoot);
      FlattenAll(root.children, absRoot)
    else []
  }

  /** Sizes describe properly nested subtrees: a subtree lies inside the
      list, a file has nothing below it, and a subtree that starts inside
      another one also ends inside it. */
  predicate WellNested(ev: seq<Event>) {
    && (forall k :: 0 <= k < |ev| ==> k + ev[k].size < |ev| && (!ev[k].isDir ==> ev[k].size == 0))
    && (forall k, m :: 0 <= k < m < |ev| && m <= k + ev[k].size ==> m + ev[m].size <= k + ev[k].size)
  }

  /** Event `k` is a proper ancestor of event `j` in the walk. */
  predicate Encloses(ev: seq<Event>, k: nat, j: nat)
    requires k < |ev|
  {
    k < j <= k + ev[k].size
  }

  lemma WellNestedAppend(a: seq<Event>, b: seq<Event>)
    requires WellNested(a) && WellNested(b)
    ensures WellNested(a + b)
  {
    var s := a + b;
    forall k | 0 <= k < |s| ensures k + s[k].size < |s| && (!s[k].isDir ==> s[k].size == 0) {
      if k >= |a| {
        assert s[k] == b[k - |a|];
      }
    }
    forall k, m | 0 <= k < m < |s| && m <= k + s[k].size ensures m + s[m].size <= k + s[k].size {
      if k >= |a| {
        assert s[k] == b[k - |a|] && s[m] == b[m - |a|];
      } else {
        assert s[k] == a[k];
        assert m < |a|;
        assert s[m] == a[m];
      }
    }
  }

  lemma WellNestedCons(head: Event, below: seq<Event>)
    requires WellNested(below)
    requires head.size == |below|
    requires !head.isDir ==> below == []
    ensures WellNested([head] + below)
  {
    var s := [head] + below;
    forall k, m | 0 <= k < m < |s| && m <= k + s[k].size ensures m + s[m].size <= k + s[k].size {
      if k > 0 {
        assert s[k] == below[k - 1] && s[m] == below[m - 1];
      }
    }
  }

  lemma {:induction false} FlattenWellNested(e: FsEntry, path: string)
    ensures WellNested(Flatten(e, path))
    decreases e, 1
  {
    var below := if e.isDir then FlattenAll(e.children, path) else [];
    if e.isDir {
      FlattenAllWellNested(e.children, path);
    }
    WellNestedCons(Event(path, e.name, e.isDir, e.readable, |below|), below);
  }

  lemma {:induction false} FlattenAllWellNested(es: seq<FsEntry>, dir: string)
    ensures WellNested(FlattenAll(es, dir))
    decreases es, 0
  {
    if es != [] {
      FlattenWellNested(es[0], FilePath.Join(dir, es[0].name));
      FlattenAllWellNested(es[1..], dir);
      WellNestedAppend(Flatten(es[0], FilePath.Join(dir, es[0].name)), FlattenAll(es[1..], dir));
    }
  }

  /** Whether the walk callback stops WalkDir from entering (or keeps it from
      recording) the entry at `path`: the root itself is never tested. */
  predicate Prunes(absRoot: string, isIgnored: string -> bool, path: string) {
    path != absRoot && isIgnored(path)
  }

  /** The visits from `i` on that yield a node, as the walk decides them: the
      root path is passed over, an ignored entry is dropped together with its
      subtree, and every other entry is kept. */
  function Surviving(ev: seq<Event>, absRoot: string, isIgnored: string -> bool, i: nat): seq<nat>
    requires WellNested(ev) && i <= |ev|
    decreases |ev| - i
  {
    if i == |ev| then []
    else if ev[i].path == absRoot then Surviving(ev, absRoot, isIgnored, i + 1)
    else if isIgnored(ev[i].path) then Surviving(ev, absRoot, isIgnored, i + 1 + ev[i].size)
    else [i] + Surviving(ev, absRoot, isIgnored, i + 1)
  }

  /** The surviving visits from `i` on lie at or after `i`. */
  lemma {:induction false} SurvivingBounds(ev: seq<Event>, absRoot: string, isIgnored: string -> bool, i: nat, j: nat)
    requires WellNested(ev) && i <= |ev|
    requires j in Surviving(ev, absRoot, isIgnored, i)
    ensures i <= j < |ev|
    decreases |ev| - i
  {
    if ev[i].path == absRoot {
      SurvivingBounds(ev, absRoot, isIgnored, i + 1, j);
    } else if isIgnored(ev[i].path) {
      SurvivingBounds(ev, absRoot, isIgnored, i + 1 + ev[i].size, j);
    } else if j != i {
      SurvivingBounds(ev, absRoot, isIgnored, i + 1, j);
    }
  }

  /** One step of the walk: a pruned visit jumps over its subtree, any other
      visit is kept unless it is the root. */
  lemma SurvivingStep(ev: seq<Event>, absRoot: string, isIgnored: string -> bool, i: nat)
    requires WellNested(ev) && i < |ev|
    ensures Prunes(absRoot, isIgnored, ev[i].path) ==>
      Surviving(ev, absRoot, isIgnored, i) == Surviving(ev, absRoot, isIgnored, i + 1 + ev[i].size)
    ensures !Prunes(absRoot, isIgnored, ev[i].path) ==>
      Surviving(ev, absRoot, isIgnored, i) ==
        (if ev[i].path == absRoot then [] else [i]) + Surviving(ev, absRoot, isIgnored, i + 1)
  {
  }

  /** Pruning: a visit yields a node exactly when it is neither the root nor
      ignored and no enclosing directory is ignored. In particular an ignored
      directory removes its whole subtree, and an ignored file (which
      encloses nothing) removes only itself. */
  lemma {:induction false} SurvivingIff(ev: seq<Event>, absRoot: string, isIgnored: string -> bool, i: nat, j: nat)
    requires WellNested(ev) && i <= j < |ev|
    ensures j in Surviving(ev, absRoot, isIgnored, i) <==>
      ev[j].path != absRoot && !isIgnored(ev[j].path) &&
      forall k :: i <= k < j && Encloses(ev, k, j) ==> !Prunes(absRoot, isIgnored, ev[k].path)
    decreases |ev| - i, 1
  {
    if i == j {
      SurvivingIffAt(ev, absRoot, isIgnored, i);
    } else if ev[i].path == absRoot || !isIgnored(ev[i].path) {
      SurvivingIff(ev, absRoot, isIgnored, i + 1, j);
    } else {
      SurvivingIffPruned(ev, absRoot, isIgnored, i, j);
    }
  }

  /** The case of `SurvivingIff` where `j` is the first event. */
  lemma SurvivingIffAt(ev: seq<Event>, absRoot: string, isIgnored: string -> bool, i: nat)
    requires WellNested(ev) && i < |ev|
    ensures i in Surviving(ev, absRoot, isIgnored, i) <==> ev[i].path != absRoot && !isIgnored(ev[i].path)
  {
    if ev[i].path != absRoot && isIgnored(ev[i].path) {
      if i in Surviving(ev, absRoot, isIgnored, i + 1 + ev[i].size) {
        SurvivingBounds(ev, absRoot, isIgnored, i + 1 + ev[i].size, i);
      }
    } else if ev[i].path == absRoot {
      if i in Surviving(ev, absRoot, isIgnored, i + 1) {
        SurvivingBounds(ev, absRoot, isIgnored, i + 1, i);
      }
    }
  }

  /** The case of `SurvivingIff` where the first event is pruned. */
  lemma {:induction false} SurvivingIffPruned(ev: seq<Event>, absRoot: string, isIgnored: string -> bool, i: nat, j: nat)
    requires WellNested(ev) && i < j < |ev|
    requires ev[i].path != absRoot && isIgnored(ev[i].path)
    ensures j in Surviving(ev, absRoot, isIgnored, i) <==>
      ev[j].path != absRoot && !isIgnored(ev[j].path) &&
      forall k :: i <= k < j && Encloses(ev, k, j) ==> !Prunes(absRoot, isIgnored, ev[k].path)
    decreases |ev| - i, 0
  {
    var next := i + 1 + ev[i].size;
    if j < next {
      assert Encloses(ev, i, j);
      if j in Surviving(ev, absRoot, isIgnored, next) {
        SurvivingBounds(ev, absRoot, isIgnored, next, j);
      }
    } else {
      SurvivingIff(ev, absRoot, isIgnored, next, j);
      forall k | i <= k < next && Encloses(ev, k, j) ensures false {
      }
    }
  }


  // ---------------------------------------------------------------------
  // Where each visit's parent is
  // ---------------------------------------------------------------------

  /** Every name in the tree `e` (the entry's own and those below a
      directory) is one the operating system can report: non-empty and
      without a separator. */
  predicate WellNamed(e: FsEntry)
    decreases e, 1
  {
    FilePath.ValidName(e.name) && (e.isDir ==> WellNamedAll(e.children))
  }

  predicate WellNamedAll(es: seq<FsEntry>)
    decreases es, 0
  {
    es == [] || (WellNamed(es[0]) && WellNamedAll(es[1..]))
  }

  /** The entries below the root are well named (the root's own name does
      not enter any path). */
  predicate WellNamedBelow(root: FsEntry) {
    root.isDir ==> WellNamedAll(root.children)
  }

  /** Visit `j` is an entry of an earlier directory visit that encloses it:
      its path is its name joined onto that visit's path. */
  ghost predicate InsideVisit(ev: seq<Event>, j: nat)
    requires j < |ev|
  {
    exists p :: 0 <= p < j && Encloses(ev, p, j) && ev[p].isDir && ev[j].path == FilePath.Join(ev[p].path, ev[j].name)
  }

  /** The visits below the directory `dir`: well-named, at clean paths longer
      than `dir`, each one either an entry of `dir` itself or of an
      enclosing directory visit. */
  ghost predicate JoinedBelow(ev: seq<Event>, dir: string) {
    forall j :: 0 <= j < |ev| ==>
      && FilePath.ValidName(ev[j].name) && FilePath.CleanDir(ev[j].path) && |ev[j].path| > |dir|
      && (ev[j].path == FilePath.Join(dir, ev[j].name) || InsideVisit(ev, j))
  }

  lemma JoinedBelowAppend(a: seq<Event>, b: seq<Event>, dir: string)
    requires JoinedBelow(a, dir) && JoinedBelow(b, dir)
    ensures JoinedBelow(a + b, dir)
  {
    var s := a + b;
    forall j | 0 <= j < |s| && s[j].path != FilePath.Join(dir, s[j].name) ensures InsideVisit(s, j) {
      if j < |a| {
        assert s[j] == a[j];
        var p :| 0 <= p < j && Encloses(a, p, j) && a[p].isDir && a[j].path == FilePath.Join(a[p].path, a[j].name);
        assert s[p] == a[p] && Encloses(s, p, j);
      } else {
        assert s[j] == b[j - |a|];
        var p :| 0 <= p < j - |a| && Encloses(b, p, j - |a|) && b[p].isDir && b[j - |a|].path == FilePath.Join(b[p].path, b[j - |a|].name);
        assert s[p + |a|] == b[p] && Encloses(s, p + |a|, j);
      }
    }
    forall j | 0 <= j < |s|
      ensures FilePath.ValidName(s[j].name) && FilePath.CleanDir(s[j].path) && |s[j].path| > |dir|
    {
      if j < |a| {
        assert s[j] == a[j];
      } else {
        assert s[j] == b[j - |a|];
      }
    }
  }

  lemma {:induction false} FlattenJoined(e: FsEntry, dir: string)
    requires FilePath.CleanDir(dir) && WellNamed(e)
    ensures JoinedBelow(Flatten(e, FilePath.Join(dir, e.name)), dir)
    decreases e, 1
  {
    var path := FilePath.Join(dir, e.name);
    FilePath.JoinIsClean(dir, e.name);
    var ev := Flatten(e, path);
    if e.isDir {
      var below := FlattenAll(e.children, path);
      FlattenAllJoined(e.children, path);
      assert ev[0].isDir && ev[1..] == below;
      forall j | 1 <= j < |ev|
        ensures FilePath.ValidName(ev[j].name) && FilePath.CleanDir(ev[j].path) && |ev[j].path| > |dir|
        ensures InsideVisit(ev, j)
      {
        assert ev[j] == below[j - 1];
        if below[j - 1].path == FilePath.Join(path, below[j - 1].name) {
          assert Encloses(ev, 0, j);
        } else {
          var p :| 0 <= p < j - 1 && Encloses(below, p, j - 1) && below[p].isDir
                   && below[j - 1].path == FilePath.Join(below[p].path, below[j - 1].name);
          assert ev[p + 1] == below[p] && Encloses(ev, p + 1, j);
        }
      }
    }
  }

  lemma {:induction false} FlattenAllJoined(es: seq<FsEntry>, dir: string)
    requires FilePath.CleanDir(dir) && WellNamedAll(es)
    ensures JoinedBelow(FlattenAll(es, dir), dir)
    decreases es, 0
  {
    if es != [] {
      FlattenJoined(es[0], dir);
      FlattenAllJoined(es[1..], dir);
      JoinedBelowAppend(Flatten(es[0], FilePath.Join(dir, es[0].name)), FlattenAll(es[1..], dir), dir);
    }
  }

  /** The parent directory of visit `j` is that of an earlier directory visit
      enclosing it. */
  ghost predicate ParentVisit(ev: seq<Event>, j: nat)
    requires j < |ev|
  {
    exists p :: 0 <= p < j && Encloses(ev, p, j) && ev[p].isDir && FilePath.Dir(ev[j].path) == ev[p].path
  }

  /** What the walk's parent lookup relies on: no visit is at the root path,
      each visit's name is the base of its path and has its path's
      extension, and its parent directory is the root or an enclosing
      directory visit. */
  ghost predicate WalkShaped(ev: seq<Event>, absRoot: string) {
    forall j :: 0 <= j < |ev| ==>
      && ev[j].path != absRoot
      && FilePath.Base(ev[j].path) == ev[j].name
      && FilePath.Ext(ev[j].path) == FilePath.Ext(ev[j].name)
      && (FilePath.Dir(ev[j].path) == absRoot || ParentVisit(ev, j))
  }

  /** Below a clean root path with well-named entries, the walk is shaped as
      the parent lookup needs. */
  lemma EventsShaped(absRoot: string, root: FsEntry)
    requires FilePath.CleanDir(absRoot) && WellNamedBelow(root)
    ensures WalkShaped(Events(absRoot, root), absRoot)
  {
    var ev := Events(absRoot, root);
    if root.isDir {
      FlattenAllJoined(root.children, absRoot);
      forall j | 0 <= j < |ev|
        ensures FilePath.Base(ev[j].path) == ev[j].name && FilePath.Ext(ev[j].path) == FilePath.Ext(ev[j].name)
        ensures FilePath.Dir(ev[j].path) == absRoot || ParentVisit(ev, j)
      {
        if ev[j].path == FilePath.Join(absRoot, ev[j].name) {
          FilePath.DirOfJoin(absRoot, ev[j].name);
          FilePath.BaseOfJoin(absRoot, ev[j].name);
          FilePath.ExtOfJoin(absRoot, ev[j].name);
        } else {
          var p :| 0 <= p < j && Encloses(ev, p, j) && ev[p].isDir && ev[j].path == FilePath.Join(ev[p].path, ev[j].name);
          FilePath.DirOfJoin(ev[p].path, ev[j].name);
          FilePath.BaseOfJoin(ev[p].path, ev[j].name);
          FilePath.ExtOfJoin(ev[p].path, ev[j].name);
        }
      }
    }
  }

  // ---------------------------------------------------------------------
  // Which visits the walk reaches, and when it fails
  // ---------------------------------------------------------------------

  /** No earlier visit enclosing visit `i` was pruned, so WalkDir reaches it. */
  ghost predicate Reached(ev: seq<Event>, absRoot: string, isIgnored: string -> bool, i: nat)
    requires i <= |ev|
  {
    forall k :: 0 <= k < i && Encloses(ev, k, i) ==> !Prunes(absRoot, isIgnored, ev[k].path)
  }

  /** From a reached visit the walk moves on to a reached visit: past the
      subtree of a pruned one, into the subtree of any other. */
  lemma ReachedStep(ev: seq<Event>, absRoot: string, isIgnored: string -> bool, i: nat)
    requires WellNested(ev) && i < |ev| && Reached(ev, absRoot, isIgnored, i)
    ensures Reached(ev, absRoot, isIgnored,
                    if Prunes(absRoot, isIgnored, ev[i].path) then i + 1 + ev[i].size else i + 1)
  {
    var next := if Prunes(absRoot, isIgnored, ev[i].path) then i + 1 + ev[i].size else i + 1;
    forall k | 0 <= k < next && Encloses(ev, k, next) ensures !Prunes(absRoot, isIgnored, ev[k].path) {
      if k < i {
        assert Encloses(ev, k, i);
      }
    }
  }

  /** A directory visit that can be listed, or a file. */
  predicate Listable(e: Event) {
    e.isDir ==> e.readable
  }

  /** Every directory the walk enters below the root can be listed. */
  predicate WalkOk(ev: seq<Event>, absRoot: string, isIgnored: string -> bool)
    requires WellNested(ev)
  {
    forall k :: 0 <= k < |ev| && k in Surviving(ev, absRoot, isIgnored, 0) ==> Listable(ev[k])
  }

  /** Visit `k` is the first surviving directory that cannot be listed. */
  predicate FirstUnlistable(ev: seq<Event>, absRoot: string, isIgnored: string -> bool, k: nat)
    requires WellNested(ev)
  {
    var s := Surviving(ev, absRoot, isIgnored, 0);
    && k < |ev| && k in s && !Listable(ev[k])
    && forall m :: 0 <= m < k && m in s ==> Listable(ev[m])
  }

  /** The surviving visits before `i` are the ones already kept. */
  lemma SurvivingBefore(ev: seq<Event>, absRoot: string, isIgnored: string -> bool, i: nat, kept: seq<nat>)
    requires WellNested(ev) && i <= |ev|
    requires Surviving(ev, absRoot, isIgnored, 0) == kept + Surviving(ev, absRoot, isIgnored, i)
    ensures forall m :: m in Surviving(ev, absRoot, isIgnored, 0) && m < i ==> m in kept
  {
    forall m | m in Surviving(ev, absRoot, isIgnored, 0) && m < i ensures m in kept {
      if m in Surviving(ev, absRoot, isIgnored, i) {
        SurvivingBounds(ev, absRoot, isIgnored, i, m);
      }
    }
  }

  /** A reached visit that is neither the root nor ignored survives. */
  lemma ReachedSurvives(ev: seq<Event>, absRoot: string, isIgnored: string -> bool, i: nat)
    requires WellNested(ev) && i < |ev| && Reached(ev, absRoot, isIgnored, i)
    requires ev[i].path != absRoot && !isIgnored(ev[i].path)
    ensures i in Surviving(ev, absRoot, isIgnored, 0)
  {
    SurvivingIff(ev, absRoot, isIgnored, 0, i);
  }

  /** A directory visit enclosing a reached visit is reached too. */
  lemma EnclosingReached(ev: seq<Event>, absRoot: string, isIgnored: string -> bool, p: nat, i: nat)
    requires WellNested(ev) && p < i < |ev| && Encloses(ev, p, i) && Reached(ev, absRoot, isIgnored, i)
    ensures Reached(ev, absRoot, isIgnored, p)
  {
    forall k | 0 <= k < p && Encloses(ev, k, p) ensures !Prunes(absRoot, isIgnored, ev[k].path) {
      assert Encloses(ev, k, i);
    }
  }

  /** In a shaped walk, a reached visit that is not pruned survives, and its
      parent directory is the root or a surviving directory before it. So
      when the root and those directories are registered, the parent lookup
      succeeds. */
  lemma ReachedVisit(ev: seq<Event>, absRoot: string, isIgnored: string -> bool, i: nat,
                     kept: seq<nat>, keys: set<string>)
    requires WellNested(ev) && WalkShaped(ev, absRoot) && i < |ev|
    requires Reached(ev, absRoot, isIgnored, i)
    requires Surviving(ev, absRoot, isIgnored, 0) == kept + Surviving(ev, absRoot, isIgnored, i)
    requires absRoot in keys && forall k :: 0 <= k < |ev| && k in kept && ev[k].isDir ==> ev[k].path in keys
    ensures !Prunes(absRoot, isIgnored, ev[i].path) ==>
      i in Surviving(ev, absRoot, isIgnored, 0) && FilePath.Dir(ev[i].path) in keys
    ensures forall m :: m in Surviving(ev, absRoot, isIgnored, 0) && m < i ==> m in kept
  {
    SurvivingBefore(ev, absRoot, isIgnored, i, kept);
    if !Prunes(absRoot, isIgnored, ev[i].path) {
      assert ev[i].path != absRoot;
      ReachedSurvives(ev, absRoot, isIgnored, i);
      ParentRegistered(ev, absRoot, isIgnored, i, kept, keys);
    }
  }

  /** The parent lookup of a reached visit succeeds once the root and the
      surviving directories before it are registered. */
  lemma ParentRegistered(ev: seq<Event>, absRoot: string, isIgnored: string -> bool, i: nat,
                         kept: seq<nat>, keys: set<string>)
    requires WellNested(ev) && i < |ev| && Reached(ev, absRoot, isIgnored, i)
    requires FilePath.Dir(ev[i].path) == absRoot || ParentVisit(ev, i)
    requires forall m :: m in Surviving(ev, absRoot, isIgnored, 0) && m < i ==> m in kept
    requires forall m :: 0 <= m < i ==> ev[m].path != absRoot
    requires absRoot in keys && forall k :: 0 <= k < |ev| && k in kept && ev[k].isDir ==> ev[k].path in keys
    ensures FilePath.Dir(ev[i].path) in keys
  {
    if FilePath.Dir(ev[i].path) != absRoot {
      var p :| 0 <= p < i && Encloses(ev, p, i) && ev[p].isDir && FilePath.Dir(ev[i].path) == ev[p].path;
      EnclosingReached(ev, absRoot, isIgnored, p, i);
      ReachedSurvives(ev, absRoot, isIgnored, p);
    }
  }

  // ---------------------------------------------------------------------
  // The walk callback and the tree it builds
  // ---------------------------------------------------------------------

  /** What the callback tells WalkDir: go on, skip this directory's
      contents, or stop the walk with an error. */
  datatype WalkAction = Continue | SkipDir | Stop(error: string)

  /** The callback's error for an entry whose parent directory has no node. */
  function MissingParent(path: string): string {
    "internal walker error: could not find parent for path " + path
  }

  /** The error WalkDir hands the callback when a directory cannot be
      listed; the model's stand-in for the file system's own error. */
  function CannotRead(path: string): string {
    "cannot read directory " + path
  }

  /** The error WalkDir hands the callback when the root cannot be
      stat'ed. */
  function CannotStat(path: string): string {
    "cannot stat " + path
  }

  /** The node a kept entry becomes: its name, path and kind, with no lines
      counted and no elements yet. */
  function EntryNode(name: string, path: string, isDir: bool): Node {
    Node(name, path, isDir, 0, [], [])
  }

  /** Node `n` was made from visit `e`. */
  predicate MadeFrom(n: Node, e: Event) {
    n.name == e.name && n.path == e.path && n.isDir == e.isDir
  }

  /** Two nodes stand for the same entry (their children may differ). */
  predicate SameEntry(a: Node, b: Node) {
    a.name == b.name && a.path == b.path && a.isDir == b.isDir
  }

  /** The heap after the new node `n` is appended and listed as the last
      child of node `p`. */
  function Attach(nodes: Heap, p: Ptr, n: Node): Heap
    requires p < |nodes|
  {
    nodes[p := nodes[p].(children := nodes[p].children + [|nodes|])] + [n]
  }

  /** The shape of the tree under construction: the root directory first,
      child pointers forward, nothing counted or extracted yet, files
      childless, and every other node, neither the root path nor ignored,
      listed among the children of the directory node recorded in `parent`,
      once, and of no other node. */
  ghost predicate TreeShape(nodes: Heap, parent: seq<Ptr>, absRoot: string, isIgnored: string -> bool) {
    && |nodes| >= 1 && |parent| == |nodes|
    && nodes[0].name == FilePath.Base(absRoot) && nodes[0].path == absRoot && nodes[0].isDir
    && WellFormed(nodes)
    && Blank(nodes)
    && Linked(nodes, parent, absRoot, isIgnored)
    && Owned(nodes, parent)
    && ListedOnce(nodes)
  }

  /** Nothing counted or extracted, and files have no children. */
  predicate Blank(nodes: Heap) {
    forall j :: 0 <= j < |nodes| ==>
      nodes[j].loc == 0 && nodes[j].elements == [] && (!nodes[j].isDir ==> nodes[j].children == [])
  }

  /** Every node after the root is a kept entry listed under its parent. */
  ghost predicate Linked(nodes: Heap, parent: seq<Ptr>, absRoot: string, isIgnored: string -> bool)
    requires |parent| == |nodes|
  {
    forall j {:trigger parent[j]} :: 1 <= j < |nodes| ==>
      && parent[j] < j && j in nodes[parent[j]].children
      && nodes[parent[j]].isDir && nodes[parent[j]].path == FilePath.Dir(nodes[j].path)
      && nodes[j].path != absRoot && !isIgnored(nodes[j].path)
  }

  /** A node listed as a child of `p` has `p` recorded as its parent. */
  ghost predicate Owned(nodes: Heap, parent: seq<Ptr>) {
    forall p, c :: 0 <= p < |nodes| && c in nodes[p].children ==> c < |parent| && parent[c] == p
  }

  lemma AttachFacts(nodes: Heap, p: Ptr, n: Node)
    requires p < |nodes|
    ensures var h := Attach(nodes, p, n);
      && |h| == |nodes| + 1 && h[|nodes|] == n
      && h[p] == nodes[p].(children := nodes[p].children + [|nodes|])
      && forall i :: 0 <= i < |nodes| && i != p ==> h[i] == nodes[i]
  {
  }

  lemma AttachKeepsShape(nodes: Heap, parent: seq<Ptr>, absRoot: string, isIgnored: string -> bool,
                         p: Ptr, name: string, path: string, isDir: bool)
    requires TreeShape(nodes, parent, absRoot, isIgnored)
    requires p < |nodes| && nodes[p].isDir && nodes[p].path == FilePath.Dir(path)
    requires path != absRoot && !isIgnored(path)
    ensures TreeShape(Attach(nodes, p, EntryNode(name, path, isDir)), parent + [p], absRoot, isIgnored)
  {
    var n := EntryNode(name, path, isDir);
    AttachFacts(nodes, p, n);
    AttachKeepsWellFormed(nodes, p, n);
    AttachKeepsBlank(nodes, p, n);
    AttachKeepsLinked(nodes, parent, absRoot, isIgnored, p, n);
    AttachKeepsOwned(nodes, parent, p, n);
    AttachKeepsListedOnce(nodes, p, n);
  }

  /** The appended node is a fresh pointer, so its parent's list still
      holds each child once. */
  lemma AttachKeepsListedOnce(nodes: Heap, p: Ptr, n: Node)
    requires WellFormed(nodes) && ListedOnce(nodes) && p < |nodes|
    requires n.children == []
    ensures ListedOnce(Attach(nodes, p, n))
  {
    var h := Attach(nodes, p, n);
    AttachFacts(nodes, p, n);
    var kids := nodes[p].children;
    forall j | 0 <= j < |h| ensures Distinct(h[j].children) {
      if j == p {
        forall a, b | 0 <= a < b < |h[p].children| ensures h[p].children[a] != h[p].children[b] {
          if b < |kids| {
            assert h[p].children[a] == kids[a] && h[p].children[b] == kids[b];
          } else {
            assert kids[a] in kids;
          }
        }
      } else if j < |nodes| {
        assert h[j] == nodes[j];
      }
    }
  }

  lemma AttachKeepsBlank(nodes: Heap, p: Ptr, n: Node)
    requires Blank(nodes) && p < |nodes| && nodes[p].isDir
    requires n.loc == 0 && n.elements == [] && n.children == []
    ensures Blank(Attach(nodes, p, n))
  {
    var h := Attach(nodes, p, n);
    AttachFacts(nodes, p, n);
    forall j | 0 <= j < |h| ensures h[j].loc == 0 && h[j].elements == [] && (!h[j].isDir ==> h[j].children == []) {
      if j < |nodes| {
        assert nodes[j].loc == 0;
      }
    }
  }

  lemma AttachKeepsLinked(nodes: Heap, parent: seq<Ptr>, absRoot: string, isIgnored: string -> bool, p: Ptr, n: Node)
    requires |parent| == |nodes| && Linked(nodes, parent, absRoot, isIgnored)
    requires p < |nodes| && nodes[p].isDir && nodes[p].path == FilePath.Dir(n.path)
    requires n.path != absRoot && !isIgnored(n.path)
    ensures Linked(Attach(nodes, p, n), parent + [p], absRoot, isIgnored)
  {
    var h := Attach(nodes, p, n);
    var par := parent + [p];
    AttachFacts(nodes, p, n);
    forall j | 1 <= j < |h|
      ensures && par[j] < j && j in h[par[j]].children
              && h[par[j]].isDir && h[par[j]].path == FilePath.Dir(h[j].path)
              && h[j].path != absRoot && !isIgnored(h[j].path)
    {
      if j < |nodes| {
        var q := parent[j];
        assert par[j] == q && h[j].path == nodes[j].path;
        assert j in nodes[q].children;
        assert h[q].isDir == nodes[q].isDir && h[q].path == nodes[q].path;
        assert j in h[q].children;
      }
    }
  }

  lemma AttachKeepsOwned(nodes: Heap, parent: seq<Ptr>, p: Ptr, n: Node)
    requires WellFormed(nodes) && |parent| == |nodes| && Owned(nodes, parent) && p < |nodes|
    requires n.children == []
    ensures Owned(Attach(nodes, p, n), parent + [p])
  {
    var h := Attach(nodes, p, n);
    var par := parent + [p];
    AttachFacts(nodes, p, n);
    forall i, c | 0 <= i < |h| && c in h[i].children ensures c < |par| && par[c] == i {
      if i == p && c == |nodes| {
      } else {
        assert i < |nodes| && c in nodes[i].children;
      }
    }
  }

  lemma AttachKeepsWellFormed(nodes: Heap, p: Ptr, n: Node)
    requires WellFormed(nodes) && p < |nodes| && n.children == []
    ensures WellFormed(Attach(nodes, p, n))
  {
    var h := Attach(nodes, p, n);
    AttachFacts(nodes, p, n);
    forall i, c | 0 <= i < |h| && c in h[i].children ensures i < c < |h| {
      if i == p && c == |nodes| {
      } else if i < |nodes| {
        assert c in nodes[i].children;
      }
    }
  }

  /** `nodesByPath`: the root and every registered path lead to a directory
      node with that path. */
  ghost predicate Registry(nodes: Heap, nodesByPath: map<string, Ptr>, absRoot: string) {
    && absRoot in nodesByPath && nodesByPath[absRoot] == 0
    && (forall path :: path in nodesByPath ==>
          nodesByPath[path] < |nodes| && nodes[nodesByPath[path]].isDir && nodes[nodesByPath[path]].path == path)
  }

  lemma AttachKeepsRegistry(nodes: Heap, nodesByPath: map<string, Ptr>, absRoot: string,
                            p: Ptr, name: string, path: string, isDir: bool)
    requires Registry(nodes, nodesByPath, absRoot)
    requires p < |nodes| && nodes[p].isDir && path != absRoot
    ensures Registry(Attach(nodes, p, EntryNode(name, path, isDir)),
                     if isDir then nodesByPath[path := |nodes|] else nodesByPath, absRoot)
  {
  }

  /** The state the walk callback closes over: the nodes made so far (the
      root first), the directories by path, and the constant root path and
      matcher. `parent` records where each node was attached. */
  class TreeBuilder {
    const absRoot: string
    const isIgnored: string -> bool
    var nodes: Heap
    var nodesByPath: map<string, Ptr>
    ghost var parent: seq<Ptr>

    ghost predicate Valid()
      reads this
    {
      TreeShape(nodes, parent, absRoot, isIgnored) && Registry(nodes, nodesByPath, absRoot)
    }

    /** The root node, named after the root's base name, alone in the map. */
    constructor (absRoot: string, isIgnored: string -> bool)
      ensures Valid()
      ensures this.absRoot == absRoot && this.isIgnored == isIgnored
      ensures nodes == [EntryNode(FilePath.Base(absRoot), absRoot, true)]
      ensures nodesByPath == map[absRoot := 0]
    {
      this.absRoot := absRoot;
      this.isIgnored := isIgnored;
      nodes := [EntryNode(FilePath.Base(absRoot), absRoot, true)];
      nodesByPath := map[absRoot := 0];
      parent := [0];
    }

    /** The WalkDir callback for one visit: an error stops the walk; the root
        is passed over; an ignored directory is skipped and an ignored file
        passed over; otherwise the entry becomes a new node appended to the
        children of its parent directory's node (an error if that directory
        has no node), and a directory is registered under its path. */
    method Visit(path: string, name: string, isDir: bool, err: Option<string>) returns (act: WalkAction)
      requires Valid()
      modifies this
      ensures Valid()
      ensures Extends(nodes, old(nodes))
      ensures act.SkipDir? ==> err.None? && isDir && Prunes(absRoot, isIgnored, path) && nodes == old(nodes)
      ensures act.Continue? && (path == absRoot || isIgnored(path)) ==> nodes == old(nodes)
      ensures act.Continue? && path != absRoot && !isIgnored(path) ==>
        |nodes| == old(|nodes|) + 1 && SameEntry(nodes[old(|nodes|)], EntryNode(name, path, isDir))
      ensures act.Continue? || act.SkipDir? ==> err.None?
      ensures err.Some? ==> act == Stop(err.value) && unchanged(this)
      ensures err.None? && path == absRoot ==> act == Continue && unchanged(this)
      ensures err.None? && Prunes(absRoot, isIgnored, path) ==>
        act == (if isDir then SkipDir else Continue) && unchanged(this)
      ensures err.None? && path != absRoot && !isIgnored(path) && FilePath.Dir(path) !in old(nodesByPath) ==>
        act == Stop(MissingParent(path)) && unchanged(this)
      ensures err.None? && path != absRoot && !isIgnored(path) && FilePath.Dir(path) in old(nodesByPath) ==>
        var p := old(nodesByPath)[FilePath.Dir(path)];
        && act == Continue
        && nodes == Attach(old(nodes), p, EntryNode(name, path, isDir))
        && nodesByPath == if isDir then old(nodesByPath)[path := |old(nodes)|] else old(nodesByPath)
    {
      if err.Some? {
        return Stop(err.value);
      }
      if path == absRoot {
        return Continue;
      }
      if isIgnored(path) {
        if isDir {
          return SkipDir;
        }
        return Continue;
      }
      var parentPath := FilePath.Dir(path);
      if parentPath !in nodesByPath {
        return Stop(MissingParent(path));
      }
      var p := nodesByPath[parentPath];
      AttachFacts(nodes, p, EntryNode(name, path, isDir));
      Add(p, name, path, isDir);
      act := Continue;
    }

    /** Appends the node for `path` and links it under its parent `p`;
        a directory is also registered under its path. */
    method Add(p: Ptr, name: string, path: string, isDir: bool)
      requires Valid()
      requires p < |nodes| && nodes[p].isDir && nodes[p].path == FilePath.Dir(path)
      requires path != absRoot && !isIgnored(path)
      modifies this
      ensures Valid()
      ensures nodes == Attach(old(nodes), p, EntryNode(name, path, isDir))
      ensures nodesByPath == if isDir then old(nodesByPath)[path := |old(nodes)|] else old(nodesByPath)
    {
      var n := |nodes|;
      AttachKeepsShape(nodes, parent, absRoot, isIgnored, p, name, path, isDir);
      AttachKeepsRegistry(nodes, nodesByPath, absRoot, p, name, path, isDir);
      nodes := Attach(nodes, p, EntryNode(name, path, isDir));
      parent := parent + [p];
      if isDir {
        nodesByPath := nodesByPath[path := n];
      }
    }
  }

  /** `h` extends `h0`: the nodes of `h0` are still there, standing for the
      same entries. */
  predicate Extends(h: Heap, h0: Heap) {
    |h| >= |h0| && forall k :: 0 <= k < |h0| ==> SameEntry(h[k], h0[k])
  }

  lemma ExtendsTransitive(a: Heap, b: Heap, c: Heap)
    requires Extends(a, b) && Extends(b, c)
    ensures Extends(a, c)
  {
  }

  /** The nodes `made` were made, in order, from the visits `kept`. */
  predicate MadeFromAll(made: seq<Node>, ev: seq<Event>, kept: seq<nat>) {
    |made| == |kept| && forall k {:trigger made[k]} :: 0 <= k < |kept| ==> kept[k] < |ev| && MadeFrom(made[k], ev[kept[k]])
  }

  /** The nodes from `n0` on were made, in order, from the visits `kept`. */
  predicate Records(h: Heap, n0: nat, ev: seq<Event>, kept: seq<nat>) {
    n0 <= |h| && MadeFromAll(h[n0..], ev, kept)
  }

  lemma RecordsAppend(h: Heap, h': Heap, n0: nat, ev: seq<Event>, kept: seq<nat>, added: seq<nat>)
    requires Records(h, n0, ev, kept) && Records(h', |h|, ev, added) && Extends(h', h)
    ensures Records(h', n0, ev, kept + added)
  {
    var all := kept + added;
    var made := h'[n0..];
    forall k | 0 <= k < |all| ensures all[k] < |ev| && MadeFrom(made[k], ev[all[k]]) {
      if k < |kept| {
        assert SameEntry(h'[n0 + k], h[n0 + k]);
        assert h[n0..][k] == h[n0 + k];
      } else {
        assert all[k] == added[k - |kept|];
        assert h'[|h|..][k - |kept|] == made[k];
      }
    }
  }

  lemma SameEntriesKeepRecords(h: Heap, h': Heap, n0: nat, ev: seq<Event>, kept: seq<nat>)
    requires Records(h, n0, ev, kept) && |h'| == |h|
    requires forall j :: 0 <= j < |h| ==> SameEntry(h'[j], h[j])
    ensures Records(h', n0, ev, kept)
  {
    forall k | 0 <= k < |kept| ensures MadeFrom(h'[n0..][k], ev[kept[k]]) {
      assert h'[n0..][k] == h'[n0 + k] && h[n0..][k] == h[n0 + k];
    }
  }

  /** `os.ReadDir` failed on a directory: `WalkDir` calls back a second
      time with the error, and the callback stops the walk with it. */
  method ReportUnreadable(b: TreeBuilder, e: Event) returns (msg: string)
    requires b.Valid()
    modifies b
    ensures b.Valid() && unchanged(b)
    ensures msg == CannotRead(e.path)
  {
    var act := b.Visit(e.path, e.name, e.isDir, Some(CannotRead(e.path)));
    msg := act.error;
  }

  /** What WalkDir does with the visit `ev[i]`: it calls the callback; a
      SkipDir passes over the subtree; a directory that cannot be listed is
      reported to the callback a second time, which stops the walk; otherwise
      the walk moves on to the next visit. `added` is the visit when it made
      a node. The walk stops exactly at a visit it does not prune whose
      parent directory has no node, or which is a directory that cannot be
      listed, and the error says which. */
  method WalkEntry(b: TreeBuilder, ev: seq<Event>, i: nat) returns (next: nat, err: Option<string>, ghost added: seq<nat>)
    requires b.Valid() && WellNested(ev) && i < |ev|
    modifies b
    ensures b.Valid()
    ensures Extends(b.nodes, old(b.nodes))
    ensures err.None? ==> i < next <= |ev|
    ensures err.None? ==>
      Surviving(ev, b.absRoot, b.isIgnored, i) == added + Surviving(ev, b.absRoot, b.isIgnored, next)
    ensures err.None? ==> Records(b.nodes, old(|b.nodes|), ev, added)
    ensures err.None? ==> next == if Prunes(b.absRoot, b.isIgnored, ev[i].path) then i + 1 + ev[i].size else i + 1
    ensures err.Some? <==>
      !Prunes(b.absRoot, b.isIgnored, ev[i].path) &&
      ((ev[i].path != b.absRoot && FilePath.Dir(ev[i].path) !in old(b.nodesByPath)) || !Listable(ev[i]))
    ensures err.Some? ==>
      err.value == if ev[i].path != b.absRoot && FilePath.Dir(ev[i].path) !in old(b.nodesByPath)
                   then MissingParent(ev[i].path) else CannotRead(ev[i].path)
    ensures old(b.nodesByPath).Keys <= b.nodesByPath.Keys
    ensures err.None? && ev[i].isDir && added == [i] ==> ev[i].path in b.nodesByPath
    ensures err.None? ==> added == if ev[i].path != b.absRoot && !b.isIgnored(ev[i].path) then [i] else []
  {
    var e := ev[i];
    var act := b.Visit(e.path, e.name, e.isDir, None);
    if act.Stop? {
      return i, Some(act.error), [];
    }
    SurvivingStep(ev, b.absRoot, b.isIgnored, i);
    if act.SkipDir? {
      return i + 1 + e.size, None, [];
    }
    if e.isDir && !e.readable {
      var msg := ReportUnreadable(b, e);
      return i, Some(msg), [];
    }
    next, err := i + 1, None;
    if e.path != b.absRoot && !b.isIgnored(e.path) {
      added := [i];
    } else {
      added := [];
    }
  }

  /** One step of the walk keeps its invariants: the kept visits are
      followed by the ones still to come, every kept visit can be listed, and
      every kept directory is registered. */
  lemma KeptStep(ev: seq<Event>, absRoot: string, isIgnored: string -> bool, i: nat, next: nat,
                 kept: seq<nat>, added: seq<nat>, keys: set<string>, keys': set<string>)
    requires WellNested(ev) && i < next <= |ev|
    requires Surviving(ev, absRoot, isIgnored, 0) == kept + Surviving(ev, absRoot, isIgnored, i)
    requires Surviving(ev, absRoot, isIgnored, i) == added + Surviving(ev, absRoot, isIgnored, next)
    requires forall k :: 0 <= k < |ev| && k in kept ==> Listable(ev[k])
    requires forall k :: 0 <= k < |ev| && k in kept && ev[k].isDir ==> ev[k].path in keys
    requires keys <= keys'
    requires added == [] || (added == [i] && Listable(ev[i]) && (ev[i].isDir ==> ev[i].path in keys'))
    ensures Surviving(ev, absRoot, isIgnored, 0) == (kept + added) + Surviving(ev, absRoot, isIgnored, next)
    ensures forall k :: 0 <= k < |ev| && k in kept + added ==> Listable(ev[k])
    ensures forall k :: 0 <= k < |ev| && k in kept + added && ev[k].isDir ==> ev[k].path in keys'
  {
    assert kept + (added + Surviving(ev, absRoot, isIgnored, next)) == (kept + added) + Surviving(ev, absRoot, isIgnored, next);
  }

  /** A walk that stops at a surviving directory that cannot be listed, all
      surviving visits before it kept and listable, stops at the first such
      directory. */
  lemma StopIsFirst(ev: seq<Event>, absRoot: string, isIgnored: string -> bool, i: nat, kept: seq<nat>)
    requires WellNested(ev) && i < |ev|
    requires i in Surviving(ev, absRoot, isIgnored, 0) && !Listable(ev[i])
    requires forall m :: m in Surviving(ev, absRoot, isIgnored, 0) && m < i ==> m in kept
    requires forall k :: 0 <= k < |ev| && k in kept ==> Listable(ev[k])
    ensures FirstUnlistable(ev, absRoot, isIgnored, i)
  {
  }

  /** A walk that got through every visit kept exactly the surviving ones,
      and all of them could be listed. */
  lemma FinishedOk(ev: seq<Event>, absRoot: string, isIgnored: string -> bool, kept: seq<nat>)
    requires WellNested(ev)
    requires Surviving(ev, absRoot, isIgnored, 0) == kept + Surviving(ev, absRoot, isIgnored, |ev|)
    requires forall k :: 0 <= k < |ev| && k in kept ==> Listable(ev[k])
    ensures kept == Surviving(ev, absRoot, isIgnored, 0)
    ensures WalkOk(ev, absRoot, isIgnored)
  {
    assert kept + [] == kept;
  }

  /** The walk's state after the visits before `i`: the surviving visits
      are the kept ones followed by those still to come, the nodes from `n0`
      on were made from the kept visits, `i` is reached, and every kept
      visit could be listed and, when it is a directory, is registered in
      `keys`. */
  ghost predicate WalkedTo(ev: seq<Event>, absRoot: string, isIgnored: string -> bool, i: nat,
                           kept: seq<nat>, nodes: Heap, n0: nat, keys: set<string>)
    requires WellNested(ev)
  {
    && i <= |ev|
    && Surviving(ev, absRoot, isIgnored, 0) == kept + Surviving(ev, absRoot, isIgnored, i)
    && Records(nodes, n0, ev, kept)
    && Reached(ev, absRoot, isIgnored, i)
    && (forall k :: 0 <= k < |ev| && k in kept ==> Listable(ev[k]))
    && (forall k :: 0 <= k < |ev| && k in kept && ev[k].isDir ==> ev[k].path in keys)
  }

  /** One iteration of the walk: `WalkEntry` on visit `i`, keeping
      `WalkedTo`. In a shaped walk, a stop is at the first surviving
      directory that cannot be listed. */
  method WalkStep(b: TreeBuilder, ev: seq<Event>, i: nat, ghost kept: seq<nat>, ghost n0: nat, ghost shaped: bool,
                  ghost start: Heap)
    returns (next: nat, stop: Option<string>, ghost added: seq<nat>)
    requires b.Valid() && WellNested(ev) && i < |ev|
    requires WalkedTo(ev, b.absRoot, b.isIgnored, i, kept, b.nodes, n0, b.nodesByPath.Keys)
    requires shaped ==> WalkShaped(ev, b.absRoot)
    requires Extends(b.nodes, start)
    modifies b
    ensures b.Valid() && Extends(b.nodes, start)
    ensures stop.None? ==>
      i < next <= |ev| && WalkedTo(ev, b.absRoot, b.isIgnored, next, kept + added, b.nodes, n0, b.nodesByPath.Keys)
    ensures stop.Some? && shaped ==>
      FirstUnlistable(ev, b.absRoot, b.isIgnored, i) && stop.value == CannotRead(ev[i].path)
  {
    ghost var before := b.nodes;
    ghost var keys := b.nodesByPath.Keys;
    if shaped {
      ReachedVisit(ev, b.absRoot, b.isIgnored, i, kept, keys);
    }
    next, stop, added := WalkEntry(b, ev, i);
    ExtendsTransitive(b.nodes, before, start);
    if stop.Some? {
      if shaped {
        StopIsFirst(ev, b.absRoot, b.isIgnored, i, kept);
      }
      return;
    }
    RecordsAppend(before, b.nodes, n0, ev, kept, added);
    ReachedStep(ev, b.absRoot, b.isIgnored, i);
    KeptStep(ev, b.absRoot, b.isIgnored, i, next, kept, added, keys, b.nodesByPath.Keys);
  }

  /** The walk from visit `i` on, after the visits before it were walked
      into `kept`: it drives `WalkStep` until the visits run out or one
      stops the walk. */
  method WalkFrom(b: TreeBuilder, ev: seq<Event>, i: nat, ghost kept: seq<nat>, ghost n0: nat, ghost shaped: bool,
                  ghost start: Heap)
    returns (err: Option<string>, ghost walked: seq<nat>, ghost stopAt: nat)
    requires b.Valid() && WellNested(ev) && i <= |ev|
    requires WalkedTo(ev, b.absRoot, b.isIgnored, i, kept, b.nodes, n0, b.nodesByPath.Keys)
    requires shaped ==> WalkShaped(ev, b.absRoot)
    requires Extends(b.nodes, start)
    modifies b
    ensures b.Valid() && Extends(b.nodes, start)
    ensures err.None? ==> WalkedTo(ev, b.absRoot, b.isIgnored, |ev|, walked, b.nodes, n0, b.nodesByPath.Keys)
    ensures err.Some? && shaped ==>
      stopAt < |ev| && FirstUnlistable(ev, b.absRoot, b.isIgnored, stopAt) && err.value == CannotRead(ev[stopAt].path)
    decreases |ev| - i
  {
    if i == |ev| {
      return None, kept, i;
    }
    var next, stop, added := WalkStep(b, ev, i, kept, n0, shaped, start);
    if stop.Some? {
      return stop, kept, i;
    }
    err, walked, stopAt := WalkFrom(b, ev, next, kept + added, n0, shaped, start);
  }

  /** `filepath.WalkDir` below the root, driving the callback over the visits
      `ev` until one of them stops the walk. When the walk finishes, the nodes
      after the ones already there were made, in order, from exactly the
      surviving visits, and every surviving directory could be listed. In a
      shaped walk, the walk fails exactly when some surviving directory
      cannot be listed, and the error names the first such directory,
      visit `stopAt`. */
  method WalkEvents(b: TreeBuilder, ev: seq<Event>) returns (err: Option<string>, ghost kept: seq<nat>, ghost stopAt: nat)
    requires b.Valid() && WellNested(ev)
    modifies b
    ensures b.Valid()
    ensures Extends(b.nodes, old(b.nodes))
    ensures err.None? ==> kept == Surviving(ev, b.absRoot, b.isIgnored, 0)
    ensures err.None? ==> Records(b.nodes, old(|b.nodes|), ev, kept)
    ensures err.None? ==> WalkOk(ev, b.absRoot, b.isIgnored)
    ensures WalkShaped(ev, b.absRoot) && err.Some? ==>
      stopAt < |ev| && FirstUnlistable(ev, b.absRoot, b.isIgnored, stopAt) && err.value == CannotRead(ev[stopAt].path)
  {
    assert [] + Surviving(ev, b.absRoot, b.isIgnored, 0) == Surviving(ev, b.absRoot, b.isIgnored, 0);
    err, kept, stopAt := WalkFrom(b, ev, 0, [], |b.nodes|, WalkShaped(ev, b.absRoot), b.nodes);
    if err.None? {
      FinishedOk(ev, b.absRoot, b.isIgnored, kept);
    }
  }

  // ---------------------------------------------------------------------
  // Sorting the tree (recursiveSort)
  // ---------------------------------------------------------------------

  /** Each node's first sort key: whether it is a directory. */
  function DirFlags(heap: Heap): (r: seq<bool>)
    ensures |r| == |heap|
    ensures forall j :: 0 <= j < |heap| ==> r[j] == heap[j].isDir
  {
    seq(|heap|, j requires 0 <= j < |heap| => heap[j].isDir)
  }

  /** Each node's second sort key: its name. */
  function NameList(heap: Heap): (r: seq<string>)
    ensures |r| == |heap|
    ensures forall j :: 0 <= j < |heap| ==> r[j] == heap[j].name
  {
    seq(|heap|, j requires 0 <= j < |heap| => heap[j].name)
  }

  /** The order `recursiveSort` asks `sort.Slice` for: directories before
      files, and names ascending within each kind. */
  predicate KeyLe(dirA: bool, nameA: string, dirB: bool, nameB: string) {
    if dirA != dirB then dirA else Text.LessEq(nameA, nameB)
  }

  function DirAt(dirs: seq<bool>, c: Ptr): bool {
    c < |dirs| && dirs[c]
  }

  function NameAt(names: seq<string>, c: Ptr): string {
    if c < |names| then names[c] else ""
  }

  /** The order on child pointers induced by the keys of the nodes they
      point to. */
  function KeyOrder(dirs: seq<bool>, names: seq<string>): (Ptr, Ptr) -> bool {
    (a: Ptr, b: Ptr) => KeyLe(DirAt(dirs, a), NameAt(names, a), DirAt(dirs, b), NameAt(names, b))
  }

  /** The child order of the nodes of `heap`. */
  function ChildOrder(heap: Heap): (Ptr, Ptr) -> bool {
    KeyOrder(DirFlags(heap), NameList(heap))
  }

  lemma KeyOrderIsTotalPreorder(dirs: seq<bool>, names: seq<string>)
    ensures Sorting.TotalPreorder(KeyOrder(dirs, names))
  {
    var le := KeyOrder(dirs, names);
    forall a: Ptr, b: Ptr ensures le(a, b) || le(b, a) {
      Text.LessEqTotal(NameAt(names, a), NameAt(names, b));
    }
    forall a: Ptr, b: Ptr, c: Ptr | le(a, b) && le(b, c) ensures le(a, c) {
      if DirAt(dirs, a) == DirAt(dirs, b) == DirAt(dirs, c) {
        Text.LessEqTransitive(NameAt(names, a), NameAt(names, b), NameAt(names, c));
      }
    }
  }

  /** Two heaps whose nodes agree on kind and name order children alike. */
  predicate SameKeys(h: Heap, heap: Heap) {
    DirFlags(h) == DirFlags(heap) && NameList(h) == NameList(heap)
  }

  /** A directory's child list as `sort.Slice` leaves it. */
  function SortedChildren(heap: Heap, kids: seq<Ptr>): (r: seq<Ptr>)
    ensures |r| == |kids| && multiset(r) == multiset(kids)
    ensures Sorting.SortedBy(r, ChildOrder(heap))
  {
    KeyOrderIsTotalPreorder(DirFlags(heap), NameList(heap));
    Sorting.SortBy(kids, ChildOrder(heap))
  }

  /** Node `j` after `recursiveSort` has visited it: a directory's children
      are sorted, a file is left alone. */
  function SortNode(heap: Heap, j: Ptr): Node
    requires j < |heap|
  {
    if heap[j].isDir then heap[j].(children := SortedChildren(heap, heap[j].children)) else heap[j]
  }

  /** The nodes `recursiveSort(i)` visits: `i`, and, when `i` is a directory,
      everything reachable from its children. */
  ghost function Reach(heap: Heap, i: Ptr): set<Ptr>
    requires WellFormed(heap) && i < |heap|
    decreases |heap| - i
  {
    if !heap[i].isDir then {i}
    else {i} + set c, j | c in heap[i].children && j in Reach(heap, c) :: j
  }

  /** `h` is `heap` with some of its nodes sorted. */
  ghost predicate PartlySorted(heap: Heap, h: Heap) {
    |h| == |heap| && forall j :: 0 <= j < |h| ==> h[j] == heap[j] || h[j] == SortNode(heap, j)
  }

  lemma SortNodeFacts(heap: Heap, j: Ptr)
    requires j < |heap|
    ensures var n := SortNode(heap, j);
      && n.name == heap[j].name && n.path == heap[j].path && n.isDir == heap[j].isDir
      && n.loc == heap[j].loc && n.elements == heap[j].elements
      && forall c :: c in n.children <==> c in heap[j].children
  {
    var n := SortNode(heap, j);
    forall c ensures c in n.children <==> c in heap[j].children {
      assert c in n.children <==> c in multiset(n.children);
      assert c in heap[j].children <==> c in multiset(heap[j].children);
    }
  }

  /** Sorting some nodes changes no key, no child set and no shape, and
      sorting a node a second time changes nothing. */
  lemma PartlySortedFacts(heap: Heap, h: Heap)
    requires WellFormed(heap) && PartlySorted(heap, h)
    ensures WellFormed(h)
    ensures SameKeys(h, heap)
    ensures forall j :: 0 <= j < |h| ==> SameEntry(h[j], heap[j])
    ensures forall j, c :: 0 <= j < |h| ==> (c in h[j].children <==> c in heap[j].children)
    ensures forall j :: 0 <= j < |h| ==> SortNode(h, j) == SortNode(heap, j)
  {
    forall j | 0 <= j < |h| ensures SameEntry(h[j], heap[j]) && forall c :: c in h[j].children <==> c in heap[j].children {
      SortNodeFacts(heap, j);
    }
    assert DirFlags(h) == DirFlags(heap) && NameList(h) == NameList(heap);
    forall j | 0 <= j < |h| ensures SortNode(h, j) == SortNode(heap, j) {
      if h[j] != heap[j] && heap[j].isDir {
        KeyOrderIsTotalPreorder(DirFlags(heap), NameList(heap));
        Sorting.SortByIdempotent(heap[j].children, ChildOrder(heap));
      }
    }
  }

  lemma {:induction false} ReachOfPartlySorted(heap: Heap, h: Heap, i: Ptr)
    requires WellFormed(heap) && PartlySorted(heap, h) && i < |heap|
    ensures WellFormed(h) && Reach(h, i) == Reach(heap, i)
    decreases |heap| - i
  {
    PartlySortedFacts(heap, h);
    if heap[i].isDir {
      forall c | c in heap[i].children ensures Reach(h, c) == Reach(heap, c) {
        ReachOfPartlySorted(heap, h, c);
      }
    }
  }

  /** `recursiveSort(i)`: every node it reaches is sorted, every other node
      is untouched. */
  method RecursiveSort(heap: Heap, i: Ptr) returns (h: Heap)
    requires WellFormed(heap) && i < |heap|
    ensures |h| == |heap|
    ensures forall j :: 0 <= j < |heap| ==> h[j] == if j in Reach(heap, i) then SortNode(heap, j) else heap[j]
    decreases |heap| - i, 1
  {
    if !heap[i].isDir || |heap[i].children| == 0 {
      assert Reach(heap, i) == {i};
      return heap;
    }
    h := heap[i := SortNode(heap, i)];
    var kids := h[i].children;
    assert forall c :: c in kids <==> c in heap[i].children by {
      SortNodeFacts(heap, i);
    }
    ghost var done: set<Ptr> := {i};
    for k := 0 to |kids|
      invariant |h| == |heap|
      invariant forall j :: 0 <= j < |heap| ==> h[j] == if j in done then SortNode(heap, j) else heap[j]
      invariant forall j :: j in done <==> j == i || exists m :: 0 <= m < k && kids[m] in heap[i].children && j in Reach(heap, kids[m])
    {
      var c := kids[k];
      assert c in heap[i].children;
      h := SortSubtree(heap, h, c, done);
      DoneStep(heap, i, kids, k, done);
      done := done + Reach(heap, c);
    }
  }

  /** One pass of the loop of `recursiveSort`: sorts below child `c`. */
  method SortSubtree(heap: Heap, h: Heap, c: Ptr, ghost done: set<Ptr>) returns (h2: Heap)
    requires WellFormed(heap) && c < |heap| && |h| == |heap|
    requires forall j :: 0 <= j < |heap| ==> h[j] == if j in done then SortNode(heap, j) else heap[j]
    ensures |h2| == |heap|
    ensures forall j :: 0 <= j < |heap| ==> h2[j] == if j in done + Reach(heap, c) then SortNode(heap, j) else heap[j]
    decreases |heap| - c, 2
  {
    assert PartlySorted(heap, h);
    ReachOfPartlySorted(heap, h, c);
    PartlySortedFacts(heap, h);
    if h[c].isDir {
      h2 := RecursiveSort(h, c);
    } else {
      assert Reach(heap, c) == {c};
      h2 := h;
    }
  }

  lemma DoneStep(heap: Heap, i: Ptr, kids: seq<Ptr>, k: nat, done: set<Ptr>)
    requires WellFormed(heap) && i < |heap| && k < |kids| && kids[k] in heap[i].children
    requires forall j :: j in done <==> j == i || exists m :: 0 <= m < k && kids[m] in heap[i].children && j in Reach(heap, kids[m])
    ensures forall j :: j in done + Reach(heap, kids[k]) <==>
      j == i || exists m :: 0 <= m < k + 1 && kids[m] in heap[i].children && j in Reach(heap, kids[m])
  {
  }


  /** Sorting is idempotent: once every node is sorted, sorting any node
      again changes nothing. */
  lemma SortingIsIdempotent(heap: Heap, h: Heap)
    requires WellFormed(heap)
    requires |h| == |heap| && forall j :: 0 <= j < |heap| ==> h[j] == SortNode(heap, j)
    ensures forall j :: 0 <= j < |h| ==> SortNode(h, j) == h[j]
  {
    assert PartlySorted(heap, h);
    PartlySortedFacts(heap, h);
  }

  /** A child of a directory reached from `i` is reached from `i`. */
  lemma {:induction false} ReachChild(heap: Heap, i: Ptr, p: Ptr, c: Ptr)
    requires WellFormed(heap) && i < |heap| && p in Reach(heap, i)
    requires p < |heap| && heap[p].isDir && c in heap[p].children
    ensures c in Reach(heap, i)
    decreases |heap| - i
  {
    assert c in Reach(heap, c) by {
      if heap[c].isDir {
      }
    }
    if p != i {
      var d :| d in heap[i].children && p in Reach(heap, d);
      ReachChild(heap, d, p, c);
    }
  }

  /** In the tree the walk builds, `recursiveSort(root)` reaches every
      node. */
  lemma {:induction false} AllReached(heap: Heap, parent: seq<Ptr>, absRoot: string, isIgnored: string -> bool, j: Ptr)
    requires TreeShape(heap, parent, absRoot, isIgnored) && j < |heap|
    ensures j in Reach(heap, 0)
  {
    if j == 0 {
    } else {
      var p := parent[j];
      assert p < j && j in heap[p].children && heap[p].isDir;
      AllReached(heap, parent, absRoot, isIgnored, p);
      ReachChild(heap, 0, p, j);
    }
  }

  /** Every directory's children are in `recursiveSort`'s order. */
  predicate ChildrenSorted(heap: Heap) {
    forall j :: 0 <= j < |heap| ==> Sorting.SortedBy(heap[j].children, ChildOrder(heap))
  }

  /** What the order means for two children of the same directory, the
      first listed before the second: a directory is never listed after a
      file, and two of the same kind are in ascending name order. */
  lemma ChildrenSortedMeans(heap: Heap, j: Ptr, a: nat, b: nat)
    requires WellFormed(heap) && ChildrenSorted(heap) && j < |heap|
    requires a < b < |heap[j].children|
    ensures heap[j].children[a] < |heap| && heap[j].children[b] < |heap|
    ensures var x, y := heap[heap[j].children[a]], heap[heap[j].children[b]];
      (y.isDir ==> x.isDir) && (x.isDir == y.isDir ==> Text.LessEq(x.name, y.name))
  {
    var kids := heap[j].children;
    assert kids[a] in kids && kids[b] in kids;
    assert kids[a] < |heap| && kids[b] < |heap|;
    assert ChildOrder(heap)(kids[a], kids[b]);
  }

  /** Every node but the root hangs under exactly one directory node, whose
      path is the node's `filepath.Dir`, and is listed there once. */
  ghost predicate ParentLinked(heap: Heap) {
    && (forall j :: 1 <= j < |heap| ==> HasParent(heap, j))
    && (forall p, q, c :: 0 <= p < |heap| && 0 <= q < |heap| && c in heap[p].children && c in heap[q].children ==> p == q)
    && ListedOnce(heap)
  }

  /** Node `j` is listed under an earlier directory node whose path is its
      `filepath.Dir`. */
  ghost predicate HasParent(heap: Heap, j: Ptr)
    requires j < |heap|
  {
    exists p :: 0 <= p < j && j in heap[p].children && heap[p].isDir && heap[p].path == FilePath.Dir(heap[j].path)
  }

  /** Sorting every directory keeps the shape the walk built. */
  lemma SortedShape(heap: Heap, parent: seq<Ptr>, absRoot: string, isIgnored: string -> bool, h: Heap)
    requires TreeShape(heap, parent, absRoot, isIgnored)
    requires |h| == |heap| && forall j :: 0 <= j < |heap| ==> h[j] == SortNode(heap, j)
    ensures WellFormed(h) && Blank(h) && ParentLinked(h) && ChildrenSorted(h)
    ensures forall j :: 0 <= j < |h| ==> SameEntry(h[j], heap[j])
  {
    assert PartlySorted(heap, h);
    PartlySortedFacts(heap, h);
    SortedBlank(heap, h);
    SortedListedOnce(heap, h);
    SortedLinked(heap, parent, absRoot, isIgnored, h);
    SortedOrder(heap, h);
  }

  lemma SortedBlank(heap: Heap, h: Heap)
    requires Blank(heap)
    requires |h| == |heap| && forall j :: 0 <= j < |heap| ==> h[j] == SortNode(heap, j)
    ensures Blank(h)
  {
    forall j | 0 <= j < |h| ensures h[j].loc == 0 && h[j].elements == [] && (!h[j].isDir ==> h[j].children == []) {
      SortNodeFacts(heap, j);
    }
  }

  lemma SortedLinked(heap: Heap, parent: seq<Ptr>, absRoot: string, isIgnored: string -> bool, h: Heap)
    requires WellFormed(heap) && |parent| == |heap| && Linked(heap, parent, absRoot, isIgnored) && Owned(heap, parent)
    requires |h| == |heap|
    requires forall j :: 0 <= j < |h| ==> SameEntry(h[j], heap[j])
    requires forall j, c :: 0 <= j < |h| ==> (c in h[j].children <==> c in heap[j].children)
    requires ListedOnce(h)
    ensures ParentLinked(h)
  {
    forall j | 1 <= j < |h| ensures HasParent(h, j) {
      var p := parent[j];
      assert p < j && j in heap[p].children && heap[p].isDir && heap[p].path == FilePath.Dir(heap[j].path);
      assert SameEntry(h[p], heap[p]) && SameEntry(h[j], heap[j]);
      assert j in h[p].children;
    }
    SortedOwned(heap, parent, h);
  }

  /** Sorting permutes each child list, so no child comes to be listed twice. */
  lemma SortedListedOnce(heap: Heap, h: Heap)
    requires ListedOnce(heap)
    requires |h| == |heap| && forall j :: 0 <= j < |heap| ==> h[j] == SortNode(heap, j)
    ensures ListedOnce(h)
  {
    forall j | 0 <= j < |h| ensures Distinct(h[j].children) {
      if heap[j].isDir {
        DistinctPermutation(heap[j].children, h[j].children);
      }
    }
  }

  /** A pointer that occurs once in a list occurs at most once in it counted
      as a multiset. */
  lemma {:induction false} DistinctCounts(s: seq<Ptr>, x: Ptr)
    requires Distinct(s)
    ensures multiset(s)[x] <= 1
    decreases |s|
  {
    if s != [] {
      assert s == [s[0]] + s[1..];
      var rest := s[1..];
      assert Distinct(rest) by {
        forall a, b | 0 <= a < b < |rest| ensures rest[a] != rest[b] {
          assert rest[a] == s[a + 1] && rest[b] == s[b + 1];
        }
      }
      DistinctCounts(rest, x);
      if x == s[0] {
        forall k | 0 <= k < |rest| ensures rest[k] != x {
          assert rest[k] == s[k + 1];
        }
        assert x !in rest;
      }
    }
  }

  /** Two equal entries count twice. */
  lemma CountedTwice(t: seq<Ptr>, a: nat, b: nat)
    requires a < b < |t|
    ensures t[a] == t[b] ==> multiset(t)[t[a]] >= 2
  {
    assert t == t[..a] + [t[a]] + t[a + 1..b] + [t[b]] + t[b + 1..];
  }

  /** A permutation of a list without repeats has none. */
  lemma DistinctPermutation(s: seq<Ptr>, t: seq<Ptr>)
    requires Distinct(s) && multiset(t) == multiset(s)
    ensures Distinct(t)
  {
    forall a, b | 0 <= a < b < |t| ensures t[a] != t[b] {
      DistinctCounts(s, t[a]);
      CountedTwice(t, a, b);
    }
  }

  lemma SortedOwned(heap: Heap, parent: seq<Ptr>, h: Heap)
    requires WellFormed(heap) && |parent| == |heap| && Owned(heap, parent)
    requires |h| == |heap|
    requires forall j, c :: 0 <= j < |h| ==> (c in h[j].children <==> c in heap[j].children)
    ensures forall p, q, c :: 0 <= p < |h| && 0 <= q < |h| && c in h[p].children && c in h[q].children ==> p == q
  {
    forall p, q, c | 0 <= p < |h| && 0 <= q < |h| && c in h[p].children && c in h[q].children ensures p == q {
      assert c in heap[p].children && c in heap[q].children;
      assert c < |heap| == |parent|;
      assert parent[c] == p && parent[c] == q;
    }
  }

  lemma SortedOrder(heap: Heap, h: Heap)
    requires Blank(heap) && SameKeys(h, heap)
    requires |h| == |heap| && forall j :: 0 <= j < |heap| ==> h[j] == SortNode(heap, j)
    ensures ChildrenSorted(h)
  {
    forall j | 0 <= j < |h| ensures Sorting.SortedBy(h[j].children, ChildOrder(h)) {
      if !heap[j].isDir {
        assert heap[j].children == [];
      }
    }
  }

  /** The walk's tree after `recursiveSort(root)`: the shape is kept, every
      child list is sorted, and the nodes still stand for the kept visits. */
  lemma SortedTree(built: Heap, parent: seq<Ptr>, absRoot: string, isIgnored: string -> bool,
                   h: Heap, ev: seq<Event>, kept: seq<nat>)
    requires TreeShape(built, parent, absRoot, isIgnored) && Records(built, 1, ev, kept)
    requires |h| == |built|
    requires forall j :: 0 <= j < |built| ==> h[j] == if j in Reach(built, 0) then SortNode(built, j) else built[j]
    ensures |h| >= 1 && h[0].name == FilePath.Base(absRoot) && h[0].path == absRoot && h[0].isDir
    ensures WellFormed(h) && Blank(h) && ParentLinked(h) && ChildrenSorted(h)
    ensures forall j :: 1 <= j < |h| ==> h[j].path != absRoot && !isIgnored(h[j].path)
    ensures Records(h, 1, ev, kept)
  {
    forall j | 0 <= j < |built| ensures j in Reach(built, 0) {
      AllReached(built, parent, absRoot, isIgnored, j);
    }
    SortedShape(built, parent, absRoot, isIgnored, h);
    SameEntriesKeepRecords(built, h, 1, ev, kept);
    forall j | 1 <= j < |h| ensures h[j].path != absRoot && !isIgnored(h[j].path) {
      assert parent[j] < |parent| && SameEntry(h[j], built[j]);
    }
  }

  // ---------------------------------------------------------------------
  // BuildFileTree
  // ---------------------------------------------------------------------

  /** The matcher built from the combined patterns, as a test on paths. */
  function Matcher(patterns: seq<string>, matches: (seq<string>, string) -> bool): string -> bool {
    path => matches(patterns, path)
  }

  /** The visits of the walk below `root` that yield a node. */
  function KeptVisits(absRoot: string, root: FsEntry, isIgnored: string -> bool): seq<nat> {
    Surviving(Events(absRoot, root), absRoot, isIgnored, 0)
  }

  /** The ignore test of a build: the matcher over the combined patterns. */
  function Ignoring(custom: seq<string>, gitignore: Option<string>, matches: (seq<string>, string) -> bool): string -> bool {
    Matcher(CombinePatterns(custom, gitignore), matches)
  }

  /** The walk of an existing root succeeds: the root, when it is a
      directory, and every surviving directory below it can be listed. */
  predicate WalkSucceeds(absRoot: string, root: FsEntry, isIgnored: string -> bool) {
    Listable(Event(absRoot, root.name, root.isDir, root.readable, 0)) && WalkOk(Events(absRoot, root), absRoot, isIgnored)
  }

  /** What a successful build returns: a root directory node named after
      the root path, then exactly the surviving walk visits, in walk order,
      each listed under its parent directory's node, nothing counted yet, no
      ignored path, and every child list sorted with directories first. */
  ghost predicate BuiltTree(heap: Heap, absRoot: string, root: FsEntry, isIgnored: string -> bool) {
    && |heap| >= 1
    && heap[0].name == FilePath.Base(absRoot) && heap[0].path == absRoot && heap[0].isDir
    && WellFormed(heap) && Blank(heap) && ParentLinked(heap) && ChildrenSorted(heap)
    && (forall j :: 1 <= j < |heap| ==> heap[j].path != absRoot && !isIgnored(heap[j].path))
    && Records(heap, 1, Events(absRoot, root), KeptVisits(absRoot, root, isIgnored))
  }

  /** What the analyzer needs of a built tree: a well-formed, parent-linked
      heap with a root whose nodes all start at zero lines of code. */
  lemma BuiltTreeBlank(heap: Heap, absRoot: string, root: FsEntry, isIgnored: string -> bool)
    requires BuiltTree(heap, absRoot, root, isIgnored)
    ensures WellFormed(heap) && ParentLinked(heap) && |heap| >= 1
    ensures forall j :: 0 <= j < |heap| ==> heap[j].loc == 0
  {
  }

  /** `BuildFileTree` on the absolute root path. `root` is what is found
      there (None when it cannot be stat'ed), `gitignore` the content of the
      root's `.gitignore` when it can be read, and `matches` the gitignore
      matcher. A root that cannot be stat'ed or listed is an error. The
      build succeeds only when every directory the walk enters can be
      listed; below a clean root path with well-named entries it succeeds
      exactly then, and otherwise reports the first directory that cannot
      be listed. On success the tree is the one `BuiltTree` describes; a
      root that is a file yields a lone, childless root directory node. */
  method BuildFileTree(absRoot: string, root: Option<FsEntry>, custom: seq<string>, gitignore: Option<string>,
                       matches: (seq<string>, string) -> bool)
    returns (r: Result<Heap, string>)
    ensures root.None? ==> r == Failure(CannotStat(absRoot))
    ensures root.Some? && !Listable(Event(absRoot, root.value.name, root.value.isDir, root.value.readable, 0)) ==>
      r == Failure(CannotRead(absRoot))
    ensures r.Success? ==> root.Some? && WalkSucceeds(absRoot, root.value, Ignoring(custom, gitignore, matches))
    ensures root.Some? && FilePath.CleanDir(absRoot) && WellNamedBelow(root.value) ==>
      (r.Success? <==> WalkSucceeds(absRoot, root.value, Ignoring(custom, gitignore, matches)))
    ensures root.Some? && FilePath.CleanDir(absRoot) && WellNamedBelow(root.value) && r.Failure? && (root.value.isDir ==> root.value.readable) ==>
      exists k: nat :: k < |Events(absRoot, root.value)| &&
        FirstUnlistable(Events(absRoot, root.value), absRoot, Ignoring(custom, gitignore, matches), k) &&
        r.error == CannotRead(Events(absRoot, root.value)[k].path)
    ensures r.Success? ==> BuiltTree(r.value, absRoot, root.value, Ignoring(custom, gitignore, matches))
  {
    var isIgnored := Matcher(CombinePatterns(custom, gitignore), matches);
    var b := new TreeBuilder(absRoot, isIgnored);
    if root.None? {
      // lstat failed: WalkDir hands the error to the callback
      var act := b.Visit(absRoot, FilePath.Base(absRoot), true, Some(CannotStat(absRoot)));
      return Failure(act.error);
    }
    var entry := root.value;
    var act := b.Visit(absRoot, entry.name, entry.isDir, None);
    if entry.isDir && !entry.readable {
      act := b.Visit(absRoot, entry.name, entry.isDir, Some(CannotRead(absRoot)));
      return Failure(act.error);
    }
    if FilePath.CleanDir(absRoot) && WellNamedBelow(entry) {
      EventsShaped(absRoot, entry);
    }
    r := WalkTree(b, entry);
  }

  /** The walk below the root and the final sort: the build fails exactly
      when a surviving directory cannot be listed or a parent lookup fails,
      and in a shaped walk only for the first directory that cannot be
      listed. */
  method WalkTree(b: TreeBuilder, entry: FsEntry) returns (r: Result<Heap, string>)
    requires b.Valid() && |b.nodes| == 1
    modifies b
    ensures r.Success? ==> WalkOk(Events(b.absRoot, entry), b.absRoot, b.isIgnored)
    ensures r.Success? ==> BuiltTree(r.value, b.absRoot, entry, b.isIgnored)
    ensures WalkShaped(Events(b.absRoot, entry), b.absRoot) && r.Failure? ==>
      exists k: nat :: k < |Events(b.absRoot, entry)| &&
        FirstUnlistable(Events(b.absRoot, entry), b.absRoot, b.isIgnored, k) &&
        r.error == CannotRead(Events(b.absRoot, entry)[k].path)
  {
    var ev := Events(b.absRoot, entry);
    var err, kept, stopAt := WalkEvents(b, ev);
    if err.Some? {
      return Failure(err.value);
    }
    var h := SortTree(b.nodes, b.parent, b.absRoot, b.isIgnored, ev, kept);
    r := Success(h);
  }

  /** The `recursiveSort(root)` that ends `BuildFileTree`. */
  method SortTree(built: Heap, ghost parent: seq<Ptr>, absRoot: string, isIgnored: string -> bool,
                  ghost ev: seq<Event>, ghost kept: seq<nat>) returns (h: Heap)
    requires TreeShape(built, parent, absRoot, isIgnored) && Records(built, 1, ev, kept)
    ensures |h| >= 1 && h[0].name == FilePath.Base(absRoot) && h[0].path == absRoot && h[0].isDir
    ensures WellFormed(h) && Blank(h) && ParentLinked(h) && ChildrenSorted(h)
    ensures forall j :: 1 <= j < |h| ==> h[j].path != absRoot && !isIgnored(h[j].path)
    ensures Records(h, 1, ev, kept)
  {
    h := RecursiveSort(built, 0);
    SortedTree(built, parent, absRoot, isIgnored, h, ev, kept);
  }
}
