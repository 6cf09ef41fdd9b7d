/** The analysis pipeline of internal/analyzer/analyzer.go: language lookup,
    collecting the tree's files, the include filter, the per-file worker,
    the aggregation of statistics, and `Analyze`, which runs them in order
    on the tree the walker built.

    The worker pool of `Analyze` is modelled as one sequential loop over the
    scheduled files: every job writes only its own node and `wg.Wait()` is a
    barrier, so the state after the pool is the state after the loop. */
module Analyzer {
  import opened Wrappers
  import opened Model
  import Text
  import FilePath
  import Config
  import Walker

  // ---------------------------------------------------------------------
  // GetLanguageByFileExtension
  // ---------------------------------------------------------------------

  /** The position of the first language of `langs` that lists `ext`. */
  function FirstWith(langs: seq<Language>, ext: string): (r: Option<nat>)
    ensures r.Some? ==> r.value < |langs| && ext in langs[r.value].extensions
    ensures r.Some? ==> forall k :: 0 <= k < r.value ==> ext !in langs[k].extensions
    ensures r.None? <==> forall k :: 0 <= k < |langs| ==> ext !in langs[k].extensions
  {
    if langs == [] then None
    else if ext in langs[0].extensions then Some(0)
    else match FirstWith(langs[1..], ext)
      case None => None
      case Some(k) => Some(k + 1)
  }

  /** The lookup key of a path: its extension, lower-cased. */
  function LookupKey(path: string): string {
    Text.ToLower(FilePath.Ext(path))
  }

  /** What `GetLanguageByFileExtension` answers: nothing for a path without
      an extension, else the first language of the table listing the
      lower-cased extension. The program always looks in its compiled table,
      `Config.Languages`; the model takes the table as `langs`. */
  function LanguageOf(langs: seq<Language>, path: string): Option<Language> {
    var ext := LookupKey(path);
    if ext == [] then None
    else match FirstWith(langs, ext)
      case None => None
      case Some(k) => Some(langs[k])
  }

  /** `LanguageOf` on the table `langs`, as a function of the path. */
  function Classifier(langs: seq<Language>): string -> Option<Language> {
    (path: string) => LanguageOf(langs, path)
  }

  /** Go's zero `model.Language`, returned with `false`. */
  const NoLanguage := Language("", [], [])

  /** The two nested loops of `GetLanguageByFileExtension` over a table:
      the first language listing `ext`, with its position. */
  method FindLanguage(langs: seq<Language>, ext: string) returns (found: Option<nat>)
    ensures found == FirstWith(langs, ext)
  {
    for k := 0 to |langs|
      invariant forall m :: 0 <= m < k ==> ext !in langs[m].extensions
    {
      var exts := langs[k].extensions;
      for e := 0 to |exts|
        invariant forall m :: 0 <= m < e ==> exts[m] != ext
      {
        if ext == exts[e] {
          return Some(k);
        }
      }
    }
    return None;
  }

  /** `GetLanguageByFileExtension`: the lower-cased extension looked up in
      the table; Go's zero language and `false` when there is none. */
  method GetLanguageByFileExtension(langs: seq<Language>, path: string) returns (lang: Language, ok: bool)
    ensures ok <==> LanguageOf(langs, path).Some?
    ensures ok ==> lang == LanguageOf(langs, path).value
    ensures !ok ==> lang == NoLanguage
  {
    var ext := Text.ToLower(FilePath.Ext(path));
    if ext == [] {
      return NoLanguage, false;
    }
    var found := FindLanguage(langs, ext);
    if found.None? {
      return NoLanguage, false;
    }
    return langs[found.value], true;
  }

  /** Because no extension is listed twice, the language found for a key is
      the one language that lists it, and a key no language lists (the empty
      one included) finds nothing. */
  lemma LookupFindsOwner(langs: seq<Language>, path: string, k: nat)
    requires Config.ListsKeys(langs) && Config.ExtensionsDisjoint(langs) && k < |langs|
    ensures LookupKey(path) in langs[k].extensions <==> LanguageOf(langs, path) == Some(langs[k])
  {
    var ext := LookupKey(path);
    if LanguageOf(langs, path) == Some(langs[k]) {
      var j := FirstWith(langs, ext).value;
      assert langs[j].extensions == langs[k].extensions;
    }
    if ext in langs[k].extensions {
      assert ext != [];
      var j := FirstWith(langs, ext).value;
      assert j <= k;
      assert j == k;
    }
  }

  /** A path with no extension is unsupported. */
  lemma NoExtensionIsUnsupported(langs: seq<Language>, path: string)
    requires FilePath.Ext(path) == []
    ensures LanguageOf(langs, path) == None
  {
  }

  /** Lookup ignores case: a path ending in a dotted suffix whose lower-case
      form a language lists is that language's file, whatever the case. */
  lemma LookupIgnoresCase(langs: seq<Language>, p: string, e: string, k: nat)
    requires Config.ListsKeys(langs) && Config.ExtensionsDisjoint(langs) && k < |langs|
    requires FilePath.DottedSuffix(e) && Text.ToLower(e) in langs[k].extensions
    ensures LanguageOf(langs, p + e) == Some(langs[k])
  {
    FilePath.ExtOfDottedSuffix(p, e);
    LookupFindsOwner(langs, p + e, k);
  }

  // ---------------------------------------------------------------------
  // collectFileNodes
  // ---------------------------------------------------------------------

  /** `collectFileNodes(i)`: a file yields itself; a directory yields the
      files of its children, child by child, depth first. */
  function CollectFileNodes(heap: Heap, i: Ptr): (r: seq<Ptr>)
    requires WellFormed(heap) && i < |heap|
    ensures forall k :: 0 <= k < |r| ==> i <= r[k] < |heap| && !heap[r[k]].isDir
    ensures !heap[i].isDir ==> r == [i]
    decreases |heap| - i, 1
  {
    if !heap[i].isDir then [i] else CollectChildren(heap, i, heap[i].children)
  }

  /** The files below the children `kids` of node `i`, in child order. */
  function CollectChildren(heap: Heap, i: Ptr, kids: seq<Ptr>): (r: seq<Ptr>)
    requires WellFormed(heap) && i < |heap|
    requires forall c :: c in kids ==> i < c < |heap|
    ensures forall k :: 0 <= k < |r| ==> i < r[k] < |heap| && !heap[r[k]].isDir
    decreases |heap| - i, 0, |kids|
  {
    if kids == [] then []
    else
      assert kids[0] in kids;
      assert forall c :: c in kids[1..] ==> c in kids;
      CollectFileNodes(heap, kids[0]) + CollectChildren(heap, i, kids[1..])
  }

  /** The files below a child are among the files below its parent. */
  lemma {:induction false} CollectChildrenContains(heap: Heap, i: Ptr, kids: seq<Ptr>, c: Ptr, j: Ptr)
    requires WellFormed(heap) && i < |heap|
    requires forall x :: x in kids ==> i < x < |heap|
    requires c in kids && c < |heap| && j in CollectFileNodes(heap, c)
    ensures j in CollectChildren(heap, i, kids)
    decreases |kids|
  {
    assert kids[0] in kids;
    assert forall x :: x in kids[1..] ==> x in kids;
    if kids[0] != c {
      CollectChildrenContains(heap, i, kids[1..], c, j);
    }
  }

  /** Every file of the tree the walker builds is collected from the root:
      following the parent links upwards from a file reaches the root, and
      each step keeps the file among the collected ones. */
  lemma {:induction false} CollectedAtRoot(heap: Heap, x: Ptr, j: Ptr)
    requires WellFormed(heap) && Walker.ParentLinked(heap) && x < |heap|
    requires j in CollectFileNodes(heap, x)
    ensures j in CollectFileNodes(heap, 0)
    decreases x
  {
    if x > 0 {
      assert Walker.HasParent(heap, x);
      var p :| 0 <= p < x && x in heap[p].children && heap[p].isDir && heap[p].path == FilePath.Dir(heap[x].path);
      CollectChildrenContains(heap, p, heap[p].children, x, j);
      CollectedAtRoot(heap, p, j);
    }
  }

  /** `collectFileNodes(root)` finds exactly the file nodes of the tree. */
  lemma CollectFindsEveryFile(heap: Heap)
    requires WellFormed(heap) && Walker.ParentLinked(heap) && |heap| >= 1
    ensures forall j :: 0 <= j < |heap| ==> (j in CollectFileNodes(heap, 0) <==> !heap[j].isDir)
  {
    forall j | 0 <= j < |heap| && !heap[j].isDir ensures j in CollectFileNodes(heap, 0) {
      CollectedAtRoot(heap, j, j);
    }
  }

  /** The files of a tree, counted once each. */
  ghost function FileNodes(heap: Heap): set<Ptr> {
    set j | 0 <= j < |heap| && !heap[j].isDir
  }

  /** Everything reachable from `a` lies at or after `a` in the heap. */
  lemma {:induction false} ReachBounds(heap: Heap, a: Ptr)
    requires WellFormed(heap) && a < |heap|
    ensures forall q :: q in Walker.Reach(heap, a) ==> a <= q < |heap|
    decreases |heap| - a
  {
    if heap[a].isDir {
      forall c | c in heap[a].children {
        ReachBounds(heap, c);
      }
    }
  }

  /** A node below `a`, other than `a`, is listed as a child of a node
      below `a`. */
  lemma {:induction false} ReachUp(heap: Heap, a: Ptr, j: Ptr)
    requires WellFormed(heap) && a < |heap|
    ensures j in Walker.Reach(heap, a) && j != a ==>
      exists q :: q in Walker.Reach(heap, a) && q < |heap| && j in heap[q].children
    decreases |heap| - a
  {
    if j in Walker.Reach(heap, a) && j != a {
      var c :| c in heap[a].children && j in Walker.Reach(heap, c);
      if c == j {
        assert a in Walker.Reach(heap, a);
      } else {
        ReachUp(heap, c, j);
        var q :| q in Walker.Reach(heap, c) && q < |heap| && j in heap[q].children;
        assert q in Walker.Reach(heap, a);
      }
    }
  }

  /** In a tree whose nodes have one parent each, two nodes with a common
      descendant lie one below the other. */
  lemma {:induction false} ReachComparable(heap: Heap, a: Ptr, b: Ptr, j: Ptr)
    requires WellFormed(heap) && Walker.ParentLinked(heap) && a < |heap| && b < |heap|
    ensures j in Walker.Reach(heap, a) && j in Walker.Reach(heap, b) ==>
      a in Walker.Reach(heap, b) || b in Walker.Reach(heap, a)
    decreases j
  {
    if j in Walker.Reach(heap, a) && j in Walker.Reach(heap, b) && j != a && j != b {
      ReachUp(heap, a, j);
      ReachUp(heap, b, j);
      var qa :| qa in Walker.Reach(heap, a) && qa < |heap| && j in heap[qa].children;
      var qb :| qb in Walker.Reach(heap, b) && qb < |heap| && j in heap[qb].children;
      assert qa == qb;
      ReachComparable(heap, a, b, qa);
    }
  }

  /** A child does not lie below a sibling: its only parent comes before
      that sibling. */
  lemma NotBelowSibling(heap: Heap, p: Ptr, c1: Ptr, c2: Ptr)
    requires WellFormed(heap) && Walker.ParentLinked(heap) && p < |heap|
    requires c1 in heap[p].children && c2 in heap[p].children && c1 != c2
    ensures c2 !in Walker.Reach(heap, c1)
  {
    ReachBounds(heap, c1);
    ReachUp(heap, c1, c2);
    forall q: Ptr | q < |heap| && c2 in heap[q].children ensures q == p {
    }
  }

  /** The subtrees of two different children of a node are disjoint. */
  lemma SiblingsApart(heap: Heap, p: Ptr, c1: Ptr, c2: Ptr, j: Ptr)
    requires WellFormed(heap) && Walker.ParentLinked(heap) && p < |heap|
    requires c1 in heap[p].children && c2 in heap[p].children && c1 != c2
    ensures !(j in Walker.Reach(heap, c1) && j in Walker.Reach(heap, c2))
  {
    ReachComparable(heap, c1, c2, j);
    NotBelowSibling(heap, p, c1, c2);
    NotBelowSibling(heap, p, c2, c1);
  }

  /** Every node `collectFileNodes(i)` yields is `i` or lies below it. */
  lemma {:induction false} CollectedBelow(heap: Heap, i: Ptr)
    requires WellFormed(heap) && i < |heap|
    ensures forall j :: j in CollectFileNodes(heap, i) ==> j in Walker.Reach(heap, i)
    decreases |heap| - i, 1
  {
    if heap[i].isDir {
      CollectChildrenBelow(heap, i, heap[i].children);
      forall j | j in CollectFileNodes(heap, i) ensures j in Walker.Reach(heap, i) {
        assert j in CollectChildren(heap, i, heap[i].children);
        var c :| c in heap[i].children && j in Walker.Reach(heap, c);
        assert j in Walker.Reach(heap, i);
      }
    }
  }

  /** Every node collected below the children `kids` lies below one of them. */
  lemma {:induction false} CollectChildrenBelow(heap: Heap, i: Ptr, kids: seq<Ptr>)
    requires WellFormed(heap) && i < |heap|
    requires forall c :: c in kids ==> i < c < |heap|
    ensures forall j :: j in CollectChildren(heap, i, kids) ==> exists c :: c in kids && j in Walker.Reach(heap, c)
    decreases |heap| - i, 0, |kids|
  {
    if kids != [] {
      assert kids[0] in kids;
      assert forall c :: c in kids[1..] ==> c in kids;
      CollectedBelow(heap, kids[0]);
      CollectChildrenBelow(heap, i, kids[1..]);
    }
  }

  /** Two lists without repeats and without a common element concatenate
      to a list without repeats. */
  lemma DistinctAppend(a: seq<Ptr>, b: seq<Ptr>)
    requires Distinct(a) && Distinct(b) && forall x :: x in a ==> x !in b
    ensures Distinct(a + b)
  {
    forall m, n | 0 <= m < n < |a + b| ensures (a + b)[m] != (a + b)[n] {
      if n >= |a| && m < |a| {
        assert a[m] in a && b[n - |a|] in b;
      }
    }
  }

  /** In the walked tree, `collectFileNodes(i)` yields no node twice. */
  lemma {:induction false} CollectedOnce(heap: Heap, i: Ptr)
    requires WellFormed(heap) && Walker.ParentLinked(heap) && i < |heap|
    ensures Distinct(CollectFileNodes(heap, i))
    decreases |heap| - i, 1
  {
    if heap[i].isDir {
      CollectChildrenOnce(heap, i, heap[i].children);
    }
  }

  /** The files below distinct children of `i` are collected once each. */
  lemma {:induction false} CollectChildrenOnce(heap: Heap, i: Ptr, kids: seq<Ptr>)
    requires WellFormed(heap) && Walker.ParentLinked(heap) && i < |heap|
    requires forall c :: c in kids ==> c in heap[i].children
    requires Distinct(kids)
    ensures forall c :: c in kids ==> i < c < |heap|
    ensures Distinct(CollectChildren(heap, i, kids))
    decreases |heap| - i, 0, |kids|
  {
    if kids != [] {
      var first, rest := kids[0], kids[1..];
      assert first in kids;
      assert forall c :: c in rest ==> c in kids;
      assert Distinct(rest) by {
        forall m, n | 0 <= m < n < |rest| ensures rest[m] != rest[n] {
          assert rest[m] == kids[m + 1] && rest[n] == kids[n + 1];
        }
      }
      CollectedOnce(heap, first);
      CollectChildrenOnce(heap, i, rest);
      CollectedBelow(heap, first);
      CollectChildrenBelow(heap, i, rest);
      var a, b := CollectFileNodes(heap, first), CollectChildren(heap, i, rest);
      forall y | y in b ensures y !in a {
        var c :| c in rest && y in Walker.Reach(heap, c);
        var m :| 0 <= m < |rest| && rest[m] == c;
        assert kids[m + 1] == c;
        SiblingsApart(heap, i, first, c, y);
      }
      DistinctAppend(a, b);
    }
  }

  /** The pointers occurring in `s`. */
  ghost function Members(s: seq<Ptr>): set<Ptr> {
    set x | x in s
  }

  /** A list without repeats has as many elements as its set of elements. */
  lemma {:induction false} DistinctCard(s: seq<Ptr>)
    requires Distinct(s)
    ensures |Members(s)| == |s|
    decreases |s|
  {
    if s != [] {
      var rest := s[1..];
      assert Distinct(rest) by {
        forall m, n | 0 <= m < n < |rest| ensures rest[m] != rest[n] {
          assert rest[m] == s[m + 1] && rest[n] == s[n + 1];
        }
      }
      DistinctCard(rest);
      forall k | 0 <= k < |rest| ensures rest[k] != s[0] {
        assert rest[k] == s[k + 1];
      }
      assert s[0] !in Members(rest);
      assert Members(s) == Members(rest) + {s[0]};
    } else {
      assert Members(s) == {};
    }
  }

  /** `len(allFileNodes)`, the `FilesScanned` of the summary, is the number
      of file nodes of the walked tree: each is collected, and only once. */
  lemma FilesScannedCountsFiles(heap: Heap)
    requires WellFormed(heap) && Walker.ParentLinked(heap) && |heap| >= 1
    ensures |CollectFileNodes(heap, 0)| == |FileNodes(heap)|
  {
    var all := CollectFileNodes(heap, 0);
    CollectFindsEveryFile(heap);
    CollectedOnce(heap, 0);
    DistinctCard(all);
    assert Members(all) == FileNodes(heap);
  }

  // ---------------------------------------------------------------------
  // The include filter of Analyze
  // ---------------------------------------------------------------------

  /** The set `Analyze` builds from the include list: each entry trimmed. */
  function IncludeSet(includeExts: seq<string>): set<string> {
    set e | e in includeExts :: Text.TrimSpace(e)
  }

  /** The elements of `s`, in order, that `keep` accepts. */
  function Filter<T>(s: seq<T>, keep: T -> bool): (r: seq<T>)
    ensures |r| <= |s|
    ensures forall k :: 0 <= k < |r| ==> r[k] in s
  {
    if s == [] then [] else ((if keep(s[0]) then [s[0]] else []) + Filter(s[1..], keep))
  }

  /** `Filter` keeps exactly the elements `keep` accepts. */
  lemma {:induction false} FilterMembers<T>(s: seq<T>, keep: T -> bool)
    ensures forall x :: x in Filter(s, keep) <==> x in s && keep(x)
  {
    if s != [] {
      FilterMembers(s[1..], keep);
      assert forall x :: x in s <==> x == s[0] || x in s[1..];
    }
  }

  /** `Filter` keeps the original order: it distributes over concatenation. */
  lemma {:induction false} FilterAppend<T>(a: seq<T>, b: seq<T>, keep: T -> bool)
    ensures Filter(a + b, keep) == Filter(a, keep) + Filter(b, keep)
  {
    if a != [] {
      assert (a + b)[1..] == a[1..] + b;
      FilterAppend(a[1..], b, keep);
    } else {
      assert a + b == b;
    }
  }

  /** On one element, `Filter` is the test itself. */
  lemma FilterOne<T>(x: T, keep: T -> bool)
    ensures Filter([x], keep) == if keep(x) then [x] else []
  {
    assert [x][1..] == [];
  }

  /** A node whose extension is in `wanted`; the comparison is
      case-sensitive. */
  function HasWantedExt(heap: Heap, wanted: set<string>): Ptr -> bool {
    (x: Ptr) => x < |heap| && FilePath.Ext(heap[x].path) in wanted
  }

  /** The files, in order, whose extension is in `wanted`. */
  function FilterByExt(heap: Heap, files: seq<Ptr>, wanted: set<string>): seq<Ptr> {
    Filter(files, HasWantedExt(heap, wanted))
  }

  /** The files `Analyze` hands to the workers: all of them when there is no
      include list, else those whose extension is in the include set. */
  function Scheduled(heap: Heap, files: seq<Ptr>, includeExts: seq<string>): (r: seq<Ptr>)
    ensures forall k :: 0 <= k < |r| ==> r[k] in files
  {
    if includeExts == [] then files else FilterByExt(heap, files, IncludeSet(includeExts))
  }

  /** A scheduled file is one of the files; with an include list, it is
      scheduled exactly when its extension is in the trimmed set. */
  lemma ScheduledMembers(heap: Heap, files: seq<Ptr>, includeExts: seq<string>)
    requires forall k :: 0 <= k < |files| ==> files[k] < |heap|
    ensures includeExts != [] ==> forall x :: x in Scheduled(heap, files, includeExts) <==>
      x in files && FilePath.Ext(heap[x].path) in IncludeSet(includeExts)
    ensures includeExts == [] ==> Scheduled(heap, files, includeExts) == files
  {
    FilterMembers(files, HasWantedExt(heap, IncludeSet(includeExts)));
  }

  /** The first loop of the include filter: the set of trimmed entries. */
  method BuildIncludeSet(includeExts: seq<string>) returns (includeSet: set<string>)
    ensures includeSet == IncludeSet(includeExts)
  {
    includeSet := {};
    for k := 0 to |includeExts|
      invariant includeSet == IncludeSet(includeExts[..k])
    {
      assert includeExts[..k + 1] == includeExts[..k] + [includeExts[k]];
      includeSet := includeSet + {Text.TrimSpace(includeExts[k])};
    }
    assert includeExts[..|includeExts|] == includeExts;
  }

  /** The second loop of the include filter: the files, in order, whose
      extension is in the set. */
  method FilterFiles(heap: Heap, files: seq<Ptr>, includeSet: set<string>) returns (filtered: seq<Ptr>)
    requires forall k :: 0 <= k < |files| ==> files[k] < |heap|
    ensures filtered == FilterByExt(heap, files, includeSet)
  {
    ghost var keep := HasWantedExt(heap, includeSet);
    filtered := [];
    for k := 0 to |files|
      invariant filtered == Filter(files[..k], keep)
    {
      var x := files[k];
      assert files[..k + 1] == files[..k] + [x];
      FilterAppend(files[..k], [x], keep);
      FilterOne(x, keep);
      var ext := FilePath.Ext(heap[x].path);
      assert keep(x) == (ext in includeSet);
      if ext in includeSet {
        filtered := filtered + [x];
      }
    }
    assert files[..|files|] == files;
  }

  /** The include filter of `Analyze`: every file when the list is empty,
      else the files whose extension is in the trimmed set. */
  method SelectFiles(heap: Heap, files: seq<Ptr>, includeExts: seq<string>) returns (filtered: seq<Ptr>)
    requires forall k :: 0 <= k < |files| ==> files[k] < |heap|
    ensures filtered == Scheduled(heap, files, includeExts)
  {
    if |includeExts| == 0 {
      return files;
    }
    var includeSet := BuildIncludeSet(includeExts);
    filtered := FilterFiles(heap, files, includeSet);
  }

  /** A path ending in ".GO" is a Go file for the program's table. */
  lemma UpperCaseGoIsGo(p: string)
    ensures LanguageOf(Config.Languages, p + ".GO") == Some(Config.Languages[0])
  {
    assert FilePath.DottedSuffix(".GO");
    assert Text.ToLower(".GO") == ".go";
    Config.ExtensionsAreKeys();
    Config.ExtensionsAreDisjoint();
    LookupIgnoresCase(Config.Languages, p, ".GO", 0);
  }

  /** With the include list [".go"], a file ending in ".GO" is not
      scheduled. */
  lemma UpperCaseGoIsNotScheduled(heap: Heap, x: Ptr, p: string)
    requires x < |heap| && heap[x].path == p + ".GO"
    ensures Scheduled(heap, [x], [".go"]) == []
  {
    assert FilePath.DottedSuffix(".GO");
    FilePath.ExtOfDottedSuffix(p, ".GO");
    assert Text.Trimmed(".go");
    Text.TrimSpaceOfTrimmed(".go");
    assert IncludeSet([".go"]) == {".go"};
    FilterOne(x, HasWantedExt(heap, {".go"}));
  }

  /** The file filter is case-sensitive although lookup is not: with the
      include list [".go"], a file ending in ".GO" is a Go file but is not
      scheduled. */
  lemma CaseSensitiveFilter(heap: Heap, x: Ptr, p: string)
    requires x < |heap| && heap[x].path == p + ".GO"
    ensures LanguageOf(Config.Languages, heap[x].path) == Some(Config.Languages[0])
    ensures Scheduled(heap, [x], [".go"]) == []
  {
    UpperCaseGoIsGo(p);
    UpperCaseGoIsNotScheduled(heap, x, p);
  }

  // ---------------------------------------------------------------------
  // worker
  // ---------------------------------------------------------------------

  /** The newline byte `bytes.Count` looks for. */
  const Newline: bv8 := 10

  /** A node after one worker has handled it. An unsupported file is skipped
      before it is read; a file that cannot be read keeps its node; a file
      that is read gets its line count, the number of newlines plus one, and
      then, when the parser succeeds, its elements. */
  function Processed(langs: seq<Language>, n: Node, read: string -> Option<seq<bv8>>,
                     parse: (seq<bv8>, Language) -> Result<seq<CodeElement>, string>): Node
  {
    match LanguageOf(langs, n.path)
    case None => n
    case Some(lang) => ProcessedAs(lang, n, read, parse)
  }

  /** The worker's handling of a file found to be in language `lang`. */
  function ProcessedAs(lang: Language, n: Node, read: string -> Option<seq<bv8>>,
                       parse: (seq<bv8>, Language) -> Result<seq<CodeElement>, string>): Node
  {
    match read(n.path)
    case None => n
    case Some(content) =>
      var counted := n.(loc := Text.Count(content, Newline) + 1);
      match parse(content, lang)
      case Failure(_) => counted
      case Success(elements) => counted.(elements := elements)
  }

  /** The line count is the number of newline-separated lines, the last
      line counting even when it is empty; the worker changes nothing but
      the line count and the elements. */
  lemma ProcessedCountsLines(langs: seq<Language>, n: Node, read: string -> Option<seq<bv8>>,
                             parse: (seq<bv8>, Language) -> Result<seq<CodeElement>, string>)
    ensures var m := Processed(langs, n, read, parse);
      && m.name == n.name && m.path == n.path && m.isDir == n.isDir && m.children == n.children
      && (LanguageOf(langs, n.path).None? || read(n.path).None? ==> m == n)
      && (LanguageOf(langs, n.path).Some? && read(n.path).Some? ==>
            m.loc == |Text.Split(read(n.path).value, Newline)| && m.loc >= 1)
  {
  }

  /** Handling a node twice is handling it once. */
  lemma ProcessedIdempotent(langs: seq<Language>, n: Node, read: string -> Option<seq<bv8>>,
                            parse: (seq<bv8>, Language) -> Result<seq<CodeElement>, string>)
    ensures Processed(langs, Processed(langs, n, read, parse), read, parse) == Processed(langs, n, read, parse)
  {
  }

  /** The heap after the workers have handled `jobs`. */
  ghost predicate WorkedOn(langs: seq<Language>, heap: Heap, h: Heap, jobs: seq<Ptr>, read: string -> Option<seq<bv8>>,
                           parse: (seq<bv8>, Language) -> Result<seq<CodeElement>, string>)
  {
    |h| == |heap| &&
    forall j :: 0 <= j < |heap| ==> h[j] == if j in jobs then Processed(langs, heap[j], read, parse) else heap[j]
  }

  /** The body of `worker` for one node: look the language up, read the
      file, count its lines, parse it. */
  method ProcessNode(langs: seq<Language>, n: Node, read: string -> Option<seq<bv8>>,
                     parse: (seq<bv8>, Language) -> Result<seq<CodeElement>, string>) returns (m: Node)
    ensures m == Processed(langs, n, read, parse)
  {
    m := n;
    var lang, ok := GetLanguageByFileExtension(langs, n.path);
    if !ok {
      return;
    }
    m := ProcessAs(lang, n, read, parse);
  }

  /** The worker past the lookup: read, count lines, parse. */
  method ProcessAs(lang: Language, n: Node, read: string -> Option<seq<bv8>>,
                   parse: (seq<bv8>, Language) -> Result<seq<CodeElement>, string>) returns (m: Node)
    ensures m == ProcessedAs(lang, n, read, parse)
  {
    m := n;
    var content := read(n.path);
    if content.None? {
      return;
    }
    m := m.(loc := Text.Count(content.value, Newline) + 1);
    var elements := parse(content.value, lang);
    if elements.Failure? {
      return;
    }
    m := m.(elements := elements.value);
  }

  /** The worker pool, run as one loop over the jobs in order. */
  method RunWorkers(langs: seq<Language>, heap: Heap, jobs: seq<Ptr>, read: string -> Option<seq<bv8>>,
                    parse: (seq<bv8>, Language) -> Result<seq<CodeElement>, string>) returns (h: Heap)
    requires forall k :: 0 <= k < |jobs| ==> jobs[k] < |heap|
    ensures WorkedOn(langs, heap, h, jobs, read, parse)
  {
    h := heap;
    for k := 0 to |jobs|
      invariant WorkedOn(langs, heap, h, jobs[..k], read, parse)
    {
      assert forall j :: j in jobs[..k + 1] <==> j in jobs[..k] || j == jobs[k];
      var p := jobs[k];
      ProcessedIdempotent(langs, heap[p], read, parse);
      var m := ProcessNode(langs, h[p], read, parse);
      h := h[p := m];
    }
    assert jobs[..|jobs|] == jobs;
  }

  // ---------------------------------------------------------------------
  // aggregateAnalytics
  // ---------------------------------------------------------------------

  /** The element types of `elements`, in order. */
  function Kinds(elements: seq<CodeElement>): (r: seq<string>)
    ensures |r| == |elements|
    ensures forall i :: 0 <= i < |elements| ==> r[i] == elements[i].kind
  {
    seq(|elements|, i requires 0 <= i < |elements| => elements[i].kind)
  }

  /** A Go map read: the entry, or the zero value when the key is missing. */
  function Get(counts: map<string, int>, t: string): int {
    if t in counts then counts[t] else 0
  }

  /** The inner loop of `aggregateAnalytics`: `counts[el.Type]++` for each
      element, in order. */
  function CountKinds(counts: map<string, int>, elements: seq<CodeElement>): map<string, int> {
    if elements == [] then counts
    else
      var c := CountKinds(counts, elements[..|elements| - 1]);
      var t := elements[|elements| - 1].kind;
      c[t := Get(c, t) + 1]
  }

  /** Counting adds, for each type, the number of elements of that type, and
      makes exactly the types that occur present. */
  lemma {:induction false} CountKindsCounts(counts: map<string, int>, elements: seq<CodeElement>, t: string)
    ensures t in CountKinds(counts, elements) <==> t in counts || t in Kinds(elements)
    ensures Get(CountKinds(counts, elements), t) == Get(counts, t) + Text.Count(Kinds(elements), t)
  {
    if elements != [] {
      var init := elements[..|elements| - 1];
      var last := elements[|elements| - 1];
      CountKindsCounts(counts, init, t);
      assert Kinds(elements) == Kinds(init) + [last.kind];
      Text.CountAppend(Kinds(init), [last.kind], t);
      assert [last.kind][1..] == [];
    }
  }

  /** Counting more elements keeps the counts equal to the occurrences in
      the types seen so far. */
  lemma CountKindsStep(counts: map<string, int>, seen: seq<string>, elements: seq<CodeElement>, t: string)
    requires t in counts <==> t in seen
    requires Get(counts, t) == Text.Count(seen, t)
    ensures t in CountKinds(counts, elements) <==> t in seen + Kinds(elements)
    ensures Get(CountKinds(counts, elements), t) == Text.Count(seen + Kinds(elements), t)
  {
    CountKindsCounts(counts, elements, t);
    Text.CountAppend(seen, Kinds(elements), t);
  }

  /** The inner loop of `aggregateAnalytics` over one node's elements. */
  method CountElementKinds(counts: map<string, int>, elements: seq<CodeElement>) returns (r: map<string, int>)
    ensures r == CountKinds(counts, elements)
  {
    r := counts;
    for k := 0 to |elements|
      invariant r == CountKinds(counts, elements[..k])
    {
      assert elements[..k + 1][..k] == elements[..k];
      var t := elements[k].kind;
      r := r[t := Get(r, t) + 1];
    }
    assert elements[..|elements|] == elements;
  }

  /** A language's entry before its first file: Go's zero `LanguageStats`
      with a fresh, empty element map. */
  const NoStats := LanguageStats(0, 0, map[])

  /** The summary before the first node. */
  const NoAnalytics := Analytics(0, 0, 0, 0, map[])

  /** One iteration of `aggregateAnalytics`: an unsupported node is skipped;
      a node with lines counts as parsed and adds its lines to the total; the
      node's elements are added to the total and to its language's entry,
      which also gets one more file and the node's lines. */
  function Accumulate(classify: string -> Option<Language>, s: Analytics, n: Node): Analytics {
    match classify(n.path)
    case None => s
    case Some(lang) => AccumulateAs(lang, s, n)
  }

  /** The counting of a file found to be in language `lang`. */
  function AccumulateAs(lang: Language, s: Analytics, n: Node): Analytics {
    var st := if lang.name in s.perLanguage then s.perLanguage[lang.name] else NoStats;
    s.(filesParsed := if n.loc > 0 then s.filesParsed + 1 else s.filesParsed,
       totalLOC := if n.loc > 0 then s.totalLOC + n.loc else s.totalLOC,
       totalElements := s.totalElements + |n.elements|,
       perLanguage := s.perLanguage[lang.name := LanguageStats(st.fileCount + 1, st.loc + n.loc,
                                                                CountKinds(st.elementCounts, n.elements))])
  }

  /** `aggregateAnalytics(all, parsed)`: the nodes of `parsed`, accumulated
      in order. The first argument is not read by the program. */
  function Aggregate(classify: string -> Option<Language>, heap: Heap, parsed: seq<Ptr>): Analytics
    requires forall k :: 0 <= k < |parsed| ==> parsed[k] < |heap|
  {
    if parsed == [] then NoAnalytics
    else Accumulate(classify, Aggregate(classify, heap, parsed[..|parsed| - 1]), heap[parsed[|parsed| - 1]])
  }

  /** The body of the loop of `aggregateAnalytics` for one node. */
  method AccumulateNode(langs: seq<Language>, stats: Analytics, node: Node) returns (s: Analytics)
    ensures s == Accumulate(Classifier(langs), stats, node)
  {
    s := stats;
    var lang, supported := GetLanguageByFileExtension(langs, node.path);
    if !supported {
      return;
    }
    assert Classifier(langs)(node.path) == Some(lang);
    s := AddFile(lang, stats, node);
  }

  /** The body of the worker loop of `aggregateAnalytics` past the lookup. */
  method AddFile(lang: Language, stats: Analytics, node: Node) returns (s: Analytics)
    ensures s == AccumulateAs(lang, stats, node)
  {
    s := stats;
    if node.loc > 0 {
      s := s.(filesParsed := s.filesParsed + 1, totalLOC := s.totalLOC + node.loc);
    }
    s := s.(totalElements := s.totalElements + |node.elements|);
    var langStats := if lang.name in s.perLanguage then s.perLanguage[lang.name] else NoStats;
    langStats := langStats.(fileCount := langStats.fileCount + 1, loc := langStats.loc + node.loc);
    var counts := CountElementKinds(langStats.elementCounts, node.elements);
    langStats := langStats.(elementCounts := counts);
    s := s.(perLanguage := s.perLanguage[lang.name := langStats]);
  }

  /** `aggregateAnalytics`: the loop over the scheduled nodes. */
  method AggregateAnalytics(langs: seq<Language>, heap: Heap, parsed: seq<Ptr>) returns (stats: Analytics)
    requires forall k :: 0 <= k < |parsed| ==> parsed[k] < |heap|
    ensures stats == Aggregate(Classifier(langs), heap, parsed)
  {
    stats := NoAnalytics;
    for k := 0 to |parsed|
      invariant stats == Aggregate(Classifier(langs), heap, parsed[..k])
    {
      assert parsed[..k + 1][..k] == parsed[..k];
      stats := AccumulateNode(langs, stats, heap[parsed[k]]);
    }
    assert parsed[..|parsed|] == parsed;
  }

  // What the aggregation computes, stated per file

  /** A node the aggregation does not skip: a file of a known language. */
  function IsSupported(classify: string -> Option<Language>, heap: Heap): Ptr -> bool {
    (x: Ptr) => x < |heap| && classify(heap[x].path).Some?
  }

  /** A supported file with lines: one counted as parsed. */
  function HasLines(classify: string -> Option<Language>, heap: Heap): Ptr -> bool {
    (x: Ptr) => x < |heap| && classify(heap[x].path).Some? && heap[x].loc > 0
  }

  /** A supported file of the language called `name`. */
  function IsOfLanguage(classify: string -> Option<Language>, heap: Heap, name: string): Ptr -> bool {
    (x: Ptr) => x < |heap| && classify(heap[x].path).Some? && classify(heap[x].path).value.name == name
  }

  function LocAt(heap: Heap, x: Ptr): int {
    if x < |heap| then heap[x].loc else 0
  }

  function ElementsAt(heap: Heap, x: Ptr): seq<CodeElement> {
    if x < |heap| then heap[x].elements else []
  }

  /** The lines of the nodes `xs`, added up. */
  function SumLoc(heap: Heap, xs: seq<Ptr>): int {
    if xs == [] then 0 else SumLoc(heap, xs[..|xs| - 1]) + LocAt(heap, xs[|xs| - 1])
  }

  /** The number of elements of the nodes `xs`, added up. */
  function SumElements(heap: Heap, xs: seq<Ptr>): int {
    if xs == [] then 0 else SumElements(heap, xs[..|xs| - 1]) + |ElementsAt(heap, xs[|xs| - 1])|
  }

  /** The element types of the nodes `xs`, node after node. */
  function KindsOf(heap: Heap, xs: seq<Ptr>): seq<string> {
    if xs == [] then [] else KindsOf(heap, xs[..|xs| - 1]) + Kinds(ElementsAt(heap, xs[|xs| - 1]))
  }

  /** Filtering a sequence extended by one element. */
  lemma FilterSnoc<T>(xs: seq<T>, x: T, keep: T -> bool)
    ensures Filter(xs + [x], keep) == Filter(xs, keep) + (if keep(x) then [x] else [])
  {
    FilterAppend(xs, [x], keep);
    FilterOne(x, keep);
  }

  lemma SumLocSnoc(heap: Heap, xs: seq<Ptr>, x: Ptr)
    ensures SumLoc(heap, xs + [x]) == SumLoc(heap, xs) + LocAt(heap, x)
  {
    assert (xs + [x])[..|xs|] == xs;
  }

  lemma SumElementsSnoc(heap: Heap, xs: seq<Ptr>, x: Ptr)
    ensures SumElements(heap, xs + [x]) == SumElements(heap, xs) + |ElementsAt(heap, x)|
  {
    assert (xs + [x])[..|xs|] == xs;
  }

  lemma KindsOfSnoc(heap: Heap, xs: seq<Ptr>, x: Ptr)
    ensures KindsOf(heap, xs + [x]) == KindsOf(heap, xs) + Kinds(ElementsAt(heap, x))
  {
    assert (xs + [x])[..|xs|] == xs;
  }

  /** One step of the aggregation on the totals. */
  lemma AccumulateTotals(classify: string -> Option<Language>, s: Analytics, n: Node)
    ensures var known := classify(n.path).Some?;
      var r := Accumulate(classify, s, n);
      && r.filesScanned == s.filesScanned
      && r.filesParsed == s.filesParsed + (if known && n.loc > 0 then 1 else 0)
      && r.totalLOC == s.totalLOC + (if known && n.loc > 0 then n.loc else 0)
      && r.totalElements == s.totalElements + (if known then |n.elements| else 0)
  {
  }

  /** The parsed count and total lines of the summary are those of the
      supported files with lines; nothing is scanned yet. */
  lemma {:induction false} AggregateParsed(classify: string -> Option<Language>, heap: Heap, parsed: seq<Ptr>)
    requires forall k :: 0 <= k < |parsed| ==> parsed[k] < |heap|
    ensures var s := Aggregate(classify, heap, parsed);
      var counted := Filter(parsed, HasLines(classify, heap));
      s.filesScanned == 0 && s.filesParsed == |counted| && s.totalLOC == SumLoc(heap, counted)
  {
    if parsed != [] {
      var init := parsed[..|parsed| - 1];
      var x := parsed[|parsed| - 1];
      assert parsed == init + [x];
      AggregateParsed(classify, heap, init);
      AccumulateTotals(classify, Aggregate(classify, heap, init), heap[x]);
      var counted := Filter(init, HasLines(classify, heap));
      FilterSnoc(init, x, HasLines(classify, heap));
      if HasLines(classify, heap)(x) {
        assert Filter(parsed, HasLines(classify, heap)) == counted + [x];
        SumLocSnoc(heap, counted, x);
      } else {
        assert Filter(parsed, HasLines(classify, heap)) == counted;
      }
    }
  }

  /** The total elements of the summary are those of the supported files. */
  lemma {:induction false} AggregateElements(classify: string -> Option<Language>, heap: Heap, parsed: seq<Ptr>)
    requires forall k :: 0 <= k < |parsed| ==> parsed[k] < |heap|
    ensures Aggregate(classify, heap, parsed).totalElements == SumElements(heap, Filter(parsed, IsSupported(classify, heap)))
  {
    if parsed != [] {
      var init := parsed[..|parsed| - 1];
      var x := parsed[|parsed| - 1];
      assert parsed == init + [x];
      AggregateElements(classify, heap, init);
      AccumulateTotals(classify, Aggregate(classify, heap, init), heap[x]);
      var supported := Filter(init, IsSupported(classify, heap));
      FilterSnoc(init, x, IsSupported(classify, heap));
      if IsSupported(classify, heap)(x) {
        assert Filter(parsed, IsSupported(classify, heap)) == supported + [x];
        SumElementsSnoc(heap, supported, x);
      } else {
        assert Filter(parsed, IsSupported(classify, heap)) == supported;
      }
    }
  }

  /** One step of the aggregation on the entry of the language `name`. */
  lemma AccumulateLanguage(classify: string -> Option<Language>, s: Analytics, n: Node, name: string)
    ensures var r := Accumulate(classify, s, n);
      var hit := classify(n.path).Some? && classify(n.path).value.name == name;
      var st := if name in s.perLanguage then s.perLanguage[name] else NoStats;
      && (name in r.perLanguage <==> name in s.perLanguage || hit)
      && (!hit && name in s.perLanguage ==> r.perLanguage[name] == s.perLanguage[name])
      && (hit ==>
            r.perLanguage[name] == LanguageStats(st.fileCount + 1, st.loc + n.loc, CountKinds(st.elementCounts, n.elements)))
  {
  }

  /** A language has an entry exactly when some file of it was aggregated. */
  lemma {:induction false} AggregateHasLanguage(classify: string -> Option<Language>, heap: Heap, parsed: seq<Ptr>, name: string)
    requires forall k :: 0 <= k < |parsed| ==> parsed[k] < |heap|
    ensures name in Aggregate(classify, heap, parsed).perLanguage <==> Filter(parsed, IsOfLanguage(classify, heap, name)) != []
  {
    if parsed != [] {
      var init := parsed[..|parsed| - 1];
      var x := parsed[|parsed| - 1];
      assert parsed == init + [x];
      AggregateHasLanguage(classify, heap, init, name);
      AccumulateLanguage(classify, Aggregate(classify, heap, init), heap[x], name);
      FilterSnoc(init, x, IsOfLanguage(classify, heap, name));
    }
  }

  /** A language's file count and lines are those of its files. */
  lemma {:induction false} AggregateLanguage(classify: string -> Option<Language>, heap: Heap, parsed: seq<Ptr>, name: string)
    requires forall k :: 0 <= k < |parsed| ==> parsed[k] < |heap|
    ensures var s := Aggregate(classify, heap, parsed);
      var files := Filter(parsed, IsOfLanguage(classify, heap, name));
      name in s.perLanguage ==>
        s.perLanguage[name].fileCount == |files| && s.perLanguage[name].loc == SumLoc(heap, files)
  {
    if parsed != [] {
      var init := parsed[..|parsed| - 1];
      var x := parsed[|parsed| - 1];
      assert parsed == init + [x];
      AggregateLanguage(classify, heap, init, name);
      AggregateHasLanguage(classify, heap, init, name);
      AccumulateLanguage(classify, Aggregate(classify, heap, init), heap[x], name);
      var files := Filter(init, IsOfLanguage(classify, heap, name));
      FilterSnoc(init, x, IsOfLanguage(classify, heap, name));
      var before := Aggregate(classify, heap, init);
      var after := Aggregate(classify, heap, parsed);
      if IsOfLanguage(classify, heap, name)(x) {
        assert Filter(parsed, IsOfLanguage(classify, heap, name)) == files + [x];
        SumLocSnoc(heap, files, x);
        var st := if name in before.perLanguage then before.perLanguage[name] else NoStats;
        assert st.fileCount == |files| && st.loc == SumLoc(heap, files);
        assert after.perLanguage[name].fileCount == st.fileCount + 1;
        assert after.perLanguage[name].loc == st.loc + heap[x].loc;
      } else {
        assert Filter(parsed, IsOfLanguage(classify, heap, name)) == files;
      }
    }
  }

  /** A language's element counts are, type by type, the number of elements
      of that type in its files. */
  lemma {:induction false} AggregateKinds(classify: string -> Option<Language>, heap: Heap, parsed: seq<Ptr>, name: string, t: string)
    requires forall k :: 0 <= k < |parsed| ==> parsed[k] < |heap|
    ensures var s := Aggregate(classify, heap, parsed);
      var kinds := KindsOf(heap, Filter(parsed, IsOfLanguage(classify, heap, name)));
      name in s.perLanguage ==>
        (t in s.perLanguage[name].elementCounts <==> t in kinds) &&
        Get(s.perLanguage[name].elementCounts, t) == Text.Count(kinds, t)
  {
    if parsed != [] {
      var init := parsed[..|parsed| - 1];
      var x := parsed[|parsed| - 1];
      assert parsed == init + [x];
      var before := Aggregate(classify, heap, init);
      AggregateKinds(classify, heap, init, name, t);
      AggregateHasLanguage(classify, heap, init, name);
      AccumulateLanguage(classify, before, heap[x], name);
      var files := Filter(init, IsOfLanguage(classify, heap, name));
      FilterSnoc(init, x, IsOfLanguage(classify, heap, name));
      if IsOfLanguage(classify, heap, name)(x) {
        assert Filter(parsed, IsOfLanguage(classify, heap, name)) == files + [x];
        KindsOfSnoc(heap, files, x);
        var counts := if name in before.perLanguage then before.perLanguage[name].elementCounts else map[];
        CountKindsStep(counts, KindsOf(heap, files), heap[x].elements, t);
      } else {
        assert Filter(parsed, IsOfLanguage(classify, heap, name)) == files;
      }
    }
  }

  // The totals agree with the breakdown

  /** The sum of `f` over the values of `m`. */
  ghost function MapSum<K(!new), V>(m: map<K, V>, f: V -> int): int
    decreases |m|
  {
    if m == map[] then 0
    else
      var k :| k in m;
      f(m[k]) + MapSum(m - {k}, f)
  }

  /** Any key can be taken out of the sum first. */
  lemma {:induction false} MapSumRemove<K(!new), V>(m: map<K, V>, f: V -> int, k: K)
    requires k in m
    ensures MapSum(m, f) == f(m[k]) + MapSum(m - {k}, f)
    decreases |m|
  {
    var j :| j in m && MapSum(m, f) == f(m[j]) + MapSum(m - {j}, f);
    if j != k {
      var mj := m - {j};
      var mk := m - {k};
      assert |mj| < |m| by { assert mj.Keys < m.Keys; }
      assert |mk| < |m| by { assert mk.Keys < m.Keys; }
      MapSumRemove(mj, f, k);
      MapSumRemove(mk, f, j);
      assert mj - {k} == mk - {j};
    }
  }

  /** Setting one entry changes the sum by the difference it makes. */
  lemma MapSumUpdate<K(!new), V>(m: map<K, V>, f: V -> int, k: K, v: V)
    ensures MapSum(m[k := v], f) == MapSum(m, f) - (if k in m then f(m[k]) else 0) + f(v)
  {
    MapSumRemove(m[k := v], f, k);
    if k in m {
      MapSumRemove(m, f, k);
      assert m[k := v] - {k} == m - {k};
    } else {
      assert m[k := v] - {k} == m;
    }
  }

  function Identity(c: int): int {
    c
  }

  function FileCountOf(st: LanguageStats): int {
    st.fileCount
  }

  function LocOf(st: LanguageStats): int {
    st.loc
  }

  /** The number of elements a language's entry records, over all types. */
  ghost function ElementsOf(st: LanguageStats): int {
    MapSum(st.elementCounts, Identity)
  }

  /** Counting the elements of a node adds their number to the total over
      all types. */
  lemma {:induction false} CountKindsTotal(counts: map<string, int>, elements: seq<CodeElement>)
    ensures MapSum(CountKinds(counts, elements), Identity) == MapSum(counts, Identity) + |elements|
  {
    if elements != [] {
      var init := elements[..|elements| - 1];
      var c := CountKinds(counts, init);
      var t := elements[|elements| - 1].kind;
      CountKindsTotal(counts, init);
      MapSumUpdate(c, Identity, t, Get(c, t) + 1);
    }
  }

  /** The totals of a summary agree with its per-language breakdown: the
      total lines are the lines of all languages, the total elements their
      elements, and the parsed files at most their files. */
  ghost predicate Consistent(s: Analytics) {
    && s.totalLOC == MapSum(s.perLanguage, LocOf)
    && s.totalElements == MapSum(s.perLanguage, (st: LanguageStats) => ElementsOf(st))
    && 0 <= s.filesParsed <= MapSum(s.perLanguage, FileCountOf)
  }

  /** Accumulating a node whose line count is not negative keeps the totals
      in agreement with the breakdown. */
  lemma AccumulateConsistent(classify: string -> Option<Language>, s: Analytics, n: Node)
    requires Consistent(s) && n.loc >= 0
    ensures Consistent(Accumulate(classify, s, n))
  {
    if classify(n.path).Some? {
      var name := classify(n.path).value.name;
      var st := if name in s.perLanguage then s.perLanguage[name] else NoStats;
      var st' := LanguageStats(st.fileCount + 1, st.loc + n.loc, CountKinds(st.elementCounts, n.elements));
      var r := Accumulate(classify, s, n);
      assert r.perLanguage == s.perLanguage[name := st'];
      MapSumUpdate(s.perLanguage, LocOf, name, st');
      MapSumUpdate(s.perLanguage, FileCountOf, name, st');
      MapSumUpdate(s.perLanguage, (st: LanguageStats) => ElementsOf(st), name, st');
      CountKindsTotal(st.elementCounts, n.elements);
      assert ElementsOf(NoStats) == 0;
    }
  }

  /** When no node has a negative line count, the summary's totals agree
      with its breakdown. */
  lemma {:induction false} AggregateConsistent(classify: string -> Option<Language>, heap: Heap, parsed: seq<Ptr>)
    requires forall k :: 0 <= k < |parsed| ==> parsed[k] < |heap| && heap[parsed[k]].loc >= 0
    ensures Consistent(Aggregate(classify, heap, parsed))
  {
    if parsed == [] {
      var none: map<string, LanguageStats> := map[];
      assert MapSum(none, LocOf) == 0;
    } else {
      var init := parsed[..|parsed| - 1];
      AggregateConsistent(classify, heap, init);
      AccumulateConsistent(classify, Aggregate(classify, heap, init), heap[parsed[|parsed| - 1]]);
    }
  }

  // ---------------------------------------------------------------------
  // Analyze
  // ---------------------------------------------------------------------

  /** Two heaps holding the same tree: only line counts and elements may
      differ. */
  predicate SameShape(heap: Heap, h: Heap) {
    |h| == |heap| &&
    forall j :: 0 <= j < |heap| ==>
      h[j].name == heap[j].name && h[j].path == heap[j].path &&
      h[j].isDir == heap[j].isDir && h[j].children == heap[j].children
  }

  /** The workers leave the tree as it is. */
  lemma WorkedOnSameShape(langs: seq<Language>, heap: Heap, h: Heap, jobs: seq<Ptr>, read: string -> Option<seq<bv8>>,
                          parse: (seq<bv8>, Language) -> Result<seq<CodeElement>, string>)
    requires WorkedOn(langs, heap, h, jobs, read, parse)
    ensures SameShape(heap, h)
  {
    forall j | 0 <= j < |heap|
      ensures h[j].name == heap[j].name && h[j].path == heap[j].path
      ensures h[j].isDir == heap[j].isDir && h[j].children == heap[j].children
    {
      ProcessedCountsLines(langs, heap[j], read, parse);
    }
  }

  /** The workers never make a line count negative. */
  lemma WorkedOnLoc(langs: seq<Language>, heap: Heap, h: Heap, jobs: seq<Ptr>, read: string -> Option<seq<bv8>>,
                    parse: (seq<bv8>, Language) -> Result<seq<CodeElement>, string>)
    requires WorkedOn(langs, heap, h, jobs, read, parse)
    requires forall j :: 0 <= j < |heap| ==> heap[j].loc >= 0
    ensures forall j :: 0 <= j < |h| ==> h[j].loc >= 0
  {
    forall j | 0 <= j < |heap|
      ensures h[j].loc >= 0
    {
      ProcessedCountsLines(langs, heap[j], read, parse);
    }
  }

  /** The files of a tree depend on its shape only. */
  lemma {:induction false} CollectSameShape(heap: Heap, h: Heap, i: Ptr)
    requires WellFormed(heap) && SameShape(heap, h) && i < |heap|
    ensures WellFormed(h) && CollectFileNodes(h, i) == CollectFileNodes(heap, i)
    decreases |heap| - i, 1
  {
    if heap[i].isDir {
      CollectChildrenSameShape(heap, h, i, heap[i].children);
    }
  }

  lemma {:induction false} CollectChildrenSameShape(heap: Heap, h: Heap, i: Ptr, kids: seq<Ptr>)
    requires WellFormed(heap) && SameShape(heap, h) && i < |heap|
    requires forall c :: c in kids ==> i < c < |heap|
    ensures WellFormed(h) && CollectChildren(h, i, kids) == CollectChildren(heap, i, kids)
    decreases |heap| - i, 0, |kids|
  {
    if kids != [] {
      assert kids[0] in kids;
      assert forall c :: c in kids[1..] ==> c in kids;
      CollectSameShape(heap, h, kids[0]);
      CollectChildrenSameShape(heap, h, i, kids[1..]);
    }
  }

  /** Two tests that agree on every element filter alike. */
  lemma {:induction false} FilterAgrees<T>(s: seq<T>, keep: T -> bool, keep': T -> bool)
    requires forall k :: 0 <= k < |s| ==> keep(s[k]) == keep'(s[k])
    ensures Filter(s, keep) == Filter(s, keep')
  {
    if s != [] {
      FilterAgrees(s[1..], keep, keep');
    }
  }

  /** Which files are scheduled depends on their paths only. */
  lemma ScheduledSameShape(heap: Heap, h: Heap, files: seq<Ptr>, includeExts: seq<string>)
    requires SameShape(heap, h)
    requires forall k :: 0 <= k < |files| ==> files[k] < |heap|
    ensures Scheduled(h, files, includeExts) == Scheduled(heap, files, includeExts)
  {
    FilterAgrees(files, HasWantedExt(h, IncludeSet(includeExts)), HasWantedExt(heap, IncludeSet(includeExts)));
  }

  /** The summary `Analyze` returns for an analysed tree: the aggregation of
      the scheduled files, with every collected file counted as scanned. */
  function Summary(langs: seq<Language>, h: Heap, includeExts: seq<string>): Analytics
    requires WellFormed(h) && |h| >= 1
  {
    var all := CollectFileNodes(h, 0);
    Aggregate(Classifier(langs), h, Scheduled(h, all, includeExts)).(filesScanned := |all|)
  }

  /** `Analyze` after the walk: collect the files, apply the include filter,
      run the workers on the scheduled files, and aggregate. */
  method AnalyzeTree(langs: seq<Language>, heap: Heap, includeExts: seq<string>, read: string -> Option<seq<bv8>>,
                     parse: (seq<bv8>, Language) -> Result<seq<CodeElement>, string>) returns (h: Heap, stats: Analytics)
    requires WellFormed(heap) && |heap| >= 1
    ensures WorkedOn(langs, heap, h, Scheduled(heap, CollectFileNodes(heap, 0), includeExts), read, parse)
    ensures SameShape(heap, h) && WellFormed(h)
    ensures stats == Summary(langs, h, includeExts)
    ensures (forall j :: 0 <= j < |heap| ==> heap[j].loc >= 0) ==> Consistent(stats)
    ensures Walker.ParentLinked(heap) ==> stats.filesScanned == |FileNodes(heap)|
  {
    var all := CollectFileNodes(heap, 0);
    if Walker.ParentLinked(heap) {
      FilesScannedCountsFiles(heap);
    }
    var filtered := SelectFiles(heap, all, includeExts);
    h := RunWorkers(langs, heap, filtered, read, parse);
    WorkedOnSameShape(langs, heap, h, filtered, read, parse);
    CollectSameShape(heap, h, 0);
    ScheduledSameShape(heap, h, all, includeExts);
    stats := AggregateAnalytics(langs, h, filtered);
    if forall j :: 0 <= j < |heap| ==> heap[j].loc >= 0 {
      WorkedOnLoc(langs, heap, h, filtered, read, parse);
      AggregateConsistent(Classifier(langs), h, filtered);
    }
    stats := stats.(filesScanned := |all|);
  }

  /** The prefix `Analyze` puts before the walker's error. */
  const WalkFailed := "failed to walk file tree: "

  /** `Analyze`: build the tree with the walker, then analyse it with the
      language table `langs` (the program passes `Config.Languages`). A
      walk that fails is reported with the walker's message behind
      `WalkFailed`; the analysis succeeds exactly when the build does. On success, `built` is the walker's tree, the
      result is that tree after the workers ran on the scheduled files, and
      the summary is that of the result, with every file of the walked tree
      scanned once. */
  method Analyze(langs: seq<Language>, absRoot: string, root: Option<Walker.FsEntry>, custom: seq<string>, gitignore: Option<string>,
                 matches: (seq<string>, string) -> bool, includeExts: seq<string>,
                 read: string -> Option<seq<bv8>>, parse: (seq<bv8>, Language) -> Result<seq<CodeElement>, string>)
    returns (r: Result<AnalysisResult, string>, ghost built: Heap)
    ensures root.None? ==> r == Failure(WalkFailed + Walker.CannotStat(absRoot))
    ensures r.Failure? ==> WalkFailed <= r.error
    ensures r.Success? ==> root.Some? && Walker.WalkSucceeds(absRoot, root.value, Walker.Ignoring(custom, gitignore, matches))
    ensures root.Some? && FilePath.CleanDir(absRoot) && Walker.WellNamedBelow(root.value) ==>
      (r.Success? <==> Walker.WalkSucceeds(absRoot, root.value, Walker.Ignoring(custom, gitignore, matches)))
    ensures r.Success? ==>
      && Walker.BuiltTree(built, absRoot, root.value, Walker.Ignoring(custom, gitignore, matches))
      && WorkedOn(langs, built, r.value.heap, Scheduled(built, CollectFileNodes(built, 0), includeExts), read, parse)
      && SameShape(built, r.value.heap) && WellFormed(r.value.heap)
      && r.value.analytics == Summary(langs, r.value.heap, includeExts)
      && Consistent(r.value.analytics)
      && r.value.analytics.filesScanned == |FileNodes(built)|
  {
    var tree := Walker.BuildFileTree(absRoot, root, custom, gitignore, matches);
    built := [];
    if tree.Failure? {
      return Failure(WalkFailed + tree.error), built;
    }
    built := tree.value;
    Walker.BuiltTreeBlank(built, absRoot, root.value, Walker.Ignoring(custom, gitignore, matches));
    var h, stats := AnalyzeTree(langs, tree.value, includeExts, read, parse);
    return Success(AnalysisResult(h, stats)), built;
  }
}
