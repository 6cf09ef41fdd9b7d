/** The text renderers of internal/analyzer/analyzer.go: `formatTree` with
    its helper `directoryContainsIncludedFiles`, `appendAnalytics`, and
    `FormatText`, which puts them together. Both write into a
    `strings.Builder`, modelled by the class `Builder`. */
module Format {
  import opened Model
  import Text
  import FilePath
  import Sorting
  import Analyzer

  /** Go's `strings.Builder`: text that only grows. */
  class Builder {
    var out: string

    constructor ()
      ensures out == []
    {
      out := [];
    }

    method WriteString(s: string)
      modifies this
      ensures out == old(out) + s
    {
      out := out + s;
    }
  }

  /** Regrouping text appended to a `Builder`. A lemma rather than an inline
      assertion, so that the writers in this module see this one fact instead
      of proving sequence equality in their own, much larger, contexts. */
  lemma AppendAssoc(a: string, b: string, c: string)
    ensures a + (b + c) == a + b + c
  {
  }

  // ---------------------------------------------------------------------
  // directoryContainsIncludedFiles
  // ---------------------------------------------------------------------

  /** `directoryContainsIncludedFiles(i, inc)`: a directory with a file
      child whose extension is listed, or a directory child for which this
      holds. The list is compared as given, case-sensitively. */
  function ContainsIncluded(heap: Heap, i: Ptr, inc: seq<string>): bool
    requires WellFormed(heap) && i < |heap|
    decreases |heap| - i, 1
  {
    heap[i].isDir && AnyChildIncluded(heap, i, heap[i].children, inc)
  }

  /** The loop of `directoryContainsIncludedFiles` over the children `kids`
      of node `i`. */
  function AnyChildIncluded(heap: Heap, i: Ptr, kids: seq<Ptr>, inc: seq<string>): bool
    requires WellFormed(heap) && i < |heap|
    requires forall c :: c in kids ==> i < c < |heap|
    decreases |heap| - i, 0, |kids|
  {
    if kids == [] then false
    else
      assert kids[0] in kids;
      assert forall c :: c in kids[1..] ==> c in kids;
      var c := kids[0];
      (if !heap[c].isDir then FilePath.Ext(heap[c].path) in inc else ContainsIncluded(heap, c, inc))
      || AnyChildIncluded(heap, i, kids[1..], inc)
  }

  /** Node `f` is a file with a listed extension. */
  predicate Listed(heap: Heap, f: Ptr, inc: seq<string>) {
    f < |heap| && FilePath.Ext(heap[f].path) in inc
  }

  /** Some node of `files` has a listed extension. */
  predicate SomeIncluded(heap: Heap, files: seq<Ptr>, inc: seq<string>) {
    exists k :: 0 <= k < |files| && Listed(heap, files[k], inc)
  }

  lemma SomeIncludedAppend(heap: Heap, a: seq<Ptr>, b: seq<Ptr>, inc: seq<string>)
    ensures SomeIncluded(heap, a + b, inc) <==> SomeIncluded(heap, a, inc) || SomeIncluded(heap, b, inc)
  {
    if SomeIncluded(heap, a + b, inc) {
      var k :| 0 <= k < |a + b| && Listed(heap, (a + b)[k], inc);
      if k >= |a| {
        assert b[k - |a|] == (a + b)[k];
      } else {
        assert a[k] == (a + b)[k];
      }
    }
    if SomeIncluded(heap, a, inc) {
      var k :| 0 <= k < |a| && Listed(heap, a[k], inc);
      assert (a + b)[k] == a[k];
    }
    if SomeIncluded(heap, b, inc) {
      var k :| 0 <= k < |b| && Listed(heap, b[k], inc);
      assert (a + b)[|a| + k] == b[k];
    }
  }

  /** A directory contains included files exactly when one of the files
      below it, at any depth, has a listed extension; a file never does. */
  lemma {:induction false} ContainsIncludedMeans(heap: Heap, i: Ptr, inc: seq<string>)
    requires WellFormed(heap) && i < |heap|
    ensures ContainsIncluded(heap, i, inc) <==>
      heap[i].isDir && SomeIncluded(heap, Analyzer.CollectFileNodes(heap, i), inc)
    decreases |heap| - i, 1
  {
    if heap[i].isDir {
      AnyChildIncludedMeans(heap, i, heap[i].children, inc);
    }
  }

  lemma {:induction false} AnyChildIncludedMeans(heap: Heap, i: Ptr, kids: seq<Ptr>, inc: seq<string>)
    requires WellFormed(heap) && i < |heap|
    requires forall c :: c in kids ==> i < c < |heap|
    ensures AnyChildIncluded(heap, i, kids, inc) <==> SomeIncluded(heap, Analyzer.CollectChildren(heap, i, kids), inc)
    decreases |heap| - i, 0, |kids|
  {
    if kids != [] {
      assert kids[0] in kids;
      assert forall c :: c in kids[1..] ==> c in kids;
      var c := kids[0];
      ChildIncludedMeans(heap, c, inc);
      AnyChildIncludedMeans(heap, i, kids[1..], inc);
      SomeIncludedAppend(heap, Analyzer.CollectFileNodes(heap, c), Analyzer.CollectChildren(heap, i, kids[1..]), inc);
    }
  }

  /** One child in the loop of `directoryContainsIncludedFiles`: a file with
      a listed extension, or a directory containing one. */
  lemma {:induction false} ChildIncludedMeans(heap: Heap, c: Ptr, inc: seq<string>)
    requires WellFormed(heap) && c < |heap|
    ensures (if !heap[c].isDir then FilePath.Ext(heap[c].path) in inc else ContainsIncluded(heap, c, inc)) <==>
      SomeIncluded(heap, Analyzer.CollectFileNodes(heap, c), inc)
    decreases |heap| - c, 2
  {
    if heap[c].isDir {
      ContainsIncludedMeans(heap, c, inc);
    } else {
      assert Analyzer.CollectFileNodes(heap, c)[0] == c;
    }
  }

  /** `directoryContainsIncludedFiles`: the loop over the children, with
      its early returns. */
  method DirectoryContainsIncludedFiles(heap: Heap, i: Ptr, inc: seq<string>) returns (found: bool)
    requires WellFormed(heap) && i < |heap|
    ensures found == ContainsIncluded(heap, i, inc)
    decreases |heap| - i
  {
    if !heap[i].isDir {
      return false;
    }
    var children := heap[i].children;
    for k := 0 to |children|
      invariant forall c :: c in children[k..] ==> c in children
      invariant ContainsIncluded(heap, i, inc) == AnyChildIncluded(heap, i, children[k..], inc)
    {
      var child := children[k];
      assert child in children;
      assert children[k..][1..] == children[k + 1..];
      if !heap[child].isDir {
        var ext := FilePath.Ext(heap[child].path);
        for e := 0 to |inc|
          invariant ext !in inc[..e]
        {
          if ext == inc[e] {
            return true;
          }
        }
        assert inc[..|inc|] == inc;
      } else {
        var sub := DirectoryContainsIncludedFiles(heap, child, inc);
        if sub {
          return true;
        }
      }
    }
    return false;
  }

  /** An empty directory contains no included files. */
  lemma EmptyDirectoryContainsNothing(heap: Heap, i: Ptr, inc: seq<string>)
    requires WellFormed(heap) && i < |heap| && heap[i].children == []
    ensures !ContainsIncluded(heap, i, inc)
  {
  }

  // ---------------------------------------------------------------------
  // formatTree
  // ---------------------------------------------------------------------

  const Tee := "├── "
  const Elbow := "└── "
  const Bar := "│   "
  const Gap := "    "

  /** The connector written before a child: the elbow for the last child
      of its directory, counting hidden children too. */
  function Connector(isLast: bool): string {
    if isLast then Elbow else Tee
  }

  /** The prefix the child's own lines are indented with. */
  function ChildPrefix(prefix: string, isLast: bool): string {
    if isLast then prefix + Gap else prefix + Bar
  }

  /** The comparison `formatTree` sorts a file's elements with. */
  function LineOrder(): (CodeElement, CodeElement) -> bool {
    (a: CodeElement, b: CodeElement) => a.line <= b.line
  }

  lemma LineOrderIsTotalPreorder()
    ensures Sorting.TotalPreorder(LineOrder())
  {
  }

  /** A file's elements as `formatTree` lists them: in ascending line order,
      and exactly the elements of the file. */
  function SortedElements(elements: seq<CodeElement>): (r: seq<CodeElement>)
    ensures multiset(r) == multiset(elements)
    ensures forall a, b :: 0 <= a < b < |r| ==> r[a].line <= r[b].line
  {
    LineOrderIsTotalPreorder();
    Sorting.SortBy(elements, LineOrder())
  }

  /** The line written for one element. */
  function ElementLine(prefix: string, el: CodeElement): string {
    prefix + "  - " + el.kind + ": " + el.name + " (L" + Text.IntToDecimal(el.line) + ")\n"
  }

  /** The lines written for `elements`, in order. */
  function ElementLines(prefix: string, elements: seq<CodeElement>): string {
    if elements == [] then []
    else ElementLines(prefix, elements[..|elements| - 1]) + ElementLine(prefix, elements[|elements| - 1])
  }

  /** A node `formatTree` writes something for: anything but a non-root
      directory that contains no included file while a filter is active. */
  predicate Shown(heap: Heap, i: Ptr, isRoot: bool, inc: seq<string>)
    requires WellFormed(heap) && i < |heap|
  {
    !(heap[i].isDir && |inc| > 0 && !isRoot && !ContainsIncluded(heap, i, inc))
  }

  /** The first line written for a node: the root's path as given, any
      other node's base name. */
  function Label(heap: Heap, i: Ptr, isRoot: bool): string
    requires i < |heap|
  {
    if isRoot then heap[i].path else FilePath.Base(heap[i].path)
  }

  /** A child that its parent writes a connector for: a directory, or any
      file when there is no filter, or a file whose extension is listed. */
  predicate Considered(heap: Heap, c: Ptr, inc: seq<string>)
    requires c < |heap|
  {
    heap[c].isDir || |inc| == 0 || FilePath.Ext(heap[c].path) in inc
  }

  /** The element lines `formatTree` writes under a file: its elements in
      ascending line order; nothing for a directory. */
  function ElementsText(heap: Heap, i: Ptr, prefix: string): string
    requires i < |heap|
  {
    if !heap[i].isDir && |heap[i].elements| > 0 then ElementLines(prefix, SortedElements(heap[i].elements)) else []
  }

  /** What `formatTree(i, prefix, isRoot, inc)` writes. */
  function Render(heap: Heap, i: Ptr, prefix: string, isRoot: bool, inc: seq<string>): (r: string)
    requires WellFormed(heap) && i < |heap|
    ensures r == [] <==> !Shown(heap, i, isRoot, inc)
    ensures Shown(heap, i, isRoot, inc) ==> Label(heap, i, isRoot) + "\n" <= r
    decreases |heap| - i, 2
  {
    if !Shown(heap, i, isRoot, inc) then []
    else Label(heap, i, isRoot) + "\n" + ElementsText(heap, i, prefix) + RenderChildren(heap, i, |heap[i].children|, prefix, inc)
  }

  /** What the loop of `formatTree` writes for the first `k` children. */
  function RenderChildren(heap: Heap, i: Ptr, k: nat, prefix: string, inc: seq<string>): string
    requires WellFormed(heap) && i < |heap| && k <= |heap[i].children|
    decreases |heap| - i, 1, k
  {
    if k == 0 then [] else RenderChildren(heap, i, k - 1, prefix, inc) + RenderChild(heap, i, k - 1, prefix, inc)
  }

  /** What the loop of `formatTree` writes for child number `k`. */
  function RenderChild(heap: Heap, i: Ptr, k: nat, prefix: string, inc: seq<string>): string
    requires WellFormed(heap) && i < |heap| && k < |heap[i].children|
    decreases |heap| - i, 0
  {
    var c := heap[i].children[k];
    assert c in heap[i].children;
    var isLast := k == |heap[i].children| - 1;
    if Considered(heap, c, inc) then prefix + Connector(isLast) + Render(heap, c, ChildPrefix(prefix, isLast), false, inc)
    else []
  }

  /** `formatTree`: write node `i` and, below it, its children. */
  method FormatTree(b: Builder, heap: Heap, i: Ptr, prefix: string, isRoot: bool, inc: seq<string>)
    requires WellFormed(heap) && i < |heap|
    modifies b
    ensures b.out == old(b.out) + Render(heap, i, prefix, isRoot, inc)
    decreases |heap| - i, 1
  {
    var node := heap[i];
    if node.isDir && |inc| > 0 && !isRoot {
      var contains := DirectoryContainsIncludedFiles(heap, i, inc);
      if !contains {
        assert b.out + [] == b.out;
        return;
      }
    }
    var name := FilePath.Base(node.path);
    if isRoot {
      name := node.path;
    }
    ghost var s0 := b.out;
    b.WriteString(name + "\n");
    ghost var s1 := b.out;
    if !node.isDir && |node.elements| > 0 {
      var sorted := SortedElements(node.elements);
      WriteElements(b, prefix, sorted);
    } else {
      assert b.out == s1 + [];
    }
    ghost var s2 := b.out;
    assert s2 == s1 + ElementsText(heap, i, prefix);
    for k := 0 to |node.children|
      invariant b.out == s2 + RenderChildren(heap, i, k, prefix, inc)
    {
      WriteChild(b, heap, i, k, prefix, inc);
      AppendAssoc(s2, RenderChildren(heap, i, k, prefix, inc), RenderChild(heap, i, k, prefix, inc));
    }
    ghost var head := Label(heap, i, isRoot) + "\n";
    ghost var rest := RenderChildren(heap, i, |heap[i].children|, prefix, inc);
    assert Render(heap, i, prefix, isRoot, inc) == head + ElementsText(heap, i, prefix) + rest;
    AppendAssoc(s0, head, ElementsText(heap, i, prefix));
    AppendAssoc(s0, head + ElementsText(heap, i, prefix), rest);
  }

  /** The body of the loop of `formatTree` for child number `k`. */
  method WriteChild(b: Builder, heap: Heap, i: Ptr, k: nat, prefix: string, inc: seq<string>)
    requires WellFormed(heap) && i < |heap| && k < |heap[i].children|
    modifies b
    ensures b.out == old(b.out) + RenderChild(heap, i, k, prefix, inc)
    decreases |heap| - i, 0
  {
    var children := heap[i].children;
    var child := children[k];
    assert child in heap[i].children;
    var isLast := k == |children| - 1;
    var connector := Tee;
    var newPrefix := prefix + Bar;
    if isLast {
      connector := Elbow;
      newPrefix := prefix + Gap;
    }
    assert connector == Connector(isLast) && newPrefix == ChildPrefix(prefix, isLast);
    var isIncluded := true;
    if !heap[child].isDir && |inc| > 0 {
      isIncluded := false;
      var ext := FilePath.Ext(heap[child].path);
      for e := 0 to |inc|
        invariant isIncluded <==> ext in inc[..e]
      {
        if ext == inc[e] {
          isIncluded := true;
          break;
        }
      }
      assert inc[..|inc|] == inc;
    }
    assert isIncluded == Considered(heap, child, inc);
    ghost var s0 := b.out;
    if isIncluded {
      b.WriteString(prefix + connector);
      FormatTree(b, heap, child, newPrefix, false, inc);
      AppendAssoc(s0, prefix + connector, Render(heap, child, newPrefix, false, inc));
    } else {
      assert b.out == s0 + [];
    }
  }

  // ---------------------------------------------------------------------
  // What formatTree shows
  // ---------------------------------------------------------------------

  /** With a filter, a directory below the root is written exactly when some
      file at any depth below it has a listed extension. */
  lemma DirectoryShownIffIncludedFile(heap: Heap, i: Ptr, prefix: string, inc: seq<string>)
    requires WellFormed(heap) && i < |heap| && heap[i].isDir && |inc| > 0
    ensures Render(heap, i, prefix, false, inc) != [] <==>
      SomeIncluded(heap, Analyzer.CollectFileNodes(heap, i), inc)
  {
    ContainsIncludedMeans(heap, i, inc);
  }

  /** Child number `k` of node `i`. */
  function ChildAt(heap: Heap, i: Ptr, k: nat): (c: Ptr)
    requires WellFormed(heap) && i < |heap| && k < |heap[i].children|
    ensures i < c < |heap| && c in heap[i].children
  {
    assert heap[i].children[k] in heap[i].children;
    heap[i].children[k]
  }

  /** With a filter, a file child is written exactly when its extension is
      in the list as given: the comparison is case-sensitive. */
  lemma FileChildShownIffListed(heap: Heap, i: Ptr, k: nat, prefix: string, inc: seq<string>)
    requires WellFormed(heap) && i < |heap| && k < |heap[i].children|
    requires !heap[ChildAt(heap, i, k)].isDir && |inc| > 0
    ensures RenderChild(heap, i, k, prefix, inc) != [] <==> FilePath.Ext(heap[ChildAt(heap, i, k)].path) in inc
  {
    var c := ChildAt(heap, i, k);
    var isLast := k == |heap[i].children| - 1;
    if FilePath.Ext(heap[c].path) in inc {
      assert |prefix + Connector(isLast) + Render(heap, c, ChildPrefix(prefix, isLast), false, inc)| > 0;
    }
  }

  /** With a filter, a directory child with no listed file below it still
      gets its connector, but nothing else: the connector is left dangling
      and the next text written continues the same line. */
  lemma HiddenDirectoryLeavesConnector(heap: Heap, i: Ptr, k: nat, prefix: string, inc: seq<string>)
    requires WellFormed(heap) && i < |heap| && k < |heap[i].children|
    requires heap[ChildAt(heap, i, k)].isDir && |inc| > 0
    requires !SomeIncluded(heap, Analyzer.CollectFileNodes(heap, ChildAt(heap, i, k)), inc)
    ensures RenderChild(heap, i, k, prefix, inc) == prefix + Connector(k == |heap[i].children| - 1)
  {
    var c := ChildAt(heap, i, k);
    ContainsIncludedMeans(heap, c, inc);
    assert Render(heap, c, ChildPrefix(prefix, k == |heap[i].children| - 1), false, inc) == [];
  }

  /** Whether a child is last is decided over all children, shown or not:
      a written child gets the tee whenever any child follows it. */
  lemma ConnectorCountsHiddenChildren(heap: Heap, i: Ptr, k: nat, prefix: string, inc: seq<string>)
    requires WellFormed(heap) && i < |heap| && k + 1 < |heap[i].children|
    requires Considered(heap, ChildAt(heap, i, k), inc)
    ensures prefix + Tee <= RenderChild(heap, i, k, prefix, inc)
  {
    var c := ChildAt(heap, i, k);
    var rest := Render(heap, c, ChildPrefix(prefix, false), false, inc);
    assert prefix + Tee + rest == (prefix + Tee) + rest;
  }

  /** A small tree showing both quirks: a root `r` holding an empty
      directory `r/d`, then `r/a.go` and `r/b.md`. */
  predicate IsExampleTree(heap: Heap) {
    heap == [Node("r", "r", true, 0, [1, 2, 3], []),
             Node("d", "r/d", true, 0, [], []),
             Node("a.go", "r/a.go", false, 0, [], []),
             Node("b.md", "r/b.md", false, 0, [], [])]
  }

  lemma ExampleTreeIsWellFormed(heap: Heap)
    requires IsExampleTree(heap)
    ensures WellFormed(heap)
  {
  }

  lemma ExamplePaths()
    ensures FilePath.Ext("r/a.go") == ".go" && FilePath.Base("r/a.go") == "a.go"
    ensures FilePath.Ext("r/b.md") == ".md"
  {
    ExampleExt("r/a.", 'g', 'o');
    ExampleExt("r/b.", 'm', 'd');
    ExampleBase();
  }

  lemma ExampleExt(stem: string, x: char, y: char)
    requires stem == "r/a." || stem == "r/b."
    requires x != '.' && x != FilePath.Separator && y != '.' && y != FilePath.Separator
    ensures FilePath.Ext(stem + [x, y]) == ['.', x, y]
  {
    assert FilePath.Ext(stem) == ".";
    assert (stem + [x, y])[..|stem| + 1] == stem + [x];
    assert (stem + [x])[..|stem|] == stem;
  }

  lemma ExampleBase()
    ensures FilePath.Base("r/a.go") == "a.go"
  {
    assert FilePath.Join("r", "a.go") == "r/a.go";
    FilePath.BaseOfJoin("r", "a.go");
  }

  lemma ExampleEmptyDirectory(heap: Heap, inc: seq<string>)
    requires IsExampleTree(heap) && inc == [".go"]
    ensures WellFormed(heap)
    ensures RenderChild(heap, 0, 0, "", inc) == Tee
  {
    ExampleTreeIsWellFormed(heap);
    assert !ContainsIncluded(heap, 1, inc);
  }

  lemma ExampleListedFile(heap: Heap, inc: seq<string>)
    requires IsExampleTree(heap) && inc == [".go"]
    ensures WellFormed(heap)
    ensures RenderChild(heap, 0, 1, "", inc) == Tee + "a.go\n"
  {
    ExampleTreeIsWellFormed(heap);
    ExamplePaths();
    var p := ChildPrefix("", false);
    assert Considered(heap, 2, inc);
    assert Label(heap, 2, false) == "a.go";
    assert RenderChildren(heap, 2, 0, p, inc) == [];
    assert ElementsText(heap, 2, p) == [];
    assert Render(heap, 2, p, false, inc) == "a.go" + "\n" + [] + [];
  }

  lemma ExampleUnlistedFile(heap: Heap, inc: seq<string>)
    requires IsExampleTree(heap) && inc == [".go"]
    ensures WellFormed(heap)
    ensures RenderChild(heap, 0, 2, "", inc) == []
  {
    ExampleTreeIsWellFormed(heap);
    ExamplePaths();
    assert !Considered(heap, 3, inc);
  }

  /** On the example tree with the filter `.go`, the hidden directory leaves
      a tee that `a.go` continues on the same line, and `a.go` gets a tee
      although nothing is written after it: the root's children are
      written as `├── ├── a.go` and a line break. */
  lemma DanglingConnectorExample(heap: Heap, inc: seq<string>)
    requires IsExampleTree(heap) && inc == [".go"]
    ensures WellFormed(heap)
    ensures RenderChildren(heap, 0, 3, "", inc) == Tee + Tee + "a.go\n"
  {
    ExampleEmptyDirectory(heap, inc);
    ExampleListedFile(heap, inc);
    ExampleUnlistedFile(heap, inc);
    assert RenderChildren(heap, 0, 1, "", inc) == [] + Tee;
    assert RenderChildren(heap, 0, 2, "", inc) == Tee + (Tee + "a.go\n");
    assert RenderChildren(heap, 0, 3, "", inc) == Tee + (Tee + "a.go\n") + [];
  }

  /** The element loop of `formatTree`. */
  method WriteElements(b: Builder, prefix: string, elements: seq<CodeElement>)
    modifies b
    ensures b.out == old(b.out) + ElementLines(prefix, elements)
  {
    ghost var start := b.out;
    for k := 0 to |elements|
      invariant b.out == start + ElementLines(prefix, elements[..k])
    {
      ElementLinesSnoc(prefix, elements, k);
      b.WriteString(ElementLine(prefix, elements[k]));
    }
    assert elements[..|elements|] == elements;
  }

  lemma ElementLinesSnoc(prefix: string, elements: seq<CodeElement>, k: nat)
    requires k < |elements|
    ensures ElementLines(prefix, elements[..k + 1]) == ElementLines(prefix, elements[..k]) + ElementLine(prefix, elements[k])
  {
    assert elements[..k + 1][..k] == elements[..k];
  }

  // ---------------------------------------------------------------------
  // appendAnalytics
  // ---------------------------------------------------------------------

  /** `%-<w>s`: `s` padded on the right with spaces to `w` characters, and
      left as it is when it is already that long. */
  function PadRight(s: string, w: nat): (r: string)
    ensures |r| == if |s| < w then w else |s|
    ensures r[..|s|] == s
    ensures forall k :: |s| <= k < |r| ==> r[k] == ' '
    decreases w - |s|
  {
    if |s| >= w then s
    else
      var r := PadRight(s + " ", w);
      assert r[..|s|] == r[..|s| + 1][..|s|];
      r
  }

  /** The byte order `sort.Strings` sorts by: on code points it is the
      order of their UTF-8 encodings. */
  function StringOrder(): (string, string) -> bool {
    (a: string, b: string) => Text.LessEq(a, b)
  }

  lemma StringOrderIsLinear()
    ensures Sorting.TotalPreorder(StringOrder())
    ensures Sorting.Antisymmetric(StringOrder())
  {
    forall a: string, b: string
      ensures StringOrder()(a, b) || StringOrder()(b, a)
    {
      Text.LessEqTotal(a, b);
    }
    forall a: string, b: string, c: string | StringOrder()(a, b) && StringOrder()(b, c)
      ensures StringOrder()(a, c)
    {
      Text.LessEqTransitive(a, b, c);
    }
    forall a: string, b: string | StringOrder()(a, b) && StringOrder()(b, a)
      ensures a == b
    {
      Text.LessEqAntisymmetric(a, b);
    }
  }

  /** The keys of a map in some order: what `for k := range m` visits. */
  ghost function Enumerate(keys: set<string>): (r: seq<string>)
    ensures multiset(r) == multiset(keys)
  {
    if keys == {} then []
    else
      var k :| k in keys;
      assert keys == (keys - {k}) + {k};
      [k] + Enumerate(keys - {k})
  }

  /** The keys of a map in ascending order, each once, whatever order the
      map is visited in. */
  ghost function SortedKeys(keys: set<string>): (r: seq<string>)
    ensures multiset(r) == multiset(keys)
    ensures |r| == |keys|
    ensures forall x :: x in r <==> x in keys
    ensures Sorting.SortedBy(r, StringOrder())
  {
    StringOrderIsLinear();
    var r := Sorting.SortBy(Enumerate(keys), StringOrder());
    assert forall x :: x in r <==> x in multiset(r);
    r
  }

  /** Each key once in ascending byte order: no two names are equal and
      each comes before the next. */
  lemma SortedKeysAscend(keys: set<string>, a: nat, b: nat)
    requires a < b < |SortedKeys(keys)|
    ensures SortedKeys(keys)[a] != SortedKeys(keys)[b]
    ensures Text.LessEq(SortedKeys(keys)[a], SortedKeys(keys)[b])
  {
    var r := SortedKeys(keys);
    assert multiset(keys)[r[a]] <= 1;
    if r[a] == r[b] {
      RepeatedTwice(r, a, b);
    }
  }

  lemma RepeatedTwice(s: seq<string>, a: nat, b: nat)
    requires a < b < |s| && s[a] == s[b]
    ensures multiset(s)[s[a]] >= 2
  {
    assert s == s[..b] + s[b..];
    assert s[..b][a] == s[a];
    assert s[b..][0] == s[b];
    assert multiset(s[..b])[s[a]] >= 1;
    assert multiset(s[b..])[s[a]] >= 1;
  }

  const Rule := "────────────────────────────────────────\n"

  /** The overall summary and the heading of the breakdown. */
  function SummaryLines(stats: Analytics, duration: string): seq<string> {
    [ "\n\n---\n\n",
      "📊 Analysis Report\n\n",
      "Overall Summary\n",
      Rule,
      PadRight("Analysis Duration:", 20) + " " + duration + "\n",
      PadRight("Files Scanned:", 20) + " " + Text.IntToDecimal(stats.filesScanned) + "\n",
      PadRight("Files Parsed:", 20) + " " + Text.IntToDecimal(stats.filesParsed) + "\n",
      PadRight("Total Lines of Code:", 20) + " " + Text.IntToDecimal(stats.totalLOC) + "\n",
      PadRight("Total Elements Found:", 20) + " " + Text.IntToDecimal(stats.totalElements) + "\n",
      Rule + "\n",
      "Language Breakdown\n",
      Rule ]
  }

  /** The parts written one after the other. */
  function Concat(parts: seq<string>): string {
    if parts == [] then [] else Concat(parts[..|parts| - 1]) + parts[|parts| - 1]
  }

  /** The line that opens a language's block. */
  function LanguageLine(name: string, st: LanguageStats): string {
    "▶ " + name + " (" + Text.IntToDecimal(st.fileCount) + " files, " + Text.IntToDecimal(st.loc) + " LOC)\n"
  }

  /** The line for one element type and its count. */
  function KindLine(kind: string, count: int): string {
    "  - " + PadRight(kind + ":", 18) + " " + Text.IntToDecimal(count) + "\n"
  }

  /** The lines for the element types `kinds` of `counts`, in that order. */
  function KindLines(counts: map<string, int>, kinds: seq<string>): string
    requires forall t :: t in kinds ==> t in counts
  {
    if kinds == [] then []
    else
      assert kinds[|kinds| - 1] in kinds;
      KindLines(counts, kinds[..|kinds| - 1]) + KindLine(kinds[|kinds| - 1], counts[kinds[|kinds| - 1]])
  }

  lemma KindLinesSnoc(counts: map<string, int>, kinds: seq<string>, k: nat)
    requires k < |kinds| && forall t :: t in kinds ==> t in counts
    ensures forall t :: t in kinds[..k] ==> t in counts
    ensures forall t :: t in kinds[..k + 1] ==> t in counts
    ensures kinds[k] in counts
    ensures KindLines(counts, kinds[..k + 1]) == KindLines(counts, kinds[..k]) + KindLine(kinds[k], counts[kinds[k]])
  {
    assert kinds[..k + 1][..k] == kinds[..k];
    assert kinds[k] in kinds;
  }

  /** A language's block: its line, then its element types in ascending
      order when it has any, then a blank line. */
  ghost function LanguageBlock(name: string, st: LanguageStats): string {
    LanguageLine(name, st)
    + (if |st.elementCounts| > 0 then KindLines(st.elementCounts, SortedKeys(st.elementCounts.Keys)) else [])
    + "\n"
  }

  /** The blocks of the languages `names` of `m`, in that order. */
  ghost function LanguageBlocks(m: map<string, LanguageStats>, names: seq<string>): string
    requires forall x :: x in names ==> x in m
  {
    if names == [] then []
    else
      assert names[|names| - 1] in names;
      LanguageBlocks(m, names[..|names| - 1]) + LanguageBlock(names[|names| - 1], m[names[|names| - 1]])
  }

  lemma LanguageBlocksSnoc(m: map<string, LanguageStats>, names: seq<string>, k: nat)
    requires k < |names| && forall x :: x in names ==> x in m
    ensures forall x :: x in names[..k] ==> x in m
    ensures forall x :: x in names[..k + 1] ==> x in m
    ensures names[k] in m
    ensures LanguageBlocks(m, names[..k + 1]) == LanguageBlocks(m, names[..k]) + LanguageBlock(names[k], m[names[k]])
  {
    assert names[..k + 1][..k] == names[..k];
    assert names[k] in names;
  }

  /** What `appendAnalytics` writes: the summary, then one block per
      language in ascending name order. */
  ghost function Report(stats: Analytics, duration: string): string {
    Concat(SummaryLines(stats, duration)) + LanguageBlocks(stats.perLanguage, SortedKeys(stats.perLanguage.Keys))
  }

  /** A language without elements gets no type lines. */
  lemma BlockWithoutElements(name: string, st: LanguageStats)
    requires |st.elementCounts| == 0
    ensures LanguageBlock(name, st) == LanguageLine(name, st) + "\n"
  {
  }

  /** Writes `parts` one after the other. */
  method WriteAll(b: Builder, parts: seq<string>)
    modifies b
    ensures b.out == old(b.out) + Concat(parts)
  {
    ghost var start := b.out;
    for k := 0 to |parts|
      invariant b.out == start + Concat(parts[..k])
    {
      assert parts[..k + 1][..k] == parts[..k];
      b.WriteString(parts[k]);
      AppendAssoc(start, Concat(parts[..k]), parts[k]);
    }
    assert parts[..|parts|] == parts;
  }

  /** The keys of `m` collected by a range loop and sorted by
      `sort.Strings`. */
  method SortedNames<V>(m: map<string, V>) returns (names: seq<string>)
    ensures names == SortedKeys(m.Keys)
  {
    var visited: seq<string> := [];
    var rest := m.Keys;
    while rest != {}
      invariant rest <= m.Keys
      invariant multiset(visited) + multiset(rest) == multiset(m.Keys)
      decreases |rest|
    {
      var k :| k in rest;
      visited := visited + [k];
      assert rest == (rest - {k}) + {k};
      rest := rest - {k};
    }
    StringOrderIsLinear();
    names := Sorting.SortBy(visited, StringOrder());
    Sorting.SortedUnique(names, SortedKeys(m.Keys), StringOrder());
  }

  /** The type lines of one language. */
  method WriteKinds(b: Builder, counts: map<string, int>)
    modifies b
    ensures b.out == old(b.out) + KindLines(counts, SortedKeys(counts.Keys))
  {
    var kinds := SortedNames(counts);
    WriteKindLines(b, counts, kinds);
  }

  /** The loop over the sorted element types. */
  method WriteKindLines(b: Builder, counts: map<string, int>, kinds: seq<string>)
    requires forall t :: t in kinds ==> t in counts
    modifies b
    ensures b.out == old(b.out) + KindLines(counts, kinds)
  {
    ghost var start := b.out;
    for k := 0 to |kinds|
      invariant forall t :: t in kinds[..k] ==> t in counts
      invariant b.out == start + KindLines(counts, kinds[..k])
    {
      KindLinesSnoc(counts, kinds, k);
      var line := KindLine(kinds[k], counts[kinds[k]]);
      b.WriteString(line);
      AppendAssoc(start, KindLines(counts, kinds[..k]), line);
    }
    assert kinds[..|kinds|] == kinds;
  }

  /** One language's block. */
  method WriteLanguage(b: Builder, name: string, st: LanguageStats)
    modifies b
    ensures b.out == old(b.out) + LanguageBlock(name, st)
  {
    ghost var start := b.out;
    b.WriteString(LanguageLine(name, st));
    ghost var mid := b.out;
    if |st.elementCounts| > 0 {
      WriteKinds(b, st.elementCounts);
    } else {
      assert b.out == mid + [];
    }
    ghost var kinds := b.out[|mid|..];
    assert b.out == mid + kinds;
    b.WriteString("\n");
    AppendAssoc(start, LanguageLine(name, st), kinds);
    AppendAssoc(start, LanguageLine(name, st) + kinds, "\n");
  }

  /** `appendAnalytics`. The wall-clock duration is a parameter. */
  method AppendAnalytics(b: Builder, stats: Analytics, duration: string)
    modifies b
    ensures b.out == old(b.out) + Report(stats, duration)
  {
    WriteAll(b, SummaryLines(stats, duration));
    ghost var start := b.out;
    var names := SortedNames(stats.perLanguage);
    WriteLanguages(b, stats.perLanguage, names);
    AppendAssoc(old(b.out), Concat(SummaryLines(stats, duration)), LanguageBlocks(stats.perLanguage, names));
  }

  /** The loop over the sorted language names. */
  method WriteLanguages(b: Builder, m: map<string, LanguageStats>, names: seq<string>)
    requires forall x :: x in names ==> x in m
    modifies b
    ensures b.out == old(b.out) + LanguageBlocks(m, names)
  {
    ghost var start := b.out;
    for k := 0 to |names|
      invariant forall x :: x in names[..k] ==> x in m
      invariant b.out == start + LanguageBlocks(m, names[..k])
    {
      LanguageBlocksSnoc(m, names, k);
      WriteLanguage(b, names[k], m[names[k]]);
      AppendAssoc(start, LanguageBlocks(m, names[..k]), LanguageBlock(names[k], m[names[k]]));
    }
    assert names[..|names|] == names;
  }

  // ---------------------------------------------------------------------
  // FormatText
  // ---------------------------------------------------------------------

  /** `FormatText`: the tree under a heading with the root's absolute path,
      and the analytics report. `absPath` stands for `filepath.Abs` of the
      root's path and `duration` for the readable duration. */
  method FormatText(heap: Heap, stats: Analytics, inc: seq<string>, absPath: string, duration: string)
    returns (tree: string, analytics: string)
    requires WellFormed(heap) && |heap| >= 1
    ensures tree == "Codebase overview for: " + absPath + "\n\n" + Render(heap, 0, "", true, inc)
    ensures analytics == Report(stats, duration)
  {
    var treeBuilder := new Builder();
    treeBuilder.WriteString("Codebase overview for: " + absPath + "\n\n");
    FormatTree(treeBuilder, heap, 0, "", true, inc);
    var analyticsBuilder := new Builder();
    AppendAnalytics(analyticsBuilder, stats, duration);
    tree := treeBuilder.out;
    analytics := analyticsBuilder.out;
  }
}
