# groot core, modelled in Dafny

groot is a command-line tool that gives an overview of a code base. It walks a
directory and builds a tree of its entries, leaving out what the ignore rules
match. It then picks the files to analyse, counts their lines and extracts
named code elements with a parser. The results are rolled up into per-language
statistics. Finally the tree and an analysis report are rendered as text,
optionally restricted to a list of file extensions.

This project models that pipeline and proves what it promises.

| file | module | models |
|---|---|---|
| `model.dfy` | `Model` | the record types of `internal/model/models.go`. A tree of `*Node` is an arena `Heap = seq<Node>`, and a pointer is an index into it. |
| `wrappers.dfy` | `Wrappers` | `Option` and `Result` |
| `text.dfy` | `Text` | `strings.TrimSpace`, `strings.ToLower`, `strings.Split`, `bytes.Count`, the byte-wise string order of `sort.Strings`, and decimal printing |
| `filepath.dfy` | `FilePath` | `filepath.Ext`, `Base`, `Dir` and `Join` on slash-separated paths |
| `sorting.dfy` | `Sorting` | `sort.Slice` / `sort.Strings` as an insertion sort by a total preorder |
| `config.dfy` | `Config` | the compiled language table and the shape facts that make first-match lookup well defined |
| `walker.dfy` | `Walker` | `BuildFileTree`: the layered ignore patterns, the single-pass walk callback with its `nodesByPath` map (a class), and `recursiveSort` |
| `analyzer.dfy` | `Analyzer` | `GetLanguageByFileExtension`, `collectFileNodes`, the include filter of `Analyze`, the worker, `aggregateAnalytics` and `Analyze` |
| `format.dfy` | `Format` | `directoryContainsIncludedFiles`, `formatTree`, `appendAnalytics` and `FormatText`, all writing into a `strings.Builder` class |
| `cli.dfy` | `Cli` | `processStringList` of the `analyze` command |

How the main pieces are modelled:

- **The walk.** The file system is a rose tree. `filepath.WalkDir` becomes a walk, one step per visit, over its pre-order visits. Each visit carries the size of its subtree, so `SkipDir` is a jump over that subtree. A directory that cannot be listed is handed back to the callback with an error, which the callback returns, so the walk stops there.
- **The matcher.** The gitignore matcher is an uninterpreted function of the pattern list and a path.
- **The parser.** The parser is an uninterpreted function from bytes and a language to a list of elements or an error.
- **Reading files.** Reading a file is a function from a path to optional bytes.

The methods that change state in the source are proved against specification functions. The walk callback, `recursiveSort`, the worker loop, the aggregation loop and the builder writes are all methods of this kind. The properties the source promises are then proved about those functions.

Three behaviours of the code are reproduced as written:

- **Dangling connector.** When a non-root directory is hidden by the filter, `formatTree` has already written the child's connector. That connector is left on the line.
- **`isLast` over all children.** The last-child connector is chosen among all children, not among the visible ones.
- **Case-sensitive filter.** The file filter compares extensions case-sensitively, while the language lookup lower-cases them. A `.GO` file is a Go file but is not scheduled by the include list `[".go"]`.

One might expect a directory without matching files to be omitted from the filtered tree. The code writes its connector anyway, and the model follows the code: `Format.HiddenDirectoryLeavesConnector` and `Format.DanglingConnectorExample`.

## Model

| member | source | states |
|---|---|---|
| Text.TrimSpace | cmd/analyze.go:153 | the result is a trimmed infix of the input, and everything removed before and after it is whitespace |
| Text.TrimSpaceOfTrimmed | cmd/analyze.go:153 | trimming a string that has no surrounding whitespace returns it unchanged |
| Text.ToLower | internal/analyzer/analyzer.go:21 | same length; each upper-case ASCII letter becomes lower-case and nothing else changes; no upper-case letter is left |
| Text.ToLowerOfLower | internal/analyzer/analyzer.go:21 | a string without upper-case letters is its own lower-case form |
| Text.Split | cmd/analyze.go:151 | one segment more than there are separators; no segment contains the separator; joining the segments gives back the input |
| Text.SplitJoin | cmd/analyze.go:151 | splitting the join of separator-free segments gives back those segments (the inverse of `Join`) |
| Text.Count | internal/analyzer/analyzer.go:109 | the count is at most the length, and it is zero exactly when the byte does not occur |
| Text.CountAppend | internal/analyzer/analyzer.go:109 | counting distributes over concatenation |
| Text.LessEqTotal | internal/analyzer/analyzer.go:167 | the byte-wise string order of `sort.Strings` is total |
| Text.LessEqTransitive | internal/walker/walker.go:147 | the string order is transitive |
| Text.LessEqAntisymmetric | internal/analyzer/analyzer.go:167 | two strings ordered both ways are equal, so sorted distinct keys are strictly ascending |
| FilePath.Ext | internal/analyzer/analyzer.go:21 | the result is a suffix of the path that starts with a dot and has no further dot and no separator; it is empty exactly when the final element has no dot |
| FilePath.ExtOfDottedSuffix | internal/analyzer/analyzer.go:21 | a path ending in a dot followed by dot-free, separator-free characters has that suffix as its extension |
| FilePath.ExtOfJoin | internal/walker/walker.go:93 | the extension of a walked path is the extension of its entry name; `Walker.EventsShaped` uses it |
| FilePath.DirOfJoin | internal/walker/walker.go:114 | the parent lookup is sound: `Dir` of a joined path is the directory it was joined onto; `Walker.EventsShaped` uses it |
| FilePath.BaseOfJoin | internal/walker/walker.go:109 | `Base` of a joined path is the entry name, so a node's name is the base of its path; `Walker.EventsShaped` uses it |
| FilePath.Base | internal/walker/walker.go:90 | "." for the empty path, never empty otherwise, and separator-free unless it is the root |
| Sorting.SortBy | internal/walker/walker.go:143-148 | the result is ordered by the comparator and is a permutation of the input (same length, same multiset) |
| Sorting.SortByOfSorted | internal/walker/walker.go:143-148 | sorting an already ordered sequence changes nothing |
| Sorting.SortByIdempotent | internal/walker/walker.go:138-155 | sorting twice is sorting once |
| Sorting.SortedUnique | internal/analyzer/analyzer.go:163-167 | under an antisymmetric order, two ordered permutations of each other are equal, so the sorted key list does not depend on map iteration order |
| Config.LanguageOrder | internal/analyzer/config.go:8-77 | the table holds seven languages in the order Go, JavaScript, Java, Python, Rust, HTML, CSS |
| Config.ExtensionsAreKeys | internal/analyzer/config.go:11-71 | every language lists at least one extension, and every extension is a dot followed by lower-case, dot-free characters |
| Config.ExtensionsAreDisjoint | internal/analyzer/config.go:8-77 | no extension belongs to two languages |
| Config.MultiExtensionLanguages | internal/analyzer/config.go:20-67 | JavaScript owns `.js`, `.jsx`, `.mjs` and `.cjs`; HTML owns `.html` and `.htm` and declares no queries |
| Config.KeyIsOwnExtension | internal/analyzer/config.go:11-71 | every key is its own `filepath.Ext` and its own lower-case form, so the lookup can match it |
| Walker.CombinePatterns | internal/walker/walker.go:69-81 | the pattern list is the defaults, then the user patterns, then the `.gitignore` lines (one more than its newlines). A `.gitignore` that cannot be read adds nothing. |
| Walker.SurvivingStep | internal/walker/walker.go:97-106 | one walk step: an ignored entry jumps over its subtree; the root is passed over; any other entry is kept |
| Walker.SurvivingIff | internal/walker/walker.go:97-106 | a visit yields a node iff it is not the root, not ignored, and no enclosing directory is ignored. An ignored directory prunes its subtree; an ignored file drops only itself. |
| Walker.TreeBuilder.constructor | internal/walker/walker.go:90-91 | the root node is a directory named after the base of the absolute root path, and it is the only entry of `nodesByPath` |
| Walker.TreeBuilder.Visit | internal/walker/walker.go:93-126 | the callback: an error stops the walk unchanged; the root is passed over; an ignored directory gives SkipDir and an ignored file Continue, both unchanged; a missing parent stops the walk; otherwise the node is appended to its parent's children and a directory is registered under its path. The tree shape is kept throughout. |
| Walker.TreeBuilder.Add | internal/walker/walker.go:108-123 | the new node becomes the last child of the parent's node, and only a directory enters `nodesByPath` |
| Walker.ReportUnreadable | internal/walker/walker.go:94-96 | a directory that cannot be listed is handed back to the callback with an error; the callback returns it unchanged as the walk's error ("cannot read directory" and the path) and the builder is untouched |
| Walker.WalkEntry | internal/walker/walker.go:93-126 | one visit stops the walk iff it is not pruned and either its parent directory has no node (error: could not find parent for the path) or it is a directory that cannot be listed (error: cannot read it). Otherwise it moves past exactly the visits the survival rule consumes (the subtree of an ignored directory), records the node it makes for a kept visit, and registers a kept directory. |
| Walker.ReachedStep | internal/walker/walker.go:101-104 | after a step, the next visit lies under no pruned directory: SkipDir jumps exactly over the pruned subtree |
| Walker.EventsShaped | internal/walker/walker.go:93-114 | in the visits `WalkDir` makes from a clean root path and well-named entries, every path is below the root, its base is its entry name, and its parent directory is the root or an enclosing directory visit |
| Walker.ReachedVisit | internal/walker/walker.go:114-123 | in such a walk, a reached visit that is not pruned survives, and its parent directory is already registered, so the parent lookup never fails |
| Walker.KeptStep | internal/walker/walker.go:115-123 | a step keeps the walk's invariants: the kept visits followed by those still to come are the surviving ones, every kept visit could be listed, every kept directory is registered |
| Walker.StopIsFirst | internal/walker/walker.go:93-96 | a walk that stops at a surviving directory that cannot be listed stops at the first such directory |
| Walker.FinishedOk | internal/walker/walker.go:125-128 | a walk that reaches the end has kept exactly the surviving visits, and every surviving directory could be listed |
| Walker.AttachKeepsListedOnce | internal/walker/walker.go:114-116 | appending a new node to its parent's child list never lists a child twice |
| Walker.WalkStep | internal/walker/walker.go:93-126 | one step of `WalkDir`: it keeps the walk's invariants, or, in a shaped walk, stops at the first surviving directory that cannot be listed with that directory's error |
| Walker.WalkFrom | internal/walker/walker.go:93-126 | the walk from a visit on: on success it has kept, in order, exactly the surviving visits and recorded their nodes; in a shaped walk a failure is at the first surviving directory that cannot be listed, with its message |
| Walker.WalkEvents | internal/walker/walker.go:93-130 | the whole walk below the root. Without error, the nodes appended are, in order, made from exactly the surviving visits, and every surviving directory could be listed. In a shaped walk an error names the first surviving directory that cannot be listed. |
| Walker.WalkTree | internal/walker/walker.go:93-133 | the walk and the final sort: on success the walk succeeded and the tree is the one `BuiltTree` describes; in a shaped walk a failure names the first directory that cannot be listed |
| Walker.KeyOrderIsTotalPreorder | internal/walker/walker.go:143-148 | "directories first, then by name" is a total preorder |
| Walker.SortedChildren | internal/walker/walker.go:143-148 | a child list after the sort is a permutation of the original, in directories-first-then-name order |
| Walker.ChildrenSortedMeans | internal/walker/walker.go:143-148 | in a sorted directory, a directory never follows a file, and children of one kind have ascending names |
| Walker.RecursiveSort | internal/walker/walker.go:138-155 | every node `recursiveSort(i)` reaches has its children sorted, and every other node is untouched. Files and empty directories are left alone. |
| Walker.SortSubtree | internal/walker/walker.go:150-154 | one pass of the recursion loop adds exactly the subtree of that child to the sorted nodes |
| Walker.SortingIsIdempotent | internal/walker/walker.go:138-155 | once every node is sorted, sorting again changes nothing |
| Walker.ReachOfPartlySorted | internal/walker/walker.go:150-154 | sorting some directories does not change which nodes the recursion reaches |
| Walker.AllReached | internal/walker/walker.go:132 | from the root, the recursion reaches every node the walk built |
| Walker.SortedShape | internal/walker/walker.go:132-133 | sorting every directory keeps the entries and the parent links, and leaves every child list sorted |
| Walker.SortedListedOnce | internal/walker/walker.go:143-148 | the sort permutes each child list, so a child listed once stays listed once |
| Walker.SortTree | internal/walker/walker.go:132 | after the final sort, the tree is still well formed and parent-linked, every child list is sorted, no ignored path is present, and the walk's record of nodes is kept |
| Walker.SortedTree | internal/walker/walker.go:132-133 | sorting what the recursion reaches from the root keeps the root node, the entries recorded in walk order, the parent links and the absence of ignored paths, and leaves every child list sorted |
| Walker.BuildFileTree | internal/walker/walker.go:62-134 | a root that cannot be stat'ed gives "cannot stat", one that cannot be listed "cannot read directory". The build succeeds only when every surviving directory can be listed; under a clean root path with well-named entries it succeeds exactly then, and otherwise fails with the first such directory's error. On success: a root directory named after the root path; nodes made from exactly the surviving visits in walk order; each entry listed once, under its parent directory only; nothing counted yet; no path matched by the combined patterns; every child list sorted. |
| Analyzer.FirstWith | internal/analyzer/analyzer.go:25-31 | the position found is the first language listing the key, and nothing is found iff no language lists it |
| Analyzer.FindLanguage | internal/analyzer/analyzer.go:25-32 | the nested loops find the first language listing the key |
| Analyzer.GetLanguageByFileExtension | internal/analyzer/analyzer.go:20-33 | reports a language iff the lower-cased extension is listed, and then returns the first such language; otherwise returns the zero language and `false` |
| Analyzer.LookupFindsOwner | internal/analyzer/analyzer.go:20-33 | with the table's shape, a path finds language `k` iff `k` lists its lower-cased extension |
| Analyzer.NoExtensionIsUnsupported | internal/analyzer/analyzer.go:21-24 | a path without an extension is unsupported |
| Analyzer.LookupIgnoresCase | internal/analyzer/analyzer.go:21 | the case of the extension does not matter for lookup |
| Analyzer.UpperCaseGoIsGo | internal/analyzer/analyzer.go:21-28 | a `.GO` file is a Go file for the compiled table |
| Analyzer.CollectFileNodes | internal/analyzer/analyzer.go:187-197 | the result holds only file nodes, none before the node in the tree's order, and a file yields exactly itself |
| Analyzer.CollectedBelow | internal/analyzer/analyzer.go:187-197 | every file collected from a node lies in that node's subtree |
| Analyzer.CollectedOnce | internal/analyzer/analyzer.go:187-197 | on the walked tree, no file is collected twice |
| Analyzer.CollectChildrenContains | internal/analyzer/analyzer.go:193-195 | the files below a child are among the files collected for its parent |
| Analyzer.CollectedAtRoot | internal/analyzer/analyzer.go:187-197 | any file collected below a node of the walked tree is collected from the root |
| Analyzer.CollectFindsEveryFile | internal/analyzer/analyzer.go:187-197 | on the walked tree, a node is collected from the root iff it is a file |
| Analyzer.SiblingsApart | internal/walker/walker.go:114-116 | in the walked tree, the subtrees of two different children of one directory share no node |
| Analyzer.FilesScannedCountsFiles | internal/analyzer/analyzer.go:44-77 | on the walked tree, the list collected from the root, whose length becomes FilesScanned, is as long as the tree has file nodes |
| Analyzer.FilterMembers | internal/analyzer/analyzer.go:52-57 | the filter keeps exactly the elements the test accepts |
| Analyzer.FilterAppend | internal/analyzer/analyzer.go:52-57 | the filter keeps the original order, since it distributes over concatenation |
| Analyzer.ScheduledMembers | internal/analyzer/analyzer.go:47-60 | with an empty include list every file is scheduled; otherwise exactly the files whose extension is in the trimmed include set |
| Analyzer.BuildIncludeSet | internal/analyzer/analyzer.go:48-51 | the set is exactly the trimmed entries |
| Analyzer.FilterFiles | internal/analyzer/analyzer.go:52-57 | the loop keeps, in order, the files whose extension is in the set |
| Analyzer.SelectFiles | internal/analyzer/analyzer.go:47-60 | the include filter returns exactly the scheduled files |
| Analyzer.UpperCaseGoIsNotScheduled | internal/analyzer/analyzer.go:49-56 | with the include list `[".go"]`, a `.GO` file is not scheduled |
| Analyzer.CaseSensitiveFilter | internal/analyzer/analyzer.go:21-56 | a `.GO` file is a Go file for lookup yet is not scheduled by `[".go"]` |
| Analyzer.ProcessedCountsLines | internal/analyzer/analyzer.go:100-115 | an unsupported or unreadable file is left as it was. A read file gets one line per newline-separated segment, so at least 1. Name, path, kind and children never change. |
| Analyzer.ProcessedIdempotent | internal/analyzer/analyzer.go:97-117 | handling a node twice is handling it once |
| Analyzer.ProcessNode | internal/analyzer/analyzer.go:99-116 | the worker body computes exactly the processed node |
| Analyzer.ProcessAs | internal/analyzer/analyzer.go:104-115 | after the lookup, the worker reads, sets the line count, and sets the elements only when parsing succeeds |
| Analyzer.RunWorkers | internal/analyzer/analyzer.go:62-72 | after the pool, every scheduled node is processed and every other node is untouched |
| Analyzer.CountKindsCounts | internal/analyzer/analyzer.go:140-142 | each type's count grows by its number of occurrences, and exactly the occurring types become present |
| Analyzer.CountKindsStep | internal/analyzer/analyzer.go:140-142 | counting more elements keeps each count equal to the occurrences seen so far |
| Analyzer.CountElementKinds | internal/analyzer/analyzer.go:140-142 | the inner loop computes the element counts |
| Analyzer.AccumulateNode | internal/analyzer/analyzer.go:125-143 | one loop iteration computes exactly the accumulation step |
| Analyzer.AddFile | internal/analyzer/analyzer.go:129-143 | after the lookup, the step updates the totals and the language's entry |
| Analyzer.AggregateAnalytics | internal/analyzer/analyzer.go:120-146 | the loop computes the aggregation of the scheduled nodes |
| Analyzer.AccumulateTotals | internal/analyzer/analyzer.go:125-133 | a supported node with lines adds one parsed file and its lines; a supported node adds its elements; an unsupported node changes nothing |
| Analyzer.AccumulateLanguage | internal/analyzer/analyzer.go:134-143 | a node adds one file, its lines and its element counts to its own language's entry and leaves the other entries alone |
| Analyzer.AggregateParsed | internal/analyzer/analyzer.go:129-132 | FilesParsed is the number of supported scheduled files with lines, and TotalLOC is their lines |
| Analyzer.AggregateElements | internal/analyzer/analyzer.go:133 | TotalElements is the number of elements of the supported scheduled files |
| Analyzer.AggregateHasLanguage | internal/analyzer/analyzer.go:134-143 | a language has an entry iff some scheduled file belongs to it |
| Analyzer.AggregateLanguage | internal/analyzer/analyzer.go:134-143 | a language's FileCount and LOC are the number and the lines of its scheduled files |
| Analyzer.AggregateKinds | internal/analyzer/analyzer.go:140-142 | a language's count for a type is the number of elements of that type in its files |
| Analyzer.CountKindsTotal | internal/analyzer/analyzer.go:140-142 | counting a node's elements adds their number to the sum over all types |
| Analyzer.AccumulateConsistent | internal/analyzer/analyzer.go:124-144 | one step keeps the totals in agreement with the per-language breakdown |
| Analyzer.AggregateConsistent | internal/analyzer/analyzer.go:120-146 | TotalLOC is the sum of the languages' LOC, TotalElements the sum of all their type counts, and FilesParsed at most the sum of their FileCount |
| Analyzer.WorkedOnSameShape | internal/analyzer/analyzer.go:97-117 | the workers change no name, path, kind or child list |
| Analyzer.WorkedOnLoc | internal/analyzer/analyzer.go:109 | the workers never make a line count negative |
| Analyzer.CollectSameShape | internal/analyzer/analyzer.go:44-74 | the collected files depend only on the tree's shape, so they are the same before and after the workers |
| Analyzer.ScheduledSameShape | internal/analyzer/analyzer.go:47-60 | which files are scheduled depends only on their paths |
| Analyzer.AnalyzeTree | internal/analyzer/analyzer.go:44-77 | exactly the scheduled files are processed and the tree keeps its shape. The summary aggregates the scheduled files, and FilesScanned counts all files before the filter: on a parent-linked tree, such as the walker builds, exactly the number of its file nodes. The totals agree with the breakdown. |
| Analyzer.Analyze | internal/analyzer/analyzer.go:36-80 | a failed walk is an error prefixed "failed to walk file tree: " (a root that cannot be stat'ed gives that prefix and the stat error). It succeeds only when the walk does, and exactly then under a clean root with well-named entries. On success the walked tree is the one `BuildFileTree` describes, the result is that tree after the workers ran on exactly the scheduled files with its shape kept, and the summary is that of the result and consistent, with FilesScanned equal to the number of file nodes of the walked tree. |
| Format.Builder.constructor | internal/analyzer/analyzer.go:85 | a new builder is empty |
| Format.Builder.WriteString | internal/analyzer/analyzer.go:87 | writing appends to the buffer |
| Format.SomeIncludedAppend | internal/analyzer/analyzer.go:266-280 | a match in a concatenation is a match in one of its parts |
| Format.ContainsIncludedMeans | internal/analyzer/analyzer.go:261-282 | the predicate holds iff the node is a directory with some file at any depth below whose extension is listed |
| Format.ChildIncludedMeans | internal/analyzer/analyzer.go:267-278 | one child matches iff it is a file with a listed extension or a directory that contains one, which is iff some file collected below it has a listed extension |
| Format.AnyChildIncludedMeans | internal/analyzer/analyzer.go:266-280 | the loop over children finds a match iff some file below those children matches |
| Format.DirectoryContainsIncludedFiles | internal/analyzer/analyzer.go:261-282 | the early-returning search computes the predicate |
| Format.EmptyDirectoryContainsNothing | internal/analyzer/analyzer.go:262-281 | a node without children, file or empty directory, contains no included file |
| Format.LineOrderIsTotalPreorder | internal/analyzer/analyzer.go:216-218 | ordering elements by line is a total preorder |
| Format.SortedElements | internal/analyzer/analyzer.go:215-218 | a file's elements are listed as a permutation of them in ascending line order |
| Format.Render | internal/analyzer/analyzer.go:201-257 | a node writes nothing iff it is not shown. A shown node's output starts with its label line: the full path for the root, the base name otherwise. |
| Format.FormatTree | internal/analyzer/analyzer.go:201-257 | the builder receives exactly the rendering of the node |
| Format.WriteChild | internal/analyzer/analyzer.go:224-256 | one child iteration writes exactly the child's rendering, connector included |
| Format.WriteElements | internal/analyzer/analyzer.go:219-221 | the element lines are written in order |
| Format.DirectoryShownIffIncludedFile | internal/analyzer/analyzer.go:203-207 | under a filter, a non-root directory is printed iff some file below it has a listed extension |
| Format.FileChildShownIffListed | internal/analyzer/analyzer.go:241-254 | under a filter, a file child is printed iff its own extension is listed |
| Format.HiddenDirectoryLeavesConnector | internal/analyzer/analyzer.go:234-236 | a hidden directory child still leaves its prefix and connector, with no name after it |
| Format.ConnectorCountsHiddenChildren | internal/analyzer/analyzer.go:224-236 | a child that is not last among all children gets the middle connector, even when every later child is hidden |
| Format.ExampleEmptyDirectory | internal/analyzer/analyzer.go:234-236 | in the example tree with filter `[".go"]`, the empty directory leaves a bare connector |
| Format.ExampleListedFile | internal/analyzer/analyzer.go:241-254 | in the example, `a.go` is printed with the middle connector |
| Format.ExampleUnlistedFile | internal/analyzer/analyzer.go:241-254 | in the example, `b.md` writes nothing |
| Format.DanglingConnectorExample | internal/analyzer/analyzer.go:224-256 | the example's children render as a dangling connector, then the `a.go` line with a middle connector although it is the last visible child |
| Format.PadRight | internal/analyzer/analyzer.go:154-158 | `%-20s`: the string followed by spaces up to the width, and never shortened |
| Format.StringOrderIsLinear | internal/analyzer/analyzer.go:167 | the key order of `sort.Strings` is total, transitive and antisymmetric |
| Format.SortedKeys | internal/analyzer/analyzer.go:163-167 | the sorted key list holds each key exactly once, in ascending order |
| Format.SortedKeysAscend | internal/analyzer/analyzer.go:163-167 | sorted keys are distinct and strictly ascending |
| Format.BlockWithoutElements | internal/analyzer/analyzer.go:172-182 | a language without element counts gets its heading line and a blank line, and no type lines |
| Format.WriteAll | internal/analyzer/analyzer.go:150-161 | the summary lines are written in order |
| Format.SortedNames | internal/analyzer/analyzer.go:163-167 | collecting map keys in any order and sorting them gives the ascending key list |
| Format.WriteKinds | internal/analyzer/analyzer.go:173-180 | a language's types are written in ascending order with their counts |
| Format.WriteKindLines | internal/analyzer/analyzer.go:178-180 | the type lines are written in the given order |
| Format.WriteLanguage | internal/analyzer/analyzer.go:170-182 | a language's block is written: heading, type lines if any, blank line |
| Format.WriteLanguages | internal/analyzer/analyzer.go:169-183 | the blocks are written in the given order |
| Format.AppendAnalytics | internal/analyzer/analyzer.go:149-184 | the report is the summary followed by one block per language in ascending name order |
| Format.FormatText | internal/analyzer/analyzer.go:84-94 | the tree text is the heading with the absolute path, then the rendering of the root; the analytics text is the report |
| Cli.TrimAll | cmd/analyze.go:152-154 | each segment is replaced by its trimmed form, in order |
| Cli.ProcessStringList | cmd/analyze.go:147-156 | empty input gives the empty list. Otherwise there are one more entries than commas, each trimmed and comma-free, in order. |
| Cli.WhitespaceOnlyIsOneEmptyEntry | cmd/analyze.go:148-153 | `" "` yields `[""]`, because emptiness is tested before trimming |
| Cli.StringListOfTrimmedSegments | cmd/analyze.go:151-155 | when no segment has surrounding whitespace, the list is the segments |
| Cli.JoinRestoresInput | cmd/analyze.go:147-156 | when no segment has surrounding whitespace, joining the list with commas gives back the input |
| Cli.ParseOfJoin | cmd/analyze.go:147-156 | a list of trimmed, comma-free entries, other than the single empty entry, survives a join and a parse |

## Left out

- Concurrency: the worker pool of `Analyze` (goroutines, channel, `sync.WaitGroup`) is one sequential loop over the scheduled files. Each job writes only its own node and `wg.Wait()` is a barrier, so the final state is the same.
- File I/O: `os.ReadFile`, `os.Stat` of the `.gitignore` and `filepath.WalkDir` are parameters. File contents are a function from path to optional bytes, the `.gitignore` text is an optional string, and the file system is a rose tree. `filepath.Abs` is left out: the absolute root path is an input.
- The gitignore matcher is an uninterpreted function of the pattern list and a path. The tree-sitter parser, in `internal/parser/treesitter.go`, is an uninterpreted function returning elements or an error.
- Time: the analysis duration and its readable form are a string parameter of the report.
- JSON output, the interactive survey, the cobra commands, colours and ASCII art are not part of this model. Neither is the rest of `cmd/analyze.go` and `cmd/root.go`.
- Warnings written to standard error are left out.
- Error texts: the walker's "error walking directory" wrapping (walker.go:129) is not modelled, and the file-system errors are stand-ins, `Walker.CannotStat` and `Walker.CannotRead`, naming the path. The missing-parent message is the source's own. A failed build is a `Failure` carrying the callback's message.
- `strings.TrimSpace` recognises ASCII whitespace only, and `strings.ToLower` maps ASCII letters only. Unicode is not modelled.
- `filepath.Dir`, `Join` and `Ext` are modelled for clean slash-separated paths; `filepath.Clean` is not modelled.
- Integers are unbounded, so Go's `int` overflow of counters is not modelled.
- Format.SortedElements: `sort.Slice` is not stable. The model sorts by an insertion sort, which fixes one order for elements on the same line, and only the ascending order and the permutation are meant.
- Format.FormatTree: the element sort is done on a copy. The program sorts `CodeElements` in place, but nothing reads the node afterwards.
- Analyzer.Aggregate: the first argument of `aggregateAnalytics` is not read by the program, so it is not modelled.
- Analyzer.GetLanguageByFileExtension: the compiled table is a parameter `langs`, of this function and of `Analyze`; the program uses `Config.Languages`, whose facts `config.dfy` proves.
- Analyzer.Analyze: that it succeeds exactly when the walk does is proved for a clean root path with well-named entries, which `filepath.Abs` and `os.ReadDir` provide; for other inputs only the direction "success implies the walk succeeded" is stated.
- Walker.BuildFileTree: the same holds here, and for the error naming the first directory that cannot be listed. For other inputs a missing parent could also stop the walk.
- Walker.WalkEvents: the error's description is stated for shaped walks only (`WalkShaped`), which `Walker.EventsShaped` proves for every walk from a clean root.
- Format.AppendAnalytics: Go iterates maps in random order. The model collects the keys in an arbitrary order and proves that the sorted result does not depend on it.
