/** The record types of groot (internal/model/models.go).

    Go's `*model.Node` pointers are modelled by an arena: a `Heap` is the
    sequence of all nodes built for one analysis, a pointer is an index into
    it, and a node's `Children` slice is a sequence of such indices. Writing
    through a pointer is an update of the heap at that index. */
module Model {

  /** One tree-sitter query of a language: the element type it yields and its
      query text, which only the parser interprets. */
  datatype LanguageQuery = LanguageQuery(kind: string, query: string)

  datatype Language = Language(name: string, extensions: seq<string>, queries: seq<LanguageQuery>)

  /** A named construct found in a file; `kind` is the Go record's `Type`. */
  datatype CodeElement = CodeElement(name: string, kind: string, line: int)

  type Ptr = nat

  /** One file-system entry. `loc` and `elements` are only ever set on files
      by the extraction worker; `children` only ever grows on directories. */
  datatype Node = Node(
    name: string,
    path: string,
    isDir: bool,
    loc: int,
    children: seq<Ptr>,
    elements: seq<CodeElement>)

  type Heap = seq<Node>

  /** Every child pointer of a node points further into the heap, so the
      nodes form an acyclic graph and recursion on children terminates. */
  predicate WellFormed(heap: Heap) {
    forall i, c :: 0 <= i < |heap| && c in heap[i].children ==> i < c < |heap|
  }

  /** No pointer occurs twice in `s`. */
  predicate Distinct(s: seq<Ptr>) {
    forall a, b :: 0 <= a < b < |s| ==> s[a] != s[b]
  }

  /** No node lists the same child twice. */
  predicate ListedOnce(heap: Heap) {
    forall p :: 0 <= p < |heap| ==> Distinct(heap[p].children)
  }

  datatype LanguageStats = LanguageStats(fileCount: int, loc: int, elementCounts: map<string, int>)

  /** The analysis summary, without its wall-clock duration fields. */
  datatype Analytics = Analytics(
    filesScanned: int,
    filesParsed: int,
    totalLOC: int,
    totalElements: int,
    perLanguage: map<string, LanguageStats>)

  /** The snapshot handed to the renderers; the root is `heap[0]`. */
  datatype AnalysisResult = AnalysisResult(heap: Heap, analytics: Analytics)
}
