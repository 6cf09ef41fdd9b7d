/** The static language table compiled into groot
    (internal/analyzer/config.go), and the facts about its shape that make the
    first-match extension lookup well defined. */
module Config {
  import opened Model
  import Text
  import FilePath

  const Languages: seq<Language> := [
    Language("Go", [".go"], [
      LanguageQuery("Function", "(function_declaration name: (identifier) @name)"),
      LanguageQuery("Method", "(method_declaration name: (field_identifier) @name)"),
      LanguageQuery("Interface", "(type_spec name: (type_identifier) @name (interface_type))"),
      LanguageQuery("Struct", "(type_spec name: (type_identifier) @name (struct_type))")]),
    Language("JavaScript", [".js", ".jsx", ".mjs", ".cjs"], [
      LanguageQuery("Component", "(export_statement declaration: (lexical_declaration (variable_declarator name: (identifier) @name value: (arrow_function))))"),
      LanguageQuery("Component", "(lexical_declaration (variable_declarator name: (identifier) @name value: (arrow_function)))"),
      LanguageQuery("Component", "(export_statement declaration: (function_declaration name: (identifier) @name))"),
      LanguageQuery("Constant", "(export_statement declaration: (lexical_declaration (variable_declarator name: (identifier) @name)))"),
      LanguageQuery("Function", "(function_declaration name: (identifier) @name)"),
      LanguageQuery("Component", "(export_statement value: (identifier) @name)"),
      LanguageQuery("Class", "(class_declaration name: (identifier) @name)"),
      LanguageQuery("Class Component", "(export_statement declaration: (class_declaration name: (identifier) @name))"),
      LanguageQuery("Method", "(method_definition name: (property_identifier) @name)")]),
    Language("Java", [".java"], [
      LanguageQuery("Controller", "((class_declaration (modifiers (annotation name: (identifier) @ann)) name: (identifier) @name) (#eq? @ann \"RestController\"))"),
      LanguageQuery("Service", "((class_declaration (modifiers (annotation name: (identifier) @ann)) name: (identifier) @name) (#eq? @ann \"Service\"))"),
      LanguageQuery("Repository", "((class_declaration (modifiers (annotation name: (identifier) @ann)) name: (identifier) @name) (#eq? @ann \"Repository\"))"),
      LanguageQuery("Class", "(class_declaration name: (identifier) @name)"),
      LanguageQuery("Method", "(method_declaration name: (identifier) @name)"),
      LanguageQuery("Interface", "(interface_declaration name: (identifier) @name)")]),
    Language("Python", [".py"], [
      LanguageQuery("Function", "(function_definition name: (identifier) @name)"),
      LanguageQuery("Class", "(class_definition name: (identifier) @name)")]),
    Language("Rust", [".rs"], [
      LanguageQuery("Function", "(function_item name: (identifier) @name)"),
      LanguageQuery("Struct", "(struct_item name: (type_identifier) @name)"),
      LanguageQuery("Enum", "(enum_item name: (type_identifier) @name)"),
      LanguageQuery("Trait", "(trait_item name: (type_identifier) @name)")]),
    Language("HTML", [".html", ".htm"], []),
    Language("CSS", [".css"], [
      LanguageQuery("Class Selector", "(class_selector) @name"),
      LanguageQuery("ID Selector", "(id_selector) @name")])
  ]

  /** Names of the table's languages, in table order. */
  function Names(langs: seq<Language>): (r: seq<string>)
    ensures |r| == |langs|
    ensures forall k :: 0 <= k < |langs| ==> r[k] == langs[k].name
  {
    if langs == [] then [] else [langs[0].name] + Names(langs[1..])
  }

  /** A lookup key: a dot followed by lower-case characters, none of them a dot
      or a separator, so that it is its own `filepath.Ext` and its own
      lower-case form. */
  predicate IsExtensionKey(e: string) {
    |e| >= 2 && e[0] == '.' &&
    (forall i :: 1 <= i < |e| ==> e[i] != '.' && e[i] != FilePath.Separator) &&
    Text.IsLower(e)
  }

  /** The table holds seven languages, in this order. */
  lemma LanguageOrder()
    ensures Names(Languages) == ["Go", "JavaScript", "Java", "Python", "Rust", "HTML", "CSS"]
  {
    NameColumn();
    NamesOfColumn(Languages);
  }

  /** A table with the name column of groot's. */
  predicate HasNameColumn(langs: seq<Language>) {
    && |langs| == 7
    && langs[0].name == "Go" && langs[1].name == "JavaScript" && langs[2].name == "Java"
    && langs[3].name == "Python" && langs[4].name == "Rust" && langs[5].name == "HTML"
    && langs[6].name == "CSS"
  }

  lemma NameColumn()
    ensures HasNameColumn(Languages)
  {
  }

  lemma NamesOfColumn(langs: seq<Language>)
    requires HasNameColumn(langs)
    ensures Names(langs) == ["Go", "JavaScript", "Java", "Python", "Rust", "HTML", "CSS"]
  {
    var r := Names(langs);
    assert r[0] == "Go" && r[1] == "JavaScript" && r[2] == "Java" && r[3] == "Python";
    assert r[4] == "Rust" && r[5] == "HTML" && r[6] == "CSS";
  }

  /** A table whose every language lists at least one extension, each of
      them a lower-case dotted key. */
  predicate ListsKeys(langs: seq<Language>) {
    forall k :: 0 <= k < |langs| ==>
      |langs[k].extensions| >= 1 && forall e :: e in langs[k].extensions ==> IsExtensionKey(e)
  }

  /** A table in which no extension belongs to two languages. */
  predicate ExtensionsDisjoint(langs: seq<Language>) {
    forall k, m, e :: 0 <= k < m < |langs| && e in langs[k].extensions ==> e !in langs[m].extensions
  }

  /** A table with the extension column of groot's. */
  predicate HasExtensionColumn(langs: seq<Language>) {
    && |langs| == 7
    && langs[0].extensions == [".go"]
    && langs[1].extensions == [".js", ".jsx", ".mjs", ".cjs"]
    && langs[2].extensions == [".java"]
    && langs[3].extensions == [".py"]
    && langs[4].extensions == [".rs"]
    && langs[5].extensions == [".html", ".htm"]
    && langs[6].extensions == [".css"]
  }

  lemma ExtensionColumn()
    ensures HasExtensionColumn(Languages)
  {
  }

  lemma ColumnListsKeys(langs: seq<Language>)
    requires HasExtensionColumn(langs)
    ensures ListsKeys(langs)
  {
  }

  lemma ColumnIsDisjoint(langs: seq<Language>)
    requires HasExtensionColumn(langs)
    ensures ExtensionsDisjoint(langs)
  {
  }

  /** Every language lists at least one extension, and every extension is a
      lower-case dotted key. */
  lemma ExtensionsAreKeys()
    ensures ListsKeys(Languages)
  {
    ExtensionColumn();
    ColumnListsKeys(Languages);
  }

  /** No extension belongs to two languages. */
  lemma ExtensionsAreDisjoint()
    ensures ExtensionsDisjoint(Languages)
  {
    ExtensionColumn();
    ColumnIsDisjoint(Languages);
  }

  /** JavaScript owns `.js`, `.jsx`, `.mjs` and `.cjs`; HTML owns `.html` and
      `.htm` and declares no queries. */
  lemma MultiExtensionLanguages()
    ensures Languages[1].name == "JavaScript" && Languages[1].extensions == [".js", ".jsx", ".mjs", ".cjs"]
    ensures Languages[5].name == "HTML" && Languages[5].extensions == [".html", ".htm"]
    ensures Languages[5].queries == []
  {
  }

  /** A dotted lower-case key is its own extension and its own lower-case
      form, so it can be matched by the lookup. */
  lemma {:induction false} KeyIsOwnExtension(e: string)
    requires IsExtensionKey(e)
    ensures FilePath.Ext(e) == e
    ensures Text.ToLower(e) == e
  {
    Text.ToLowerOfLower(e);
    assert [] + e == e;
    FilePath.ExtOfDottedSuffix([], e);
  }
}
