/**
 * Lexer selection: the file suffix picks one of six highlighting languages or
 * none, and the choice fixes the editor's highlighting, indentation and
 * brace-matching settings.
 */
module Lexers {
  import opened Wrappers

  /** The highlighting languages the editor knows (the QScintilla lexer classes it uses). */
  datatype Language = Cpp | Java | Python | JavaScript | Verilog | Sql

  /** The comment token style of a lexer that is painted gray. */
  datatype CommentStyle = CommentLine | Comment

  /** A lexer attached to the editor: its language and the comment style it grays out. */
  datatype LexerConfig = LexerConfig(language: Language, grayStyle: CommentStyle)

  /** QScintilla's brace-matching modes. */
  datatype BraceMatch = NoBraceMatch | StrictBraceMatch | SloppyBraceMatch

  /** QScintilla's auto-completion sources. */
  datatype CompletionSource = AcsNone | AcsAll | AcsDocument | AcsAPIs

  /** Everything lexer selection sets on the editor. */
  datatype EditorSettings = EditorSettings(
    lexer: Option<LexerConfig>,
    autoIndent: bool,
    braceMatching: BraceMatch,
    completionSource: CompletionSource,
    completionCaseSensitive: bool,
    completionThreshold: int)

  /** The suffixes that select a lexer, as a table. */
  const SuffixTable: map<string, Language> :=
    map["c" := Cpp, "cpp" := Cpp, "cc" := Cpp, "h" := Cpp, "hpp" := Cpp, "hh" := Cpp,
        "java" := Java,
        "py" := Python,
        "js" := JavaScript, "ts" := JavaScript,
        "v" := Verilog, "vhdl" := Verilog,
        "sql" := Sql]

  /**
   * The chain of suffix comparisons that picks a language. Comparison is exact,
   * so "CPP" or an empty suffix selects nothing.
   */
  function LanguageFor(ext: string): Option<Language>
  {
    if ext == "c" || ext == "cpp" || ext == "cc" || ext == "h" || ext == "hpp" || ext == "hh" then Some(Cpp)
    else if ext == "java" then Some(Java)
    else if ext == "py" then Some(Python)
    else if ext == "js" || ext == "ts" then Some(JavaScript)
    else if ext == "v" || ext == "vhdl" then Some(Verilog)
    else if ext == "sql" then Some(Sql)
    else None
  }

  /** The comparison chain selects exactly what the table lists, and nothing for any other suffix. */
  lemma LanguageForMatchesTable(ext: string)
    ensures LanguageFor(ext) == (if ext in SuffixTable then Some(SuffixTable[ext]) else None)
  {
  }

  /** The comment style each lexer paints gray: Python's lexer calls it Comment, the others CommentLine. */
  function GrayStyle(lang: Language): CommentStyle
  {
    if lang == Python then Comment else CommentLine
  }

  /** The editor settings that lexer selection leaves for a language, or for none. */
  function SettingsFor(lang: Option<Language>): (s: EditorSettings)
    ensures s.lexer.Some? <==> lang.Some?
    ensures lang.Some? ==> s.lexer.value.language == lang.value
    ensures lang.Some? ==> s.lexer.value.grayStyle == (if lang.value == Python then Comment else CommentLine)
    ensures s.autoIndent <==> lang.Some?
    ensures s.braceMatching == (if lang.Some? then SloppyBraceMatch else NoBraceMatch)
  {
    match lang
    case Some(l) => EditorSettings(Some(LexerConfig(l, GrayStyle(l))), true, SloppyBraceMatch, AcsAll, true, 1)
    case None => EditorSettings(None, false, NoBraceMatch, AcsAll, true, 1)
  }

  /** Auto-completion is configured the same way whichever language is chosen. */
  lemma CompletionIsUniform(a: Option<Language>, b: Option<Language>)
    ensures SettingsFor(a).completionSource == SettingsFor(b).completionSource == AcsAll
    ensures SettingsFor(a).completionCaseSensitive == SettingsFor(b).completionCaseSensitive == true
    ensures SettingsFor(a).completionThreshold == SettingsFor(b).completionThreshold == 1
  {
  }

  /** Selection is case-sensitive: upper-case variants of known suffixes select nothing. */
  lemma SelectionIsCaseSensitive()
    ensures LanguageFor("cpp") == Some(Cpp) && LanguageFor("CPP") == None
    ensures LanguageFor("py") == Some(Python) && LanguageFor("PY") == None
    ensures LanguageFor("Java") == None && LanguageFor("") == None && LanguageFor("xyz") == None
  {
  }
}
