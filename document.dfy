/**
 * The editor's document state as a value, and the four file operations as
 * functions on it. The main window's methods are proved to follow these.
 */
module Document {
  import opened Wrappers
  import opened FileInfo
  import opened Lexers
  import opened Disk
  import opened QtString

  const Placeholder: string := "Untitled.txt"
  const AppName: string := "Textino"
  const TitleTail: string := "[*] - " + AppName

  /** The name shown for a path: the placeholder for an unsaved document, else the path's file name. */
  function DisplayName(path: string): string
  {
    if path == "" then Placeholder else FileName(path)
  }

  /** The window title: the display name followed by the modification placeholder and the application name. */
  function Title(path: string): string
  {
    DisplayName(path) + TitleTail
  }

  /** The title as the source builds it: two chained one-argument QString::arg calls. */
  function TitleAsWritten(path: string): string
  {
    Arg(Arg("%1[*] - %2", DisplayName(path)), AppName)
  }

  /** The settings lexer selection derives from a path. */
  function SettingsForPath(path: string): EditorSettings
  {
    SettingsFor(LanguageFor(Suffix(path)))
  }

  /** The state of the main window and its editor that the file operations read and write. */
  datatype Doc = Doc(
    path: string,
    text: string,
    editorModified: bool,
    windowModified: bool,
    title: string,
    settings: EditorSettings)

  /** The title and the highlighting settings are both determined by the path. */
  predicate Consistent(d: Doc)
  {
    d.title == Title(d.path) && d.settings == SettingsForPath(d.path)
  }

  /** Makes p the current file: flags cleared, title and lexer derived from p, text kept. */
  function SetCurrentFile(d: Doc, p: string): (e: Doc)
    ensures e.path == p && e.text == d.text
    ensures !e.editorModified && !e.windowModified
    ensures Consistent(e)
  {
    d.(path := p, editorModified := false, windowModified := false,
       title := Title(p), settings := SettingsForPath(p))
  }

  /** Reads p into the buffer and makes it the current file, or changes nothing when p cannot be opened. */
  function LoadFile(d: Doc, fs: FileSystem, p: string): (e: Doc)
    ensures !CanOpenForRead(fs, p) ==> e == d
    ensures CanOpenForRead(fs, p) ==> e.text == fs.files[p] && e == SetCurrentFile(e, p)
    ensures Consistent(d) ==> Consistent(e)
  {
    if !CanOpenForRead(fs, p) then d
    else SetCurrentFile(d.(text := fs.files[p]), p)
  }

  /** The outcome of a save: whether it succeeded, the file system after it and the document after it. */
  datatype SaveResult = SaveResult(ok: bool, fs: FileSystem, doc: Doc)

  /** Writes the buffer to p and makes p the current file, or changes nothing when p cannot be opened. */
  function SaveFile(d: Doc, fs: FileSystem, p: string): (r: SaveResult)
    ensures r.ok == CanOpenForWrite(fs, p)
    ensures !r.ok ==> r.fs == fs && r.doc == d
    ensures r.ok ==> p in r.fs.files && r.fs.files[p] == d.text
    ensures r.ok ==> r.fs == Write(fs, p, d.text)
    ensures r.ok ==> r.doc == SetCurrentFile(d, p) && !r.doc.editorModified
    ensures Consistent(d) ==> Consistent(r.doc)
  {
    if !CanOpenForWrite(fs, p) then SaveResult(false, fs, d)
    else SaveResult(true, Write(fs, p, d.text), SetCurrentFile(d, p))
  }

  // Properties

  lemma DisplayNameOfJoin(dir: string, name: string)
    requires '/' !in name
    ensures DisplayName(dir + "/" + name) == name
  {
    FileNameOfJoin(dir, name);
  }

  /** Two titles agree exactly when the display names do. */
  lemma TitleIsInjective(p: string, q: string)
    ensures Title(p) == Title(q) <==> DisplayName(p) == DisplayName(q)
  {
    if Title(p) == Title(q) {
      var n, m := DisplayName(p), DisplayName(q);
      assert |n| == |m|;
      assert n == (n + TitleTail)[..|n|];
      assert m == (m + TitleTail)[..|m|];
    }
  }

  /** What the template holds after its %1: ordinary text and the marker %2. */
  const TemplateRest: string := "[*] - %2"

  lemma TemplateRestShape()
    ensures TemplateRest == "[*] - " + ['%', '2'] && '%' !in "[*] - "
  {
  }

  lemma TemplateRestLowest()
    ensures LowestMarker(TemplateRest) == Some(2)
  {
    TemplateRestShape();
    PlainPrefixHasNoMarker("[*] - ", ['%', '2']);
    MarkerFirst('2', [], 1, "");
  }

  lemma TemplateRestKept(name: string)
    ensures ReplaceMarker(TemplateRest, 1, name) == TemplateRest
  {
    TemplateRestShape();
    MarkerFirst('2', [], 1, name);
    PlainPrefixIsKept("[*] - ", ['%', '2'], 1, name);
  }

  lemma TemplateRestFilled(name: string)
    ensures ReplaceMarker(TemplateRest, 2, name) == "[*] - " + name
  {
    TemplateRestShape();
    MarkerFirst('2', [], 2, name);
    PlainPrefixIsKept("[*] - ", ['%', '2'], 2, name);
  }

  /** The first arg call puts the name in place of %1 and keeps %2. */
  lemma FirstArg(name: string)
    ensures Arg("%1[*] - %2", name) == name + TemplateRest
  {
    assert "%1[*] - %2" == ['%', '1'] + TemplateRest;
    TemplateRestLowest();
    TemplateRestKept(name);
    TemplateRestFilled(name);
    MarkerFirst('1', TemplateRest, 1, name);
  }

  /** The as-written title agrees with the intended one whenever the display name holds no '%'. */
  lemma TitleAsWrittenAgrees(path: string)
    requires '%' !in DisplayName(path)
    ensures TitleAsWritten(path) == Title(path)
  {
    var name := DisplayName(path);
    FirstArg(name);
    TemplateRestLowest();
    TemplateRestKept(AppName);
    TemplateRestFilled(AppName);
    PlainPrefixHasNoMarker(name, TemplateRest);
    PlainPrefixIsKept(name, TemplateRest, 2, AppName);
  }

  /**
   * More generally, the as-written title agrees with the intended one whenever
   * every place marker of the display name is numbered above 2: the second arg
   * call then fills the template's own %2. Qt's %L form and non-ASCII digits,
   * which this model does not read as markers, are excluded.
   */
  lemma TitleAsWrittenAgreesAboveTwo(path: string)
    requires forall i :: IsMarker(DisplayName(path), i) ==> Number(DisplayName(path), i) > 2
    requires NoOtherMarkerForms(DisplayName(path))
    ensures TitleAsWritten(path) == Title(path)
  {
    var name := DisplayName(path);
    FirstArg(name);
    TemplateRestShape();
    assert name + TemplateRest == name + "[*] - " + ['%', '2'];
    ArgFillsTrailingMarker(name, "[*] - ", '2', AppName);
  }

  lemma MarkedNameLowest(front: string, back: string)
    requires '%' !in front && '%' !in back
    ensures LowestMarker(front + (['%', '1'] + (back + TemplateRest))) == Some(1)
  {
    TemplateRestLowest();
    TemplateRestKept(AppName);
    TemplateRestFilled(AppName);
    PlainPrefixHasNoMarker(back, TemplateRest);
    MarkerFirst('1', back + TemplateRest, 1, AppName);
    PlainPrefixHasNoMarker(front, ['%', '1'] + (back + TemplateRest));
  }

  lemma MarkedNameReplaced(front: string, back: string, a: string)
    requires '%' !in front && '%' !in back
    ensures ReplaceMarker(front + (['%', '1'] + (back + TemplateRest)), 1, a) == front + (a + (back + TemplateRest))
  {
    TemplateRestLowest();
    TemplateRestKept(a);
    TemplateRestFilled(a);
    MarkerFirst('1', back + TemplateRest, 1, a);
    PlainPrefixIsKept(back, TemplateRest, 1, a);
    PlainPrefixIsKept(front, ['%', '1'] + (back + TemplateRest), 1, a);
  }

  /**
   * When the name holds the marker %1 and no other '%', the second arg call
   * puts the application name in place of the name's %1 and leaves %2.
   */
  lemma SecondArgOnMarkedName(front: string, back: string, a: string)
    requires '%' !in front && '%' !in back
    ensures Arg(front + "%1" + back + TemplateRest, a) == front + a + back + TemplateRest
  {
    var once := front + (['%', '1'] + (back + TemplateRest));
    assert front + "%1" + back + TemplateRest == once;
    MarkedNameLowest(front, back);
    MarkedNameReplaced(front, back, a);
    assert Arg(once, a) == front + (a + (back + TemplateRest));
  }

  // The lemmas about one fixed path take it as a parameter pinned by a
  // requires: stated on the literal itself, the solver unfolds every function
  // applied to it and runs out of resources.

  lemma DisplayNameOfMarkedPath(path: string)
    requires path == "/tmp/a%1.txt"
    ensures DisplayName(path) == "a%1.txt"
  {
    assert path == "/tmp" + "/" + "a%1.txt";
    DisplayNameOfJoin("/tmp", "a%1.txt");
  }

  /**
   * A file whose name holds the marker %1 (and no other '%') gets a wrong
   * title: the application name lands inside the name and "%2" is left at its end.
   * The character after %1 is not a digit, since Qt would read %1 and that
   * digit as one two-digit marker.
   */
  lemma TitleAsWrittenMisplacesAppName(path: string, front: string, back: string)
    requires DisplayName(path) == front + "%1" + back
    requires '%' !in front && '%' !in back
    requires back == [] || !IsDigit(back[0])
    ensures TitleAsWritten(path) == front + AppName + back + TemplateRest
    ensures TitleAsWritten(path) != Title(path)
  {
    FirstArg(front + "%1" + back);
    assert front + "%1" + back + TemplateRest == (front + "%1" + back) + TemplateRest;
    SecondArgOnMarkedName(front, back, AppName);
    assert TitleAsWritten(path)[|front|] == 'T';
    assert Title(path)[|front|] == '%';
  }

  /** For instance, "/tmp/a%1.txt" is titled "aTextino.txt[*] - %2" (the path is pinned by a requires, as above). */
  lemma MarkedFileExample(path: string)
    requires path == "/tmp/a%1.txt"
    ensures TitleAsWritten(path) == "a" + AppName + ".txt" + TemplateRest
    ensures TitleAsWritten(path) != Title(path)
  {
    DisplayNameOfMarkedPath(path);
    TitleAsWrittenMisplacesAppName(path, "a", ".txt");
  }

  /** Making the same file current twice is the same as once. */
  lemma SetCurrentFileIsIdempotent(d: Doc, p: string)
    ensures SetCurrentFile(SetCurrentFile(d, p), p) == SetCurrentFile(d, p)
  {
  }

  /** Loading the same file twice is the same as loading it once. */
  lemma LoadFileIsIdempotent(d: Doc, fs: FileSystem, p: string)
    ensures LoadFile(LoadFile(d, fs, p), fs, p) == LoadFile(d, fs, p)
  {
  }

  /**
   * After a successful save to a readable path, loading that path, into the
   * saved document or into any later one, restores the saved text; loading
   * into the saved document leaves it as it is.
   */
  lemma SaveThenLoad(d: Doc, fs: FileSystem, p: string, later: Doc)
    requires p !in fs.unreadable
    ensures var r := SaveFile(d, fs, p);
      r.ok ==> LoadFile(r.doc, r.fs, p) == r.doc && LoadFile(later, r.fs, p).text == d.text
  {
    var r := SaveFile(d, fs, p);
    if r.ok {
      WriteThenRead(fs, p, d.text);
    }
  }

  /** The lexer of a path depends only on the suffix of its file name. */
  lemma SettingsFollowSuffix(dir: string, base: string, ext: string)
    requires '/' !in base && '/' !in ext && '.' !in ext
    ensures SettingsForPath(dir + "/" + base + "." + ext) == SettingsFor(LanguageFor(ext))
  {
    SuffixOfJoin(dir, base, ext);
  }

  /** An unsaved document shows the placeholder and gets no lexer (the empty path is pinned by a requires, as above). */
  lemma UntitledIsPlain(d: Doc, p: string)
    requires p == ""
    ensures SetCurrentFile(d, p).title == "Untitled.txt[*] - Textino"
    ensures SetCurrentFile(d, p).settings.lexer == None
  {
  }
}
