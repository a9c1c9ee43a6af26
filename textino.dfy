/**
 * The main window of the editor and the embedded text widget, as objects
 * whose fields the file operations update in place.
 */
module Textino {
  import opened Wrappers
  import opened FileInfo
  import opened Lexers
  import opened Disk
  import Document

  /** The user's answer to the "save your changes?" question. */
  datatype Answer = Yes | No | Cancel

  /** The embedded text widget: its buffer, its modified flag and the settings lexer selection writes. */
  class Editor {
    var text: string
    var modified: bool
    var lexer: Option<LexerConfig>
    var autoIndent: bool
    var braceMatching: BraceMatch
    var completionSource: CompletionSource
    var completionCaseSensitive: bool
    var completionThreshold: int

    /** A fresh widget: empty and unmodified, with the widget's own defaults. */
    constructor ()
      ensures text == "" && !modified && lexer == None
      ensures !autoIndent && braceMatching == NoBraceMatch
      ensures completionSource == AcsNone && completionCaseSensitive && completionThreshold == -1
    {
      text := "";
      modified := false;
      lexer := None;
      autoIndent := false;
      braceMatching := NoBraceMatch;
      completionSource := AcsNone;
      completionCaseSensitive := true;
      completionThreshold := -1;
    }

    /** The settings lexer selection controls, as a value. */
    ghost function Settings(): EditorSettings
      reads this
    {
      EditorSettings(lexer, autoIndent, braceMatching, completionSource, completionCaseSensitive, completionThreshold)
    }
  }

  class MainWindow {
    const editor: Editor
    var currentPath: string
    var windowModified: bool
    var windowTitle: string
    var textLexer: Option<LexerConfig>

    /** The window's document state, as a value. */
    ghost function State(): Document.Doc
      reads this, editor
    {
      Document.Doc(currentPath, editor.text, editor.modified, windowModified, windowTitle, editor.Settings())
    }

    /** The title and the lexer follow the current path; the lexer held is the one the widget uses. */
    ghost predicate Valid()
      reads this, editor
    {
      Document.Consistent(State()) && textLexer == editor.lexer
    }

    /** Builds the window around a fresh widget and starts on an unsaved, untitled document. */
    constructor ()
      ensures Valid() && fresh(editor)
      ensures currentPath == "" && editor.text == ""
      ensures !editor.modified && !windowModified
      ensures windowTitle == "Untitled.txt[*] - Textino" && editor.lexer == None
    {
      editor := new Editor();
      currentPath := "";
      windowModified := false;
      windowTitle := "";
      textLexer := None;
      new;
      ghost var initial := State();
      SetCurrentFile("");
      Document.UntitledIsPlain(initial, "");
    }

    /**
     * Makes givenPath the current file: both modified flags are cleared, the
     * lexer is chosen again and the title names the file.
     */
    method SetCurrentFile(givenPath: string)
      modifies this, editor
      ensures Valid()
      ensures State() == Document.SetCurrentFile(old(State()), givenPath)
    {
      currentPath := givenPath;
      editor.modified := false;
      windowModified := false;

      var shownName: string;
      if currentPath == "" {
        shownName := Document.Placeholder;
      } else {
        shownName := FileName(currentPath);
      }
      CreateLexer();
      windowTitle := shownName + Document.TitleTail;
      assert windowTitle == Document.Title(givenPath);
      assert editor.Settings() == Document.SettingsForPath(givenPath);
    }

    /** Chooses the lexer from the suffix of the current path and configures the widget for it. */
    method CreateLexer()
      modifies this`textLexer, editor
      ensures textLexer == editor.lexer
      ensures editor.Settings() == Document.SettingsForPath(currentPath)
      ensures editor.text == old(editor.text) && editor.modified == old(editor.modified)
    {
      var ext := Suffix(currentPath);
      match LanguageFor(ext) {
        case Some(lang) =>
          textLexer := Some(LexerConfig(lang, GrayStyle(lang)));
          editor.autoIndent := true;
          editor.braceMatching := SloppyBraceMatch;
        case None =>
          textLexer := None;
          editor.autoIndent := false;
          editor.braceMatching := NoBraceMatch;
      }
      editor.lexer := textLexer;
      editor.completionSource := AcsAll;
      editor.completionCaseSensitive := true;
      editor.completionThreshold := 1;
    }

    /**
     * Asks whether to save a modified document. The user's answer and the
     * outcome of the save it may start are inputs; the question is asked only
     * when the document is modified.
     */
    method MaybeSave(answer: Answer, saveSucceeds: bool) returns (proceed: bool, prompted: bool)
      ensures prompted == editor.modified
      ensures !editor.modified ==> proceed
      ensures editor.modified && answer == Yes ==> proceed == saveSucceeds
      ensures editor.modified && answer == No ==> proceed
      ensures editor.modified && answer == Cancel ==> !proceed
      ensures !proceed <==> editor.modified && (answer == Cancel || (answer == Yes && !saveSucceeds))
    {
      prompted := editor.modified;
      if editor.modified {
        if answer == Yes {
          return saveSucceeds, prompted;
        } else if answer == Cancel {
          return false, prompted;
        }
      }
      return true, prompted;
    }

    /** Replaces the buffer by the file at fileName and makes it current; changes nothing when it cannot be opened. */
    method LoadFile(fs: FileSystem, fileName: string)
      requires Valid()
      modifies this, editor
      ensures Valid()
      ensures State() == Document.LoadFile(old(State()), fs, fileName)
      ensures !CanOpenForRead(fs, fileName) ==> unchanged(this, editor)
    {
      if !CanOpenForRead(fs, fileName) {
        return;
      }
      editor.text := fs.files[fileName];
      SetCurrentFile(fileName);
    }

    /** Writes the buffer to fileName and makes it current; reports failure and changes nothing when it cannot be opened. */
    method SaveFile(fs: FileSystem, fileName: string) returns (ok: bool, fs': FileSystem)
      requires Valid()
      modifies this, editor
      ensures Valid()
      ensures Document.SaveResult(ok, fs', State()) == Document.SaveFile(old(State()), fs, fileName)
      ensures !ok ==> fs' == fs && unchanged(this, editor)
    {
      if !CanOpenForWrite(fs, fileName) {
        return false, fs;
      }
      fs' := Write(fs, fileName, editor.text);
      SetCurrentFile(fileName);
      ok := true;
    }
  }

  /** Saving to a readable path and loading it back restores the buffer and leaves a clean document. */
  method SaveAndReload(w: MainWindow, fs: FileSystem, path: string) returns (ok: bool, fs': FileSystem)
    requires w.Valid() && path !in fs.unreadable
    modifies w, w.editor
    ensures w.Valid()
    ensures ok == CanOpenForWrite(fs, path)
    ensures !ok ==> fs' == fs && unchanged(w, w.editor)
    ensures ok ==> w.editor.text == old(w.editor.text) && w.currentPath == path
    ensures ok ==> !w.editor.modified && w.windowTitle == Document.Title(path)
    ensures ok ==> path in fs'.files && fs'.files[path] == old(w.editor.text)
  {
    ok, fs' := w.SaveFile(fs, path);
    if ok {
      Disk.WriteThenRead(fs, path, old(w.editor.text));
      w.LoadFile(fs', path);
    }
  }
}
