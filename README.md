# Textino: the file lifecycle and lexer selection of the main window

Textino is a small Qt text editor built around an embedded QScintilla
widget. This project models the part of its main window that tracks files.

- **Setting the current file.** The path is recorded and both modified flags are cleared. The lexer is chosen again. The title is meant to be the shown name (`Untitled.txt` for an unsaved document, otherwise the file name of the path), then `[*] - Textino`. The model gives the window that intended title. The chained substitution the program actually performs agrees with it for every name without '%'. It also agrees for a name whose place markers are all ASCII markers %0 to %9 numbered above 2, provided no '%' in it is followed by 'L' or by a non-ASCII character. Among such names, it can differ only when the name holds a marker numbered 0, 1 or 2. It does differ for a name whose only '%' starts a '%1' that no digit follows (see "## Findings").
- **Lexer selection.** The suffix of the file name is compared against
  thirteen fixed strings, which pick one of six highlighting languages or
  none. The choice fixes the lexer, the comment style painted gray,
  auto-indentation and brace matching. Auto-completion is set the same way
  every time.
- **Loading and saving.** Each either fails to open the file and changes nothing, or moves the whole text between the buffer and the file and then makes that path the current file.
- **The "save your changes?" decision** that runs before a document is replaced.

The project is split into these modules:

- `FileInfo` models `QFileInfo::fileName` and `QFileInfo::suffix`.
- `QtString` models `QString::arg` with one argument.
- `Lexers` models the suffix-to-language chain and the settings it writes.
- `Disk` is an abstract file system. It maps each path to its contents and records which paths cannot be opened for reading or for writing. An empty file name never opens.
- `Document` states the window's document state as a value, with the file operations as functions on it. The lemmas are proved here.
- `Textino` has two classes. `Editor` is the widget. `MainWindow` holds the path, the title and the window's modified flag. Its methods change those fields in place. The postconditions of SetCurrentFile, LoadFile and SaveFile tie the new state to the matching `Document` function of the old state. CreateLexer ties the widget's settings to `Document.SettingsForPath` of the current path. MaybeSave changes nothing and states its decision table.

Two parts of the behaviour are inputs rather than modelled code:

- The user's answer to the save question is an `Answer` parameter.
- The `Save()` slot that MaybeSave calls is not part of this model, so its boolean outcome is a parameter too.

## Model

| member | source | states |
|---|---|---|
| FileInfo.FileNameIsLastTail | src/core/Textino.cpp:293-295 | The file name is the longest tail of the path with no '/': it follows the last '/' (or is the whole path when there is none). |
| FileInfo.FileNameOfJoin | src/core/Textino.cpp:293-295 | The file name of dir + "/" + name is name, whenever name holds no '/'. |
| FileInfo.SuffixIsLastTail | src/core/Textino.cpp:298 | The suffix is what follows the last '.' of the file name, or empty when the name has no '.'; it never holds a '/'. |
| FileInfo.SuffixOfJoin | src/core/Textino.cpp:298 | The suffix of dir + "/" + base + "." + ext is ext, whenever base and ext hold no '/' and ext no '.'; a '.' in a directory name never counts. |
| QtString.LowestMarkerIsLeast | src/core/Textino.cpp:290 | The number arg fills is the least number of any place marker in the string. There is none exactly when no position holds '%' and a digit. |
| QtString.ReplaceKeepsUnmarked | src/core/Textino.cpp:290 | A string none of whose markers carries the number being filled comes back unchanged. |
| QtString.ReplaceSplitsAtMarker | src/core/Textino.cpp:290 | The text on each side of a marker is processed on its own. The marker becomes the argument when it carries the number being filled and stays otherwise. |
| QtString.ArgFillsTrailingMarker | src/core/Textino.cpp:290 | When every marker of n is numbered above c, arg on n + t + "%c" (t plain text not starting with a digit) fills only the trailing %c and keeps n. |
| QtString.ArgWithoutMarkers | src/core/Textino.cpp:290 | arg returns a string with no place marker as it is. |
| QtString.ArgFillsFirstLowest | src/core/Textino.cpp:290 | arg keeps the text before the first lowest-numbered marker and puts the argument in its place. It then fills the later markers of that number in the rest, without rescanning the argument. |
| Lexers.LanguageForMatchesTable | src/core/Textino.cpp:300-341 | The comparison chain picks exactly the language the suffix table lists for the 13 known suffixes, and no lexer for every other suffix. |
| Lexers.SettingsFor | src/core/Textino.cpp:300-349 | A lexer is attached exactly when a language was chosen, and it is that language's lexer. Python grays Comment and every other language grays CommentLine. Auto-indent is on exactly when there is a lexer. Brace matching is sloppy with a lexer and off without one. |
| Lexers.CompletionIsUniform | src/core/Textino.cpp:346-349 | Whatever the language, completion uses all sources, is case-sensitive and starts after one character. |
| Lexers.SelectionIsCaseSensitive | src/core/Textino.cpp:300-341 | Comparison is exact: "cpp" and "py" select a lexer, while "CPP", "PY", "Java", the empty suffix and an unknown suffix select none. |
| Disk.Write | src/core/Textino.cpp:259-270 | Writing stores the text at the path, adds the path and keeps every other file and both permission sets. |
| Disk.WriteThenRead | src/core/Textino.cpp:259-270 | A file just written, whose reading is not refused, can be opened for reading exactly when its name is non-empty (QFile refuses an empty name). It holds exactly the text written. |
| Document.SetCurrentFile | src/core/Textino.cpp:278-291 | The path becomes p and the text is kept. Both modified flags are cleared. The resulting state is consistent: the settings are those derived from p's suffix, and the title is the intended one for p. |
| Document.LoadFile | src/core/Textino.cpp:237-255 | If the file cannot be opened for reading, the document is unchanged. Otherwise the text is the file's content and the document is the current-file state for p. Consistency is preserved. |
| Document.SaveFile | src/core/Textino.cpp:257-276 | The save succeeds exactly when the file can be opened for writing. On failure, the file system and the document are unchanged. On success, the file system is exactly Disk.Write of the buffer at p: the file holds the buffer, while every other file and both permission sets are kept. The document is then the current-file state for p and it is unmodified. Consistency is preserved. |
| Document.DisplayNameOfJoin | src/core/Textino.cpp:284-288 | A non-empty path dir + "/" + name is shown as name. |
| Document.TitleIsInjective | src/core/Textino.cpp:284-290 | Two paths get the same title exactly when they have the same shown name, so the title reflects the path's name. |
| Document.TitleAsWrittenAgrees | src/core/Textino.cpp:290 | When the shown name holds no '%', the two chained arg calls give the intended title: the name, then "[*] - Textino". |
| Document.TitleAsWrittenAgreesAboveTwo | src/core/Textino.cpp:290 | Suppose every ASCII place marker %0 to %9 of the shown name is numbered above 2, and no '%' in it is followed by 'L' (Qt's %L form) or by a non-ASCII character. Then the chained arg calls still give the intended title, because the second call fills the template's own %2. |
| Document.TitleAsWrittenMisplacesAppName | src/core/Textino.cpp:290 | Take a shown name front + "%1" + back with no other '%', where back does not start with a digit. The chained arg calls put "Textino" inside the name and leave "%2" at the end. The result differs from the intended title. |
| Document.MarkedFileExample | src/core/Textino.cpp:290 | "/tmp/a%1.txt" is titled "aTextino.txt[*] - %2", not "a%1.txt[*] - Textino". |
| Document.SetCurrentFileIsIdempotent | src/core/Textino.cpp:278-291 | Making the same file current twice gives the same state as doing it once. |
| Document.LoadFileIsIdempotent | src/core/Textino.cpp:237-255 | Loading the same file twice from the same file system gives the same state as loading it once. |
| Document.SaveThenLoad | src/core/Textino.cpp:237-276 | After a successful save to a readable path, loading that path into the saved document leaves it as it is. Loading it into any later document restores the saved text. |
| Document.SettingsFollowSuffix | src/core/Textino.cpp:297-300 | The lexer settings for dir + "/" + base + "." + ext depend only on ext. |
| Document.UntitledIsPlain | src/core/Textino.cpp:284-290 | An empty path shows the title "Untitled.txt[*] - Textino" and gets no lexer. |
| Textino.Editor.constructor | src/core/Textino.cpp:52 | A new widget is empty and unmodified, with no lexer and the widget's own defaults for indentation, brace matching and completion. |
| Textino.MainWindow.constructor | src/core/Textino.cpp:51-77 | The window starts on an unsaved, empty, unmodified document titled "Untitled.txt[*] - Textino", with no lexer; its invariant holds. |
| Textino.MainWindow.SetCurrentFile | src/core/Textino.cpp:278-291 | The window's new state is Document.SetCurrentFile of its old state, with the intended title, and its invariant holds. |
| Textino.MainWindow.CreateLexer | src/core/Textino.cpp:297-350 | The widget's settings become those chosen for the current path's suffix. The lexer held by the window is the one the widget uses. The text and the modified flag are untouched. |
| Textino.MainWindow.MaybeSave | src/core/Textino.cpp:220-235 | The question is asked exactly when the document is modified. The caller may proceed when the document is unmodified, when the answer is No, or when the answer is Yes and the save succeeds. It is stopped exactly on Cancel or on a failed save. |
| Textino.MainWindow.LoadFile | src/core/Textino.cpp:237-255 | The window's new state is Document.LoadFile of its old state, and its invariant is kept. An unreadable file leaves the window and the widget untouched. |
| Textino.MainWindow.SaveFile | src/core/Textino.cpp:257-276 | The result, the new file system and the window's new state are Document.SaveFile of the old state, and the invariant is kept. A failed save returns false and changes neither the file system nor the window. |
| Textino.SaveAndReload | src/core/Textino.cpp:237-276 | The save succeeds exactly when the path can be opened for writing. A failed save changes neither the file system nor the window. Saving to a readable path and then loading it restores the buffer. The file holds that text and the document is clean, at that path and titled after it. |

## Left out

- Widget construction, actions, menus, toolbars, status bar and signal wiring (src/core/Textino.cpp:35-218) are left out because they hold no file or lexer state.
- Message boxes, the wait cursor and the status-bar messages are left out. Only the behaviour after an open failure is kept: nothing changes and the save reports false.
- Text encoding through QTextStream is not modelled: text is read and written verbatim, and a write replaces the file's content atomically. A crash in the middle of a write is not modelled.
- Fonts, colours and ConfigManager are left out. Only which comment style each lexer paints gray is kept.
- Each lexer object is allocated again on every call and never freed. That memory behaviour is not modelled; a lexer is a value.
- The Save(), SaveAs(), Open(), NewFile() and Modified() slots and the close event are not part of this model. MaybeSave receives Save()'s outcome as a parameter, and the state changes Save() makes are not modelled there.
- Qt's rendering of the "[*]" placeholder is left out: the title is the stored string, and whether the placeholder is drawn depends only on the window's modified flag.
- FileInfo.FileName and FileInfo.Suffix assume '/' as the only separator, as on Unix. Windows drive letters and backslashes are not modelled.
- Document.SetCurrentFile, Textino.MainWindow.SetCurrentFile: the title they store is the intended one, the shown name followed by "[*] - Textino". This can differ from what the chained arg calls of line 290 produce for a name that holds '%'. Document.TitleAsWrittenAgreesAboveTwo shows the two agree when every marker of the name is an ASCII marker %0 to %9 numbered above 2 and no '%' is followed by 'L' or by a non-ASCII character. It does differ for a name whose only '%' starts a '%1' that no digit follows (Document.TitleAsWrittenMisplacesAppName). Document.LoadFile and Document.SaveFile inherit that title. Document.TitleAsWritten models the program's title, and the finding below records the difference.
- Translation through tr() of the title template and of "Textino" is not modelled: the untranslated strings are used.
- QtString.Arg: markers are the single-digit %0 to %9 with ASCII digits only. Two-digit markers, the %L form, non-ASCII decimal digits (which Qt also reads as marker numbers), field widths and fill characters are not modelled.
- Editor.constructor: the widget's starting settings (no completion source, case-sensitive, threshold -1) are QScintilla's defaults, which are not part of this model. They are stated here as an assumption, and the window's constructor immediately overwrites them.
- Edits the user types into the widget, and the modified flag they set, are not modelled. The find and replace dialogs are not part of this model.

## Findings

| source | as written | input that shows it | evidently intended | confidence | as-written member | corrected member |
|---|---|---|---|---|---|---|
| src/core/Textino.cpp:290 | The title is built with two chained one-argument arg calls. The second call rescans the shown name and fills its lowest marker whenever that marker is numbered 0, 1 or 2. Take a name whose only '%' starts a '%1' that no digit follows: that '%1' becomes "Textino", and '%2' is left in the title. | A file at "/tmp/a%1.txt": its title is "aTextino.txt[*] - %2" | The shown name followed by "[*] - Textino", for every name | not executed | Document.TitleAsWrittenMisplacesAppName | Document.TitleIsInjective |

`Document.TitleAsWritten` models the chained calls as they are written. `Document.Title` is the intended title and is the one `MainWindow` uses. The two agree on every name without '%' (`Document.TitleAsWrittenAgrees`). More generally, they agree on every name whose ASCII markers %0 to %9 are all numbered above 2, with no '%' followed by 'L' or a non-ASCII character (`Document.TitleAsWrittenAgreesAboveTwo`). The intended title keeps the property that the title reflects the file name (`Document.TitleIsInjective`). The title as written misplaces the application name for a name whose only '%' starts a '%1' that no digit follows (`Document.TitleAsWrittenMisplacesAppName`).
