/**
 * An abstract file system: what each path holds, and which paths cannot be
 * opened for reading or for writing. Text is stored and returned verbatim.
 */
module Disk {

  datatype FileSystem = FileSystem(files: map<string, string>, unreadable: set<string>, unwritable: set<string>)

  /** Opening for reading succeeds on an existing file that may be read; an empty file name never opens. */
  predicate CanOpenForRead(fs: FileSystem, path: string)
  {
    path != "" && path in fs.files && path !in fs.unreadable
  }

  /** Opening for writing creates or truncates the file unless writing is refused; an empty file name never opens. */
  predicate CanOpenForWrite(fs: FileSystem, path: string)
  {
    path != "" && path !in fs.unwritable
  }

  /** Replaces the whole content of the file at path by text. */
  function Write(fs: FileSystem, path: string, text: string): (fs': FileSystem)
    ensures fs'.files.Keys == fs.files.Keys + {path}
    ensures fs'.files[path] == text
    ensures forall q :: q in fs.files && q != path ==> fs'.files[q] == fs.files[q]
    ensures fs'.unreadable == fs.unreadable && fs'.unwritable == fs.unwritable
  {
    fs.(files := fs.files[path := text])
  }

  /** A file just written can be read back, with the text written, unless reading it is refused or its name is empty. */
  lemma WriteThenRead(fs: FileSystem, path: string, text: string)
    requires path !in fs.unreadable
    ensures CanOpenForRead(Write(fs, path, text), path) <==> path != ""
    ensures Write(fs, path, text).files[path] == text
  {
  }
}
