/** What the audit sees of its surroundings: the file system as function values,
    and the lines it reports, as values rather than console text. */
module Host {

  /** A file found by a directory enumeration: its full path, its base name and its text. */
  datatype SourceFile = SourceFile(fullName: string, name: string, text: string)

  /** A directory found by `DirectoryInfo.GetDirectories()`. */
  datatype DirEntry = DirEntry(fullName: string, name: string)

  /** The file-system calls the audit makes:
      `combine` is `Path.Combine`, `dirExists` is `Directory.Exists`,
      `subdirectories(dir)` is the immediate subdirectories of `dir`, and
      `files(dir, pattern, recursive)` is `GetFiles(pattern)` (or with
      `SearchOption.AllDirectories` when `recursive`), in enumeration order. */
  datatype FileSystem = FileSystem(
    combine: (string, string) -> string,
    dirExists: string -> bool,
    subdirectories: string -> seq<DirEntry>,
    files: (string, string, bool) -> seq<SourceFile>)

  /** One line of the audit's console output. */
  datatype Report =
    | Heading(title: string)                        // the `#####` banner opening a section
    | FolderMissing(path: string)                   // a definition's folder does not exist
    | FileNew(definition: string, file: string)     // no database row for the file
    | FileUpdated(definition: string, file: string) // the database row differs from the file
    | PatchPending(file: string)                    // no run is recorded for the patch
}
