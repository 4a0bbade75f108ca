/**
  The application directory as the core sees it, abstracted from the
  operating system: what `os.walk` lists in each directory, and what
  `os.path.isfile`, `os.stat(..).st_mtime` and reading a file return for a
  path relative to the application directory.
 */
module Files {
  import opened Strings

  /** One directory as `os.walk` yields it: its sub-directory names and its file names, in listing order. */
  datatype Listing = Listing(subdirs: seq<string>, files: seq<string>)

  /** A regular file: its modification time and its lines, each with its own line ending. */
  datatype FileData = FileData(mtime: int, lines: seq<string>)

  /**
    `dirs` maps a directory, given as its path segments below the
    application directory ([] is the application directory itself), to its
    listing; `files` maps the relative path of each regular file to its data.
   */
  datatype FileSystem = FileSystem(dirs: map<seq<string>, Listing>, files: map<string, FileData>)

  /** The listing of a directory; one the map does not know is empty. */
  function ListingOf(fs: FileSystem, dir: seq<string>): Listing {
    if dir in fs.dirs then fs.dirs[dir] else Listing([], [])
  }

  /** No element occurs twice. */
  predicate Distinct<T(==)>(s: seq<T>) {
    forall i, j :: 0 <= i < |s| && 0 <= j < |s| && i != j ==> s[i] != s[j]
  }

  /** A file or directory name never contains the path separator, and no name occurs twice in one listing. */
  ghost predicate WellFormed(fs: FileSystem) {
    forall dir :: dir in fs.dirs ==>
      NoSeparator(fs.dirs[dir].subdirs, '/') && NoSeparator(fs.dirs[dir].files, '/') &&
      Distinct(fs.dirs[dir].subdirs) && Distinct(fs.dirs[dir].files)
  }

  /** Every file a listing names is a regular file under the joined path of its directory and name. */
  ghost predicate Listed(fs: FileSystem) {
    forall dir, f :: dir in fs.dirs && f in fs.dirs[dir].files ==> Join(dir + [f], '/') in fs.files
  }
}
