/** The notes directory on disk as a value: what `fs.readdir(dir, { withFileTypes: true })`
    and `fs.readFile(file, "utf-8")` would return at the moment they are called,
    and the errors Node raises when they cannot. */
module Disk {
  import opened Base
  import opened Paths

  /** What a directory entry's `isDirectory()` / `isFile()` report; symbolic links,
      sockets and the like are neither. */
  datatype EntryKind = Directory | RegularFile | OtherKind

  datatype DirEntry = DirEntry(name: Name, kind: EntryKind)

  /** Listings of the directories the extension may read, in `readdir` order; the text of
      the files it may read; and the kind of every other path that exists but that it may
      not open. */
  datatype FileSystem = FileSystem(dirs: map<Path, seq<DirEntry>>, files: map<Path, string>,
                                   denied: map<Path, EntryKind>)

  /** What the core's operations can throw. */
  datatype Error =
    | NoSuchDirectory(dir: Path)   // readdir of a path that does not exist (ENOENT)
    | NotADirectory(dir: Path)     // readdir of a path that is not a directory (ENOTDIR)
    | DirectoryDenied(dir: Path)   // readdir of a directory it may not read (EACCES)
    | NoSuchFile(file: Path)       // readFile of a path that does not exist (ENOENT)
    | IsADirectory(file: Path)     // readFile of a directory (EISDIR, raised by the read)
    | FileDenied(file: Path)       // readFile of a path it may not open (EACCES)
    | InvalidArgType               // readdir(undefined): `folderPath` read off a note
    | ReferenceError(identifier: string)
    | TypeError(message: string)
    | IoError(message: string)     // a failure reported by a foreign filesystem call
  {
    /** `err.message`. */
    function Message(): string
    {
      match this
      case NoSuchDirectory(d) => "ENOENT: no such file or directory, scandir '" + PathString(d) + "'"
      case NotADirectory(d) => "ENOTDIR: not a directory, scandir '" + PathString(d) + "'"
      case DirectoryDenied(d) => "EACCES: permission denied, scandir '" + PathString(d) + "'"
      case NoSuchFile(f) => "ENOENT: no such file or directory, open '" + PathString(f) + "'"
      case IsADirectory(_) => "EISDIR: illegal operation on a directory, read"
      case FileDenied(f) => "EACCES: permission denied, open '" + PathString(f) + "'"
      case InvalidArgType =>
        "The \"path\" argument must be of type string or an instance of Buffer or URL. Received undefined"
      case ReferenceError(id) => id + " is not defined"
      case TypeError(m) => m
      case IoError(m) => m
    }
  }

  /** `fs.readdir(dir, { withFileTypes: true })`. Opening `dir` as a directory fails with
      ENOTDIR on anything else before permissions are looked at, so a file, readable or not,
      gives ENOTDIR; only a directory gives EACCES. */
  function ReadDir(fs: FileSystem, dir: Path): (r: Result<seq<DirEntry>, Error>)
    ensures r.Ok? <==> dir in fs.dirs
    ensures r.Ok? ==> r.value == fs.dirs[dir]
    ensures r.Err? && (dir in fs.files || (dir in fs.denied && fs.denied[dir] != Directory)) ==>
      r.error == NotADirectory(dir)
    ensures r.Err? && dir !in fs.files && dir in fs.denied && fs.denied[dir] == Directory ==>
      r.error == DirectoryDenied(dir)
    ensures r.Err? && dir !in fs.files && dir !in fs.denied ==> r.error == NoSuchDirectory(dir)
  {
    if dir in fs.dirs then Ok(fs.dirs[dir])
    else if dir in fs.files then Err(NotADirectory(dir))
    else if dir in fs.denied then
      (if fs.denied[dir] == Directory then Err(DirectoryDenied(dir)) else Err(NotADirectory(dir)))
    else Err(NoSuchDirectory(dir))
  }

  /** `fs.readFile(file, "utf-8")`. A readable directory opens, and the read then fails with
      EISDIR; a path it may not open fails with EACCES. */
  function ReadFile(fs: FileSystem, file: Path): (r: Result<string, Error>)
    ensures r.Ok? <==> file in fs.files
    ensures r.Ok? ==> r.value == fs.files[file]
    ensures r.Err? && file in fs.dirs ==> r.error == IsADirectory(file)
    ensures r.Err? && file !in fs.dirs && file in fs.denied ==> r.error == FileDenied(file)
    ensures r.Err? && file !in fs.dirs && file !in fs.denied ==> r.error == NoSuchFile(file)
  {
    if file in fs.files then Ok(fs.files[file])
    else if file in fs.dirs then Err(IsADirectory(file))
    else if file in fs.denied then Err(FileDenied(file))
    else Err(NoSuchFile(file))
  }

  /** A real directory never lists the same name twice. */
  predicate UniqueNames(es: seq<DirEntry>)
  {
    forall i, j :: 0 <= i < j < |es| ==> es[i].name != es[j].name
  }

  /** Two entries of such a listing with the same name are the same entry. */
  lemma SameNameSameEntry(es: seq<DirEntry>, a: DirEntry, b: DirEntry)
    requires UniqueNames(es) && a in es && b in es && a.name == b.name
    ensures a == b
  {
    var i :| 0 <= i < |es| && es[i] == a;
    var j :| 0 <= j < |es| && es[j] == b;
  }

  predicate WellFormed(fs: FileSystem)
  {
    forall d :: d in fs.dirs ==> UniqueNames(fs.dirs[d])
  }

  /** The existing directories at or below `p`: the measure that a descent into the tree consumes. */
  ghost function DirsUnder(fs: FileSystem, p: Path): set<Path>
  {
    set q | q in fs.dirs && p <= q
  }

  lemma DirsUnderShrink(fs: FileSystem, p: Path, n: Name)
    requires p in fs.dirs
    ensures |DirsUnder(fs, p + [n])| < |DirsUnder(fs, p)|
  {
    var child := p + [n];
    assert DirsUnder(fs, child) <= DirsUnder(fs, p) by {
      forall q | q in DirsUnder(fs, child) ensures q in DirsUnder(fs, p) {
        assert p <= child;
      }
    }
    assert p in DirsUnder(fs, p) && p !in DirsUnder(fs, child);
    var small, big := DirsUnder(fs, child), DirsUnder(fs, p);
    assert big == small + (big - small);
    assert small * (big - small) == {};
    assert |big - small| >= 1 by { assert p in big - small; }
  }
}
