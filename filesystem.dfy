/**
 * The part of the operating system the renamer touches, abstracted: a tree
 * of directories and files addressed by lists of path components, with the
 * behaviour of `os.path.exists`, `os.makedirs(..., exist_ok=True)` and
 * `os.rename` given as functions of the tree, and a `Disk` object whose
 * methods change the tree in place the way those calls do.
 */
module FileSystem {
  import opened Types

  /** A path as its components; `[]` is the directory the paths are relative to. */
  type Path = seq<string>

  /** A path that names something inside a directory. */
  type FilePath = p: Path | |p| > 0 witness [""]

  type Bytes = seq<bv8>

  /** `os.path.dirname` */
  function Parent(p: FilePath): Path {
    p[..|p| - 1]
  }

  /** `os.path.basename` */
  function BaseName(p: FilePath): string {
    p[|p| - 1]
  }

  /** The errors the modelled calls raise, with the path they name. */
  datatype OsError =
    | FileNotFound(path: Path)
    | FileExists(path: Path)
    | IsADirectory(path: Path)
    | NotADirectory(path: Path)

  /** The files (with their contents) and the directories that exist. */
  datatype Tree = Tree(files: map<Path, Bytes>, dirs: set<Path>)

  /**
   * A tree a real file system could be in: the base directory exists, each
   * file lies in an existing directory, and no path is both.
   */
  ghost predicate WellFormed(t: Tree) {
    [] in t.dirs &&
    (forall p :: p in t.files ==> |p| > 0 && p[..|p| - 1] in t.dirs) &&
    (forall p :: p in t.files ==> p !in t.dirs)
  }

  /** `os.path.exists` */
  predicate Exists(t: Tree, p: Path) {
    p in t.files || p in t.dirs
  }

  /** Every non-empty prefix of `d`: the directories `os.makedirs(d)` ensures. */
  function Ancestors(d: Path): set<Path> {
    set k | 1 <= k <= |d| :: d[..k]
  }

  /**
   * `os.makedirs(d, exist_ok=True)`: nothing to do for an existing
   * directory; an error for the empty path, for a file at `d` and for a file
   * on the way to it; otherwise `d` and all its ancestors exist afterwards.
   */
  function MakeDirsResult(t: Tree, d: Path): (Tree, Option<OsError>) {
    if d == [] then (t, Some(FileNotFound(d)))
    else if d in t.dirs then (t, None)
    else if d in t.files then (t, Some(FileExists(d)))
    else if exists k :: 1 <= k < |d| && d[..k] in t.files then (t, Some(NotADirectory(d)))
    else (Tree(t.files, t.dirs + Ancestors(d)), None)
  }

  /**
   * `os.rename(src, dst)` for a file: an error when `src` is not a file, when
   * `dst`'s directory is missing or `dst` is a directory, and when `dst` is
   * another existing file and the platform does not replace (`replace` is
   * POSIX, where the old `dst` is silently lost; Windows raises instead).
   */
  function RenameResult(t: Tree, replace: bool, src: FilePath, dst: FilePath): (Tree, Option<OsError>) {
    if src !in t.files then (t, Some(FileNotFound(src)))
    else if Parent(dst) !in t.dirs then (t, Some(FileNotFound(dst)))
    else if dst in t.dirs then (t, Some(IsADirectory(dst)))
    else if src == dst then (t, None)
    else if dst in t.files && !replace then (t, Some(FileExists(dst)))
    else (Tree((t.files - {src})[dst := t.files[src]], t.dirs), None)
  }

  /** Whether `open(p, "wb")` can create or truncate `p`: its directory exists and `p` is not one. */
  predicate Writable(t: Tree, p: FilePath) {
    Parent(p) in t.dirs && p !in t.dirs
  }

  /**
   * `open(p, "wb").write(data)`: an error when `p`'s directory is missing or
   * `p` is a directory; otherwise `p` holds exactly `data` afterwards,
   * whether or not it existed.
   */
  function WriteResult(t: Tree, p: FilePath, data: Bytes): (Tree, Option<OsError>) {
    if Parent(p) !in t.dirs then (t, Some(FileNotFound(p)))
    else if p in t.dirs then (t, Some(IsADirectory(p)))
    else (Tree(t.files[p := data], t.dirs), None)
  }

  /** A write fails exactly when the path is not writable, and then changes nothing. */
  lemma WriteKeepsTree(t: Tree, p: FilePath, data: Bytes)
    requires WellFormed(t)
    ensures var (t', err) := WriteResult(t, p, data);
      WellFormed(t') && t'.dirs == t.dirs && t.files.Keys <= t'.files.Keys &&
      (err.None? <==> Writable(t, p)) &&
      (err.Some? ==> t' == t) &&
      (err.None? ==>
        t'.files.Keys == t.files.Keys + {p} && t'.files[p] == data &&
        (forall q :: q in t.files && q != p ==> t'.files[q] == t.files[q]))
  {
  }

  /** `os.makedirs` keeps the tree well formed, and only ever adds directories. */
  lemma MakeDirsKeepsTree(t: Tree, d: Path)
    requires WellFormed(t)
    ensures var (t', err) := MakeDirsResult(t, d);
      WellFormed(t') && t'.files == t.files && t.dirs <= t'.dirs &&
      (err.None? ==> d == [] || d in t'.dirs) &&
      (err.Some? ==> t' == t)
  {
    var (t', err) := MakeDirsResult(t, d);
    if d != [] && d !in t.dirs && d !in t.files && !(exists k :: 1 <= k < |d| && d[..k] in t.files) {
      assert d[..|d|] == d;
    }
  }

  /**
   * A successful `os.rename` moves the contents from `src` to `dst` and
   * changes no other file or directory, and the tree stays well formed; a
   * failed one changes nothing.
   */
  lemma RenameKeepsTree(t: Tree, replace: bool, src: FilePath, dst: FilePath)
    requires WellFormed(t)
    ensures var (t', err) := RenameResult(t, replace, src, dst);
      WellFormed(t') && t'.dirs == t.dirs &&
      (err.Some? ==> t' == t) &&
      (err.None? ==>
        src in t.files && dst in t'.files && t'.files[dst] == t.files[src] &&
        (src != dst ==> src !in t'.files) &&
        (forall p :: p != src && p != dst ==> (p in t'.files <==> p in t.files)) &&
        (forall p :: p in t.files && p != src && p != dst ==> t'.files[p] == t.files[p]))
  {
  }

  /**
   * The file system as the process sees it. The tree is held in the two
   * fields the calls update; `replaceOnRename` says which platform's
   * `os.rename` this is.
   */
  class Disk {
    var files: map<Path, Bytes>
    var dirs: set<Path>
    const replaceOnRename: bool

    function Snapshot(): Tree
      reads this
    {
      Tree(files, dirs)
    }

    ghost predicate Valid()
      reads this
    {
      WellFormed(Snapshot())
    }

    constructor (t: Tree, replace: bool)
      requires WellFormed(t)
      ensures Valid() && Snapshot() == t && replaceOnRename == replace
    {
      files := t.files;
      dirs := t.dirs;
      replaceOnRename := replace;
    }

    /** `os.path.exists(p)` */
    function PathExists(p: Path): (b: bool)
      reads this
      ensures b <==> Exists(Snapshot(), p)
    {
      p in files || p in dirs
    }

    /** `os.makedirs(d, exist_ok=True)` */
    method MakeDirs(d: Path) returns (err: Option<OsError>)
      requires Valid()
      modifies this
      ensures Valid()
      ensures (Snapshot(), err) == MakeDirsResult(old(Snapshot()), d)
    {
      MakeDirsKeepsTree(Snapshot(), d);
      if d == [] {
        err := Some(FileNotFound(d));
      } else if d in dirs {
        err := None;
      } else if d in files {
        err := Some(FileExists(d));
      } else if exists k :: 1 <= k < |d| && d[..k] in files {
        err := Some(NotADirectory(d));
      } else {
        dirs := dirs + Ancestors(d);
        err := None;
      }
    }

    /** `open(p, "wb")` followed by `write(data)` */
    method Write(p: FilePath, data: Bytes) returns (err: Option<OsError>)
      requires Valid()
      modifies this
      ensures Valid()
      ensures (Snapshot(), err) == WriteResult(old(Snapshot()), p, data)
    {
      WriteKeepsTree(Snapshot(), p, data);
      if Parent(p) !in dirs {
        err := Some(FileNotFound(p));
      } else if p in dirs {
        err := Some(IsADirectory(p));
      } else {
        files := files[p := data];
        err := None;
      }
    }

    /** `os.rename(src, dst)` */
    method Rename(src: FilePath, dst: FilePath) returns (err: Option<OsError>)
      requires Valid()
      modifies this
      ensures Valid()
      ensures (Snapshot(), err) == RenameResult(old(Snapshot()), replaceOnRename, src, dst)
    {
      RenameKeepsTree(Snapshot(), replaceOnRename, src, dst);
      if src !in files {
        err := Some(FileNotFound(src));
      } else if Parent(dst) !in dirs {
        err := Some(FileNotFound(dst));
      } else if dst in dirs {
        err := Some(IsADirectory(dst));
      } else if src == dst {
        err := None;
      } else if dst in files && !replaceOnRename {
        err := Some(FileExists(dst));
      } else {
        files := (files - {src})[dst := files[src]];
        err := None;
      }
    }
  }
}
