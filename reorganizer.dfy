/**
 * `rename_jpeg` and `move_jpeg_to_directory`: build the final name of a
 * downloaded image from its page's fields, pick the first name not yet
 * taken in the image's directory, rename the image to it and move it into a
 * subdirectory named after the description.
 */
module Reorganizer {
  import opened Types
  import opened Text
  import opened FileSystem

  // ------------------------------------------------------------- the name

  /** How an f-string prints an optional string: Python's None prints as "None". */
  function Render(o: Option<string>): string {
    match o
    case None => "None"
    case Some(s) => s
  }

  /** `re.sub(r"\W+", "", s)`: every character that is not a word character dropped. */
  function KeepWordChars(s: string): (r: string)
    ensures AllWordChars(r)
  {
    Filter(IsWordChar, s)
  }

  /**
   * The name before suffix and extension: description, page number, taken
   * date and job number joined by `_`, without the taken date when it is
   * the empty sentinel, then cleared of non-word characters.
   */
  function NewNameBase(description: string, pageNumber: nat, takenDate: Option<string>, jobNumber: Option<string>): (base: string)
    ensures AllWordChars(base)
  {
    var raw :=
      if takenDate == Some("") then
        description + "_" + NatToString(pageNumber) + "_" + Render(jobNumber)
      else
        description + "_" + NatToString(pageNumber) + "_" + Render(takenDate) + "_" + Render(jobNumber);
    KeepWordChars(raw)
  }

  /**
   * The base name part by part: the description's word characters, `_`, the
   * page number, `_`, the taken date's word characters and `_` unless the
   * date is the empty sentinel (None counts, as "None"), then the job
   * number's word characters (or "None").
   */
  lemma NewNameBaseParts(description: string, pageNumber: nat, takenDate: Option<string>, jobNumber: Option<string>)
    ensures NewNameBase(description, pageNumber, takenDate, jobNumber) ==
      if takenDate == Some("") then
        KeepWordChars(description) + "_" + NatToString(pageNumber) + "_" + KeepWordChars(Render(jobNumber))
      else
        KeepWordChars(description) + "_" + NatToString(pageNumber) + "_" +
        KeepWordChars(Render(takenDate)) + "_" + KeepWordChars(Render(jobNumber))
  {
    var d, p, j := description, NatToString(pageNumber), Render(jobNumber);
    FilterKeepsAll(IsWordChar, p);
    KeepAroundUnderscore(d, p);
    assert KeepWordChars(d + "_" + p) == KeepWordChars(d) + "_" + p;
    if takenDate == Some("") {
      KeepAroundUnderscore(d + "_" + p, j);
    } else {
      var td := Render(takenDate);
      KeepAroundUnderscore(d + "_" + p, td);
      KeepAroundUnderscore(d + "_" + p + "_" + td, j);
    }
  }

  /** Clearing non-word characters keeps a `_` between two parts. */
  lemma KeepAroundUnderscore(x: string, y: string)
    ensures KeepWordChars(x + "_" + y) == KeepWordChars(x) + "_" + KeepWordChars(y)
  {
    FilterKeepsAll(IsWordChar, "_");
    FilterAppend(IsWordChar, x + "_", y);
    FilterAppend(IsWordChar, x, "_");
  }

  /** `f"{base}.jpeg"` for suffix 0, `f"{base}_{suffix}.jpeg"` after that. */
  function Candidate(base: string, suffix: nat): (name: string)
    ensures |name| >= |base| + 5 && name[..|base|] == base && name[|name| - 5..] == ".jpeg"
    ensures name == base + ".jpeg" <==> suffix == 0
  {
    if suffix == 0 then base + ".jpeg" else base + "_" + NatToString(suffix) + ".jpeg"
  }

  /** Different suffixes give different names. */
  lemma CandidateInjective(base: string, a: nat, b: nat)
    requires Candidate(base, a) == Candidate(base, b)
    ensures a == b
  {
    var c := Candidate(base, a);
    if a > 0 && b > 0 {
      var sa, sb := NatToString(a), NatToString(b);
      assert |sa| == |sb|;
      assert sa == c[|base| + 1..|base| + 1 + |sa|] == sb;
      NatToStringInjective(a, b);
    }
  }

  /** A directory holds at most as many taken candidates as it has entries. */
  lemma CandidatesBound(t: Tree, dir: Path, base: string, n: nat)
    requires forall j :: 0 <= j < n ==> Exists(t, dir + [Candidate(base, j)])
    ensures n <= |t.files.Keys + t.dirs|
  {
    var entries := t.files.Keys + t.dirs;
    forall j | 0 <= j < n ensures dir + [Candidate(base, j)] in entries {
      assert Exists(t, dir + [Candidate(base, j)]);
    }
    CandidatesIn(entries, dir, base, n);
  }

  /** A set holding the first `n` candidate paths has at least `n` elements. */
  lemma {:induction false} CandidatesIn(s: set<Path>, dir: Path, base: string, n: nat)
    requires forall j :: 0 <= j < n ==> dir + [Candidate(base, j)] in s
    ensures n <= |s|
  {
    if n > 0 {
      var last := dir + [Candidate(base, n - 1)];
      var rest := s - {last};
      forall j | 0 <= j < n - 1 ensures dir + [Candidate(base, j)] in rest {
        CandidatePathsDiffer(dir, base, j, n - 1);
      }
      CandidatesIn(rest, dir, base, n - 1);
    }
  }

  lemma CandidatePathsDiffer(dir: Path, base: string, a: nat, b: nat)
    requires a != b
    ensures dir + [Candidate(base, a)] != dir + [Candidate(base, b)]
  {
    if dir + [Candidate(base, a)] == dir + [Candidate(base, b)] {
      assert (dir + [Candidate(base, a)])[|dir|] == Candidate(base, a);
      assert (dir + [Candidate(base, b)])[|dir|] == Candidate(base, b);
      CandidateInjective(base, a, b);
    }
  }

  /**
   * The least suffix from `k` on whose candidate does not exist in `dir`;
   * the search ends because the tree is finite.
   */
  function LeastFreeSuffix(t: Tree, dir: Path, base: string, k: nat): (r: nat)
    requires forall j :: 0 <= j < k ==> Exists(t, dir + [Candidate(base, j)])
    ensures k <= r
    ensures !Exists(t, dir + [Candidate(base, r)])
    ensures forall j :: 0 <= j < r ==> Exists(t, dir + [Candidate(base, j)])
    decreases |t.files.Keys + t.dirs| - k
  {
    if !Exists(t, dir + [Candidate(base, k)]) then k
    else
      CandidatesBound(t, dir, base, k + 1);
      LeastFreeSuffix(t, dir, base, k + 1)
  }

  /** Only one suffix is both free and preceded by taken ones. */
  lemma LeastFreeSuffixUnique(t: Tree, dir: Path, base: string, s: nat)
    requires !Exists(t, dir + [Candidate(base, s)])
    requires forall j :: 0 <= j < s ==> Exists(t, dir + [Candidate(base, j)])
    ensures s == LeastFreeSuffix(t, dir, base, 0)
  {
  }

  /**
   * The `while os.path.exists(...)` loop of `rename_jpeg`: try `base.jpeg`,
   * `base_1.jpeg`, `base_2.jpeg`, ... in `dir` and stop at the first one
   * that does not exist.
   */
  method FreeName(disk: Disk, dir: Path, base: string) returns (name: string, suffix: nat)
    ensures name == Candidate(base, suffix)
    ensures !Exists(disk.Snapshot(), dir + [name])
    ensures forall j :: 0 <= j < suffix ==> Exists(disk.Snapshot(), dir + [Candidate(base, j)])
  {
    name := base + ".jpeg";
    suffix := 0;
    ghost var entries := disk.files.Keys + disk.dirs;
    while disk.PathExists(dir + [name])
      invariant name == Candidate(base, suffix)
      invariant forall j :: 0 <= j < suffix ==> Exists(disk.Snapshot(), dir + [Candidate(base, j)])
      decreases |entries| - suffix
    {
      CandidatesBound(disk.Snapshot(), dir, base, suffix + 1);
      suffix := suffix + 1;
      name := base + "_" + NatToString(suffix) + ".jpeg";
    }
  }

  // ----------------------------------------------------------- the moves

  /**
   * `move_jpeg_to_directory(old_file, description)`: make the directory
   * `description` beside the file, then rename the file into it under the
   * same base name; either step may raise.
   */
  function MoveResult(t: Tree, replace: bool, oldFile: FilePath, description: string): (Tree, Option<OsError>) {
    var directoryPath := Parent(oldFile) + [description];
    var (t1, err) := MakeDirsResult(t, directoryPath);
    if err.Some? then (t1, err)
    else RenameResult(t1, replace, oldFile, directoryPath + [BaseName(oldFile)])
  }

  lemma MoveKeepsTree(t: Tree, replace: bool, oldFile: FilePath, description: string)
    requires WellFormed(t)
    ensures WellFormed(MoveResult(t, replace, oldFile, description).0)
  {
    var directoryPath := Parent(oldFile) + [description];
    MakeDirsKeepsTree(t, directoryPath);
    var (t1, err) := MakeDirsResult(t, directoryPath);
    if err.None? {
      RenameKeepsTree(t1, replace, oldFile, directoryPath + [BaseName(oldFile)]);
    }
  }

  method MoveJpegToDirectory(disk: Disk, oldFile: FilePath, description: string) returns (err: Option<OsError>)
    requires disk.Valid()
    modifies disk
    ensures disk.Valid()
    ensures (disk.Snapshot(), err) == MoveResult(old(disk.Snapshot()), disk.replaceOnRename, oldFile, description)
  {
    var directoryPath := Parent(oldFile) + [description];
    err := disk.MakeDirs(directoryPath);
    if err.None? {
      err := disk.Rename(oldFile, directoryPath + [BaseName(oldFile)]);
    }
  }

  /** What `rename_jpeg` leaves behind: where the image went, or the error it printed. */
  datatype RenameReport =
    | Renamed(path: Path)
    | RenameFailed(oldFile: Path, error: OsError)

  /**
   * `rename_jpeg(old_file, page_number, description, uploaded_by, taken_date,
   * job_number)` as a function of the tree: the first free candidate in the
   * file's own directory, a rename to it, then the move into the
   * description's subdirectory; an error in either step is reported and
   * leaves the tree as that step found it. `uploaded_by` is not used.
   */
  function RenameJpegResult(t: Tree, replace: bool, oldFile: FilePath, pageNumber: nat, description: string,
                            takenDate: Option<string>, jobNumber: Option<string>): (Tree, RenameReport)
  {
    RenameToBase(t, replace, oldFile, NewNameBase(description, pageNumber, takenDate, jobNumber), description)
  }

  /** `rename_jpeg` once the base name is known; the lemmas below hold for every base name. */
  function RenameToBase(t: Tree, replace: bool, oldFile: FilePath, base: string, description: string): (Tree, RenameReport)
  {
    var dir := Parent(oldFile);
    var name := Candidate(base, LeastFreeSuffix(t, dir, base, 0));
    var newFile: FilePath := dir + [name];
    var (t1, err1) := RenameResult(t, replace, oldFile, newFile);
    if err1.Some? then (t1, RenameFailed(oldFile, err1.value))
    else
      var (t2, err2) := MoveResult(t1, replace, newFile, description);
      if err2.Some? then (t2, RenameFailed(oldFile, err2.value))
      else (t2, Renamed(dir + [description, name]))
  }

  lemma RenameJpegKeepsTree(t: Tree, replace: bool, oldFile: FilePath, base: string, description: string)
    requires WellFormed(t)
    ensures WellFormed(RenameToBase(t, replace, oldFile, base, description).0)
  {
    var dir := Parent(oldFile);
    var newFile: FilePath := dir + [Candidate(base, LeastFreeSuffix(t, dir, base, 0))];
    RenameKeepsTree(t, replace, oldFile, newFile);
    var (t1, err1) := RenameResult(t, replace, oldFile, newFile);
    if err1.None? {
      MoveKeepsTree(t1, replace, newFile, description);
    }
  }

  method RenameJpeg(disk: Disk, oldFile: FilePath, pageNumber: nat, description: string,
                    uploadedBy: Option<string>, takenDate: Option<string>, jobNumber: Option<string>)
    returns (report: RenameReport)
    requires disk.Valid()
    modifies disk
    ensures disk.Valid()
    ensures (disk.Snapshot(), report) ==
      RenameJpegResult(old(disk.Snapshot()), disk.replaceOnRename, oldFile, pageNumber, description, takenDate, jobNumber)
  {
    var base := NewNameBase(description, pageNumber, takenDate, jobNumber);
    RenameJpegKeepsTree(disk.Snapshot(), disk.replaceOnRename, oldFile, base, description);
    var dir := Parent(oldFile);
    var newName, suffix := FreeName(disk, dir, base);
    LeastFreeSuffixUnique(disk.Snapshot(), dir, base, suffix);
    var newFile: FilePath := dir + [newName];
    var err := disk.Rename(oldFile, newFile);
    if err.Some? {
      return RenameFailed(oldFile, err.value);
    }
    err := MoveJpegToDirectory(disk, newFile, description);
    if err.Some? {
      return RenameFailed(oldFile, err.value);
    }
    report := Renamed(dir + [description, newName]);
  }


  // ------------------------------------------------------ what it achieves

  /**
   * A successful `move_jpeg_to_directory` leaves the file, contents intact,
   * at `dirname/description/basename` and touches no other file (except one
   * it may replace there); a failed one changes no file.
   */
  lemma MovePlacesFile(t: Tree, replace: bool, f: FilePath, description: string)
    requires WellFormed(t)
    ensures var (t', err) := MoveResult(t, replace, f, description);
      var dst := Parent(f) + [description, BaseName(f)];
      WellFormed(t') &&
      (err.Some? ==> t'.files == t.files) &&
      (err.None? ==>
        f in t.files && dst in t'.files && t'.files[dst] == t.files[f] && f !in t'.files &&
        (forall p :: p != f && p != dst ==> (p in t'.files <==> p in t.files)) &&
        (forall p :: p in t.files && p != f && p != dst ==> t'.files[p] == t.files[p]))
  {
    var directoryPath := Parent(f) + [description];
    MakeDirsKeepsTree(t, directoryPath);
    var (t1, err1) := MakeDirsResult(t, directoryPath);
    if err1.None? {
      var dst: FilePath := directoryPath + [BaseName(f)];
      assert dst == Parent(f) + [description, BaseName(f)];
      assert |dst| != |f|;
      RenameKeepsTree(t1, replace, f, dst);
    }
  }

  /**
   * Renaming a file to a free name beside it and then moving it into a
   * subdirectory leaves it, contents intact, in the subdirectory, with
   * neither of its earlier paths left and no other file touched (except one
   * the move may replace).
   */
  lemma RenameThenMove(t: Tree, replace: bool, oldFile: FilePath, newFile: FilePath, description: string)
    requires WellFormed(t) && !Exists(t, newFile) && Parent(newFile) == Parent(oldFile)
    ensures var (t1, err1) := RenameResult(t, replace, oldFile, newFile);
      var (t2, err2) := MoveResult(t1, replace, newFile, description);
      var dst := Parent(oldFile) + [description, BaseName(newFile)];
      err1.None? && err2.None? ==>
        oldFile in t.files && dst in t2.files && t2.files[dst] == t.files[oldFile] &&
        oldFile !in t2.files && newFile !in t2.files &&
        (forall p :: p != oldFile && p != dst ==> (p in t2.files <==> p in t.files)) &&
        (forall p :: p in t.files && p != oldFile && p != dst ==> t2.files[p] == t.files[p])
  {
    RenameKeepsTree(t, replace, oldFile, newFile);
    var (t1, err1) := RenameResult(t, replace, oldFile, newFile);
    if err1.None? {
      assert oldFile != newFile;
      MovePlacesFile(t1, replace, newFile, description);
    }
  }

  /**
   * A successful `rename_jpeg` leaves the image, contents intact, at
   * `dirname/description/name`, where `name` is the first candidate free in
   * `dirname` (see `LeastFreeSuffix`); neither the original path nor the
   * intermediate one is left, and every other file is as it was (except one
   * the move may replace).
   */
  lemma RenameJpegPlacesFile(t: Tree, replace: bool, oldFile: FilePath, base: string, description: string)
    requires WellFormed(t)
    ensures var (t', report) := RenameToBase(t, replace, oldFile, base, description);
      var dir := Parent(oldFile);
      var name := Candidate(base, LeastFreeSuffix(t, dir, base, 0));
      report.Renamed? ==>
        report.path == dir + [description, name] &&
        oldFile in t.files && report.path in t'.files && t'.files[report.path] == t.files[oldFile] &&
        oldFile !in t'.files && dir + [name] !in t'.files &&
        (forall p :: p != oldFile && p != report.path ==> (p in t'.files <==> p in t.files)) &&
        (forall p :: p in t.files && p != oldFile && p != report.path ==> t'.files[p] == t.files[p])
  {
    var dir := Parent(oldFile);
    var name := Candidate(base, LeastFreeSuffix(t, dir, base, 0));
    var newFile: FilePath := dir + [name];
    assert Parent(newFile) == dir && BaseName(newFile) == name;
    RenameThenMove(t, replace, oldFile, newFile, description);
    var (t1, err1) := RenameResult(t, replace, oldFile, newFile);
    var (t2, err2) := MoveResult(t1, replace, newFile, description);
    if err1.Some? {
      assert RenameToBase(t, replace, oldFile, base, description).1.RenameFailed?;
    } else if err2.Some? {
      assert RenameToBase(t, replace, oldFile, base, description).1.RenameFailed?;
    } else {
      assert RenameToBase(t, replace, oldFile, base, description) == (t2, Renamed(dir + [description, name]));
    }
  }

  /**
   * When `rename_jpeg` succeeds: the image exists; the description is not
   * the free name itself; nothing on the way to `dirname/description` is a
   * file; the final path is not a directory; and, unless `os.rename`
   * replaces, no file is there yet.
   */
  lemma RenameJpegSucceeds(t: Tree, replace: bool, oldFile: FilePath, base: string, description: string)
    requires WellFormed(t) && oldFile in t.files
    requires var dir := Parent(oldFile); var name := Candidate(base, LeastFreeSuffix(t, dir, base, 0));
      description != name && dir + [description] !in t.files &&
      (forall k :: 1 <= k <= |dir| ==> dir[..k] !in t.files) &&
      dir + [description, name] !in t.dirs &&
      (replace || dir + [description, name] !in t.files)
    ensures var dir := Parent(oldFile);
      RenameToBase(t, replace, oldFile, base, description).1 ==
        Renamed(dir + [description, Candidate(base, LeastFreeSuffix(t, dir, base, 0))])
  {
    var dir := Parent(oldFile);
    var name := Candidate(base, LeastFreeSuffix(t, dir, base, 0));
    var newFile: FilePath := dir + [name];
    RenameToFreeSucceeds(t, replace, oldFile, newFile, description);
    var (t1, err1) := RenameResult(t, replace, oldFile, newFile);
    var (t2, err2) := MoveResult(t1, replace, newFile, description);
    assert RenameToBase(t, replace, oldFile, base, description) == (t2, Renamed(dir + [description, name]));
  }

  /** Renaming a file to a free name beside it and moving it on succeeds under the conditions above. */
  lemma RenameToFreeSucceeds(t: Tree, replace: bool, oldFile: FilePath, newFile: FilePath, description: string)
    requires WellFormed(t) && oldFile in t.files
    requires !Exists(t, newFile) && Parent(newFile) == Parent(oldFile)
    requires var dir := Parent(oldFile); var name := BaseName(newFile);
      description != name && dir + [description] !in t.files &&
      (forall k :: 1 <= k <= |dir| ==> dir[..k] !in t.files) &&
      dir + [description, name] !in t.dirs &&
      (replace || dir + [description, name] !in t.files)
    ensures var (t1, err1) := RenameResult(t, replace, oldFile, newFile);
      err1.None? && MoveResult(t1, replace, newFile, description).1.None?
  {
    var dir := Parent(oldFile);
    var name := BaseName(newFile);
    assert newFile == dir + [name];
    var dst: FilePath := dir + [description, name];
    var t1 := Tree((t.files - {oldFile})[newFile := t.files[oldFile]], t.dirs);
    assert RenameResult(t, replace, oldFile, newFile) == (t1, None);
    assert dir + [description] != newFile by {
      assert (dir + [description])[|dir|] == description && newFile[|dir|] == name;
    }
    assert |dst| != |newFile| && |dst| != |oldFile|;
    MoveSucceeds(t1, replace, newFile, description);
  }

  /**
   * When `move_jpeg_to_directory` succeeds: the file exists in an existing
   * directory; nothing on the way to `dirname/description` is a file; the
   * destination is not a directory; and, unless `os.rename` replaces, no
   * file is there yet.
   */
  lemma MoveSucceeds(t: Tree, replace: bool, f: FilePath, description: string)
    requires f in t.files && Parent(f) in t.dirs
    requires var dir := Parent(f);
      dir + [description] !in t.files &&
      (forall k :: 1 <= k <= |dir| ==> dir[..k] !in t.files) &&
      dir + [description, BaseName(f)] !in t.dirs &&
      (replace || dir + [description, BaseName(f)] !in t.files)
    ensures MoveResult(t, replace, f, description).1.None?
  {
    var dir := Parent(f);
    var d := dir + [description];
    var dst: FilePath := d + [BaseName(f)];
    assert dst == dir + [description, BaseName(f)];
    forall k | 1 <= k < |d| ensures d[..k] !in t.files {
      assert d[..k] == dir[..k];
    }
    assert d[..|d|] == d;
    var (t2, err) := MakeDirsResult(t, d);
    assert err.None? && t2.files == t.files && d in t2.dirs;
    assert dst !in t2.dirs by {
      assert forall k :: 1 <= k <= |d| ==> |d[..k]| < |dst|;
    }
    assert Parent(dst) == d;
    assert dst != f by {
      assert |dst| != |f|;
    }
  }

  /**
   * A failed `rename_jpeg` loses nothing: the image is still at its old
   * path, or, when only the move failed, at the free name it was renamed to.
   */
  lemma RenameJpegFailureKeepsImage(t: Tree, replace: bool, oldFile: FilePath, base: string, description: string)
    requires WellFormed(t)
    ensures var (t', report) := RenameToBase(t, replace, oldFile, base, description);
      var stop := Parent(oldFile) + [Candidate(base, LeastFreeSuffix(t, Parent(oldFile), base, 0))];
      report.RenameFailed? ==>
        report.oldFile == oldFile &&
        (t'.files == t.files ||
         (oldFile in t.files && t'.files == (t.files - {oldFile})[stop := t.files[oldFile]]))
  {
    var dir := Parent(oldFile);
    var newFile: FilePath := dir + [Candidate(base, LeastFreeSuffix(t, dir, base, 0))];
    RenameKeepsTree(t, replace, oldFile, newFile);
    var (t1, err1) := RenameResult(t, replace, oldFile, newFile);
    if err1.None? {
      MovePlacesFile(t1, replace, newFile, description);
    }
  }

  /**
   * The free name is looked for in the image's own directory, not in the
   * description's subdirectory it ends up in. So when `base.jpeg` is free
   * beside the image but already taken in the subdirectory, the image is
   * renamed to `base.jpeg` and the move meets the earlier file: with a
   * replacing `os.rename` the earlier image is overwritten (one file fewer),
   * otherwise the move fails and the image stays behind as `base.jpeg`.
   */
  lemma DedupIgnoresSubdirectory(t: Tree, replace: bool, oldFile: FilePath, base: string, description: string)
    requires WellFormed(t) && oldFile in t.files
    requires var name := Candidate(base, 0);
      !Exists(t, Parent(oldFile) + [name]) && Parent(oldFile) + [description, name] in t.files
    ensures var (t', report) := RenameToBase(t, replace, oldFile, base, description);
      var name := Candidate(base, 0);
      var taken := Parent(oldFile) + [description, name];
      if replace then
        report == Renamed(taken) && t'.files[taken] == t.files[oldFile] && |t'.files| == |t.files| - 1
      else
        report == RenameFailed(oldFile, FileExists(taken)) && Parent(oldFile) + [name] in t'.files
  {
    var dir := Parent(oldFile);
    var name := Candidate(base, 0);
    var newFile: FilePath := dir + [name];
    var taken: FilePath := dir + [description, name];
    assert LeastFreeSuffix(t, dir, base, 0) == 0;
    assert Parent(newFile) == dir && BaseName(newFile) == name;
    assert Parent(taken) == dir + [description];
    assert |taken| != |oldFile| && taken != newFile;
    var t1 := Tree((t.files - {oldFile})[newFile := t.files[oldFile]], t.dirs);
    assert RenameResult(t, replace, oldFile, newFile) == (t1, None);
    assert MakeDirsResult(t1, dir + [description]) == (t1, None);
    assert Parent(newFile) + [description] + [BaseName(newFile)] == taken;
    assert taken[..|taken| - 1] == dir + [description];
    assert taken in t1.files && taken !in t1.dirs;
    if replace {
      var t2 := Tree((t1.files - {newFile})[taken := t.files[oldFile]], t.dirs);
      assert RenameResult(t1, replace, newFile, taken) == (t2, None);
      assert MoveResult(t1, replace, newFile, description) == (t2, None);
      assert RenameToBase(t, replace, oldFile, base, description) == (t2, Renamed(taken));
      assert t2.files.Keys == t.files.Keys - {oldFile};
    } else {
      assert RenameResult(t1, replace, newFile, taken) == (t1, Some(FileExists(taken)));
      assert MoveResult(t1, replace, newFile, description) == (t1, Some(FileExists(taken)));
      assert RenameToBase(t, replace, oldFile, base, description) ==
        (t1, RenameFailed(oldFile, FileExists(taken)));
    }
  }
}
