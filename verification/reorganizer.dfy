/**
 The repository reorganizer (reorganize-script.js): takes a timestamped
 backup of the flat source files, makes sure the nested target directories
 exist, then renames every flat file to its place in the nested layout.

 The run is a chain of phases over the abstract file system. The backup and
 the directory phases call `fs` without a `try`, so an error there ends the
 process (`Crash`, carrying the state it left behind). The move phase catches
 every per-file error, so it always reaches the end of the mapping and only
 reports.
 */
module Reorganizer {
  import opened Wrappers
  import opened Paths
  import opened FileSystem

  /** Each flat file and the path it moves to, in declaration order. */
  const FileMapping: seq<(Path, Path)> := [
    ("config-module.js", "src/config/config.gs"),
    ("menu-module.js", "src/core/menu.gs"),
    ("protection-module.js", "src/core/protection.gs"),
    ("utilities-module.js", "src/core/utilities.gs"),
    ("instructions-module.js", "src/sheets/basic/instructions.gs"),
    ("datatables-module.js", "src/sheets/basic/dataTables.gs"),
    ("trip-settings-module.js", "src/sheets/basic/tripSettings.gs"),
    ("lodging-module.js", "src/sheets/basic/lodging.gs"),
    ("transportation-module.js", "src/sheets/advanced/transportation.gs"),
    ("activities-module.js", "src/sheets/advanced/activities.gs"),
    ("dashboard-module.js", "src/sheets/advanced/dashboard.gs"),
    ("main-module.js", "src/main.gs")
  ]

  /** The directories `createDirectories` makes sure of, in order. */
  const TargetDirectories: seq<Path> := ["src/config", "src/core", "src/sheets/basic", "src/sheets/advanced"]

  /** The keys of a mapping, in order (`Object.keys`). */
  function Sources(m: seq<(Path, Path)>): (s: seq<Path>)
    ensures |s| == |m|
    ensures forall i :: 0 <= i < |m| ==> s[i] == m[i].0
  {
    seq(|m|, i requires 0 <= i < |m| => m[i].0)
  }

  /** The values of a mapping, in order. */
  function Targets(m: seq<(Path, Path)>): (t: seq<Path>)
    ensures |t| == |m|
    ensures forall i :: 0 <= i < |m| ==> t[i] == m[i].1
  {
    seq(|m|, i requires 0 <= i < |m| => m[i].1)
  }

  // ---------------------------------------------------------------------------
  // The backup directory's name
  // ---------------------------------------------------------------------------

  /** `timestamp.replace(/[:.]/g, '-')`: every ':' and '.' becomes '-'. */
  function Sanitize(timestamp: string): (s: string)
    ensures |s| == |timestamp|
    ensures ':' !in s && '.' !in s
    ensures forall i :: 0 <= i < |s| && timestamp[i] != ':' && timestamp[i] != '.' ==> s[i] == timestamp[i]
    ensures forall i :: 0 <= i < |s| && (timestamp[i] == ':' || timestamp[i] == '.') ==> s[i] == '-'
    decreases |timestamp|
  {
    if timestamp == [] then []
    else
      var c := timestamp[0];
      [if c == ':' || c == '.' then '-' else c] + Sanitize(timestamp[1..])
  }

  /** Sanitizing twice is sanitizing once. */
  lemma SanitizeIdempotent(timestamp: string)
    ensures Sanitize(Sanitize(timestamp)) == Sanitize(timestamp)
  {
  }

  /** Exactly the strings without ':' and '.' are left as they are. */
  lemma SanitizeFixedPoints(timestamp: string)
    ensures Sanitize(timestamp) == timestamp <==> ':' !in timestamp && '.' !in timestamp
  {
  }

  /** `backup-${timestamp}` with the timestamp sanitized. */
  function BackupName(timestamp: string): (name: Path)
    ensures |name| == 7 + |timestamp| && name[..7] == "backup-"
    ensures ':' !in name && '.' !in name
    ensures '/' !in timestamp ==> '/' !in name
    ensures name[7..] == Sanitize(timestamp)
  {
    "backup-" + Sanitize(timestamp)
  }

  // ---------------------------------------------------------------------------
  // The fatal phases
  // ---------------------------------------------------------------------------

  /** An error the script does not catch. */
  datatype Fatal =
    | BackupDirError(cause: IoError)                  // mkdirSync(backupDir)
    | BackupCopyError(path: Path, cause: IoError)     // copyFileSync(file, ...)
    | DirectoryError(dir: Path, cause: IoError)       // mkdirSync(dir, { recursive: true })

  /** The process died with `error`, leaving the file system as `fs`. */
  datatype Crash = Crash(fs: FileSystem, error: Fatal)

  /** The state a phase leaves behind, whether it finished or crashed. */
  function Reached(r: Result<FileSystem, Crash>): FileSystem {
    if r.Success? then r.value else r.error.fs
  }

  /** The backup loop: every key that exists is copied to `dir/key`; keys
      that do not exist are skipped; the first failed copy crashes. */
  function CopyExisting(fs: FileSystem, dir: Path, keys: seq<Path>): (r: Result<FileSystem, Crash>)
    ensures Reached(r).dirs == fs.dirs && Reached(r).faulty == fs.faulty
    ensures r.Failure? ==> r.error.error.BackupCopyError? && r.error.error.path in keys
    ensures r.Failure? ==> Exists(r.error.fs, r.error.error.path)
    ensures Valid(fs) ==> Valid(Reached(r))
    ensures (forall k :: k in keys ==> !Exists(fs, k)) ==> r == Success(fs)
    decreases |keys|
  {
    if keys == [] then Success(fs)
    else
      var k := keys[0];
      if !Exists(fs, k) then CopyExisting(fs, dir, keys[1..])
      else match CopyFile(fs, k, Join(dir, k))
        case Failure(e) => Failure(Crash(fs, BackupCopyError(k, e)))
        case Success(copied) =>
          var r := CopyExisting(copied, dir, keys[1..]);
          assert Exists(copied, k);
          r
  }

  /** `p` is a copy, made by the backup loop into `dir`, of one of `keys`:
      its last segment names the key and it holds the key's content in `a`. */
  ghost predicate IsBackupCopy(a: FileSystem, b: FileSystem, dir: Path, keys: seq<Path>, p: Path)
    requires p in b.files
  {
    Parent(p) == dir && Name(p) in keys && Name(p) in a.files && b.files[p] == a.files[Name(p)]
  }

  /** From `a` to `b` nothing was removed, and every file that is new or has
      new content is a backup copy. */
  ghost predicate OnlyBackupAdded(a: FileSystem, b: FileSystem, dir: Path, keys: seq<Path>) {
    && (forall p :: p in a.files ==> p in b.files)
    && (forall p :: p in b.files ==> (p in a.files && b.files[p] == a.files[p]) || IsBackupCopy(a, b, dir, keys, p))
  }

  /** Every key that exists in `a` is a file there, and `b` holds its content
      under `dir`. */
  ghost predicate HasBackupOf(a: FileSystem, b: FileSystem, dir: Path, keys: seq<Path>) {
    forall k :: k in keys && Exists(a, k) ==> k in a.files && Join(dir, k) in b.files && b.files[Join(dir, k)] == a.files[k]
  }

  /** For flat keys, the backup loop adds only copies of keys under `dir`,
      whether it finishes or crashes, and when it finishes every key that
      existed has its copy. */
  lemma {:induction false} CopyExistingSnapshot(fs: FileSystem, dir: Path, keys: seq<Path>)
    requires dir != ""
    requires forall k :: k in keys ==> '/' !in k
    ensures OnlyBackupAdded(fs, Reached(CopyExisting(fs, dir, keys)), dir, keys)
    ensures CopyExisting(fs, dir, keys).Success? ==> HasBackupOf(fs, CopyExisting(fs, dir, keys).value, dir, keys)
    decreases |keys|
  {
    if keys != [] {
      var k, rest := keys[0], keys[1..];
      assert forall x :: x in rest ==> x in keys;
      if !Exists(fs, k) {
        CopyExistingSnapshot(fs, dir, rest);
      } else if CopyFile(fs, k, Join(dir, k)).Success? {
        var copied := CopyFile(fs, k, Join(dir, k)).value;
        var j := Join(dir, k);
        var r := CopyExisting(copied, dir, rest);
        var b := Reached(r);
        assert CopyExisting(fs, dir, keys) == r;
        JoinSplits(dir, k);
        assert j[|dir|] == '/';
        assert j !in keys;
        CopyExistingSnapshot(copied, dir, rest);
        forall p | p in b.files
          ensures (p in fs.files && b.files[p] == fs.files[p]) || IsBackupCopy(fs, b, dir, keys, p)
        {
          if p in copied.files && b.files[p] == copied.files[p] {
            if p == j {
              assert IsBackupCopy(fs, b, dir, keys, p);
            }
          } else {
            assert IsBackupCopy(copied, b, dir, rest, p);
            assert Name(p) != j;
          }
        }
        if r.Success? {
          forall x | x in keys && Exists(fs, x)
            ensures x in fs.files && Join(dir, x) in b.files && b.files[Join(dir, x)] == fs.files[x]
          {
            if x == k {
              assert j in copied.files;
            } else {
              assert x in rest;
              assert x != j;
            }
          }
        }
      }
    }
  }

  /** The backup loop finishes when nothing can fail: `dir` is a directory,
      no call is faulty, every key that exists is a file, and no copy's
      path is a directory. */
  lemma {:induction false} CopyExistingSucceeds(fs: FileSystem, dir: Path, keys: seq<Path>)
    requires dir in fs.dirs && fs.faulty == {}
    requires forall k :: k in keys ==> '/' !in k && k !in fs.dirs && Join(dir, k) !in fs.dirs
    ensures CopyExisting(fs, dir, keys).Success?
    decreases |keys|
  {
    if keys != [] {
      var k := keys[0];
      assert forall x :: x in keys[1..] ==> x in keys;
      if !Exists(fs, k) {
        CopyExistingSucceeds(fs, dir, keys[1..]);
      } else {
        JoinSplits(dir, k);
        assert Join(dir, k) != "";
        CopyExistingSucceeds(CopyFile(fs, k, Join(dir, k)).value, dir, keys[1..]);
      }
    }
  }

  /** The backup phase of `main`: make the backup directory (not
      recursively, so an existing one is fatal), then copy every existing key
      into it. */
  function Backup(fs: FileSystem, timestamp: string, keys: seq<Path>): (r: Result<FileSystem, Crash>)
    ensures var name := BackupName(timestamp);
      !Fails(fs, MkdirOp, name) && Present(fs, name) ==> r == Failure(Crash(fs, BackupDirError(AlreadyExists(name))))
    ensures r.Success? ==> r.value.dirs == fs.dirs + {BackupName(timestamp)}
    ensures Valid(fs) ==> Valid(Reached(r))
  {
    var name := BackupName(timestamp);
    match MakeDir(fs, name)
    case Failure(e) => Failure(Crash(fs, BackupDirError(e)))
    case Success(made) => CopyExisting(made, name, keys)
  }

  /** The directories a recursive `mkdir` of each of `ds` may create: the
      listed ones and all their ancestors. */
  function Ancestry(ds: seq<Path>): (a: set<Path>)
    ensures forall d :: d in ds && d != "" ==> d in a
    decreases |ds|
  {
    if ds == [] then {} else Chain(ds[0]) + Ancestry(ds[1..])
  }

  /** `createDirectories`: each listed directory that `existsSync` does not
      report is made with `mkdir -p`; an error crashes. */
  function CreateDirectories(fs: FileSystem, ds: seq<Path>): (r: Result<FileSystem, Crash>)
    ensures Reached(r).files == fs.files && Reached(r).faulty == fs.faulty
    ensures fs.dirs <= Reached(r).dirs <= fs.dirs + Ancestry(ds)
    ensures r.Success? ==> forall d :: d in ds ==> Present(r.value, d)
    ensures r.Failure? ==> r.error.error.DirectoryError? && r.error.error.dir in ds && !Exists(fs, r.error.error.dir)
    ensures Valid(fs) ==> Valid(Reached(r))
    decreases |ds|
  {
    if ds == [] then Success(fs)
    else
      var d := ds[0];
      if Exists(fs, d) then CreateDirectories(fs, ds[1..])
      else match MakeDirAll(fs, d)
        case Failure(e) => Failure(Crash(fs, DirectoryError(d, e)))
        case Success(made) => CreateDirectories(made, ds[1..])
  }

  /** `createDirectories` leaves `d` as it is: `existsSync` reports it, or
      the `mkdir -p` it runs is allowed and finds the whole chain made. */
  ghost predicate Settled(fs: FileSystem, d: Path) {
    || Exists(fs, d)
    || (d != "" && !Fails(fs, MkdirOp, d) && Chain(d) !! fs.files.Keys && Chain(d) <= fs.dirs)
  }

  /** Making more directories keeps a settled directory settled. */
  lemma SettledGrows(a: FileSystem, b: FileSystem, d: Path)
    requires Settled(a, d)
    requires b.files == a.files && b.faulty == a.faulty && a.dirs <= b.dirs
    ensures Settled(b, d)
  {
  }

  /** When every listed directory is settled, `createDirectories` does
      nothing. */
  lemma {:induction false} CreateDirectoriesNoOp(fs: FileSystem, ds: seq<Path>)
    requires forall d :: d in ds ==> Settled(fs, d)
    ensures CreateDirectories(fs, ds) == Success(fs)
    decreases |ds|
  {
    if ds != [] {
      var d := ds[0];
      assert d in ds;
      assert forall x :: x in ds[1..] ==> x in ds;
      if !Exists(fs, d) {
        assert fs.(dirs := fs.dirs + Chain(d)) == fs;
      }
      CreateDirectoriesNoOp(fs, ds[1..]);
    }
  }

  /** A finished `createDirectories` leaves every listed directory settled. */
  lemma {:induction false} CreateDirectoriesSettles(fs: FileSystem, ds: seq<Path>)
    requires CreateDirectories(fs, ds).Success?
    ensures forall d :: d in ds ==> Settled(CreateDirectories(fs, ds).value, d)
    decreases |ds|
  {
    if ds != [] {
      var d, rest := ds[0], ds[1..];
      var next := if Exists(fs, d) then fs else MakeDirAll(fs, d).value;
      assert CreateDirectories(fs, ds) == CreateDirectories(next, rest);
      assert Settled(next, d);
      CreateDirectoriesSettles(next, rest);
      var end := CreateDirectories(fs, ds).value;
      SettledGrows(next, end, d);
      forall x | x in ds
        ensures Settled(end, x)
      {
        if x != d {
          assert x in rest;
        }
      }
    }
  }

  /** Everything the listed directories may bring in is closed under
      taking parents. */
  lemma {:induction false} AncestryClosed(ds: seq<Path>, x: Path)
    requires x in Ancestry(ds)
    ensures Parent(x) == "" || Parent(x) in Ancestry(ds)
    decreases |ds|
  {
    ChainClosed(ds[0]);
    if x !in Chain(ds[0]) {
      AncestryClosed(ds[1..], x);
    }
  }

  /** A directory whose existence check is refused is handed to
      `mkdir -p`, so a refused `mkdir` of it then ends the process. */
  lemma ExistsFaultReachesMkdir(fs: FileSystem, d: Path)
    requires d != "" && Present(fs, d) && Fails(fs, ExistsOp, d) && Fails(fs, MkdirOp, d)
    ensures CreateDirectories(fs, [d]) == Failure(Crash(fs, DirectoryError(d, Denied(d))))
  {
  }

  /** `createDirectories` finishes when no `mkdir` of a listed directory is
      faulty and no path it may create is a file, and then, in a valid
      state, every listed directory and all its ancestors are directories. */
  lemma {:induction false} CreateDirectoriesSucceeds(fs: FileSystem, ds: seq<Path>)
    requires Valid(fs)
    requires forall d :: d in ds ==> d != "" && !Fails(fs, MkdirOp, d)
    requires Ancestry(ds) !! fs.files.Keys
    ensures CreateDirectories(fs, ds).Success?
    ensures Ancestry(ds) <= CreateDirectories(fs, ds).value.dirs
    decreases |ds|
  {
    if ds != [] {
      var d, rest := ds[0], ds[1..];
      assert forall x :: x in rest ==> x in ds;
      assert Ancestry(ds) == Chain(d) + Ancestry(rest);
      assert d in ds;
      assert d != "" && !Fails(fs, MkdirOp, d) && Chain(d) !! fs.files.Keys;
      var next := if Exists(fs, d) then fs else MakeDirAll(fs, d).value;
      if Exists(fs, d) {
        ValidChain(fs, d);
      }
      assert Chain(d) <= next.dirs;
      CreateDirectoriesSucceeds(next, rest);
    }
  }

  /** `createDirectories` is idempotent: a second run changes nothing. */
  lemma CreateDirectoriesIdempotent(fs: FileSystem, ds: seq<Path>)
    requires CreateDirectories(fs, ds).Success?
    ensures CreateDirectories(CreateDirectories(fs, ds).value, ds) == CreateDirectories(fs, ds)
  {
    CreateDirectoriesSettles(fs, ds);
    CreateDirectoriesNoOp(CreateDirectories(fs, ds).value, ds);
  }

  // ---------------------------------------------------------------------------
  // The move phase
  // ---------------------------------------------------------------------------

  /** What one entry of `moveFiles` reports. */
  datatype MoveOutcome =
    | Moved                      // "Moved <src> to <dst>"
    | SourceMissing              // "Warning: Source file <src> not found"
    | MoveFailed(cause: IoError) // "Error moving <src>: <message>"

  datatype MoveReport = MoveReport(src: Path, dst: Path, outcome: MoveOutcome)

  /** The state after the moves and one report per entry. */
  datatype Moves = Moves(fs: FileSystem, reports: seq<MoveReport>)

  /** One entry of `moveFiles`: rename the source when it exists; a failed
      rename is caught and leaves the state as it was. */
  function MoveOne(fs: FileSystem, src: Path, dst: Path): (r: (FileSystem, MoveOutcome))
    ensures r.1 == SourceMissing <==> !Exists(fs, src)
    ensures r.1 == Moved <==> Exists(fs, src) && Rename(fs, src, dst).Success?
    ensures r.1 != Moved ==> r.0 == fs
    ensures r.1 == Moved ==> r.0 == Rename(fs, src, dst).value
  {
    if !Exists(fs, src) then (fs, SourceMissing)
    else match Rename(fs, src, dst)
      case Failure(e) => (fs, MoveFailed(e))
      case Success(moved) => (moved, Moved)
  }

  /** `moveFiles`: every entry is tried, in order, whatever happened to the
      ones before it. */
  function MoveFiles(fs: FileSystem, m: seq<(Path, Path)>): (r: Moves)
    ensures |r.reports| == |m|
    ensures forall i :: 0 <= i < |m| ==> r.reports[i].src == m[i].0 && r.reports[i].dst == m[i].1
    ensures r.fs.dirs == fs.dirs && r.fs.faulty == fs.faulty
    ensures forall p :: p in fs.files && (forall i :: 0 <= i < |m| ==> p != m[i].0) ==> p in r.fs.files
    ensures Valid(fs) ==> Valid(r.fs)
    decreases |m|
  {
    if m == [] then Moves(fs, [])
    else
      var (src, dst) := m[0];
      var (moved, outcome) := MoveOne(fs, src, dst);
      var rest := MoveFiles(moved, m[1..]);
      Moves(rest.fs, [MoveReport(src, dst, outcome)] + rest.reports)
  }

  /** A refused rename is caught: the entry is reported as failed and the
      state is as before, even when the same source was copied cleanly by
      the backup loop. */
  lemma RenameFaultIsCaught(fs: FileSystem, src: Path, dst: Path)
    requires Exists(fs, src) && Fails(fs, RenameOp, src)
    ensures MoveOne(fs, src, dst) == (fs, MoveFailed(Denied(src)))
  {
  }

  /** A source file whose existence check is refused is reported missing
      and left where it is. */
  lemma ExistsFaultIsMissing(fs: FileSystem, src: Path, dst: Path)
    requires src in fs.files && Fails(fs, ExistsOp, src)
    ensures MoveOne(fs, src, dst) == (fs, SourceMissing)
  {
  }

  /** The entries neither share a source nor a destination, and no source is
      any entry's destination: no move can disturb another. */
  ghost predicate Independent(m: seq<(Path, Path)>) {
    && (forall i, j :: 0 <= i < j < |m| ==> m[i].0 != m[j].0 && m[i].1 != m[j].1)
    && (forall i, j :: 0 <= i < |m| && 0 <= j < |m| ==> m[i].0 != m[j].1)
  }

  /** `existsSync` reports `src` and renaming it to a different `dst` would
      succeed in `fs`. */
  predicate Movable(fs: FileSystem, src: Path, dst: Path) {
    src in fs.files && !Fails(fs, ExistsOp, src) && !Fails(fs, RenameOp, src) && Writable(fs, dst)
  }

  /** `p` is neither the source nor the destination of an entry that moves. */
  ghost predicate Untouched(fs: FileSystem, m: seq<(Path, Path)>, p: Path) {
    forall i :: 0 <= i < |m| && Movable(fs, m[i].0, m[i].1) ==> p != m[i].0 && p != m[i].1
  }

  /** One entry changes the files at most at its source and destination,
      and only when it moves; a moved source's content is at the destination
      and the source is gone. */
  lemma MoveOneFrame(fs: FileSystem, src: Path, dst: Path)
    requires src != dst
    ensures var after := MoveOne(fs, src, dst).0;
      && after.dirs == fs.dirs && after.faulty == fs.faulty
      && (forall p :: !(Movable(fs, src, dst) && (p == src || p == dst)) ==>
            (p in after.files <==> p in fs.files) && (p in fs.files ==> after.files[p] == fs.files[p]))
      && (Movable(fs, src, dst) ==> dst in after.files && after.files[dst] == fs.files[src] && src !in after.files)
  {
  }

  /** Whether another entry, whose source is neither `src` nor `dst`, is
      missing or movable is the same before and after moving `src`. */
  lemma MoveOneKeepsOthers(fs: FileSystem, src: Path, dst: Path, s: Path, d: Path)
    requires src != dst && s != src && s != dst
    ensures Exists(MoveOne(fs, src, dst).0, s) == Exists(fs, s)
    ensures Movable(MoveOne(fs, src, dst).0, s, d) == Movable(fs, s, d)
  {
    MoveOneFrame(fs, src, dst);
  }

  /** Dropping the first entry keeps the entries independent. */
  lemma IndependentTail(m: seq<(Path, Path)>)
    requires Independent(m) && m != []
    ensures Independent(m[1..])
  {
    var rest := m[1..];
    forall i, j | 0 <= i < |rest| && 0 <= j < |rest|
      ensures rest[i].0 != rest[j].1
    {
      assert rest[i] == m[i + 1] && rest[j] == m[j + 1];
    }
  }

  /** After the first of independent entries has run, every later entry is
      missing or movable exactly as it was at the start. */
  lemma FirstMoveKeepsOthers(fs: FileSystem, m: seq<(Path, Path)>)
    requires Independent(m) && m != []
    ensures var after := MoveOne(fs, m[0].0, m[0].1).0;
      forall i :: 1 <= i < |m| ==>
        && Exists(after, m[i].0) == Exists(fs, m[i].0)
        && Movable(after, m[i].0, m[i].1) == Movable(fs, m[i].0, m[i].1)
  {
    forall i | 1 <= i < |m|
      ensures Exists(MoveOne(fs, m[0].0, m[0].1).0, m[i].0) == Exists(fs, m[i].0)
      ensures Movable(MoveOne(fs, m[0].0, m[0].1).0, m[i].0, m[i].1) == Movable(fs, m[i].0, m[i].1)
    {
      MoveOneKeepsOthers(fs, m[0].0, m[0].1, m[i].0, m[i].1);
    }
  }

  /** For independent entries, every entry is reported as if it ran alone on
      the initial state: missing exactly when its source does not exist,
      moved exactly when its source is movable. */
  lemma {:induction false} MoveFilesReports(fs: FileSystem, m: seq<(Path, Path)>)
    requires Independent(m)
    ensures forall i :: 0 <= i < |m| ==>
      (MoveFiles(fs, m).reports[i].outcome == SourceMissing <==> !Exists(fs, m[i].0))
    ensures forall i :: 0 <= i < |m| ==>
      (MoveFiles(fs, m).reports[i].outcome == Moved <==> Movable(fs, m[i].0, m[i].1))
    decreases |m|
  {
    if m != [] {
      var rest := m[1..];
      var fs1 := MoveOne(fs, m[0].0, m[0].1).0;
      var r, r1 := MoveFiles(fs, m), MoveFiles(fs1, rest);
      assert r.reports == [MoveReport(m[0].0, m[0].1, MoveOne(fs, m[0].0, m[0].1).1)] + r1.reports;
      IndependentTail(m);
      MoveFilesReports(fs1, rest);
      FirstMoveKeepsOthers(fs, m);
      forall i | 1 <= i < |m|
        ensures (r.reports[i].outcome == SourceMissing <==> !Exists(fs, m[i].0))
        ensures (r.reports[i].outcome == Moved <==> Movable(fs, m[i].0, m[i].1))
      {
        assert r.reports[i] == r1.reports[i - 1] && m[i] == rest[i - 1];
      }
    }
  }

  /** For independent entries, every movable source lands at its destination
      with its content and is gone from its old path, and every other path
      keeps its file. */
  lemma {:induction false} MoveFilesEffect(fs: FileSystem, m: seq<(Path, Path)>)
    requires Independent(m)
    ensures forall i :: 0 <= i < |m| && Movable(fs, m[i].0, m[i].1) ==>
      && m[i].1 in MoveFiles(fs, m).fs.files
      && MoveFiles(fs, m).fs.files[m[i].1] == fs.files[m[i].0]
      && m[i].0 !in MoveFiles(fs, m).fs.files
    ensures forall p :: Untouched(fs, m, p) ==>
      && (p in MoveFiles(fs, m).fs.files <==> p in fs.files)
      && (p in fs.files ==> MoveFiles(fs, m).fs.files[p] == fs.files[p])
    decreases |m|
  {
    if m != [] {
      var s0, d0 := m[0].0, m[0].1;
      var rest := m[1..];
      var fs1 := MoveOne(fs, s0, d0).0;
      var after := MoveFiles(fs1, rest).fs;
      assert MoveFiles(fs, m).fs == after;
      IndependentTail(m);
      MoveFilesEffect(fs1, rest);
      MoveOneFrame(fs, s0, d0);
      FirstMoveKeepsOthers(fs, m);
      assert forall i :: 0 <= i < |rest| ==> rest[i] == m[i + 1];
      forall p | Untouched(fs, m, p)
        ensures Untouched(fs1, rest, p)
      {
      }
      assert Untouched(fs1, rest, d0) && Untouched(fs1, rest, s0);
    }
  }

  // ---------------------------------------------------------------------------
  // The whole run
  // ---------------------------------------------------------------------------

  /** A run that reached its end: the final state, the backup directory and
      the per-entry reports. */
  datatype Finished = Finished(fs: FileSystem, backupDir: Path, reports: seq<MoveReport>)

  /** The two phases before the moves, whose errors are fatal: the backup
      of `keys`, then the directories. */
  function Prepare(fs: FileSystem, timestamp: string, keys: seq<Path>, dirs: seq<Path>): (r: Result<FileSystem, Crash>)
    ensures var name := BackupName(timestamp);
      !Fails(fs, MkdirOp, name) && Present(fs, name) ==> r == Failure(Crash(fs, BackupDirError(AlreadyExists(name))))
    ensures r.Success? ==> BackupName(timestamp) in r.value.dirs && forall d :: d in dirs ==> Present(r.value, d)
    ensures fs.dirs <= Reached(r).dirs <= fs.dirs + {BackupName(timestamp)} + Ancestry(dirs)
    ensures Reached(r).faulty == fs.faulty
    ensures Valid(fs) ==> Valid(Reached(r))
  {
    match Backup(fs, timestamp, keys)
    case Failure(c) => Failure(c)
    case Success(saved) => CreateDirectories(saved, dirs)
  }

  /** For flat keys, the phases before the moves only add backup copies,
      whether they finish or crash; when they finish, every key that existed
      has its copy. */
  lemma PrepareSnapshot(fs: FileSystem, timestamp: string, keys: seq<Path>, dirs: seq<Path>)
    requires forall k :: k in keys ==> '/' !in k
    ensures OnlyBackupAdded(fs, Reached(Prepare(fs, timestamp, keys, dirs)), BackupName(timestamp), keys)
    ensures Prepare(fs, timestamp, keys, dirs).Success? ==>
      HasBackupOf(fs, Prepare(fs, timestamp, keys, dirs).value, BackupName(timestamp), keys)
  {
    var name := BackupName(timestamp);
    if MakeDir(fs, name).Success? {
      CopyExistingSnapshot(MakeDir(fs, name).value, name, keys);
    }
  }

  /** A flat path that is neither the backup directory nor one of the
      directories to create is, after the phases before the moves, missing
      or a file with the same content exactly as before. */
  lemma PrepareKeepsFlatPaths(fs: FileSystem, timestamp: string, keys: seq<Path>, dirs: seq<Path>, s: Path)
    requires forall k :: k in keys ==> '/' !in k
    requires '/' !in s && s != BackupName(timestamp) && s !in Ancestry(dirs)
    requires Prepare(fs, timestamp, keys, dirs).Success?
    ensures Exists(Prepare(fs, timestamp, keys, dirs).value, s) == Exists(fs, s)
    ensures s in Prepare(fs, timestamp, keys, dirs).value.files ==>
      s in fs.files && Prepare(fs, timestamp, keys, dirs).value.files[s] == fs.files[s]
  {
    PrepareSnapshot(fs, timestamp, keys, dirs);
    FlatFileKept(fs, Prepare(fs, timestamp, keys, dirs).value, BackupName(timestamp), keys, s);
  }

  /** `main` with the clock reading, the mapping and the directory list as
      parameters: backup, then directories, then moves. */
  function Reorganize(fs: FileSystem, timestamp: string, mapping: seq<(Path, Path)>, dirs: seq<Path>)
    : (r: Result<Finished, Crash>)
    ensures var name := BackupName(timestamp);
      !Fails(fs, MkdirOp, name) && Present(fs, name) ==> r == Failure(Crash(fs, BackupDirError(AlreadyExists(name))))
    ensures r.Success? ==> r.value.backupDir == BackupName(timestamp) && BackupName(timestamp) in r.value.fs.dirs
    ensures r.Success? ==> forall d :: d in dirs && (forall i :: 0 <= i < |mapping| ==> d != mapping[i].0) ==>
      Present(r.value.fs, d)
    ensures r.Success? ==> |r.value.reports| == |mapping|
    ensures r.Success? ==> forall i :: 0 <= i < |mapping| ==>
      r.value.reports[i].src == mapping[i].0 && r.value.reports[i].dst == mapping[i].1
    ensures r.Failure? ==> r.error.fs.faulty == fs.faulty
    ensures Valid(fs) ==> Valid(if r.Success? then r.value.fs else r.error.fs)
  {
    match Prepare(fs, timestamp, Sources(mapping), dirs)
    case Failure(c) => Failure(c)
    case Success(ready) =>
      var moves := MoveFiles(ready, mapping);
      Success(Finished(moves.fs, BackupName(timestamp), moves.reports))
  }

  /** `main()` as written: the script's own mapping and directory list. */
  function Main(fs: FileSystem, timestamp: string): (r: Result<Finished, Crash>)
    ensures var name := BackupName(timestamp);
      !Fails(fs, MkdirOp, name) && Present(fs, name) ==> r == Failure(Crash(fs, BackupDirError(AlreadyExists(name))))
    ensures r.Success? ==> |r.value.reports| == |FileMapping|
  {
    Reorganize(fs, timestamp, FileMapping, TargetDirectories)
  }

  /** The backup phase leaves a file outside every directory as it was. */
  lemma FlatFileKept(a: FileSystem, b: FileSystem, dir: Path, keys: seq<Path>, s: Path)
    requires OnlyBackupAdded(a, b, dir, keys) && dir != "" && '/' !in s
    ensures s in b.files <==> s in a.files
    ensures s in a.files ==> b.files[s] == a.files[s]
  {
    assert Parent(s) == "";
  }

  /** A crash happens before any move: for flat mapping keys, the state it
      leaves has every file the run started with, unchanged, plus only
      backup copies. */
  lemma ReorganizeCrashesBeforeMoves(fs: FileSystem, timestamp: string, mapping: seq<(Path, Path)>, dirs: seq<Path>)
    requires forall i :: 0 <= i < |mapping| ==> '/' !in mapping[i].0
    ensures var r := Reorganize(fs, timestamp, mapping, dirs);
      r.Failure? ==> OnlyBackupAdded(fs, r.error.fs, BackupName(timestamp), Sources(mapping))
  {
    PrepareSnapshot(fs, timestamp, Sources(mapping), dirs);
  }

  /** The conditions under which a finished run can be described entry by
      entry: independent entries, flat sources that are neither the backup
      directory nor a directory to create, and destinations outside the
      backup directory. */
  ghost predicate Separated(timestamp: string, mapping: seq<(Path, Path)>, dirs: seq<Path>) {
    && Independent(mapping)
    && forall i :: 0 <= i < |mapping| ==>
      && '/' !in mapping[i].0 && mapping[i].0 != BackupName(timestamp) && mapping[i].0 !in Ancestry(dirs)
      && Parent(mapping[i].1) != BackupName(timestamp)
  }

  /** After a finished run the backup still holds the original content of
      every key that existed at the start: the moves never touch it. */
  lemma ReorganizeKeepsBackup(fs: FileSystem, timestamp: string, mapping: seq<(Path, Path)>, dirs: seq<Path>)
    requires Separated(timestamp, mapping, dirs)
    ensures var r := Reorganize(fs, timestamp, mapping, dirs);
      r.Success? ==> HasBackupOf(fs, r.value.fs, BackupName(timestamp), Sources(mapping))
  {
    var name, keys := BackupName(timestamp), Sources(mapping);
    if Prepare(fs, timestamp, keys, dirs).Success? {
      var ready := Prepare(fs, timestamp, keys, dirs).value;
      var after := MoveFiles(ready, mapping).fs;
      PrepareSnapshot(fs, timestamp, keys, dirs);
      MoveFilesEffect(ready, mapping);
      forall k | k in keys && Exists(fs, k)
        ensures k in fs.files && Join(name, k) in after.files && after.files[Join(name, k)] == fs.files[k]
      {
        var j := Join(name, k);
        var i :| 0 <= i < |mapping| && mapping[i].0 == k;
        JoinSplits(name, k);
        assert j[|name|] == '/';
        assert Untouched(ready, mapping, j);
      }
    }
  }

  /** What a finished run did with each entry: it is reported missing
      exactly when its source did not exist at the start, and a moved
      entry's destination holds the source's original content while the
      source is gone. */
  lemma ReorganizeMoves(fs: FileSystem, timestamp: string, mapping: seq<(Path, Path)>, dirs: seq<Path>)
    requires Separated(timestamp, mapping, dirs)
    ensures var r := Reorganize(fs, timestamp, mapping, dirs);
      r.Success? ==> forall i :: 0 <= i < |mapping| ==>
        (r.value.reports[i].outcome == SourceMissing <==> !Exists(fs, mapping[i].0))
    ensures var r := Reorganize(fs, timestamp, mapping, dirs);
      r.Success? ==> forall i :: 0 <= i < |mapping| && r.value.reports[i].outcome == Moved ==>
        && mapping[i].0 in fs.files
        && mapping[i].1 in r.value.fs.files && r.value.fs.files[mapping[i].1] == fs.files[mapping[i].0]
        && mapping[i].0 !in r.value.fs.files
  {
    var keys := Sources(mapping);
    if Prepare(fs, timestamp, keys, dirs).Success? {
      var ready := Prepare(fs, timestamp, keys, dirs).value;
      MoveFilesReports(ready, mapping);
      MoveFilesEffect(ready, mapping);
      forall i | 0 <= i < |mapping|
        ensures Exists(ready, mapping[i].0) == Exists(fs, mapping[i].0)
        ensures mapping[i].0 in ready.files ==> mapping[i].0 in fs.files && ready.files[mapping[i].0] == fs.files[mapping[i].0]
      {
        PrepareKeepsFlatPaths(fs, timestamp, keys, dirs, mapping[i].0);
      }
    }
  }

  /** A start from which nothing in the run can fail: a valid state with no
      faulty call, a fresh flat backup name, separated entries, no file in
      the way of a directory to create, sources that are not directories,
      and destinations that are new paths inside created directories. */
  ghost predicate CleanStart(fs: FileSystem, timestamp: string, mapping: seq<(Path, Path)>, dirs: seq<Path>) {
    var name := BackupName(timestamp);
    && Valid(fs) && fs.faulty == {}
    && '/' !in timestamp && !Exists(fs, name)
    && Separated(timestamp, mapping, dirs)
    && (forall d :: d in dirs ==> d != "")
    && name !in Ancestry(dirs) && Ancestry(dirs) !! fs.files.Keys
    && forall i :: 0 <= i < |mapping| ==>
      && mapping[i].0 !in fs.dirs
      && mapping[i].1 != "" && mapping[i].1 !in fs.dirs && mapping[i].1 != name && mapping[i].1 !in Ancestry(dirs)
      && Parent(mapping[i].1) in Ancestry(dirs)
  }

  /** From a clean start the phases before the moves finish, the created
      directories are all there, and exactly the files that existed remain
      at the flat source paths. */
  lemma PrepareClean(fs: FileSystem, timestamp: string, mapping: seq<(Path, Path)>, dirs: seq<Path>)
    requires CleanStart(fs, timestamp, mapping, dirs)
    ensures Prepare(fs, timestamp, Sources(mapping), dirs).Success?
    ensures Ancestry(dirs) <= Prepare(fs, timestamp, Sources(mapping), dirs).value.dirs
  {
    var name, keys := BackupName(timestamp), Sources(mapping);
    assert Parent(name) == "";
    var made := MakeDir(fs, name).value;
    forall k | k in keys
      ensures '/' !in k && k !in made.dirs && Join(name, k) !in made.dirs
    {
      var i :| 0 <= i < |mapping| && mapping[i].0 == k;
      JoinSplits(name, k);
    }
    CopyExistingSucceeds(made, name, keys);
    var saved := CopyExisting(made, name, keys).value;
    assert forall k :: k in keys ==> '/' !in k;
    CopyExistingSnapshot(made, name, keys);
    forall a | a in Ancestry(dirs)
      ensures a !in saved.files
    {
      AncestryClosed(dirs, a);
    }
    CreateDirectoriesSucceeds(saved, dirs);
  }

  /** From a clean start the whole run finishes, and each entry is moved
      exactly when its source file existed and reported missing otherwise. */
  lemma ReorganizeClean(fs: FileSystem, timestamp: string, mapping: seq<(Path, Path)>, dirs: seq<Path>)
    requires CleanStart(fs, timestamp, mapping, dirs)
    ensures Reorganize(fs, timestamp, mapping, dirs).Success?
    ensures forall i :: 0 <= i < |mapping| ==>
      Reorganize(fs, timestamp, mapping, dirs).value.reports[i].outcome
        == if mapping[i].0 in fs.files then Moved else SourceMissing
  {
    var keys := Sources(mapping);
    PrepareClean(fs, timestamp, mapping, dirs);
    var ready := Prepare(fs, timestamp, keys, dirs).value;
    MoveFilesReports(ready, mapping);
    forall i | 0 <= i < |mapping|
      ensures Exists(ready, mapping[i].0) == (mapping[i].0 in fs.files)
      ensures Movable(ready, mapping[i].0, mapping[i].1) == (mapping[i].0 in fs.files)
    {
      PrepareKeepsFlatPaths(fs, timestamp, keys, dirs, mapping[i].0);
      assert mapping[i].1 !in ready.dirs;
      assert IsDir(ready, Parent(mapping[i].1));
    }
  }
}
