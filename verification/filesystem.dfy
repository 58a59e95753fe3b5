/**
 An abstract file system standing in for Node's synchronous `fs` calls
 (`existsSync`, `readFileSync`, `writeFileSync`, `mkdirSync`, `copyFileSync`,
 `renameSync`). Each operation either succeeds with the new state or fails
 with an error and leaves the state as it was.

 File contents are the decoded text; decoding itself never fails. Causes of
 failure the scripts cannot see (permissions, a locked file) are a set of
 faulty calls: a pair `(op, p)` in `faulty` makes every call of `op` on the
 path `p` (the source, for a copy or a rename) refuse with `Denied` before
 it changes anything. `existsSync` never throws: a refused check makes it
 report that nothing is there.
 */
module FileSystem {
  import opened Wrappers
  import opened Paths

  datatype IoError =
    | NoEntry(path: Path)        // ENOENT
    | AlreadyExists(path: Path)  // EEXIST
    | IsADirectory(path: Path)   // EISDIR
    | NotADirectory(path: Path)  // ENOTDIR
    | Denied(path: Path)         // EACCES, EPERM, ...

  /** The calls a fault can be attached to. */
  datatype Op = ExistsOp | ReadOp | WriteOp | MkdirOp | CopyOp | RenameOp

  /** File contents by path, the directories, and the calls that fail. The
      working directory "" is always a directory and never listed. */
  datatype FileSystem = FileSystem(files: map<Path, string>, dirs: set<Path>, faulty: set<(Op, Path)>)

  /** A call of `op` on `p` is refused. */
  predicate Fails(fs: FileSystem, op: Op, p: Path) {
    (op, p) in fs.faulty
  }

  predicate IsDir(fs: FileSystem, d: Path) {
    d == "" || d in fs.dirs
  }

  /** There is a file or a directory at `p`. */
  predicate Present(fs: FileSystem, p: Path) {
    p in fs.files || p in fs.dirs
  }

  /** `fs.existsSync`: true for files and directories alike, false when
      nothing is there or the check itself is refused. In a valid state
      nothing exists at "" and whatever exists sits in a directory. */
  predicate Exists(fs: FileSystem, p: Path): (e: bool)
    ensures e ==> Present(fs, p)
    ensures !Fails(fs, ExistsOp, p) ==> (e <==> Present(fs, p))
    ensures Fails(fs, ExistsOp, p) ==> !e
    ensures Valid(fs) && e ==> p != "" && IsDir(fs, Parent(p))
  {
    Present(fs, p) && !Fails(fs, ExistsOp, p)
  }

  /** The shape every reachable state has: a path is a file or a directory
      but not both, and the parent of every entry is a directory. */
  ghost predicate Valid(fs: FileSystem) {
    && fs.files.Keys !! fs.dirs
    && "" !in fs.files && "" !in fs.dirs
    && (forall p :: p in fs.files ==> IsDir(fs, Parent(p)))
    && (forall d :: d in fs.dirs ==> IsDir(fs, Parent(d)))
  }

  /** The two states hold the same files with the same contents at every
      path except `p`. */
  ghost predicate SameFilesExcept(a: FileSystem, b: FileSystem, p: Path) {
    forall q :: q != p ==> (q in a.files <==> q in b.files) && (q in a.files ==> a.files[q] == b.files[q])
  }

  /** A file can be created or overwritten at `p`: `p` is not the working
      directory, not a directory, and its parent is a directory. */
  predicate Writable(fs: FileSystem, p: Path) {
    p != "" && p !in fs.dirs && IsDir(fs, Parent(p))
  }

  /** The error Node reports for a path whose parent is not a directory. */
  function MissingParent(fs: FileSystem, p: Path): IoError {
    if Parent(p) in fs.files then NotADirectory(p) else NoEntry(p)
  }

  /** Putting `text` at `p`, the effect writing, copying and renaming share. */
  function Store(fs: FileSystem, p: Path, text: string): (r: Result<FileSystem, IoError>)
    ensures r.Success? <==> Writable(fs, p)
    ensures r.Success? ==> p in r.value.files && r.value.files[p] == text
    ensures r.Success? ==> SameFilesExcept(fs, r.value, p)
    ensures r.Success? ==> r.value.dirs == fs.dirs && r.value.faulty == fs.faulty
    ensures r.Success? && Valid(fs) ==> Valid(r.value)
  {
    if p == "" then Failure(NoEntry(p))
    else if p in fs.dirs then Failure(IsADirectory(p))
    else if !IsDir(fs, Parent(p)) then Failure(MissingParent(fs, p))
    else Success(fs.(files := fs.files[p := text]))
  }

  /** The error for a source path that is not a file. */
  function NotAFile(fs: FileSystem, p: Path): IoError {
    if p in fs.dirs then IsADirectory(p) else NoEntry(p)
  }

  /** `fs.readFileSync(p, 'utf8')`. */
  function ReadFile(fs: FileSystem, p: Path): (r: Result<string, IoError>)
    ensures r.Success? <==> p in fs.files && !Fails(fs, ReadOp, p)
    ensures r.Success? ==> r.value == fs.files[p]
    ensures r.Failure? && p in fs.dirs && !Fails(fs, ReadOp, p) ==> r.error == IsADirectory(p)
  {
    if Fails(fs, ReadOp, p) then Failure(Denied(p))
    else if p in fs.files then Success(fs.files[p])
    else Failure(NotAFile(fs, p))
  }

  /** `fs.writeFileSync(p, text)`: creates or truncates the file `p`. */
  function WriteFile(fs: FileSystem, p: Path, text: string): (r: Result<FileSystem, IoError>)
    ensures r.Success? <==> !Fails(fs, WriteOp, p) && Writable(fs, p)
    ensures r.Success? ==> p in r.value.files && r.value.files[p] == text
    ensures r.Success? ==> SameFilesExcept(fs, r.value, p)
    ensures r.Success? ==> r.value.dirs == fs.dirs && r.value.faulty == fs.faulty
    ensures r.Success? && Valid(fs) ==> Valid(r.value)
  {
    if Fails(fs, WriteOp, p) then Failure(Denied(p))
    else Store(fs, p, text)
  }

  /** `fs.mkdirSync(d)` without `recursive`: fails when `d` exists in any
      form or its parent is missing. */
  function MakeDir(fs: FileSystem, d: Path): (r: Result<FileSystem, IoError>)
    ensures r.Success? <==> d != "" && !Fails(fs, MkdirOp, d) && !Present(fs, d) && IsDir(fs, Parent(d))
    ensures d != "" && Present(fs, d) && !Fails(fs, MkdirOp, d) ==> r == Failure(AlreadyExists(d))
    ensures r.Success? ==> r.value.dirs == fs.dirs + {d}
    ensures r.Success? ==> r.value.files == fs.files && r.value.faulty == fs.faulty
    ensures r.Success? && Valid(fs) ==> Valid(r.value)
  {
    if d == "" then Failure(NoEntry(d))
    else if Fails(fs, MkdirOp, d) then Failure(Denied(d))
    else if Present(fs, d) then Failure(AlreadyExists(d))
    else if !IsDir(fs, Parent(d)) then Failure(MissingParent(fs, d))
    else Success(fs.(dirs := fs.dirs + {d}))
  }

  /** `fs.mkdirSync(d, { recursive: true })`: makes `d` and every missing
      ancestor; fails when one of them is a file. An existing `d` is not an
      error. */
  function MakeDirAll(fs: FileSystem, d: Path): (r: Result<FileSystem, IoError>)
    ensures r.Success? <==> d != "" && !Fails(fs, MkdirOp, d) && Chain(d) !! fs.files.Keys
    ensures r.Success? ==> r.value.dirs == fs.dirs + Chain(d) && d in r.value.dirs
    ensures r.Success? ==> r.value.files == fs.files && r.value.faulty == fs.faulty
    ensures r.Success? && Valid(fs) ==> Valid(r.value)
  {
    if d == "" then Failure(NoEntry(d))
    else if Fails(fs, MkdirOp, d) then Failure(Denied(d))
    else if !(Chain(d) !! fs.files.Keys) then Failure(NotADirectory(d))
    else
      var fs' := fs.(dirs := fs.dirs + Chain(d));
      ChainClosed(d);
      Success(fs')
  }

  /** `fs.copyFileSync(src, dst)`: the destination file is created or
      overwritten with the source's content; the source is untouched. */
  function CopyFile(fs: FileSystem, src: Path, dst: Path): (r: Result<FileSystem, IoError>)
    ensures r.Success? <==> src in fs.files && !Fails(fs, CopyOp, src) && Writable(fs, dst)
    ensures r.Success? ==> dst in r.value.files && r.value.files[dst] == fs.files[src]
    ensures r.Success? ==> SameFilesExcept(fs, r.value, dst)
    ensures r.Success? ==> r.value.dirs == fs.dirs && r.value.faulty == fs.faulty
    ensures r.Success? && Valid(fs) ==> Valid(r.value)
  {
    if Fails(fs, CopyOp, src) then Failure(Denied(src))
    else if src !in fs.files then Failure(NotAFile(fs, src))
    else Store(fs, dst, fs.files[src])
  }

  /** `fs.renameSync(src, dst)` on a file. A destination file is overwritten
      (POSIX `rename`); a destination directory is an error; renaming a path
      onto itself changes nothing. Moving a whole directory is not modelled:
      a directory source is an error. */
  function Rename(fs: FileSystem, src: Path, dst: Path): (r: Result<FileSystem, IoError>)
    ensures r.Success? <==> src in fs.files && !Fails(fs, RenameOp, src) && (src == dst || Writable(fs, dst))
    ensures r.Success? && src != dst ==>
      && dst in r.value.files && r.value.files[dst] == fs.files[src]
      && src !in r.value.files
      && forall q :: q != src && q != dst ==>
           (q in r.value.files <==> q in fs.files) && (q in fs.files ==> r.value.files[q] == fs.files[q])
    ensures r.Success? && src == dst ==> r.value == fs
    ensures r.Success? ==> r.value.dirs == fs.dirs && r.value.faulty == fs.faulty
    ensures r.Success? && Valid(fs) ==> Valid(r.value)
  {
    if Fails(fs, RenameOp, src) then Failure(Denied(src))
    else if src !in fs.files then Failure(NotAFile(fs, src))
    else if src == dst then Success(fs)
    else match Store(fs, dst, fs.files[src])
      case Failure(e) => Failure(e)
      case Success(written) => Success(written.(files := written.files - {src}))
  }

  /** In a valid state, a directory's ancestors are all directories. */
  lemma {:induction false} ValidChain(fs: FileSystem, d: Path)
    requires Valid(fs) && d in fs.dirs
    ensures Chain(d) <= fs.dirs
    decreases |d|
  {
    if Parent(d) != "" {
      ValidChain(fs, Parent(d));
    }
  }
}
