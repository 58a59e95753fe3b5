# Travel Budget Planner build tools, modelled in Dafny

The repository ships two small Node scripts around its Google Apps Script
sources:

- **combine-modules.js** concatenates the Apps Script modules into one
  `Code.gs`. The modules are taken in a fixed dependency order (`MODULE_ORDER`).
  The file starts with a generated header that carries a timestamp. Each
  module then gets its own section: a banner that names the module's
  basename between two lines of eighty `=`, the module's text copied
  verbatim, and a newline. A failed read ends the process with status 1
  before anything is written. The single write happens only after every read
  has succeeded.
- **reorganize-script.js** moves the flat `*-module.js` files into the nested
  `src/...` layout (`fileMapping`). `main()` works in three phases:
  1. It makes a `backup-<timestamp>` directory, with ':' and '.' in the
     timestamp replaced by '-'. It uses a plain, non-recursive `mkdir`, so an
     existing directory of that name is fatal.
  2. It copies every mapping key that exists into that directory.
  3. `createDirectories` makes each of four directories with a recursive
     `mkdir`, skipping the ones that exist.

  `moveFiles` then renames each source that exists to its destination. It
  warns about missing sources and catches per-entry errors. The backup and
  directory phases have no `try`, so any error there ends the process.

The model replaces Node's `fs` with an abstract file system (`FileSystem`).
It holds a map from path to content, a set of directories, and a set of
faulty calls: a pair of an operation and a path whose call is refused with
`Denied` before it changes anything. A refused `existsSync` does not throw;
it reports that nothing is there. It replaces `path` with
string functions on slash-separated paths (`Paths`). Every step of both
scripts is a pure function over that state.

- **Combiner.** The output text is `Combine` and the run is the method
  `CombineModules`. The run returns the status, the final state and the
  trace of file accesses.
- **Reorganizer.** A fatal error is a `Crash` that carries the state the
  process left behind. A finished run carries the state and one report per
  mapping entry.
- **Tables.** The scripts' constant tables are checked against each other
  and instantiated in the clean-run theorem for `main()`.

Two facts about the code shape the reorganizer model:

- `createDirectories` makes the four directories of the fixed literal list
  at reorganize-script.js:27-32.
- The backup `mkdirSync` and `copyFileSync` calls (reorganize-script.js:65-72)
  have no `try`, so an error in either ends the process.

## Model

| member | source | states |
|---|---|---|
| Combiner.Repeat | combine-modules.js:54-56 | `'='.repeat(n)` has length n and every character is `=` |
| Combiner.Header | combine-modules.js:41-45 | the header is as long as the lead, the timestamp and the tail together, and begins with the lead |
| Combiner.Banner | combine-modules.js:54-56 | a module's banner is two separator lines, 22 fixed characters and the module's basename long |
| Combiner.Section | combine-modules.js:54-59 | a module's section begins with its banner, ends with a newline, and has the section size |
| Combiner.Sections | combine-modules.js:48-65 | the sections of all modules together are as long as the sum of the section sizes |
| Combiner.Combine | combine-modules.js:38-59 | the generated file begins with the header and is as long as the header plus every section |
| Combiner.CodeGsSizes | combine-modules.js:41-56 | the fixed header is 97 characters before the timestamp and 6 after it, and the separator is 80 `=`, so every banner is 182 characters plus the basename |
| Combiner.HeaderLayout | combine-modules.js:41-45 | the header is the fixed lead, then the timestamp, then the fixed tail, at those offsets |
| Combiner.SectionLayout | combine-modules.js:54-59 | a module's section is its banner, its text verbatim at the banner's end, and a final newline |
| Combiner.SectionsAppend | combine-modules.js:48-59 | the sections of two module lists in sequence are the two lists' sections concatenated |
| Combiner.CombineAppend | combine-modules.js:48-59 | appending a module to the input appends exactly its section to the output |
| Combiner.CombineLength | combine-modules.js:41-59 | the output is as long as the header plus, for each module, two separator lines, 22 fixed banner characters, the basename, the text and one newline |
| Combiner.CombineStartsWithHeader | combine-modules.js:41-45 | the output begins with the header, whose only variable part, the timestamp, sits right after the lead |
| Combiner.CombineEmbedsSection | combine-modules.js:53-59 | module i's section occupies exactly the output between the starts of sections i and i+1, and is banner + text + newline |
| Combiner.CombineEmbedsVerbatim | combine-modules.js:58-59 | reading the output back past module i's banner recovers the module's text exactly |
| Combiner.CombineAround | combine-modules.js:48-59 | the output is what precedes module i, then module i's section, then the sections of the later modules |
| Combiner.SectionsInOrder | combine-modules.js:48 | for i < j, module i's section ends before module j's starts: sections follow input order |
| Combiner.TimestampIsOnlyDifference | combine-modules.js:44 | two runs over the same modules agree everywhere outside the timestamp: the same prefix before it and the same suffix after it |
| Combiner.CodeGsOutput | combine-modules.js:41-59 | in `Code.gs` the fixed lead fills the first 97 characters and the timestamp follows it; the file is 103 characters plus the timestamp plus, for each module, 183 characters plus its basename and its text |
| Combiner.ModuleOrderWellFormed | combine-modules.js:11-31 | the module order has twelve distinct paths and ends with `src/main.gs` |
| Combiner.FirstUnreadable | combine-modules.js:48-64 | the index of the first module whose read fails: every earlier one is readable, and that one is not |
| Combiner.CombineModules | combine-modules.js:37-75 | on the first failed read: failure, reads only up to that module, no write, state unchanged; with all reads done: exactly one write of `Combine` of the modules read, success if it succeeds, failure with the state unchanged if it fails |
| Combiner.ExitCode | combine-modules.js:61-74 | the process exits with 1 exactly when the run failed and with 0 exactly when it succeeded |
| Paths.Basename | combine-modules.js:55 | `path.basename` has no '/' and is no longer than the path |
| Paths.BasenameIsLastSegment | combine-modules.js:55 | a path without a trailing '/' is its parent, '/', and its basename, or its basename alone when it has no '/' |
| Paths.Join | reorganize-script.js:70 | `path.join(dir, file)` is `dir`, one '/', then `file`, and nothing else |
| Paths.JoinSplits | reorganize-script.js:70 | `path.join(dir, file)` of a flat file name has parent `dir` and last segment `file` |
| Paths.JoinInjective | reorganize-script.js:70 | different keys are copied to different backup paths |
| Paths.Chain | reorganize-script.js:36 | the directories a recursive `mkdir` of d ensures: d, only prefixes of d, never the working directory |
| Paths.ChainAncestors | reorganize-script.js:36 | every other directory that recursive `mkdir` of d ensures is an ancestor of d: a prefix ending just before one of d's '/'s, never a partial segment |
| Paths.ChainClosed | reorganize-script.js:36 | every directory a recursive `mkdir` makes has its parent made too or is at the top |
| FileSystem.Exists | reorganize-script.js:35 | `existsSync` reports only a path that is there, reports every such path unless its check is refused, never reports one whose check is refused, and in a valid state never reports the working directory or a path outside a directory |
| FileSystem.ReadFile | combine-modules.js:51 | `readFileSync` succeeds exactly on a file whose read is not refused and returns its content; a directory gives EISDIR |
| FileSystem.WriteFile | combine-modules.js:69 | `writeFileSync` succeeds exactly when it is not refused, the parent is a directory and the path is not a directory; it changes only that file |
| FileSystem.MakeDir | reorganize-script.js:65 | a non-recursive `mkdirSync` fails with EEXIST on an existing path and otherwise adds just that directory |
| FileSystem.MakeDirAll | reorganize-script.js:36 | a recursive `mkdirSync` succeeds exactly when it is not refused and no ancestor is a file, and adds the whole ancestor chain |
| FileSystem.CopyFile | reorganize-script.js:70 | `copyFileSync` succeeds exactly when the source is a file, the copy is not refused and the destination can hold a file; it puts the source's content there and changes nothing else |
| FileSystem.Rename | reorganize-script.js:47 | `renameSync` moves the content to the destination, removes the source, keeps every other file, and succeeds exactly when the source is a file, the rename is not refused and the destination can hold a file |
| FileSystem.ValidChain | reorganize-script.js:35-36 | an existing directory already has all of its ancestors, so skipping it loses nothing |
| Reorganizer.Sources | reorganize-script.js:68 | `Object.keys(fileMapping)` in declaration order |
| Reorganizer.Targets | reorganize-script.js:10-23 | the mapping's values in declaration order |
| Reorganizer.Sanitize | reorganize-script.js:63 | `replace(/[:.]/g, '-')`: same length, no ':' or '.', each ':' or '.' becomes '-', every other character is kept |
| Reorganizer.SanitizeIdempotent | reorganize-script.js:63 | replacing twice is replacing once |
| Reorganizer.SanitizeFixedPoints | reorganize-script.js:63 | the replacement leaves a timestamp unchanged exactly when it has no ':' and no '.' |
| Reorganizer.BackupName | reorganize-script.js:63-64 | the backup directory is `backup-` followed by the sanitized timestamp, has no ':' or '.', and is flat when the timestamp is |
| Reorganizer.CopyExisting | reorganize-script.js:68-72 | the backup loop never changes directories; a crash names an existing key; when no key exists nothing changes |
| Reorganizer.CopyExistingSnapshot | reorganize-script.js:68-72 | the loop only adds copies named after keys under the backup directory, finished or crashed; when finished every existing key has its copy with the same content |
| Reorganizer.CopyExistingSucceeds | reorganize-script.js:68-72 | the backup loop finishes when the backup directory exists, no call is refused and no key or copy path is a directory |
| Reorganizer.Backup | reorganize-script.js:63-72 | an existing backup directory crashes with EEXIST and nothing changed; a finished backup adds the backup directory and no other |
| Reorganizer.Ancestry | reorganize-script.js:27-36 | every listed directory is among those the recursive `mkdir`s may create |
| Reorganizer.CreateDirectories | reorganize-script.js:26-40 | only directories are added, and only listed ones or their ancestors; on success every listed directory is there; a crash names a listed directory that `existsSync` did not report |
| Reorganizer.CreateDirectoriesNoOp | reorganize-script.js:34-39 | when every listed directory is reported by `existsSync`, or its `mkdir -p` is allowed and finds the whole chain made, nothing changes |
| Reorganizer.CreateDirectoriesSettles | reorganize-script.js:34-39 | after a finished `createDirectories` every listed directory is in that state |
| Reorganizer.ExistsFaultReachesMkdir | reorganize-script.js:34-36 | a directory that is there but whose existence check is refused is handed to `mkdir -p`; a refused `mkdir` of it then ends the process |
| Reorganizer.AncestryClosed | reorganize-script.js:36 | what the recursive `mkdir`s create is closed under taking parents |
| Reorganizer.CreateDirectoriesSucceeds | reorganize-script.js:34-39 | with no refused `mkdir` and no file in the way, the phase finishes and every listed directory and ancestor is a directory |
| Reorganizer.CreateDirectoriesIdempotent | reorganize-script.js:34-39 | running `createDirectories` a second time gives the same state as running it once |
| Reorganizer.MoveOne | reorganize-script.js:45-54 | an entry is reported missing exactly when its source does not exist, moved exactly when the rename succeeds, and a caught error leaves the state as it was |
| Reorganizer.MoveFiles | reorganize-script.js:43-56 | one report per entry in declaration order, whatever failed before; directories never change; files that are no source stay |
| Reorganizer.RenameFaultIsCaught | reorganize-script.js:45-54 | a refused rename of a source `existsSync` reports is caught and reported as failed, and the state is as before |
| Reorganizer.ExistsFaultIsMissing | reorganize-script.js:46-51 | a source file whose existence check is refused is reported missing and stays where it is |
| Reorganizer.MoveOneFrame | reorganize-script.js:47 | a move changes files only at its source and destination; the destination gets the source's content and the source is gone |
| Reorganizer.MoveOneKeepsOthers | reorganize-script.js:44-55 | a move does not change whether an unrelated entry is missing or movable |
| Reorganizer.FirstMoveKeepsOthers | reorganize-script.js:44-55 | after the first of independent entries, every later entry is missing or movable exactly as at the start |
| Reorganizer.MoveFilesReports | reorganize-script.js:44-55 | for independent entries: reported missing ⇔ source absent at the start; reported moved ⇔ movable at the start |
| Reorganizer.MoveFilesEffect | reorganize-script.js:46-48 | every movable source's content lands at its destination and the source is gone; every path no move touches keeps its file |
| Reorganizer.Prepare | reorganize-script.js:62-77 | the phases before the moves: an existing backup directory is fatal at once; on success the backup directory and every listed directory exist; only those and ancestors are added |
| Reorganizer.PrepareSnapshot | reorganize-script.js:65-77 | the phases before the moves only add backup copies, finished or crashed, and when finished every existing key has its copy |
| Reorganizer.PrepareKeepsFlatPaths | reorganize-script.js:65-77 | a flat path that is not the backup or a created directory is after those phases exactly as before |
| Reorganizer.FlatFileKept | reorganize-script.js:68-72 | the backup loop leaves every top-level file exactly as it was |
| Reorganizer.Reorganize | reorganize-script.js:59-83 | an existing backup directory is fatal with nothing changed; a finished run records the backup directory, has it and every listed directory that is not a source, and one report per entry in order; a crash keeps the faults |
| Reorganizer.Main | reorganize-script.js:59-83 | `main()` with the script's own tables: fatal on an existing backup directory, and a finished run has twelve reports |
| Reorganizer.ReorganizeCrashesBeforeMoves | reorganize-script.js:65-80 | a crash leaves every original file as it was, plus only backup copies: no move has happened |
| Reorganizer.ReorganizeKeepsBackup | reorganize-script.js:68-80 | after a finished run the backup still holds the original content of every key that existed |
| Reorganizer.ReorganizeMoves | reorganize-script.js:77-80 | after a finished run: missing ⇔ source absent at the start; each moved entry's destination holds the original content and its source is gone |
| Reorganizer.PrepareClean | reorganize-script.js:63-77 | from a clean start the backup and directory phases finish and every directory to create exists |
| Reorganizer.ReorganizeClean | reorganize-script.js:59-83 | from a clean start the run finishes and each entry is moved exactly when its source file existed, reported missing otherwise |
| Tables.ParentOfSpelled | reorganize-script.js:11-22 | a destination written as dir + '/' + file has parent dir |
| Tables.ChainOfConfig | reorganize-script.js:28 | the recursive `mkdir` of `src/config` creates exactly `src/config` and `src` |
| Tables.SrcIsCreated | reorganize-script.js:27-36 | `src`, which no listed directory names, is created as an ancestor |
| Tables.TargetParentsCovered | reorganize-script.js:10-36 | every destination's parent is a listed directory or an ancestor the recursive `mkdir` creates; one step per entry, each a lemma `ParentOfTarget0` … `ParentOfTarget11` naming that entry's directory |
| Tables.AncestryPrefixes | reorganize-script.js:36 | whatever the recursive `mkdir`s create is a non-empty prefix of a listed directory |
| Tables.TargetDirectoriesShape | reorganize-script.js:27-32 | the listed directories are non-empty, start with 's' and have no '.' |
| Tables.AncestryKeepsShape | reorganize-script.js:36 | the created ancestors keep the listed directories' first character and lack of '.' |
| Tables.CreatedShape | reorganize-script.js:27-36 | no created directory can be the backup directory (`b...`) or a mapping path (which has a '.') |
| Tables.SourcesDistinct | reorganize-script.js:10-23 | the mapping's keys are pairwise different |
| Tables.TargetsDistinct | reorganize-script.js:10-23 | the mapping's values are pairwise different |
| Tables.SourcesAreNotTargets | reorganize-script.js:10-23 | no key is any entry's value |
| Tables.FileMappingIndependent | reorganize-script.js:10-23 | twelve entries, pairwise independent |
| Tables.SourcesFlat | reorganize-script.js:11-22 | every key is a flat file name |
| Tables.FileMappingDotted | reorganize-script.js:10-23 | every key and value has an extension |
| Tables.TargetsAreModuleOrder | reorganize-script.js:10-23 | the mapping's values are `MODULE_ORDER` of combine-modules.js with its second and fourth entries swapped, so the same multiset of paths |
| Tables.MainSeparated | reorganize-script.js:63-80 | for any timestamp without '/', the backup, created directories and moved files cannot collide |
| Tables.MainCleanStart | reorganize-script.js:59-83 | the clean-run hypotheses on the starting state meet the generic clean-start condition for the script's tables |
| Tables.MainCleanOutcomes | reorganize-script.js:59-83 | from a clean start `main()` finishes and moves exactly the sources that exist |
| Tables.MainCleanRun | reorganize-script.js:59-83 | from a valid state with no faults, a fresh backup name, no file where a directory goes and no mapping path that is a directory, `main()` finishes and each entry is moved exactly when its source existed, reported missing otherwise |
| Tables.MainFinished | reorganize-script.js:68-80 | whenever `main()` finishes, each moved file's content is at its destination and its source is gone, and the backup holds a copy of every source that existed |

## Left out

- Console output (`console.log`, `console.warn`, `console.error`): diagnostic only. A move's message is kept as its `MoveOutcome`.
- The clock: `new Date().toISOString()` is the `timestamp` parameter. The clean-run theorems only ask that it contain no '/', which an ISO timestamp never does.
- Process exit: the combiner's `process.exit(1)` is a `Failure` status, which `ExitCode` maps to 1. The reorganizer never calls `process.exit`; an exception that `mkdirSync` or `copyFileSync` throws uncaught (reorganize-script.js:36, 65, 70) ends it with status 1, and that is a `Crash`.
- The entry-point wiring: `require.main`, `__dirname` and `module.exports` (combine-modules.js:77-83) and the top-level `main()` call (reorganize-script.js:86). The combiner's output path is a parameter.
- UTF-8 decoding: file contents are the decoded text. `readFileSync(p, 'utf8')` replaces malformed bytes rather than failing, so decoding never fails.
- Causes of I/O failure other than the file system's shape (permissions, a locked file): the `faulty` set of refused calls. Each refused call fails with `Denied` before any change, except `existsSync`, which reports false instead.
- Combiner.CombineModules: a write that fails after `writeFileSync` has opened and truncated `out`, such as on a full disk, leaves `out` empty or partly written in the script. The model has no such fault: its failed write leaves `out` unchanged. Strings are also unbounded in the model, so two failures of the script are not modelled. One is the `RangeError` that `combinedContent += …` (combine-modules.js:54-59) throws once the text passes the engine's maximum string length, which is caught at lines 61-63 and ends the run with status 1 before any write. The other is `readFileSync`'s `ERR_STRING_TOO_LONG` on a module too large for one string. In the model every run whose reads and write succeed is a success.
- `renameSync` onto an existing file: the model chooses POSIX overwrite semantics. A destination directory is an error, and so is a directory source, because moving whole directory trees is not modelled.
- `path.join` normalisation (`.`, `..`, duplicate slashes): paths are compared as strings. `Join` is only used with flat file names.
- `Reorganizer.Main`: its own contract states only the fatal case and the report count. The entry-by-entry outcomes for the script's tables are proved about it in `Tables.MainCleanRun` and `Tables.MainFinished`.
