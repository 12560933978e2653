# System-Eternals scripts: a verified model

System-Eternals is a set of small maintenance scripts. This project models
the logic of four of them in Dafny and proves properties about it:

- **find_duplicate** walks a directory tree. It hashes every file by
  streaming it through MD5 in 4096-byte chunks, then groups the paths by hash.
  Every hash shared by more than one path is reported. The grouping runs
  either in one process or through a process pool; `main` prints the groups,
  or a "no duplicates" line when there are none.
- **find_video_length** picks the walked files ending in `.mp4`, `.avi` or
  `.mkv`. It formats a duration as hours, minutes and seconds, and splits
  the total runtime into seconds, minutes, hours and days.
- **rename_files** collects the walked files that match an exact name, a
  suffix or a prefix. It asks once for confirmation, then renames each one to
  `new_name` plus its original extension, in its original directory. Failures
  are counted out and skipped.
- **remove_files** uses the same selection and confirmation, then deletes
  each candidate. Failures are counted out and skipped.

The modules follow the scripts:
- `Walk` models the `os.walk` loop the scripts share.
- `Paths` models `os.path.join`, `dirname` and the extension half of
  `splitext`, with POSIX semantics.
- `FindDuplicate` and `FindVideoLength` model the first two scripts.
- `Selection` holds the criteria and the confirmation shared by the last two.
- `Files` models the file system as a mutable set of paths.
- `Rename` and `Remove` model the last two scripts.

The directory walk, the file contents, the hash function and the user's
answer are parameters.

One consequence is proved as `Rename.SiblingsCollide`. Two different
candidates in the same directory with the same extension get the same target.
If both renames succeed, the tree holds one file fewer than before, because
`os.rename` replaces an existing target on POSIX.

## Model

| member | source | states |
|---|---|---|
| Walk.CollectMatching | scripts/find_duplicate.py:88-91 | The walk loop collects exactly the joined paths of the accepted files, in walk order (`Select`). |
| Walk.SelectMembership | scripts/rename_files.py:24-34 | A path is collected iff some walked directory has a file, accepted by the test, whose joined path is that path. |
| Walk.SelectNoLonger | scripts/remove_files.py:21-30 | Filtering never yields more paths than the walk has files. |
| Paths.DirnameIsPrefix | scripts/rename_files.py:55 | `dirname` returns a prefix of the path, with no trailing separator unless it is all separators. |
| Paths.ExtIsSuffix | scripts/rename_files.py:56 | `splitext`'s extension is a suffix of the path: empty, or a dot followed by no dot and no separator. |
| Paths.DirnameOfJoin | scripts/rename_files.py:55-57 | Joining a directory name with a separator-free name, then taking `dirname`, gives the directory back. |
| Paths.ExtOfStemAndExt | scripts/rename_files.py:56-57 | A plain stem followed by an extension, after a directory prefix, has that extension. |
| FindDuplicate.BinaryFile.Open | scripts/find_duplicate.py:28 | Opening positions the file at byte 0. |
| FindDuplicate.BinaryFile.Read | scripts/find_duplicate.py:31 | `read(n)` returns the next `n` bytes, or fewer only at end of file, and advances the position past them. |
| FindDuplicate.HashAccumulator.constructor | scripts/find_duplicate.py:29 | A fresh accumulator has absorbed nothing. |
| FindDuplicate.HashAccumulator.Update | scripts/find_duplicate.py:34 | `update` appends the chunk to the absorbed bytes. |
| FindDuplicate.HashAccumulator.HexDigest | scripts/find_duplicate.py:35 | The digest is the hash of all bytes absorbed. |
| FindDuplicate.GetFileHash | scripts/find_duplicate.py:18-35 | The result is the hash of the file's whole content, or the open error for a missing file. The chunks read concatenate to the content; each has 1 to 4096 bytes and all but the last have 4096. |
| FindDuplicate.ProcessFile | scripts/find_duplicate.py:38-49 | Fails iff the path cannot be opened, with that path's error; otherwise returns the same path with its content's hash. |
| FindDuplicate.HashAllSpec | scripts/find_duplicate.py:64-67 | Hashing all paths succeeds iff every path can be opened, and then pairs each path with its hash, in order. Otherwise the error names the first path that cannot be opened. |
| FindDuplicate.HashAllKeepsFailure | scripts/find_duplicate.py:64-68 | Once a prefix of the paths has raised, the whole scan raises the same error. |
| FindDuplicate.SameDigestMembership | scripts/find_duplicate.py:68 | A path is in the list for `h` iff it was walked, can be read, and its content hashes to `h`. |
| FindDuplicate.GroupsBySameDigest | scripts/find_duplicate.py:62-68 | Before filtering, the list for each hash is exactly the walked paths with that hash, in walk order. A hash is a key iff some path has it. |
| FindDuplicate.EveryPathInItsOwnGroup | scripts/find_duplicate.py:62-68 | Every walked path is in the list of its own hash and in no other list. |
| FindDuplicate.ScanReportsSharedDigests | scripts/find_duplicate.py:70 | A hash is reported iff more than one walked path has it, and it is reported with all of those paths. |
| FindDuplicate.UniqueDigestNotReported | scripts/find_duplicate.py:70 | A file whose hash no other walked file shares is in no reported list. |
| FindDuplicate.TwoPathsSameDigest | scripts/find_duplicate.py:62-68 | Two distinct walked positions with the same hash put at least two paths in that hash's list. |
| FindDuplicate.IdenticalContentsGrouped | scripts/find_duplicate.py:62-72 | Two walked files with identical contents are reported together, under their common hash. |
| FindDuplicate.NoFilesNoDuplicates | scripts/find_duplicate.py:62-72 | A walk with no files reports an empty table. |
| FindDuplicate.ExampleWalkPaths | scripts/find_duplicate.py:64-66 | One directory "d" with three files walks to "d/a.txt", "d/b.txt", "d/c.txt". |
| FindDuplicate.ExampleHashes | scripts/find_duplicate.py:64-67 | Those three files hash in walk order to their contents' hashes. |
| FindDuplicate.ExampleGroups | scripts/find_duplicate.py:68 | The two copies share one list in walk order; the third file has its own list. |
| FindDuplicate.TwoCopiesAndOneOther | scripts/find_duplicate.py:52-72 | For two copies and one other file hashing differently, the finder reports exactly one group: the two copies, in walk order. |
| FindDuplicate.FindDuplicateFilesSingle | scripts/find_duplicate.py:52-72 | The single-process finder returns `Scan`: the shared-hash table characterised above, or the first open error in walk order. |
| FindDuplicate.PoolMap | scripts/find_duplicate.py:93-94 | The mapped results are the `(path, hash)` pairs in input order, or the first failure. |
| FindDuplicate.FindDuplicateFilesMulti | scripts/find_duplicate.py:75-101 | The pool-based finder also returns `Scan`, so both finders agree, down to the order within each list (in the program the raised error may differ when several files fail; see `PoolMap` under Left out). |
| FindDuplicate.FindAndReport | scripts/find_duplicate.py:137-159 | `main` prints the groups iff the table is non-empty. It prints the "no duplicates" line for an empty table, in particular for a walk with no files. An open error escapes. |
| FindVideoLength.DivMod | scripts/find_video_length.py:65-66 | Python's `divmod` by a positive divisor: `q * d + r == x` with `0 <= r < d`. |
| FindVideoLength.FormatTime | scripts/find_video_length.py:55-67 | Hours, minutes and seconds recombine to the input duration. Minutes lie in [0, 60) and seconds in [0, 60); hours are non-negative for a non-negative input. |
| FindVideoLength.NestedFloor | scripts/find_video_length.py:138-140 | Floor-dividing by `a` and then by `b` equals floor-dividing by `a * b`. |
| FindVideoLength.Breakdown | scripts/find_video_length.py:137-142 | Seconds are returned unchanged. Minutes lie in [0, 60) and hours in [0, 24). `days*1440 + hours*60 + minutes == floor(total/60)` and `days == floor(total/86400)`. |
| FindVideoLength.VideoFilesExactly | scripts/find_video_length.py:118-123 | A path is submitted iff the walk yields a file with that joined path whose name ends in ".mp4", ".avi" or ".mkv". |
| FindVideoLength.UpperCaseNotVideo | scripts/find_video_length.py:122 | The test is case-sensitive: a name ending in ".MP4" is not submitted. |
| Selection.CandidatesExactly | scripts/rename_files.py:24-34 | A path is a candidate iff the walk yields a file with that path that equals the given name, ends with the given suffix or starts with the given prefix. Each test applies only when its criterion is given. |
| Selection.NoCriteriaNoCandidates | scripts/remove_files.py:25-29 | With no criterion given, no file is a candidate. |
| Selection.CandidatesNoMoreThanFiles | scripts/remove_files.py:21-32 | There are never more candidates than walked files. |
| Selection.ConfirmsIff | scripts/rename_files.py:45-47 | The lower-cased answer equals "y" iff the answer is "y" or "Y". |
| Files.FileSystem.Remove | scripts/remove_files.py:53 | A successful `os.remove` removed a path that existed and nothing else. A failed one changes nothing. |
| Files.FileSystem.Rename | scripts/rename_files.py:58 | A successful `os.rename` removed an existing source and added the target, and nothing else. A failed one changes nothing. |
| Rename.NewFilePathKeepsDirAndExt | scripts/rename_files.py:55-57 | For a plain new name, the target has the original's directory and extension, and ends with the new name plus that extension. |
| Rename.RenamesTouchOnlyTheirPaths | scripts/rename_files.py:53-58 | A path that is neither a source nor a target of a successful rename is present afterwards iff it was before. |
| Rename.RenamesNeverGrow | scripts/rename_files.py:53-58 | Renames that each found their source present never increase the number of files. |
| Rename.TwoRenamesToOneTarget | scripts/rename_files.py:58 | Two different existing files renamed, in turn, to one target leave the target where both were, so there is one path fewer. |
| Rename.SiblingsCollide | scripts/rename_files.py:55-58 | Two different files with the same directory and the same extension get the same target; if both renames succeed, there is one path fewer. |
| Rename.RenamedFromEach | scripts/rename_files.py:53-58 | Every logged rename has a candidate as its source and that candidate's `NewFilePath` as its target. |
| Rename.PickedOnce | scripts/rename_files.py:53 | When the candidates are distinct, no candidate is picked twice. |
| Rename.PickedFrom | scripts/rename_files.py:53 | Everything picked in order is a candidate. |
| Rename.RenameEach | scripts/rename_files.py:51-64 | The successes are one pass over the candidates in order. They are the candidates at strictly increasing positions, at most one per candidate, and the log pairs each with its `NewFilePath`. The count is the number of successes. Each success found its source present in the files left by the renames before it, as `os.rename` demands. Without `new_name` nothing is renamed. The file set is the old set with those renames applied in that order. |
| Rename.RenameFiles | scripts/rename_files.py:16-70 | No candidates means no prompt and no change, as does giving no criterion. A non-confirming answer means no change. Otherwise the summary counts the candidates. The successes are candidates at strictly increasing positions, each renamed to its `NewFilePath` in that order, and each found its source present. The count is their number, and the tree never grows. Only candidates and their targets change. |
| Remove.RemoveFiles | scripts/remove_files.py:15-65 | No candidates means no prompt and no deletion, as does giving no criterion. A non-confirming answer means no deletion. Otherwise exactly the logged paths are gone: distinct candidates that existed, counted exactly. Every non-candidate file is still present. |

## Left out

- The MD5 algorithm is not modelled. The hash is a parameter of type `Bytes -> HexDigest`, and nothing assumes that different contents hash differently.
- The traversal of `os.walk` is not modelled: its order, symlinks, and permission errors on directories. The walk is an input sequence of `(root, files)` listings; a missing root is an empty walk.
- `os.path` is modelled with POSIX (`posixpath`) semantics. Windows paths (drive letters, `\` separators) are not modelled.
- File reads other than "the path is missing" are not modelled. Any failure to open a file is the single error `CannotOpen(path)`.
- The process pool in `find_duplicate_files_multi` is modelled as an order-preserving sequential map. Worker processes, pickling and chunking are left out.
- FindDuplicateFilesMulti: inherits the `PoolMap` simplification below; when several files fail, the program may raise a different file's error than the single-process finder.
- PoolMap: when several files fail, the pool may raise the error of whichever failing chunk finishes first. The model raises the error of the first failing path in input order.
- Dictionary iteration order (the order in which groups are printed) is not modelled; the table is a `map`.
- `find_video_length`'s `ThreadPoolExecutor`/`as_completed` aggregation is left out: the running `total_runtime` sum, the `total_videos` count, and the per-file error messages. The sum depends on completion order and on float addition.
- Durations are exact reals, not IEEE floats. Float rounding in `divmod`, `//` and `%` is not modelled.
- moviepy's `VideoFileClip`, `os.path.getsize` and `format_size` are foreign code or I/O, and are not modelled.
- All console output is left out: colorama colouring, the `:02d`/`:.2f` string formatting in `format_time`, and the printed lists and messages.
- argparse is not modelled, and neither is the `os.getcwd()` default for a missing target directory. The walk is given directly.
- `input()` is not modelled; the confirmation answer is a string parameter.
- Selection.Confirms: `str.lower()` is modelled for ASCII letters only. Unicode case mapping is not modelled.
- Files.FileSystem.Remove: why an `os.remove` fails (permissions, a directory, a file in use) is not modelled. The outcome is a nondeterministic choice, except that a missing path always fails.
- Files.FileSystem.Rename: why an `os.rename` fails is not modelled, beyond a missing source always failing. Replacing an existing target is modelled as POSIX does it.
- File contents are not carried through renames; the file system is a set of paths.
- `scripts/clear_temp.py` is not part of this model. It is platform-specific I/O plumbing whose counting loop repeats the one in `remove_files`.
