# Folder synchronization pass, modelled in Dafny

The program keeps a replica folder as a one-way mirror of a source folder. It
checks its command line (`ValidateArguments`), then runs `SyncFolder` once and
again on every timer tick. A pass is four sweeps in a fixed order. Each sweep
walks a listing taken at its start:

1. Create every source directory that is missing in the replica.
2. Copy every source file whose replica is missing. Overwrite a replica file
   whose MD5 digest string differs from the source's.
3. Delete, with its contents, every replica directory that has no source
   directory.
4. Delete every replica file that has no source file.

A path is carried from one tree to the other with `String.Replace(root,
otherRoot)`. Every action appends a line to the log file. The first exception
ends the pass, and whatever was already done stays done.

The project has six modules, one per file:

- `Wrappers` (wrappers.dfy) is the optional value shared by the other
  modules.
- `Strings` (strings.dfy) is .NET's ordinal `String.Replace`. It has lemmas on
  root substitution, the round trip, and the rewriting of every occurrence.
- `Digests` (digests.dfy) is the digest text of `CalculateMD5`:
  `BitConverter.ToString`, dash removal and `ToLowerInvariant`. It is proved
  equal to a plain two-hex-digits-per-byte encoding, which is 32 lower-case
  hex digits long and injective.
- `Arguments` (arguments.dfy) is `ValidateArguments` with `int.TryParse`.
- `FileSystem` (filesystem.dfy) is the disk.
  - It is a map from absolute paths to directories and files, plus a set of
    paths on which every access fails (permission denied, device errors).
  - Each .NET call is a function that gives the new disk or the exception
    .NET throws. This covers the `Directory` and `File` calls plus the
    recursive listings.
- `Sync` (sync.dfy) is the pass.
  - Each sweep is a method with a `while` loop over its listing. The state
    the loop updates is a `Run`: the disk, the log and the exception that
    ended the pass.
  - Each loop body is a step function, proved to keep a progress invariant.

What is proved about the pass:

- **The pass stays on the replica side.** Every pass only changes entries
  below the replica root or above it. This holds whether or not it fails.
  The log only grows, and nothing in the source tree changes when the roots
  are disjoint. The log file is taken to lie outside both trees (see
  "Left out").
- **The log tells what happened.** The lines of a pass come sweep by sweep.
  A "deleted" line names a path that is gone at the end. When the pass
  stops in sweep 1 or 2, nothing was removed and every "created", "copied"
  or "updated" line names an entry still there.
- **Convergence.** Suppose the disk is regular:
  - the roots are disjoint and both exist;
  - the disk is a tree;
  - neither root's text reappears inside a relative path, so that `Replace`
    is a prefix swap.

  Then a pass that ends without an error leaves a mirror. Every source
  directory and file has its replica, with agreeing digest strings, and
  nothing in the replica lacks a source. `MirrorsSameTree` spells this out
  relative path by relative path. Files are compared by MD5, so equal bytes
  follow only when no two files on the disk have colliding digests.
- **Idempotence.** On a mirror, a pass changes nothing and logs nothing.
  After a pass without an error, the next pass does nothing (`SyncTwice`).
  This too assumes the log file lies outside both trees.
- **Regularity.** Every pass, failed or not, keeps a regular disk regular.

Three behaviours of the code fall short of what the comment at line 126 sets
out, to synchronize the replica folder with the source folder. The model
follows the code and proves each of them:

- **Nested orphans end the pass.** Sweep 3 deletes an orphan directory with
  everything below it. It then still visits the orphan's subdirectories from
  its listing, and `Directory.Delete` on one of them throws
  `DirectoryNotFoundException`. So a replica holding an orphan directory with
  a directory below it makes the pass fail before sweep 4, and orphan files
  stay in the replica for that pass. The comment at line 167 asks for
  exactly those directories to be deleted, and one already removed with its
  parent needs no second delete. This is proved in
  `DeleteOrphanDirectories`, `PrunedNotNested`, `DeletePhase` and
  `SyncFolder`. The next pass no longer sees the nested directory.
- **A file/directory clash makes every pass fail.** Say a source directory's
  replica path holds a file, or a source file's replica path holds a
  directory. Then `Directory.CreateDirectory` (sweep 1) or `File.Copy`
  (sweep 2) throws. The sweeps that would remove the offending replica entry
  never run, and the clash is still there for the next pass. A one-way
  mirror would replace the offending entry. Here the replica never
  converges: see `ClashAfterCreate`, `ClashAfterCopy`, `SyncFolder` and
  `SyncTwice`.
- **`Replace` rewrites every occurrence of the root text, not only the
  leading root.** A source root `/data` with a file `/data/datafile` maps it
  to replica-root + replica-root + `file` (`RootTextRepeated`). The file
  then lands at a path with no counterpart in the source tree, where a
  mirror would place it at replica-root + `/datafile`. The convergence
  theorems therefore hold for a regular disk only.

## Model

| member | source | states |
|---|---|---|
| Strings.ReplaceRoot | veeamTestTask/Program.cs:134 | When the root text occurs in a path only as its leading prefix, `Replace(root, other)` swaps the root and keeps the rest verbatim. |
| Strings.ReplaceRoundTrip | veeamTestTask/Program.cs:170 | Mapping a source path to the replica (line 134) and back (line 170) gives the original path, when neither root text occurs in the relative part. |
| Strings.ReplaceLeftmost | veeamTestTask/Program.cs:146 | `Replace` rewrites every occurrence: the text before the leftmost occurrence is kept, that occurrence is replaced, and the rest of the string is scanned again. |
| Strings.RootTextRepeated | veeamTestTask/Program.cs:182 | A relative part that starts again with the root text has it rewritten as well, so the path lands on a different name than the root swap would give. |
| Digests.HexStringIsLowerHex | veeamTestTask/Program.cs:206 | `BitConverter.ToString`, then `Replace("-", "")`, then `ToLowerInvariant` yields exactly two lower-case hex digits per byte, with nothing between them. |
| Digests.DigestStringFormat | veeamTestTask/Program.cs:206 | The digest string of a 16-byte MD5 digest is 32 characters, each a lower-case hex digit. |
| Digests.DigestStringInjective | veeamTestTask/Program.cs:206 | Two digests give the same string if and only if they are the same bytes, so the comparison of line 159 is a comparison of digests. |
| Arguments.ParseInt32 | veeamTestTask/Program.cs:90 | `int.TryParse` accepts a value only inside the 32-bit signed range. |
| Arguments.ParseDecimal | veeamTestTask/Program.cs:90 | The decimal form of every number up to `int.MaxValue` parses back to that number. |
| Arguments.ParseNegative | veeamTestTask/Program.cs:90 | A minus sign before the decimal form of a number down to `int.MinValue` parses to its negation. |
| Arguments.ValidateArguments | veeamTestTask/Program.cs:62-96 | Validation succeeds if and only if there are four arguments, the first, second and fourth resolve to full paths, and the third parses as a positive 32-bit integer; the settings are then exactly those resolved paths and that interval. Any count other than four is refused as such, and a path refusal happens exactly when one of the three paths does not resolve. |
| Arguments.AcceptsPositiveInterval | veeamTestTask/Program.cs:77-95 | With four arguments, three resolvable paths and a positive 32-bit interval in decimal, validation succeeds with the resolved paths and that interval. |
| Arguments.RejectsNonPositiveInterval | veeamTestTask/Program.cs:90-94 | Four arguments whose third is `0` or a minus sign before the decimal form of a number down to `int.MinValue` are refused, whatever the paths; with resolvable paths the refusal is for the interval. |
| FileSystem.CreateDirectory | veeamTestTask/Program.cs:138 | Succeeds if and only if no file stands on the path or above it and no missing directory is inaccessible. Then it keeps every entry, makes the path and all its ancestors directories, adds nothing else, and keeps a tree a tree. |
| FileSystem.Copy | veeamTestTask/Program.cs:150 | Succeeds if and only if the source is a readable file, the target's directories exist, and the target is no directory and is writable. Without overwrite, the target must also be absent. The result is the old disk with the target holding the source's bytes. |
| FileSystem.DeleteDirectory | veeamTestTask/Program.cs:174 | Succeeds if and only if the path is a directory and nothing in its subtree is inaccessible. Then exactly the subtree is removed, and a tree stays a tree. |
| FileSystem.DeleteFile | veeamTestTask/Program.cs:186 | A missing file is no error; a directory in its place, an inaccessible path or a missing parent is. On success exactly that path is removed. |
| FileSystem.ReadFile | veeamTestTask/Program.cs:203 | `File.OpenRead` succeeds if and only if the path is a readable file, and then yields its bytes. |
| FileSystem.ListDirectories | veeamTestTask/Program.cs:132 | The recursive listing fails if and only if the root, or a directory below it, cannot be opened. Otherwise it is exactly the directories below the root. |
| FileSystem.ListFiles | veeamTestTask/Program.cs:144 | The recursive listing fails under the same condition. Otherwise it is exactly the files below the root. |
| Sync.CalculateMD5 | veeamTestTask/Program.cs:199-209 | Succeeds if and only if the file is readable, and then yields the 32-character digest string of its contents. |
| Sync.Enumerate | veeamTestTask/Program.cs:168 | A listing holds each path of the set exactly once, and a directory comes before everything below it. |
| Sync.MappedUnder | veeamTestTask/Program.cs:146 | Whatever the paths, `Replace` carries an entry below the source root to a path below the replica root. |
| Sync.MapInjective | veeamTestTask/Program.cs:134 | On a regular disk, distinct source entries are carried to distinct replica paths. |
| Sync.CreateStep | veeamTestTask/Program.cs:134-140 | An existing replica directory is left alone with no log line. Otherwise the step fails exactly when `CreateDirectory` does and changes nothing. On success it logs exactly one "created" line for the replica path. |
| Sync.CreateMissingDirectories | veeamTestTask/Program.cs:131-141 | Sweep 1 only adds directories below or above the replica root and keeps a tree a tree. It does nothing when every source directory is mirrored. On a regular disk, every added directory is logged and has a source directory, and success means every source directory has its replica directory. |
| Sync.CreatedRegular | veeamTestTask/Program.cs:131-141 | Sweep 1 keeps a regular disk regular, whether or not it fails. |
| Sync.CopyStep | veeamTestTask/Program.cs:146-163 | A failure changes nothing. On a well-formed disk, success holds if and only if the source file is readable, the replica path is no directory and is writable, and its directories exist. The disk either stays the same with no log line, or becomes the old disk with the replica holding the source bytes plus exactly one "copied" (new) or "updated" (existing) line. An existing replica is rewritten if and only if the digest strings differ. |
| Sync.CopyFiles | veeamTestTask/Program.cs:143-165 | Sweep 2 only writes logged files below the replica root, never over a directory, and removes nothing. It does nothing when every file is mirrored. On a regular disk, success means every source file has a replica with the same digest string, and mirrored directories stay mirrored. |
| Sync.CopiedRegular | veeamTestTask/Program.cs:143-165 | Sweep 2 keeps a regular disk regular, whether or not it fails. |
| Sync.DeleteDirStep | veeamTestTask/Program.cs:170-176 | A replica directory with a source directory is left alone. An orphan is deleted together with exactly its subtree and one "deleted" line, and the step fails exactly when `Directory.Delete` does (in particular when the orphan is already gone). |
| Sync.DeleteOrphanDirectories | veeamTestTask/Program.cs:167-177 | Sweep 3 only removes entries below the replica root, and each logged directory is gone. On a regular disk it removes only entries without a source counterpart. It does nothing when there is no orphan. Success on a regular disk leaves no orphan directory and keeps mirrored directories. On a regular disk, an orphan directory with a directory below it makes the sweep fail. |
| Sync.PrunedNotNested | veeamTestTask/Program.cs:168-176 | On a regular disk, a sweep 3 that visited every replica directory parents-first without an error cannot have started from an orphan with a directory below it. |
| Sync.PrunedRegular | veeamTestTask/Program.cs:167-177 | Sweep 3 keeps a regular disk regular, whether or not it fails. |
| Sync.PrunedKeepsFiles | veeamTestTask/Program.cs:167-177 | On a regular disk, sweep 3 never removes a replica file whose source file exists, so mirrored files stay mirrored. |
| Sync.DeleteFileStep | veeamTestTask/Program.cs:182-188 | A replica file with a source file is left alone. Otherwise the step succeeds if and only if `File.Delete` does, and then removes exactly that file with one "deleted" line. |
| Sync.DeleteOrphanFiles | veeamTestTask/Program.cs:179-189 | Sweep 4 only removes logged replica files, on a regular disk only those without a source file. It does nothing when there is no orphan file. Success on a regular disk leaves no orphan file. |
| Sync.OrphanFilesEnd | veeamTestTask/Program.cs:179-189 | Sweep 4 keeps a regular disk regular, and keeps mirrored directories, mirrored files and the absence of orphan directories. |
| Sync.NestedOrphanSurvives | veeamTestTask/Program.cs:131-165 | On a regular disk, sweeps 1 and 2 neither remove a replica directory nor give an orphan a source, so a nested orphan is still there for sweep 3. |
| Sync.ClashAfterCreate | veeamTestTask/Program.cs:138 | Sweep 1 keeps a file/directory clash. When a file stands where a source directory's replica should be, sweep 1 cannot end with every directory mirrored. |
| Sync.ClashAfterCopy | veeamTestTask/Program.cs:148-150 | On a regular disk, sweep 2 keeps a directory that stands where a source file's replica should be, so it cannot end with every file mirrored. |
| Sync.CopyPhase | veeamTestTask/Program.cs:131-165 | Sweeps 1 and 2 together stay on the replica side, remove no entry and keep a regular disk regular. Their log lines come sweep by sweep and each names an entry still there at the end, whether or not they fail. They do nothing on a mirror. On a regular disk: success mirrors every directory and file and leaves a nested orphan in place, and a clash makes them fail and stays. |
| Sync.DeletePhase | veeamTestTask/Program.cs:167-189 | Sweeps 3 and 4 together stay on the replica side and keep a regular disk regular. Their log lines come sweep by sweep and each names a path that is gone at the end. They do nothing when there is no orphan. On a regular disk: success leaves no orphan and keeps what was mirrored, and a nested orphan makes them fail before sweep 4 has logged anything. |
| Sync.SyncFolder | veeamTestTask/Program.cs:127-196 | The log only grows, and a pass's lines come sweep by sweep. Changes stay below or above the replica root, and the source tree is untouched when the roots are disjoint. A mirror is left unchanged with no log line, and a regular disk stays regular. On a regular disk: a pass without an error leaves a mirror, a nested orphan makes the pass fail before any file is deleted, and a file/directory clash makes it fail and persists, removes no entry, and leaves every line of the pass a "created", "copied" or "updated" line whose entry is still there. |
| Sync.ConfinedKeepsSource | veeamTestTask/Program.cs:127-196 | A change confined to the replica side, with disjoint roots, leaves every path of the source tree as it was. |
| Sync.SyncTwice | veeamTestTask/Program.cs:36-40 | On a regular disk, after a pass without an error the next pass changes nothing and logs nothing. A file/directory clash makes both passes fail. |
| Sync.MirrorsSameTree | veeamTestTask/Program.cs:131-189 | On a regular mirror, every relative path is a directory on the source side if and only if it is one on the replica side, and likewise for files. When no two files on the disk have colliding digests, mirrored files hold the same bytes. |

## Left out

- The timer, the Ctrl+C handler and the quit loop (Program.cs lines 39-57) are concurrency and console I/O. Two timer ticks one after the other are modelled by `SyncTwice`. Overlapping passes are not modelled.
- `syncInterval * 1000` (line 41) overflows 32 bits for intervals above 2147483 seconds; the timer is not part of this model.
- `FolderExists` (lines 99-124) is start-up glue. Its outcome, both roots existing as directories, is part of the `Regular` assumption.
- The MD5 algorithm (lines 201-205) is a foreign call. The pass takes it as a function from file contents to a 16-byte digest.
- `Path.GetFullPath` (lines 79-81) is a platform call. Validation takes it as a function that resolves a path or fails.
- `Log` (lines 212-217): the timestamp, the console echo and the file append are I/O. A log line keeps the action and the full replica path, not the message text with `Path.GetFileName`. A failing log write, which would end the pass after the logged change, is not modelled.
- The console message of the caught exception (line 193) is not modelled. The exception itself is kept in the `Run` that the pass returns.
- Each filesystem call either succeeds completely or changes nothing. A recursive `Directory.Delete` or `Directory.CreateDirectory` that throws partway through is not modelled.
- `Directory.Exists` and `File.Exists` are modelled as seeing every entry. .NET also answers false for a path it is not allowed to inspect.
- Paths use '/' only, are case-sensitive, have no trailing separator, and have no links or length limits.
- The concrete enumeration order of .NET is left open. Only "each path once, a directory before its contents" is modelled.
- Other processes changing the trees during a pass are not modelled.
- The disk and the log file are shared mutable state in .NET. Here they are a value that each loop reassigns, so aliasing between them does not arise.
- `ParseInt32` uses the invariant-culture sign characters and the white space that `NumberStyles.Integer` allows. Culture-specific signs are not modelled.
- `ToLowerInvariant` is modelled on the ASCII letters, the only letters a digest string contains.
- SyncFolder: files are compared by their MD5 digest strings, so a mirrored file equals its source only up to digest collisions; `MirrorsSameTree` derives equal contents only for a disk without two colliding files.
- SyncFolder: the log file (`logFilePath`, line 216) is assumed to lie outside both trees. Inside the source tree, every logged action would change the source, and the next pass would copy the log again. Inside the replica tree, sweep 4 would delete it as an orphan and the log write of line 187 would recreate it, so no pass would ever be idempotent.
- SyncFolder: convergence, idempotence and clash persistence are proved only for a regular disk. Outside it, `Replace` may rewrite inner occurrences of a root's text and send a path to an unrelated place.
- CopyPhase: keeping a nested orphan is stated only for a copy phase that ends without an error, the only case in which sweep 3 runs.
- RejectsNonPositiveInterval: covers `0` and `-` followed by a decimal form without leading zeros, `-0` included. Other spellings of a non-positive number (`+0`, `-` followed by digits with leading zeros, surrounding white space) are covered by the if-and-only-if of `ValidateArguments`, which refuses every third argument that does not parse to a positive value.
