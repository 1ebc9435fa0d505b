# aofsync in Dafny

A model of the snapshot/diff/patch engine of aofsync ("Another Offline
File Sync Tool"), `aofsync/__init__.py`. The tool keeps two directory trees
in step without ever reaching both at once:

- `freeze` records the state of a source tree in a state file. The state
  maps each relative path to the SHA-1 of the file's content, or of only
  its first `max_hash_size` bytes.
- `diff` compares that file with the state the tree has now. It sorts the
  changes into adds, deletes and renames, and writes a diff package. The
  package is a `.delete` manifest, a `.rename` manifest and an `.add`
  directory holding the added files.
- `patch` replays a package on a destination tree. The steps run in this
  order: deletes (only when asked for), then renames, then a copy of every
  added file.

The filesystem is a map from relative path to content (`Snapshot.Tree`).
Python's insertion-ordered dict is `PyDict.Dict`, a key order plus a map.
The SHA-1 digest is a function parameter `digest`. The order in which
`os.walk` lists files is a parameter `walk`. The exclude test is a
predicate parameter. The destination of `patch` is a class, `Patcher.FileTree`,
whose `files` field the patch steps change in place.

Modules, leaf first:

| file | module | models |
|---|---|---|
| results.dfy | Results | `Option`, and `Result` for the exceptions that end a run |
| text.dfy | Text | `str.strip`, `str.find`, `str.split`, and `readlines()` in text mode |
| pydict.dfy | PyDict | dict assignment, and the inversion `{v: k for k, v in d.items()}` |
| paths.dfy | Paths | `os.path.join`, and the slice `path[len(top)+1:]` |
| hashing.dfy | Hashing | `calculate_file_sha1` and its prefix budget |
| snapshot.dfy | Snapshot | `generate_state`, `get_state_from_sources`, `freeze`, `get_state_from_file` |
| diff_engine.dfy | DiffEngine | `generate_diff` |
| package.dfy | DiffPackage | `diff`: the two manifests and the `.add` copy |
| patcher.dfy | Patcher | `patch` on a destination tree |
| sync.dfy | Sync | the whole cycle: freeze, diff, package, patch converge |

Behaviour of the code that the model keeps:

- Reverse index. When several current files share a checksum, the reverse
  index keeps the last one in dict order (`PyDict.InverseLastWins`).
- State-file lines. Each line is split with `split("  ", 2)`, so the path
  is the text up to a second two-space separator
  (`Snapshot.ParseStateLine`).
- Excludes. The walk matches excludes against the joined path, and the
  diff matches them against the relative key. The model has two separate
  predicates for these: `walkExcluded` and `excluded`.
- Rename targets. A rename onto a path that is new also lists that path as
  an add (lines 81-86). After renaming `b.txt` to `c.txt`, adding `d.txt`
  and deleting `a.txt`, the diff adds both `c.txt` and `d.txt`
  (`DiffEngine.SyncScenarioDiff`).
- Directories in `patch`. `os.rename` moves a whole directory, and
  `shutil.copy2` onto a directory writes the file inside it under its own
  name. `os.makedirs` fails when a file stands where a parent directory of
  a target should be.

## Model

| member | source | states |
|---|---|---|
| Hashing.HashedPart | aofsync/__init__.py:13-18 | the digested bytes are a prefix of the content: exactly `max_hash_size` bytes when the budget is positive and the file is long enough, the whole content otherwise |
| Hashing.CalculateChecksum | aofsync/__init__.py:10-20 | feeding the file to the hasher chunk by chunk, or reading one budget-sized prefix, digests exactly `HashedPart` of the content |
| Hashing.PrefixCollision | aofsync/__init__.py:13-15 | with a positive budget, two files that agree on their first `max_hash_size` bytes get the same checksum |
| Hashing.BudgetLosesInjectivity | aofsync/__init__.py:13-15 | with a positive budget there always exist two different contents with the same checksum |
| Hashing.FullFingerprintInjective | aofsync/__init__.py:17-20 | without a budget, equal checksums imply equal content whenever the digest is injective |
| Paths.Basename | aofsync/__init__.py:140 | `os.path.basename` returns the end of its input that follows its last "/", or all of it when there is none |
| Paths.BasenameOfJoin | aofsync/__init__.py:134-140 | a walked file's path under `.add` has the same basename as its path relative to `.add` |
| Paths.SliceFrom | aofsync/__init__.py:31 | Python's `s[n:]`: the length is `|s| - n`, or zero past the end, and each character is the one `n` places later in `s` |
| Paths.RelPathOfJoin | aofsync/__init__.py:26-31 | cutting the directory off a joined path gives back the relative path, for any directory name |
| Paths.RelPathAsWrittenWithoutTrailingSlash | aofsync/__init__.py:136-137 | the slice as written is right for a directory name without a trailing "/" |
| Paths.RelPathAsWrittenWithTrailingSlash | aofsync/__init__.py:24-31 | for a directory name ending in "/", the slice as written drops the first character of every relative path |
| Paths.RelPathAsWrittenCollides | aofsync/__init__.py:24-31 | under `src/` the files `ab` and `cb` are both recorded as `b`, while the corrected slice keeps them apart |
| PyDict.Dict.Set | aofsync/__init__.py:44 | dict assignment keeps the dict well formed: an existing key keeps its place, a new key goes last, and the key maps to the new value |
| PyDict.InverseOf | aofsync/__init__.py:66 | the inversion maps every value met to some key that holds that value |
| PyDict.InverseLastWins | aofsync/__init__.py:66 | a key that no later key shares its value with is the one its value maps back to |
| PyDict.Inverse | aofsync/__init__.py:66 | the reverse index of the current state knows exactly the checksums that state holds, and each maps to a path holding it |
| Text.Strip | aofsync/__init__.py:54 | `strip()` returns a string with no whitespace at either end, no longer than its input |
| Text.StripRemovesOuterSpace | aofsync/__init__.py:54 | `strip()` returns the part of its input between leading and trailing whitespace, with no whitespace at either end |
| Text.StripLine | aofsync/__init__.py:54 | a written line with no whitespace at its ends reads back unchanged after `strip()` |
| Text.Split | aofsync/__init__.py:55 | `split(sep, n)` gives at most `n + 1` pieces, and no piece but a last one cut off by the limit contains `sep` |
| Text.SplitJoined | aofsync/__init__.py:55 | the pieces of a split, joined with the separator, give back the string |
| Text.ReadLines | aofsync/__init__.py:52 | `readlines()` yields no empty line, and yields no lines exactly for an empty file |
| Text.ReadLinesOfLines | aofsync/__init__.py:52 | reading back a file written one line at a time gives the written lines, each with its "\n" |
| Snapshot.GetStateFromSources | aofsync/__init__.py:23-46 | the loop filling the dict while walking builds `StateOf`: excluded files are skipped, and later records overwrite earlier ones |
| Snapshot.StateOfTree | aofsync/__init__.py:23-46 | the state records every visited, non-excluded file's fingerprint under its own relative path, and nothing else |
| Snapshot.StateOfWholeTree | aofsync/__init__.py:23-46 | with nothing excluded and every file visited, the state's keys are the tree's files and each holds that file's fingerprint |
| Snapshot.Freeze | aofsync/__init__.py:34-38 | the text written is one `checksum  path` line per entry of the tree's state, in dict order |
| Snapshot.ParseStateLine | aofsync/__init__.py:54-56 | a line fails to parse exactly when, once stripped, it lacks the two-space separator; on success neither field contains it |
| Snapshot.GetStateFromFile | aofsync/__init__.py:49-58 | the loop filling the dict from the file's lines returns `ParseState`: the dict of all lines, or the first bad line as the error |
| Snapshot.ParseRejectsLineWithoutSeparator | aofsync/__init__.py:55-56 | a state file with any line lacking the separator does not load |
| Snapshot.ParseLastLineWins | aofsync/__init__.py:53-56 | the checksum loaded for a path is the one on the last line naming it |
| Snapshot.StateLineRoundTrip | aofsync/__init__.py:38-56 | a written line reads back as its path and checksum when the path has no line break, no double space and no trailing whitespace |
| Snapshot.StateTextRoundTrip | aofsync/__init__.py:34-58 | loading what `freeze` wrote gives back the same dict, key order included, under those conditions |
| DiffEngine.ClassifyStates | aofsync/__init__.py:62-88 | the two loops appending to the three lists compute `DiffOf` |
| DiffEngine.GenerateDiff | aofsync/__init__.py:61-88 | a state file that does not load is the error; otherwise the result is the diff of the loaded state and the tree's state now |
| DiffEngine.DeleteMembers | aofsync/__init__.py:67-76 | a path is deleted if and only if the origin has it, it is not excluded, it is gone now, and no current path holds its checksum |
| DiffEngine.RenameMembers | aofsync/__init__.py:66-73 | `(o, n)` is a rename if and only if `o` is a non-excluded origin path, gone now, whose checksum is held now, and `n` is the reverse index's path for it |
| DiffEngine.RenameTarget | aofsync/__init__.py:66-73 | a rename's target exists now, is a different path, and holds the source's origin checksum |
| DiffEngine.AddMembers | aofsync/__init__.py:78-86 | a path is added if and only if it is not excluded, exists now, and is either new or changed in checksum |
| DiffEngine.RenameTargetAlsoAdded | aofsync/__init__.py:71-86 | a rename onto a new, non-excluded path also lists that path as an add |
| DiffEngine.DiffListsDisjoint | aofsync/__init__.py:62-86 | no path is both added and deleted, and no rename source is added or deleted |
| DiffEngine.DiffListsDistinct | aofsync/__init__.py:62-86 | the add and delete lists have no repeats, and no path is the source of two renames |
| DiffEngine.IdenticalStatesEmptyDiff | aofsync/__init__.py:67-86 | two states with the same entries give three empty lists, whatever is excluded |
| DiffEngine.UnchangedPathNotListed | aofsync/__init__.py:67-86 | a path with the same checksum in both states is not added, not deleted and not renamed away |
| DiffEngine.ExcludedNeverListed | aofsync/__init__.py:67-83 | an excluded path is never added, deleted or renamed away |
| DiffEngine.SyncScenarioDiff | aofsync/__init__.py:61-88 | after renaming `b.txt` to `c.txt`, adding `d.txt` and deleting `a.txt`, the diff renames `b.txt` to `c.txt`, deletes `a.txt` and adds `c.txt` and `d.txt` |
| DiffEngine.RenameOntoUnchangedPath | aofsync/__init__.py:66-86 | a removed file whose twin stayed is renamed onto the twin, with nothing added or deleted |
| DiffPackage.MakePackage | aofsync/__init__.py:91-109 | the package fails exactly when an added path is missing from the tree; `.add` holds exactly the added paths, with the tree's content; `.delete` holds one line per deleted path and `.rename` one `old -> new` line per rename, in the diff's order |
| DiffPackage.WritePackage | aofsync/__init__.py:91-109 | writing the manifests line by line and copying the added files produces `MakePackage` |
| Patcher.ParseRenameLine | aofsync/__init__.py:127-129 | a `.rename` line is malformed exactly when, once stripped, it lacks " -> "; on success neither name contains it |
| Patcher.MoveDirMoves | aofsync/__init__.py:131 | renaming a directory puts every file inside it at the same place inside the target, and leaves every path outside both alone |
| Patcher.CopyLands | aofsync/__init__.py:139-140 | a copy to a path that is neither a directory nor inside a file creates or overwrites the file at that path |
| Patcher.CopiesOverwrite | aofsync/__init__.py:134-140 | when no added file is the empty name, lies inside a file, or has a file inside it, the copy step puts every walked file of `.add` at its own path and does not fail |
| Patcher.PatchedCopiesAdd | aofsync/__init__.py:112-140 | when the deletes and renames succeed and the copies fit, the patch ends with the files left overwritten by every file of `.add`, whatever the walk order |
| Patcher.Patch | aofsync/__init__.py:112-140 | the destination's files and the error afterwards are those of deletes, then renames, then copies, stopping at the first failure |
| Patcher.DeleteListed | aofsync/__init__.py:113-121 | the delete loop unlinks each named file that exists and stops at a name that is a directory |
| Patcher.RenameListed | aofsync/__init__.py:123-131 | the rename loop moves each file or directory to its target, and stops at a malformed line, a file in place of the target's parent, a missing source, a file renamed onto a directory, or a directory renamed onto a file, a non-empty directory or inside itself |
| Patcher.CopyAdded | aofsync/__init__.py:133-140 | the copy loop copies each walked file of `.add` to its relative path, or into the directory there under its own name, and stops when a file stands in place of a parent or the place is a directory |
| Patcher.FileTree.Unlink | aofsync/__init__.py:121 | unlinking removes exactly that file |
| Patcher.FileTree.Rename | aofsync/__init__.py:131 | renaming removes the source and puts its content at the target, replacing any file there |
| Patcher.FileTree.RenameDirectory | aofsync/__init__.py:131 | renaming a directory moves every file in it under the target |
| Patcher.FileTree.Write | aofsync/__init__.py:140 | copying sets the target's content, creating or overwriting it |
| Patcher.RunErrorSticks | aofsync/__init__.py:113-131 | after the first failing call, later manifest lines change nothing |
| Patcher.RenameLineRoundTrip | aofsync/__init__.py:127-129 | a written `old -> new` line reads back as `(old, new)` when both are clean manifest paths and `old` does not end with " ->" |
| Patcher.RenameLineAmbiguous | aofsync/__init__.py:128 | without that last condition the trip fails: `x ->` renamed to `y` reads back as `x` renamed to `-> y` |
| Patcher.RenameManifestRoundTrip | aofsync/__init__.py:99-129 | the `.rename` manifest written for a list of renames reads back as those renames, in order |
| Patcher.DeleteManifestRoundTrip | aofsync/__init__.py:94-119 | the `.delete` manifest written for a list of paths reads back, once stripped, as those paths, in order |
| Patcher.DeletesRemove | aofsync/__init__.py:117-121 | deletes of names that are not directories remove exactly the named files, skip missing ones, and never fail |
| Patcher.RenameLineMoves | aofsync/__init__.py:127-131 | a well-formed rename line moves the source's content to the target and removes the source |
| Patcher.RenameDirectoryMoves | aofsync/__init__.py:131 | renaming the directory `d` holding `d/x` to `e` leaves `e/x` with the same content |
| Patcher.RenameMissingSourceAborts | aofsync/__init__.py:130-131 | a rename whose source is missing ends the run with that error, or with the `os.makedirs` error when a file stands in place of the target's parent, with the files as the earlier lines left them |
| Patcher.CopyIntoDirectory | aofsync/__init__.py:139-140 | a file `x` copied where the directory `x` holds `x/y` lands at `x/x` |
| Patcher.RunLeaves | aofsync/__init__.py:113-140 | a run of deletes, renames and copies leaves alone every path none of its commands touches: not a deleted name, not a rename's source or target or a path inside either, not a place a copy may land |
| Patcher.PatchLeavesUnnamedPaths | aofsync/__init__.py:112-140 | `patch` leaves alone every path the package does not name, directly or as a directory, and where no file of `.add` may land |
| Patcher.PatchWithoutDeleteFlag | aofsync/__init__.py:113-121 | without the delete flag, the `.delete` manifest has no effect |
| Sync.RunRenames | aofsync/__init__.py:123-131 | renames of files with distinct sources, none of them a target, onto paths that are neither directories nor inside a file, all succeed and move the files |
| Sync.DiffAccounts | aofsync/__init__.py:61-88 | with nothing excluded, the diff accounts for every change: adds are the new or changed paths, and every path gone is deleted or renamed onto a path of equal checksum |
| Sync.PatchConverges | aofsync/__init__.py:91-140 | a diff that accounts for every change, packaged and patched onto the origin tree, yields the tree now, in whatever order the walk of `.add` finds the files |
| Sync.Convergence | aofsync/__init__.py:61-140 | the states of two trees, diffed, packaged and patched onto the origin tree, yield the tree now, when equal fingerprints mean equal content |
| Sync.FreezeDiffPatch | aofsync/__init__.py:34-140 | the full cycle of freeze, load, diff, package and patch with deletes turns the origin tree into the tree now |

## Left out

- File I/O is not modelled. File contents, the state file and the manifests are values. Writes are the identity, as on POSIX with `\n` line endings. Reads use Python's universal newlines.
- SHA-1 is not modelled. The digest is a function parameter, and only the prefix budget and the chunked feeding are modelled.
- `fnmatch` globbing is not modelled. Excludes are two abstract predicates: one on the joined path during the walk, one on the relative key during the diff.
- The order of `os.walk` is a parameter, and so is the set of files it finds.
- `shutil.copy2` metadata (times, permissions) and symlink following are not modelled. A tree holds only contents.
- Empty directories are not modelled. A directory exists when some file lies inside it, and the destination itself counts as one. On disk, a directory emptied by the delete or rename step, or created by `os.makedirs`, still exists: a later rename of a directory onto it would succeed, and a later copy onto it would land inside it, where the model sees no directory. This is why `Sync` requires that no file of one tree is a directory of the other.
- The exact exception class of a failed call is not modelled. For example, renaming a path whose parent is a file raises `NotADirectoryError`, and the model reports `NoSuchFile`.
- Path resolution is not modelled. The model reads every manifest name literally, as a key of the tree. The operating system resolves names that the model does not: an absolute name escapes the destination through `os.path.join`; a name with a `.` or `..` component or a repeated `/` names another path (`./a` is `a`); and a name with a trailing `/` names a directory (`os.unlink` of `a/` raises `IsADirectoryError`). `Patcher.DeletesRemove`, `Patcher.RenameLineMoves`, `Patcher.PatchLeavesUnnamedPaths` and the `Sync` lemmas therefore hold for normalized relative names only, such as the ones `diff` writes for the paths `os.walk` finds.
- Decoding errors on reading a text file are not modelled. Strings are sequences of Unicode scalar values.
- Stale files that an earlier `diff` left in the package directory are not modelled. The package is modelled as built fresh.
- The argparse command line is not modelled.
- The unused `hash_to_file_origin` and the unused `excludes` parameter of `patch` are not modelled.
- Patcher.CopyAdded: the file copied is found through `.add`'s walk, and its content is taken from the package value rather than read from disk.
- Snapshot.GetStateFromSources: keys each file by the corrected slice `Paths.RelPath` (see Findings), not by the slice as written on line 31. The two agree when the top directory name is not empty and does not end with "/" (`Paths.RelPathAsWrittenWithoutTrailingSlash`). So `Snapshot.Freeze`, `Sync.Convergence` and `Sync.FreezeDiffPatch` are proved for the corrected snapshot, and with a top directory ending in "/" the code as written records other keys (`Paths.RelPathAsWrittenCollides`).
- Sync.Convergence: is proved only with nothing excluded and with fingerprints that tell the two trees' contents apart. A positive hash budget can break that second condition (`Hashing.BudgetLosesInjectivity`).

## Findings

| source | as written | input that shows it | evidently intended | confidence | as-written member | corrected member |
|---|---|---|---|---|---|---|
| aofsync/__init__.py:31 | `path[len(top_dir) + 1:]` always skips one character after the directory name, taking it for the separator | `freeze src/ state` on a tree with files `ab` and `cb`: `os.walk` yields `src/ab` and `src/cb`, and both are recorded as `b` | skip the separator only when `os.path.join` inserted one, so that the relative path is `ab` | high, not executed | Paths.RelPathAsWrittenCollides | Paths.RelPathOfJoin |
