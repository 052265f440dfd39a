# fsync sync engine — a Dafny model

`fsync SRC DEST` brings a destination tree up to date with a source tree. The
engine walks the source depth first:

- it creates a missing destination directory (with its ancestors) before it looks at the source;
- it maps each subdirectory to `dst/name` and each file to `dst/Base(file)`;
- it stops at the first failing child.

The mirror engine (`internal/syncer/syncer.go`):

- skips a file that its checksum oracle calls the same as its target;
- writes a changed file to `target.fsync-tmp`, verifies it, and renames it over the target;
- in delete mode, removes every destination child whose root-relative path no source child has.

Two earlier generations of the same walk are modelled next to it:

- `internal/service/syncer.go` overwrites the target directly, then verifies it with MD5.
- `internal/service/Syncer.go` and `main.go` share one walk. It overwrites without verifying, and checks that the source exists at every level.

The model has the following layers:

- **`Fs` / `Os`**: the filesystem, as a map from clean paths to `Dir | File(bytes) | Other`.
  - Two constant sets of paths stand for permission faults: read-only and unreadable.
  - A log records every `os.Create`.
  - `Os.FileSystem` is the mutable filesystem, with one method per `os` call.
- **`Paths`**: the string logic.
  - `filepath.Join`, `Base` and `IsAbs` for Unix paths.
  - `absolutePath`, the raw `strings.HasPrefix` nesting check, and `relativePath`.
- **`Fanout`, `Checksum`, `Verify`**: the two `Same` oracles.
  - The goroutine fan-out is modelled as two reported outcomes plus the order in which they completed.
  - Digests are uninterpreted functions of a file's bytes.
- **`Walk`**: the walk as ghost functions, for all three generations (`Flavor`).
- **`Walker.Walker`**: the imperative walk, with loops over the directory listings. Each method is proved equal to its `Walk` function.
- **`Syncers`, `Cli`**: the receivers `Syncer.Sync`, `service.Syncer.Sync` and `service.Syncer.Copy`, and `main`. Each is proved to end as `Walk.Sync` or `Walk.CopyRoots` says.
- **`WalkFrame`, `WalkFacts`**: what a run may touch, and the properties of the walk.
- **`WalkMirror`**: what a successful walk leaves behind.
  - Every path below the source root has a counterpart at the same names below the destination root. A regular file's target holds the source's bytes, or, in the mirror engine, bytes the oracle calls the same.
  - In delete mode the converse holds too: every path below the destination root has a counterpart below the source root.
  - A second mirror run over the result changes nothing, in either mode.

The working directory (`os.Getwd`) and the completion order of the checksum goroutines are parameters. Recursion depth is bounded by a `fuel` parameter.

## Model

| member | source | states |
|---|---|---|
| Paths.TrimSeps | internal/syncer/syncer.go:74 | the path without trailing separators is a prefix of it, ends in a non-separator, and only separators were cut |
| Paths.LastSep | internal/syncer/syncer.go:151 | the index of the last separator, with none after it (-1 when there is none) |
| Paths.Base | internal/syncer/syncer.go:151 | `filepath.Base` of a path with a non-separator character is an entry name (non-empty, no separator) |
| Paths.Resolve | internal/syncer/syncer.go:39 | the path a root names once its trailing separators are dropped (a path of separators only is kept); resolving is idempotent, and `Base` and joins of names onto it are unchanged |
| Paths.AbsolutePath | internal/syncer/syncer.go:65-77 | an absolute path is kept character for character; a relative one succeeds exactly when `os.Getwd` does, and is then absolute |
| Paths.RelativePathAsWritten | internal/syncer/syncer.go:217-224 | a child without the parent prefix comes back unchanged; otherwise child == parent + one dropped character + result |
| Paths.RelativePath | internal/syncer/syncer.go:217-224 | corrected: a child below the parent is the trimmed parent, one separator, and the result; any other child is unchanged |
| PathFacts.JoinName | internal/syncer/syncer.go:108 | joining an entry name gives trimmed dir + separator + name, a clean path below dir whose `Base` is the name |
| PathFacts.PrefixRejectsSelfAndSibling | internal/syncer/syncer.go:35-37 | the raw prefix check refuses the source itself and a sibling whose name extends the source's |
| PathFacts.KeysMatchIffNames | internal/syncer/syncer.go:121 | at the same depth below both roots, two children's root-relative keys are equal iff their names are |
| PathFacts.AsWrittenKeysDisagree | internal/syncer/syncer.go:217-224 | as written, a source root with a trailing separator gives each child the key `name[1..]` |
| PathFacts.TrailingSeparatorExample | internal/syncer/syncer.go:217-224 | `relativePath("/a/", "/a/foo")` is "oo" but `relativePath("/b", "/b/foo")` is "foo"; the corrected definition gives "foo" for both |
| PathFacts.CorrectionAgreesOnCleanRoots | internal/syncer/syncer.go:217-224 | on a root without trailing separators, the corrected and the written definitions agree |
| NameOrder.LexTotal | internal/syncer/syncer.go:95 | byte-wise name order (as `os.ReadDir` sorts) is total |
| NameOrder.LexAntisymmetric | internal/syncer/syncer.go:95 | the name order is antisymmetric |
| NameOrder.LexTransitive | internal/syncer/syncer.go:95 | the name order is transitive |
| NameOrder.LeastExists | internal/syncer/syncer.go:95 | every non-empty set of names has a least element |
| NameOrder.LeastUnique | internal/syncer/syncer.go:95 | the least element is unique |
| NameOrder.Least | internal/syncer/syncer.go:95 | the least name of a non-empty set is in it and below all others |
| NameOrder.Sorted | internal/syncer/syncer.go:95 | the names of a set listed without repetition, every one present |
| NameOrder.SortedAscending | internal/syncer/syncer.go:95 | that listing is strictly ascending |
| NameOrder.SortNames | internal/syncer/syncer.go:95 | the sorting loop returns exactly that listing |
| Fs.MkdirAll | internal/syncer/syncer.go:81 | on success the path is a directory, nothing existing changes, only the path and its ancestors are added; fails iff some path on the chain is a non-directory or a missing read-only one |
| Fs.ChildNames | internal/syncer/syncer.go:95 | a name is listed iff it is an entry name joined under the directory to an existing path |
| Fs.EntriesOf | internal/syncer/syncer.go:95 | one entry per name, marked as a directory iff a directory is at its path |
| Fs.ReadDir | internal/syncer/syncer.go:95-98 | succeeds iff the path is a readable directory; then lists every child exactly once, each with its kind |
| Fs.Create | internal/syncer/syncer.go:195-198 | succeeds iff the parent is a directory, the path is writable and not a directory or special file; then the file exists and is empty, and the call is logged |
| Fs.CopyInto | internal/syncer/syncer.go:201 | the destination now holds the source's bytes as they are at that moment; nothing else changes |
| Fs.Rename | internal/syncer/syncer.go:169 | succeeds iff the source exists, neither side is read-only and the target is not a directory; then the target holds the source's node and the source path is gone |
| Fs.Remove | internal/syncer/syncer.go:230 | succeeds iff the path exists, is writable and is not a non-empty directory; then exactly that path is gone |
| Fs.RemoveAll | internal/syncer/syncer.go:228 | on success exactly the path and everything below it are gone; fails iff one of them is read-only |
| Fs.Open | internal/syncer/syncer.go:189-192 | succeeds iff the path exists and is readable |
| Fs.Stat | internal/syncer/syncer.go:90-93 | `os.Stat`: on a path without trailing separators, succeeds iff a node is there and returns it; with trailing separators, succeeds only on a directory; fails as "not exist" iff nothing is at the resolved path |
| Fs.ReadAll | internal/verify/md5_verifier.go:47-58 | succeeds iff the path is a readable regular file, and returns its bytes |
| Os.FileSystem.constructor | internal/syncer/syncer.go:79 | the filesystem starts with the given nodes and faults and an empty log |
| Os.FileSystem.StatAsWritten | internal/syncer/syncer.go:90-93 | `os.Stat` of a root as written: as `Fs.Stat` |
| Os.FileSystem.Stat | internal/syncer/syncer.go:153 | `os.Stat` of a path the walk built: the node at the path, `None` iff nothing is there |
| Os.FileSystem.MkdirAll | internal/syncer/syncer.go:81 | the filesystem and the error are as `Fs.MkdirAll` says; a failure changes nothing |
| Os.FileSystem.ReadDir | internal/syncer/syncer.go:95 | collects and sorts the child names; the result is `Fs.ReadDir` |
| Os.FileSystem.Create | internal/syncer/syncer.go:195 | as `Fs.Create`; a failure changes nothing |
| Os.FileSystem.CopyInto | internal/syncer/syncer.go:201 | as `Fs.CopyInto` |
| Os.FileSystem.Rename | internal/syncer/syncer.go:169 | as `Fs.Rename`; a failure changes nothing |
| Os.FileSystem.Remove | internal/syncer/syncer.go:230 | as `Fs.Remove`; a failure changes nothing |
| Os.FileSystem.RemoveAll | internal/syncer/syncer.go:228 | as `Fs.RemoveAll`; a failure changes nothing |
| Os.FileSystem.Open | internal/syncer/syncer.go:189 | as `Fs.Open` |
| Fanout.Report | internal/checksum/verifier.go:56-62 | `getSum` sends exactly one message: the sum on success, the error otherwise |
| Fanout.Collect | internal/checksum/verifier.go:47-53 | an error iff either side sent one, and that error is one of theirs; otherwise whether the two sums are equal |
| Fanout.CollectIndependentOfOrder | internal/checksum/verifier.go:24-53 | neither argument order nor completion order changes whether `Same` fails or its answer; with at most one error, not even the error |
| Checksum.GetCheckSum | internal/checksum/verifier.go:57 | succeeds iff the file reads; then gives the digest of its bytes |
| Checksum.NewVerifier | internal/checksum/verifier.go:11-22 | CRC32 exactly for `CRC32`; MD5 for `MD5` and for every other value |
| Checksum.GetSum | internal/checksum/verifier.go:56-62 | one outcome per file; no error iff the file reads, and then its digest |
| Checksum.Same | internal/checksum/verifier.go:24-54 | an error iff either file fails to read; otherwise whether the two digests are equal |
| Checksum.SameOnEqualContent | internal/checksum/verifier.go:51-53 | two readable files with equal bytes are reported the same |
| Checksum.SameIsContentEquality | internal/checksum/verifier.go:51-53 | with a collision-free digest, "same" is exactly "equal bytes" |
| Checksum.SameSymmetric | internal/checksum/verifier.go:24-53 | the answer is symmetric in the files and independent of completion order |
| Verify.GetSum | internal/verify/md5_verifier.go:46-60 | one message per call: the open error, a read error for a non-file, or the MD5 of the bytes |
| Verify.Same | internal/verify/md5_verifier.go:14-44 | an error iff either file fails to read; otherwise whether the two hex digests are equal |
| Verify.UnopenableIsError | internal/verify/md5_verifier.go:47-51 | a file that cannot be opened yields an error, never "different" |
| Verify.SameSymmetric | internal/verify/md5_verifier.go:14-44 | symmetric in the files and independent of completion order |
| Validation.Validate | internal/validation/args_validator.go:8-13 | no error iff there are exactly two arguments; the error is "invalid args" |
| Validation.ValidateCountsOnly | internal/validation/args_validator.go:8-13 | the verdict depends on the number of arguments only |
| Walk.Same | internal/syncer/syncer.go:154 | the run's oracle: an error iff either file fails to read; two readable files with equal nodes are the same |
| Walk.PlainConfig | internal/service/Syncer.go:15 | the plain generation's settings: no delete mode |
| Walk.Check | internal/syncer/syncer.go:206-212 | the post-copy check changes nothing, and passes iff the oracle answers "same" |
| Walk.CopyFileAsWritten | main.go:149-172 | `copyFile` as written: success only for a regular source, and then the destination exists; the disk is unchanged or one create is logged |
| Walk.CopyFile | internal/syncer/syncer.go:180-215 | corrected `copyFile`: succeeds iff the source is a readable regular file and (unless it is its own destination) the create and any check succeed; then the destination holds the source's node and the source is unchanged; the oracle never reports "differ"; a failed check leaves the destination overwritten |
| Walk.Stage | internal/syncer/syncer.go:164-171 | on failure only the temporary path may differ; on success the source is a readable regular file, the target holds the source's node and the temporary path is gone; at most the temporary path is created |
| Walk.CopyOneFile | internal/syncer/syncer.go:151-175 | on success the source is a readable regular file and `dst/Base(src)` exists and holds its node, unless the mirror engine found the target the same and changed nothing; a directory at the target makes the mirror engine fail and stays; the overwriting generations never remove anything |
| Walk.EnsureDestination | internal/syncer/syncer.go:80-88 | an existing destination is left as it is; on success the destination exists |
| Walk.RemoveExtraneous | internal/syncer/syncer.go:226-232 | on success the path is gone, nothing else is changed, and only the path and what lies below it are removed |
| Walk.Copy | internal/syncer/syncer.go:79-178 | every error is one the walk reports; the faults are unchanged and the create log only grows; the overwriting generations never remove a path |
| Walk.CopyDir | internal/syncer/syncer.go:94-149 | the directory branch: the same guarantees as `Walk.Copy` |
| Walk.Children | internal/syncer/syncer.go:102-124 | the loop over the source listing: the same guarantees, and the recorded keys only grow, staying as they were outside delete mode |
| Walk.CopyRoots | internal/syncer/syncer.go:79-93 | on the roots as written: a non-directory source written with a trailing separator gets its destination created, then fails as "cannot analyze source" |
| Walk.DstKey | internal/syncer/syncer.go:138-140 | directly below the destination root, a child's key is its name |
| Walk.Prune | internal/syncer/syncer.go:126-130 | the prune step only removes nodes and never changes one; everything not below the destination stays; nothing is created |
| Walk.PruneEntries | internal/syncer/syncer.go:132-148 | the prune loop only removes nodes, never changes one |
| Walk.Sync | internal/syncer/syncer.go:27-44 | an unusable working directory and a missing source are refused before anything is written; the destination is refused as nested iff the source is a string prefix of it, and then the disk is untouched; a non-directory source written with a trailing separator passes the existence check, gets its destination created, then fails as "cannot analyze source" |
| WalkFrame.ConfinedTrans | internal/syncer/syncer.go:79-178 | two steps within the frame make one |
| WalkFrame.EnsureDestinationConfined | internal/syncer/syncer.go:80-88 | creating the destination stays within its frame |
| WalkFrame.StageConfined | internal/syncer/syncer.go:164-171 | staging a file writes only under the destination and creates only temporary names |
| WalkFrame.StageTouchesOnly | internal/syncer/syncer.go:164-171 | staging changes the target and its temporary name and no other path, whether it succeeds or fails |
| WalkFrame.OverwriteConfined | internal/service/syncer.go:117-122 | a direct overwrite writes only under the destination and removes nothing |
| WalkFrame.CopyOneFileConfined | internal/syncer/syncer.go:151-175 | the file branch stays within the frame |
| WalkFrame.RemoveExtraneousConfined | internal/syncer/syncer.go:141 | removing a destination child stays within the frame |
| WalkFrame.PruneEntriesConfined | internal/syncer/syncer.go:132-148 | the prune loop stays within the frame |
| WalkFrame.CopyConfined | internal/syncer/syncer.go:79-178 | a whole walk changes only the destination, its ancestors and what is below it; removes only paths strictly below the destination, and only in delete mode or temporary names; the overwriting generations never remove |
| WalkFrame.CopyDirConfined | internal/syncer/syncer.go:94-149 | the directory branch stays within the frame |
| WalkFrame.ChildrenConfined | internal/syncer/syncer.go:102-124 | the loop over children stays within the frame |
| WalkFrame.SourceUntouched | internal/syncer/syncer.go:35-43 | when neither root is a prefix of the other, nothing under the source changes |
| WalkFacts.ChildrenSplit | internal/syncer/syncer.go:102-124 | the loop over `es1 + es2` runs `es2` only if `es1` went through |
| WalkFacts.FirstErrorAborts | internal/syncer/syncer.go:115-118 | after the first failing child, no further sibling is visited |
| WalkFacts.ChildrenWanted | internal/syncer/syncer.go:120-123 | a successful loop records every source child's root-relative path in delete mode, nothing otherwise |
| WalkFacts.PruneEntriesKeeps | internal/syncer/syncer.go:132-148 | the prune loop keeps every path that is not a listed child or below one |
| WalkFacts.PruneEntriesExact | internal/syncer/syncer.go:138-147 | a successful prune keeps a listed child iff its root-relative path is wanted |
| WalkFacts.KeyAmongSourceKeys | internal/syncer/syncer.go:139-140 | at the same depth below both roots, a destination key is among the source keys iff a source child has that name |
| WalkFacts.DeleteModePrunesExactly | internal/syncer/syncer.go:120-149 | in delete mode a destination child survives iff a source child has its name |
| WalkFacts.PruneListingExact | internal/syncer/syncer.go:126-148 | a prune against the keys of a source listing keeps a listed destination child iff a source child has its name |
| WalkFacts.PruneEntriesNothingExtra | internal/syncer/syncer.go:132-148 | a prune with every child wanted changes nothing |
| WalkFacts.UpToDateUnchanged | internal/syncer/syncer.go:79-178 | over an up-to-date tree (destination present, source directories readable, every file's target called the same, in delete mode no destination child without a source one) the mirror walk succeeds and changes nothing |
| WalkFacts.CopyDirUnchanged | internal/syncer/syncer.go:94-149 | the directory branch over an up-to-date tree succeeds and changes nothing, the prune pass included |
| WalkFacts.NothingToPruneKeeps | internal/syncer/syncer.go:126-148 | a prune pass over a destination whose every child's key is wanted succeeds and removes nothing |
| WalkFacts.ChildrenUnchanged | internal/syncer/syncer.go:102-124 | up-to-date children leave the loop with nothing changed |
| WalkFacts.TempNeverSource | internal/syncer/syncer.go:164 | the temporary name is never the source file |
| WalkFacts.StagedIsSame | internal/syncer/syncer.go:164-171 | after a staged copy the oracle calls target and source the same |
| WalkFacts.SecondRunSkipsFile | internal/syncer/syncer.go:153-162 | a second mirror run over a file it just copied succeeds and writes nothing |
| WalkFacts.MirrorKeepsTargetOnFailure | internal/syncer/syncer.go:164-171 | when the mirror engine fails, the target keeps its old node |
| WalkFacts.OverwritingAlwaysWrites | internal/service/syncer.go:117-122 | the overwriting generations create the target on every successful call, even when it is up to date |
| WalkFacts.VerifiedOverwritesBeforeCheck | internal/service/syncer.go:156-174 | a failing post-copy check is reported after the target was already overwritten |
| WalkFacts.PlainChecksSourceFirst | internal/service/Syncer.go:16-18 | a missing source is refused at any level before anything is created |
| WalkFacts.DestinationBeforeSource | internal/syncer/syncer.go:80-92 | the other two generations create the destination before they find the source missing |
| WalkFacts.SelfCopyTruncates | main.go:149-172 | as written, a file copied onto itself is reported copied and left empty |
| WalkFacts.CopyFileAgreesWhenDistinct | main.go:149-172 | the corrected `copyFile` is the written one whenever source and destination differ |
| WalkFacts.FileIntoOwnDirectory | main.go:70-73 | `fsync /a/x /a` passes the nesting check and makes the file its own target |
| WalkFacts.DirectoryOntoItself | main.go:70-73 | `fsync /a/ /a` passes the nesting check although both roots resolve to `/a` |
| WalkFacts.SelfCopyUnchanged | main.go:83-139 | with the corrected `copyFile`, walking a directory onto itself changes nothing |
| WalkFacts.ChildrenSelfUnchanged | main.go:109-126 | the loop over a directory copied onto itself changes nothing |
| WalkFacts.FileChildSelfUnchanged | main.go:127-132 | a file of a directory copied onto itself is left as it is |
| WalkFacts.PlainIgnoresOracle | internal/service/Syncer.go:81-104 | the plain walk never consults the oracle |
| WalkFacts.ChildrenIgnoreOracle | internal/service/Syncer.go:41-58 | the plain loop over children does not depend on the oracle |
| WalkFacts.CopyFileIgnoresOracle | internal/service/Syncer.go:81-104 | `copyFile` without the check does not depend on the oracle |
| WalkFacts.MirrorSkipRule | internal/syncer/syncer.go:153-162 | an existing non-directory target called the same is skipped, and an oracle error aborts, with nothing written either way |
| WalkFacts.NonRegularSourceRejected | internal/service/syncer.go:146-148 | a non-regular source is refused before anything is opened or created |
| WalkFacts.CreationFailureAborts | internal/syncer/syncer.go:81-82 | a destination that cannot be created ends the call with nothing changed |
| WalkFacts.SiblingRefused | internal/syncer/syncer.go:35-37 | `/a/bc` and `/a/b` itself are refused as destinations of `/a/b`, with the disk untouched |
| WalkFacts.AncestorAccepted | internal/syncer/syncer.go:35-43 | `/a` is accepted as the destination of `/a/b`; the run goes on to the walk |
| WalkFacts.NonDirectoryRootFails | internal/syncer/syncer.go:39-43 | a source root that `os.Stat` refuses for its trailing separator, though a node is at the resolved path, passes the existence check; the destination is created and the run fails as "cannot analyze source" |
| WalkFacts.FileRootWithTrailingSeparator | internal/syncer/syncer.go:39-43 | `fsync /a/x/ /b` with `/a/x` a regular file creates `/b`, fails as "cannot analyze source", and copies nothing to `/b/x` |
| WalkFacts.SyncWalksResolved | internal/syncer/syncer.go:35-43 | absolute roots without trailing separators, not nested, with an existing source: the run is exactly the walk |
| WalkFacts.CopyRootsResolved | internal/syncer/syncer.go:79-93 | roots that `os.Stat` does not refuse for a trailing separator are walked exactly as the paths they resolve to |
| WalkMirror.CopyKeepsDestination | internal/syncer/syncer.go:79-178 | after a successful walk the destination root exists; a walk removes nothing at or above it |
| WalkMirror.ReflectsUpToDate | internal/syncer/syncer.go:79-178 | a reflected tree whose destination region is readable is up to date for the mirror walk, in delete mode when the roots sit at the same position |
| WalkMirror.SecondRunChangesNothing | internal/syncer/syncer.go:79-178 | after a successful mirror run between trees that are apart, in either mode, a second run over the result succeeds and changes nothing |
| WalkMirror.PrunedHasNoExtras | internal/syncer/syncer.go:120-149 | after a successful directory step in delete mode, the destination is a directory and each of its children has a source child of that name |
| WalkMirror.NoExtraChildFrame | internal/syncer/syncer.go:120-149 | "no destination child without a source child" survives any change that keeps the source tree and adds no destination child |
| WalkMirror.ReachedHasCounterpart | internal/syncer/syncer.go:102-124 | any path, directory or file, reached from a reflected directory through the names `ns` has a counterpart at the same names below the destination |
| WalkMirror.CounterpartHasSource | internal/syncer/syncer.go:126-148 | in delete mode, any path reached below a reflected destination through the names `ns` has a counterpart at the same names below the source |
| WalkMirror.CopyReachesEveryPath | internal/syncer/syncer.go:79-178 | after a successful walk between trees that are apart, every path below the source root has its counterpart below the destination root |
| WalkMirror.DeleteModeLeavesNoExtras | internal/syncer/syncer.go:79-178 | in delete mode, after a successful walk from a source directory, every path below the destination root has its counterpart below the source root; with `CopyReachesEveryPath` the two trees hold the same relative paths |
| WalkMirror.CopyReflects | internal/syncer/syncer.go:79-178 | after a successful `copy` between trees that are apart, the source tree is reflected at the destination: each subdirectory at `dst/name`, each readable file held at `dst/Base(file)`; in delete mode each destination directory has no child without a source child |
| WalkMirror.CopyDirReflects | internal/syncer/syncer.go:94-149 | after a successful directory step, every child of the source, listed or not, is reflected |
| WalkMirror.ChildrenReflect | internal/syncer/syncer.go:102-124 | after a successful loop over a sorted listing, every listed child is reflected on the final disk |
| WalkMirror.ReflectsFromChildren | internal/syncer/syncer.go:102-118 | a directory whose every child is reflected is reflected itself |
| WalkMirror.FileLandsAtJoinedPosition | internal/syncer/syncer.go:108-112 | a file reached from a reflected directory through the names `ns` has its copy at the same names below the destination |
| WalkMirror.CopyPlacesEveryFile | internal/syncer/syncer.go:79-178 | after a successful walk, every regular file below the source root is held at its joined position below the destination root |
| WalkMirror.ReflectsFrame | internal/syncer/syncer.go:79-178 | reflection survives any change that leaves the source tree, the faults and the targets alone |
| WalkMirror.FileCopyTouches | internal/syncer/syncer.go:151-175 | copying one file writes only the destination, its ancestors, the target and its temporary name |
| WalkMirror.ChildrenFrame | internal/syncer/syncer.go:102-124 | the loop over a listing leaves alone every path no remaining child may write |
| WalkMirror.ChildrenKeep | internal/syncer/syncer.go:102-124 | later siblings leave the source tree, and everything at or below an earlier sibling's target, alone |
| WalkMirror.NotTouched | internal/syncer/syncer.go:95-118 | in the sorted listing, a later sibling writes nothing at or below an earlier one's target |
| WalkMirror.ChildKept | internal/syncer/syncer.go:102-124 | a child's reflection survives any change that keeps the faults, the source tree and everything at or below its target |
| WalkMirror.PruneEntriesSpares | internal/syncer/syncer.go:132-148 | a prune pass keeps a path unless it is, or lies below, a listed child that is not wanted |
| WalkMirror.PruneKeepsChild | internal/syncer/syncer.go:132-148 | a prune pass that wants a child keeps its reflection |
| WalkMirror.ApartWhenDisjoint | internal/syncer/syncer.go:35-37 | roots that pass the nesting check and where the destination is not above the source keep the two trees apart |
| Walker.Walker.constructor | internal/syncer/syncer.go:13-23 | the walker holds the run's settings and the filesystem |
| Walker.Walker.CopyFile | internal/syncer/syncer.go:180-215 | stat, open, create, copy, check: the filesystem and error are as `Walk.CopyFile` says |
| Walker.Walker.Stage | internal/syncer/syncer.go:164-171 | copy to the temporary name, then rename: as `Walk.Stage` |
| Walker.Walker.CopyOneFile | internal/syncer/syncer.go:151-175 | the file branch: as `Walk.CopyOneFile` |
| Walker.Walker.RemoveExtraneous | internal/syncer/syncer.go:226-232 | as `Walk.RemoveExtraneous` |
| Walker.Walker.EnsureDestination | internal/syncer/syncer.go:80-88 | as `Walk.EnsureDestination` |
| Walker.Walker.CopyRoots | internal/syncer/syncer.go:79-93 | `copy` on the roots as written: as `Walk.CopyRoots` |
| Walker.Walker.Copy | internal/syncer/syncer.go:79-178 | the recursive `copy`: as `Walk.Copy` |
| Walker.Walker.CopyDir | internal/syncer/syncer.go:94-149 | the loop over the source listing, then the prune step: as `Walk.CopyDir` |
| Walker.Walker.Prune | internal/syncer/syncer.go:126-130 | list the destination, then prune: as `Walk.Prune` |
| Walker.Walker.PruneEntries | internal/syncer/syncer.go:132-148 | the loop over the destination listing: as `Walk.PruneEntries` |
| Walker.Walker.PruneEntry | internal/syncer/syncer.go:133-147 | one pass of that loop: it either ends with what `Walk.PruneEntries` gives for the rest of the listing, or leaves a disk on which the rest after this entry gives the same |
| Syncers.Syncer.constructor | internal/syncer/syncer.go:13-23 | the receiver holds its settings; the runtime paths are empty |
| Syncers.Syncer.Sync | internal/syncer/syncer.go:27-44 | records the normalised roots, and ends exactly as `Walk.Sync` for the mirror engine |
| Syncers.ServiceSyncer.constructor | internal/service/syncer.go:14-23 | the receiver holds its settings; the runtime paths are empty |
| Syncers.ServiceSyncer.Sync | internal/service/syncer.go:25-42 | records the normalised roots, and ends exactly as `Walk.Sync` for the verifying generation |
| Syncers.PlainSyncer.constructor | internal/service/Syncer.go:11-13 | the receiver holds the filesystem |
| Syncers.PlainSyncer.Copy | internal/service/Syncer.go:15-71 | ends exactly as the plain `Walk.CopyRoots` on the roots as written |
| Cli.Absolute | main.go:58-65 | an absolute argument is kept; a relative one is joined onto the working directory and lies below it |
| Cli.Run | main.go:36-80 | a wrong argument count or a missing working directory stops the run untouched; the destination is refused as nested iff the source is a string prefix of it, with the disk untouched; a non-directory source written with a trailing separator gets its destination created, then fails |
| Cli.RunMain | main.go:36-80 | the steps of `main` end exactly as `Cli.Run` says |

## Left out

- Recursion depth is bounded by `fuel`, and an exhausted bound is the error `TooDeep`. The Go code has no bound: it recurses as deep as the tree goes.
- `Paths.Join` collapses separators at the seam and at the end. It does not resolve `.` or `..`, and paths are assumed free of them.
- Paths.Join: repeated separators inside an argument, absolute or relative (`/a//b`, `a//b`), are kept, where `filepath.Join` would collapse them. All arguments are assumed free of them.
- Paths.Resolve: drops trailing separators only. A root with repeated inner separators, such as `/a//b`, is not collapsed to `/a/b` as the operating system would. So `fsync /a//b /c` is refused as a missing source, and the delete-mode key mismatch that `filepath.Join("/a//b", "foo")` = "/a/b/foo" would cause in `relativePath` is not modelled.
- Fs.Stat: looks up the path as written, apart from trailing separators; repeated inner separators are not resolved (see `Paths.Resolve`).
- Symbolic links are not modelled. `Stat`, `Lstat` and `DirEntry.Info` all read the same node.
- An ancestor that is a file makes a path "missing", as `Lookup` sees it. Go reports `ENOTDIR` there, and `os.IsNotExist` is false for it.
- Faults are two fixed sets of paths: read-only and unreadable.
  - There are no partial writes, disk-full errors or short `io.Copy` reads.
  - `MkdirAll` and `RemoveAll` are modelled as all-or-nothing.
- The byte counts that `copyFile` returns are not modelled. They are only printed.
- Verbose output is not modelled. This includes:
  - the "is up do date" message;
  - the service syncer's verbose `pathRunes[1:]` slice, which panics on a file root.
- The goroutines and channels of both `Same` implementations are modelled as two outcomes plus a completion order (`Fanout.Order`).
- The MD5 and CRC32 primitives are uninterpreted functions. `GetCheckSum` of the CRC32 kind is assumed to read the file as the MD5 one does; its source is not part of this model.
- `cmd/root.go` is not part of this model. It runs the steps of `main.go` around `service.Syncer.Copy`, and it exits with status 1.
- Flag parsing and usage text in `main.go` are not modelled.
- A root written with trailing separators names the same directory. On a non-directory, `os.Stat` fails with `ENOTDIR` (`Fs.Stat`). `Paths.Resolve` gives the resolved path; the strings the Go code compares and stores keep the separators.
- WalkMirror.CopyPlacesEveryFile: stated for roots whose trees are apart (`WalkMirror.Apart`). When the destination lies above the source, the walk writes into the tree it reads, and nothing is stated about that case. The same holds for `CopyReachesEveryPath`, `DeleteModeLeavesNoExtras` and `SecondRunChangesNothing`.
- WalkMirror.SecondRunChangesNothing: also asks that nothing in the destination region is unreadable. Otherwise the second run's checksum oracle may fail on a target the first run never read.
- Walk.CopyFile: its post-copy check can never report "files differ" after a complete copy. The Go error for that case is modelled but unreachable.
- Walk.CopyFile: the walk uses the corrected definition, which leaves a file copied onto itself alone (see Findings). The as-written definition is `Walk.CopyFileAsWritten`.
- Walk.DstKey and the recorded source keys use the corrected `Paths.RelativePath` (see Findings). The as-written definition is `Paths.RelativePathAsWritten`.

## Findings

| source | as written | input that shows it | evidently intended | confidence | as-written member | corrected member |
|---|---|---|---|---|---|---|
| internal/syncer/syncer.go:217-224 | `relativePath` cuts the parent off as a raw prefix, then drops one more character. `absolutePath` keeps an absolute root exactly as typed. | `fsync --delete /a/ /b`, where `/a` holds `foo`. The source key is "oo" and the destination key is "foo", so the prune step removes the freshly copied `/b/foo`. | Strip the parent and one separator, whether or not the root ends in separators. | not executed | PathFacts.AsWrittenKeysDisagree | Paths.RelativePath |
| main.go:149-172 | `copyFile` opens the source, then calls `os.Create` on the destination, which truncates it, before `io.Copy` reads anything. The same steps appear in internal/service/Syncer.go:81-104 and internal/service/syncer.go:141-177. | `fsync /a/x /a`: the target `/a/x` is the source. `fsync /a/ /a` passes the prefix check, because "/a" does not start with "/a/". Either way the overwriting generations report success and leave every such file empty. The mirror engine's skip check avoids this. | A file that is its own destination is left unchanged. | not executed | WalkFacts.SelfCopyTruncates | WalkFacts.SelfCopyUnchanged |
