# htmpfs in Dafny

htmpfs is an in-memory filesystem with a copy-on-write history of snapshots. Buffers live in a reference-counted pool,
an inode keeps one list of block references per version, directories are byte strings stored inside inodes, and a
version is a list of inodes. This project models that store, from the bytes of one buffer up to the rename handler, and
proves what the design promises: a snapshot never changes, every version is a tree, reads and writes see flat files, and
the reference counts add up. Where a promise fails, the failing call and the exact condition are proved instead
("Findings" below).

## How it is built

Three descriptions of the same system, each proved against the next.

* **Objects.** `Buffer`, `BufferPool`, `Inode`, `DirectoryResolver`, `PathT`, `InodeSmi` and `Bitmap` are classes with the
  source's fields, updated in place by the source's loops (`Buffers`, `Pools`, `InodeObjects`, `Resolvers`,
  `PathStrings`, `FilesystemObjects`, `Bitmaps`), and `Fuse` holds the two handlers. Every method equates the new state of
  the object, and its result or error, with a function of the old state.
* **The store as a value.** Those functions (`Blocks`, `Inodes`, `Snapshots`, `Filesystems`) act on `Store`: a pool of
  counted buffers, inodes with their block lists, and version lists. `StoreInv` is the invariant: block counts are live
  references plus references dropped without an unlink, unfrozen blocks are private, inodes share no block, blocks are
  full but for the last, inode counts are exact.
* **The history.** `Abs` maps a store to the simple form: one full copy of every file per version (`Histories`). There
  a snapshot is a copied map entry. `ApplyRefines` and `RunRefines` show that the store behaves as the history does: same
  errors, same results, same contents, over runs of any length. `Names` maps one copy to the graph its directories store
  (`Namespaces`, `TreePaths`, `Renames`), where trees, lookups and renames are reasoned about. `StoreRenames` and
  `RenameEffects` carry the rename handler through all three, `Consequences`, `Leaks`, `Exports` and `Lookups` say what
  follows for a user of the store.

Beside the three descriptions stand statements that use none of their functions: which calls succeed, the error of every
other, and the result, in slices, numbers, texts, edges and paths (`FileOutcomes`, `NamespaceOutcomes`, `StoreOutcomes`,
`Texts`, `CopyOnWrite`, and the lemmas called `Exactly`).

`Fuse.Serve` closes the circle: one request on the objects is one step of a run.

A run is a sequence of calls of the filesystem object and of the rename handler, with the path strings that the handler
gets. It is legal if its creations and removals address directories that the current version lists, no directory is
truncated, created names have 1 to 127 bytes and are not `.snapshot` in the root, and renames meet the condition of
`Histories.RenameSafe`. A state is reachable if a legal run leads to it from a fresh filesystem. For creations, and for
renames to a storable name, the condition is exact: `Images.MakeRefines`, `Refinement.MakeInRemoved` and
`RenameEffects.RenameEffect` show that a call that it shuts out breaks the tree whenever it gets as far as a change.

Where the code and its comments differ, the model follows the code. The comment on `write` says that resizing appends
when the data does not fit; the code always makes the file end where the data ends, also when it was longer
(`src/include/htmpfs/htmpfs.h:65-66`, `src/htmpfs/htmpfs.cpp:56-59`). The comments speak of snapshot version 0; the
code names it "current". Reading, or writing without resizing, at the very end of a file whose blocks are all full
throws from `.at()`; the model returns `OutOfRange` there and shows that this is the only such case.

`Pack.lost` and the ghost map of `BufferPool` are bookkeeping that the source does not have: they count the references
that go away without an unlink, when a frozen block is copied or popped and when an inode is erased.

## Findings

* **Renaming `/.snapshot/current`** (`RenameEffects.RootInItself`). Both read-only checks pass, because the version in the
  path is "current". The root is entered under the target name, and only then does the lookup of the source's directory
  `/.snapshot` fail: the caller gets an error, and the root contains itself. Paths of any length lead to it, so a walk of
  the current version has no end.
* **Renaming below the source** (`Renames.RenameIntoItself`, `Renames.RenameCycle`). A directory moved below itself
  becomes part of a cycle and can no longer be reached.
* **Renaming to the same place** (`RenameEffects.FileLost`). A file renamed to its own path is removed, and the call
  succeeds. Comparing the paths does not help: `/a` and `/.snapshot/current/a` are the same place.
* **Exactly when a rename is right** (`RenameEffects.RenameEffect`). With the detour `/.snapshot/current` taken off both
  paths, the subtree moves if and only if the target is not at or below the source, and the state stays sound if and only
  if the target is not below the source and is not `/.snapshot`.
* **Long names** (`Images.MakeRefines`). Creating a name of 128 bytes or more succeeds, and leaves a directory that cannot
  be read back or that shows a name that fills its field.
* **Leaked buffers** (`Leaks.LeakedExactly`, `Leaks.RemovalLeaks`, `Leaks.LeakStays`, `Leaks.FileLeaks`). Removing a file
  that no snapshot lists leaves all its blocks in the pool. Copying a frozen block or cutting it off takes no link from it
  either (`CopyOnWrite.ThawExactly`, `CopyOnWrite.ShrinkExactly`). A block without a reference is never freed, reused or
  changed again, whatever run follows.

## Model

| member | source | states |
|---|---|---|
| Buffers.Buffer.Read | src/htmpfs/buffer_t.cpp:17-39 | the bytes delivered are those from the offset on, as many as were asked for or as there are; none behind the end |
| Buffers.Buffer.Write | src/htmpfs/buffer_t.cpp:41-89 | with resizing the buffer ends with the data, after a gap of zeros if need be; without, the data replaces what there is from the offset on, and the count is what was replaced; behind the end nothing happens |
| Buffers.Buffer.Truncate | src/htmpfs/buffer_t.cpp:102-120 | cut or zero-extend |
| Buffers.Buffer.FromBytes | src/htmpfs/buffer_t.cpp:9-15 | the buffer holds the given bytes |
| FreeIds.FreeId | src/include/htmpfs/htmpfs.h:264-269 | the id is unused, lies between the size and twice the size, and every id from the size up to it is taken |
| FreeIds.FreeIdIsLeast | src/include/htmpfs/htmpfs.h:264-269 | an unused id with only taken ids between it and the size is the one that is found |
| FreeIds.DensePoolGrowsAtEnd | src/include/htmpfs/htmpfs.h:264-269 | a pool with ids 0 to n-1 hands out n |
| FreeIds.SearchFreeId | src/include/htmpfs/htmpfs.h:264-269 | the search loop ends, on every pool, with the least unused id not below the size |
| FreeIds.GetFreeId | src/include/htmpfs/htmpfs.h:257-270 | a full pool is refused, any other gets that id |
| Chunks.TruncateRefines | src/htmpfs/htmpfs.cpp:510-583 | on blocks: cut-or-zero-extend of the flat bytes, and all blocks full but the last |
| Chunks.WriteAllRefines | src/htmpfs/htmpfs.cpp:83-114 | block-wise writing is an overlay of the flat bytes, in both modes |
| Chunks.ReadAllRefines | src/htmpfs/htmpfs.cpp:247-303 | block-wise reading is the slice of the flat bytes |
| Blocks.UnfrozenIsPrivate | src/htmpfs/htmpfs.cpp:361-370 | an unfrozen block of the current version has link count one and no other reference in any version |
| Blocks.ThawStep | src/htmpfs/htmpfs.cpp:140-163 | copying a frozen block keeps the accounting, the contents of all versions, and everything other inodes own |
| Blocks.PopStep | src/htmpfs/htmpfs.cpp:473-486 | so does popping a block, frozen or not, but for the popped block itself |
| Blocks.AppendStep | src/htmpfs/htmpfs.cpp:417-422 | so does appending an empty block, also when it reuses an id |
| Inodes.TruncateBankRefines | src/htmpfs/htmpfs.cpp:403-584 | the file is cut or zero-extended, has exactly the blocks that its bytes need, none of them frozen; other versions keep their bytes |
| Inodes.ResizingWriteRefines | src/htmpfs/htmpfs.cpp:56-117 | the file becomes its old bytes cut or zero-padded to the offset, then the data |
| Inodes.FixedWriteRefines | src/htmpfs/htmpfs.cpp:118-214 | the file keeps its length, the data replaces what there is from the offset on, and the count is the smaller of the data and what there is; behind the end nothing happens; it fails exactly at the end of a file with full blocks |
| CopyOnWrite.FixedWriteCopies | src/htmpfs/htmpfs.cpp:119-214 | a write without resizing copies the frozen blocks that it touches and no other block, keeps every other entry of the list, and takes no link from any buffer |
| CopyOnWrite.TruncateCopies | src/htmpfs/htmpfs.cpp:403-584 | resizing copies the frozen blocks it keeps, leaves the others in place, frees exactly the cut blocks that are not frozen, and takes no link from any other buffer; the size of the pool afterwards |
| CopyOnWrite.ResizingWriteCopies | src/htmpfs/htmpfs.cpp:56-117 | a write with resizing does to the block list and the link counts what resizing does, and no more |
| CopyOnWrite.NothingWritten | src/htmpfs/htmpfs.cpp:41-55 | a write of no bytes changes nothing |
| CopyOnWrite.ThawExactly | src/htmpfs/htmpfs.cpp:140-163 | a frozen block in the range is replaced by a private copy of its bytes, any other block stays; every old buffer keeps its links and bytes |
| CopyOnWrite.ShrinkExactly | src/htmpfs/htmpfs.cpp:473-486 | cutting blocks off frees exactly those that are not frozen; a frozen one stays in the pool with all its links |
| Inodes.ReadRefines | src/htmpfs/htmpfs.cpp:217-306 | the bytes from the offset on, as many as were asked for or as there are, none behind the end; it fails exactly at the end of a file with full blocks |
| Inodes.ToStringRefines | src/htmpfs/htmpfs.cpp:308-334 | the whole file; the short-operation error is never raised |
| Inodes.PutStep | src/htmpfs/htmpfs.cpp:97-114 | changing only unfrozen blocks leaves every other version and every other inode as it was |
| Snapshots.CreateAllIs | src/htmpfs/htmpfs.cpp:1009-1014 | what the loop over the listed inodes adds up to: one link more for every block and inode listed, current blocks frozen and shared |
| Snapshots.DeleteAllIs | src/htmpfs/htmpfs.cpp:1026-1031 | what the deletion loop adds up to, erased blocks and inodes included |
| SnapshotInv.CreateSnapshotRefines | src/htmpfs/htmpfs.cpp:1002-1017 | fails only for a name in use, keeps the invariant, shows the current image under the new name and changes no other version |
| SnapshotInv.DeleteSnapshotRefines | src/htmpfs/htmpfs.cpp:1019-1034 | fails only for an unknown name or "current", never half way; keeps the invariant and all other images; erases exactly the inodes that no other version lists |
| Directories.EntryRoundTrip | src/htmpfs/directory_resolver.cpp:78-90 | a record survives storage if and only if its name has no NUL and is shorter than its field, or fills it before an id with low byte zero |
| Directories.DirectoryRoundTrip | src/htmpfs/directory_resolver.cpp:131-150 | a list of entries survives packing and unpacking if and only if every entry does |
| Directories.LongNameLost | src/include/htmpfs/directory_resolver.h:24-28 | a 128-byte name that does not survive |
| Directories.StoredExactly | src/include/htmpfs/directory_resolver.h:24-28 | a stored directory has 8 bytes and 136 per entry, and comes back if and only if each name has no NUL and at most 127 bytes, or 128 before an id divisible by 256 |
| Directories.LayoutExactly | src/htmpfs/directory_resolver.cpp:131-150 | where the bytes of the count, of each name with its padding and of each id stand |
| Namespaces.MakeKeepsTree | src/htmpfs/htmpfs.cpp:771-792 | entering a new inode under a free name keeps a tree a tree |
| Namespaces.RemoveKeepsTree | src/htmpfs/htmpfs.cpp:892-915 | so does removing a file or an empty directory |
| TreePaths.LookupIsBijective | src/htmpfs/htmpfs.cpp:698-707 | in a tree every node has a path and no two paths lead to the same node |
| NamespaceOutcomes.ResolveExactly | src/htmpfs/htmpfs.cpp:698-707 | the empty path is the root; one more name finds the entry of that name, or fails with the error for a missing inode, a file or a missing entry |
| Renames.RenameMoves | src/utils/fuse.cpp:509-551 | after the checks, all paths below the target lead where those below the source led, if and only if the target is not at or below the source; the source is gone and all other paths stay |
| Renames.RenameKeepsTree | src/utils/fuse.cpp:509-551 | a rename that passes its checks keeps a tree a tree if and only if the target is not below the source and is not the snapshot entry of the root |
| Renames.RenameInPlace | src/utils/fuse.cpp:518-541 | renaming a file or an empty directory to its own path is the removal of the entry and of its node |
| Renames.RenameCycle | src/utils/fuse.cpp:509-551 | a rename below the source leaves no tree, for every tree and every such pair of paths |
| Renames.RenameIntoItself | src/utils/fuse.cpp:509-551 | a directory moved into itself can no longer be reached |
| Images.MakeRefines | src/htmpfs/htmpfs.cpp:742-795 | creation adds one entry and one node to the stored graph if the name has 1 to 127 bytes and does not shadow the snapshot entry; if not, the image is no readable tree afterwards |
| NamespaceOutcomes.MakeExactly | src/htmpfs/htmpfs.cpp:742-795 | creation fails for a byte outside 0x1F to 0x7E or a slash, an unknown parent, a file as parent, a name in use, or a full pool, each with its error, and succeeds otherwise |
| NamespaceOutcomes.MakeGrows | src/htmpfs/htmpfs.cpp:771-792 | the new node is found at its path and is empty, its entry is the last of its directory, all other paths and nodes are as they were |
| Images.RemoveRefines | src/htmpfs/htmpfs.cpp:849-916 | on stored directories, removal is the removal of the graph |
| NamespaceOutcomes.RemoveExactly | src/htmpfs/htmpfs.cpp:849-890 | removal succeeds if and only if the parent holds the name and the named node has no entries; the error of every other case |
| NamespaceOutcomes.RemoveShrinks | src/htmpfs/htmpfs.cpp:892-915 | the path is gone with all below, the other entries keep their order, all other paths and nodes are as they were |
| ImageRenames.RenameRefines | src/utils/fuse.cpp:486-555 | on stored directories: a rename that passes its checks succeeds; it moves the subtree if and only if the target is not at or below the source; nothing but two directories and the replaced inode changes; the image stays a readable tree if and only if the target is not below the source and does not shadow the snapshot entry |
| NamespaceOutcomes.RenameCheckExactly | src/utils/fuse.cpp:493-541 | the checks of a rename in their order: source, empty paths, target directory, a file in its place, and an entry in the way that is not empty; any other rename passes |
| NamespaceOutcomes.RenameEntries | src/utils/fuse.cpp:509-551 | the entry lists of both directories after a rename, in their order |
| Histories.StepKeepsGood | src/htmpfs/htmpfs.cpp:742-1034 | every step of the simple form keeps every version a tree with readable directories |
| Filesystems.PWriteBytes | src/utils/fuse.cpp:295-305 | the choice of the write mode makes do_write the zero-filling overlay of write() in POSIX.1-2017, System Interfaces, chapter 3 |
| FileOutcomes.FixedWriteIs | src/htmpfs/htmpfs.cpp:118-214 | write() without resizing on any inode of the current version: error, count and bytes, case by case; nothing else that any version shows changes |
| FileOutcomes.ResizingWriteIs | src/htmpfs/htmpfs.cpp:56-117 | the same with resizing |
| FileOutcomes.PWriteIs | src/utils/fuse.cpp:288-308 | the same for do_write |
| FileOutcomes.TruncateIs | src/htmpfs/htmpfs.cpp:403-584 | truncate() of any inode of the current version: the first bytes, or all of them and zeros |
| FileOutcomes.UnlistedIs | src/htmpfs/htmpfs.cpp:25-60 | an inode that no version lists cannot be written or truncated |
| Filesystems.WriteRefines | src/htmpfs/htmpfs.cpp:25-215 | write() of any inode in the store does to the history what write() on bytes does to the file, errors and count included; of an inode that only snapshots list, no version sees the change |
| Filesystems.TruncateRefinesStore | src/htmpfs/htmpfs.cpp:403-584 | truncate() of any inode in the store is cut-or-zero-extend in the history; of an inode that only snapshots list, no version sees the change |
| Filesystems.ResolveRefines | src/htmpfs/htmpfs.cpp:698-707 | lookup in the store at a version is lookup in what the version shows |
| Refinement.MakeRefinesStore | src/htmpfs/htmpfs.cpp:742-795 | creating a child in the store is creating it in the history; the id reuse is the same |
| Refinement.MakeInRemoved | src/htmpfs/htmpfs.cpp:742-795 | a child made in a directory that only snapshots list ends up in the current version with no directory naming it, and the tree is broken |
| Refinement.RemoveRefinesStore | src/htmpfs/htmpfs.cpp:849-916 | removing a child likewise; the inode goes when its last version goes |
| StoreOutcomes.MakeOutcome | src/htmpfs/htmpfs.cpp:742-795 | in every sound state: the five errors of a creation, and else the child at its path under the least unused id, with all other paths, nodes and versions as they were |
| StoreOutcomes.RemoveOutcome | src/htmpfs/htmpfs.cpp:849-916 | in every sound state: the errors of a removal, and else the path gone, the inode alive if and only if a snapshot lists it, and all other paths, nodes and versions as they were |
| StoreRenames.RenameRefinesStore | src/utils/fuse.cpp:486-555 | a rename by components in the store is the rename of the image, wherever the target is: same error and no change, or the same new image |
| StoreRenames.LookupChecked | src/htmpfs/htmpfs.cpp:668-710 | the lookup of a path that passed the read-only check is the lookup of what it addresses in the current version |
| StoreRenames.RenameByPathIs | src/utils/fuse.cpp:486-555 | with the three lookups of the handler a rename is the rename of what the paths address, unless the source is the root by its detour |
| StoreRenames.RootSource | src/utils/fuse.cpp:486-555 | with that source the root is entered at the target and the call fails afterwards, or it fails before any change |
| StoreRenames.RenameByPathRefines | src/utils/fuse.cpp:486-555 | do_rename on path strings is the rename of the history, errors included |
| StoreOutcomes.AdmittedExactly | src/utils/fuse.cpp:486-541 | a rename gets as far as its first change if and only if both paths pass the read-only check, the source resolves, and the front of the target leads to a directory where its last name is missing or names a file or an empty directory |
| StoreOutcomes.RenameRefused | src/utils/fuse.cpp:486-541 | the error of every other rename, which changes nothing |
| Runs.ApplyRefines | src/htmpfs/htmpfs.cpp:25-1034 | every operation, renames by path strings among them, gives the same error and no change, or the same result and the related state, in the store and in the history |
| Runs.HiddenKeeps | src/htmpfs/htmpfs.cpp:25-215 | changing an inode that was removed, and that only snapshots list, is seen by no version |
| Runs.NextInv | src/htmpfs/htmpfs.cpp:25-1034 | every legal step keeps the invariant and the correspondence |
| Runs.InitInv | src/htmpfs/htmpfs.cpp:712-740 | a fresh filesystem meets the invariant and shows an empty root |
| Runs.RunRefines | src/htmpfs/htmpfs.cpp:25-1034 | over runs of any length the store stays equal to the history of full copies |
| Runs.FreshRunRefines | src/htmpfs/htmpfs.cpp:712-1034 | a legal run from a fresh filesystem ends in the store that stands for the history that the same run builds from an empty root |
| Runs.ReachableInv | src/htmpfs/htmpfs.cpp:25-1034 | the invariant holds in every state that a legal run reaches from a fresh filesystem |
| Runs.SnapshotIsolation | src/htmpfs/htmpfs.cpp:1002-1034 | until it is deleted, a snapshot shows the same image whatever run follows |
| Runs.SnapshotForever | src/htmpfs/htmpfs.cpp:1002-1034 | that image is the one that was current when the snapshot was made |
| Consequences.ReadShows | src/htmpfs/htmpfs.cpp:217-334 | read() at a version delivers what the version shows from the offset on, as much as was asked for or as there is, and to_string() all of it |
| Consequences.ReadRefused | src/htmpfs/htmpfs.cpp:217-334 | reading fails with no such inode if no version lists it, and with no such snapshot if a snapshot does not |
| Consequences.SnapshotReads | src/htmpfs/htmpfs.cpp:1002-1034 | in every reachable state and after any run from it, every read of a snapshot equals the read of the current version when it was made |
| Consequences.SaveThenRefresh | src/htmpfs/directory_resolver.cpp:59-150 | saving and re-reading a directory gives the list back if and only if every name is storable, for any block size and whatever blocks, frozen or not, it had |
| Consequences.BlockAccounting | src/htmpfs/htmpfs.cpp:586-618 | in every reachable state the link count of every pooled buffer is the number of its live references over all inodes and versions plus its dropped ones |
| Consequences.Ownership | src/htmpfs/htmpfs.cpp:354-374 | in every reachable state no block reference dangles; all references to a block stand in one inode at one index; an unfrozen one is the only one, with link count one |
| Consequences.InodeAccounting | src/htmpfs/htmpfs.cpp:809-836 | in every reachable state an inode's link count is the number of versions that list it; it exists if and only if one does; it has a volume for a snapshot if and only if the snapshot lists it |
| Consequences.FreshIdIsUnused | src/htmpfs/htmpfs.cpp:771-780 | in every reachable state the id of a new inode occurs in no version, neither as an inode nor in any stored directory entry |
| Consequences.EveryVersionIsATree | src/htmpfs/htmpfs.cpp:742-1034 | in every reachable state the namespace of every version is a closed tree, each node with exactly one path; RenameEffect says which renames leave these states |
| RenameEffects.RenameEffect | src/utils/fuse.cpp:486-555 | for every two path strings with a storable target name: where the texts and the namespace do not let it start (Admissible), a rename fails without a change; otherwise the subtree moves if and only if the target is not at or below the source, the state stays sound if and only if the target is not below it and does not shadow the snapshot entry, the caller gets an error if and only if the source is the root; for any other source its path is gone, all other paths lead where they led, all nodes but the two directories are equal, the entry lists of those two are stated, exactly the replaced inode leaves the current version and lives on if and only if a snapshot lists it; all snapshots stay |
| RenameEffects.NotAdmitted | src/utils/fuse.cpp:490-521 | an error before the first change leaves the store as it was |
| RenameEffects.DetourPath | src/utils/fuse.cpp:27-35 | any path of the current version passes the read-only check with `/.snapshot/current` in front, and addresses the same place |
| RenameEffects.RootInItself | src/utils/fuse.cpp:486-555 | on a fresh filesystem, renaming `/.snapshot/current` to `/x` returns an error and leaves the root containing itself: paths of any length lead to it |
| RenameEffects.FileLost | src/utils/fuse.cpp:518-541 | renaming the file `/a` to `/.snapshot/current/a` succeeds and removes it |
| Consequences.CreateThenDelete | src/htmpfs/htmpfs.cpp:1002-1034 | in every reachable state, creating a snapshot and deleting it restores pools, counts, lists and bytes; only frozen flags differ |
| Leaks.LeakedExactly | src/htmpfs/htmpfs.cpp:604-618 | in every reachable state a pooled buffer has no reference if and only if all its links, one at least, are dropped ones |
| Leaks.RemovalLeaks | src/htmpfs/htmpfs.cpp:821-836 | removing the last link of an inode leaves each of its blocks in the pool with its data and without any reference |
| Leaks.NextForgets | src/htmpfs/htmpfs.cpp:25-1034 | no operation, legal or not, on a sound state touches a buffer that nothing refers to |
| Leaks.LeakStays | src/htmpfs/htmpfs.cpp:25-1034 | over any legal run such a buffer stays in the pool as it is, still without a reference |
| Leaks.FileLeaks | src/htmpfs/htmpfs.cpp:849-916 | making a file, writing one byte and removing it leads to a reachable state with such a buffer |
| PathStrings.ParsePrint | src/htmpfs/path_t.cpp:8-49 | parsing a printed list of nonempty slash-free names gives the list back |
| PathStrings.PrintParseIdempotent | src/htmpfs/path_t.cpp:8-49 | print after parse is idempotent |
| PathStrings.ComponentsExactly | src/htmpfs/path_t.cpp:8-36 | the components of any text, by its slashes |
| PathStrings.SnapshotPathRoundTrip | src/htmpfs/htmpfs.cpp:621-666 | for a snapshot, if_snapshot recovers version and path from make_path_with_version if and only if the path is absolute or empty |
| PathStrings.CurrentPathRoundTrip | src/utils/uni_utils.cpp:15-26 | for the current version, if and only if the path does not start with the snapshot entry |
| PathStrings.PathT.constructor | src/htmpfs/path_t.cpp:8-36 | the scan yields the empty name and then the nonempty runs between slashes |
| PathStrings.PathT.ToString | src/htmpfs/path_t.cpp:38-49 | each nonempty name after a slash |
| PathStrings.PathT.PopEnd | src/include/htmpfs/path_t.h:26-31 | takes off and returns the last name |
| PathStrings.IfSnapshotMethod | src/htmpfs/htmpfs.cpp:621-666 | version, rest of the path and error of every path |
| PathStrings.IfSnapshotAddresses | src/htmpfs/htmpfs.cpp:621-666 | cutting the text of a path gives the version and the components that the components of the path address, errors included |
| PathStrings.CheckReadOnlyExactly | src/utils/fuse.cpp:27-35 | a path passes the read-only check unless it starts with `.snapshot`, and then if and only if "current" follows; the two errors of the others |
| Exports.WalkMembers | src/htmpfs/htmpfs.cpp:934-967 | the walk below a directory lists exactly the paths that resolve below it |
| Exports.WalkDistinct | src/htmpfs/htmpfs.cpp:934-967 | it lists no path twice |
| Exports.ExportIsComplete | src/htmpfs/htmpfs.cpp:921-989 | the walk from the root lists every path but the root's exactly once |
| Lookups.LookupByPath | src/htmpfs/htmpfs.cpp:668-710 | every string: the empty one is the root, a relative one is refused, any other finds what the version that it addresses has at the rest of it, or names no version |
| Lookups.LookupUnder | src/utils/uni_utils.cpp:15-26 | a path put under a version by make_path_with_version finds what the version has at the path |
| Lookups.ExportListsLookups | src/htmpfs/htmpfs.cpp:921-989 | in every reachable state the exported strings are exactly the normalised paths that lookup resolves under the version, each once |
| Lookups.NamespaceIsolation | src/htmpfs/htmpfs.cpp:668-710 | after any run a snapshot exports the same sequence of strings, and lookups under it find the same inodes, as the current version did when it was made |
| Texts.DetourLookup | src/htmpfs/htmpfs.cpp:668-710 | `/.snapshot/current` in front of an absolute path that does not itself start with `.snapshot` changes no lookup |
| Texts.SnapshotLookup | src/htmpfs/htmpfs.cpp:668-710 | a path behind `/.snapshot/` and a version name is looked up in that version |
| Texts.PlainLookup | src/htmpfs/htmpfs.cpp:668-710 | any other absolute path is looked up in the version "current" |
| Texts.CurrentIsTaken | src/htmpfs/htmpfs.cpp:1002-1034 | a version "current" is always there; creating and deleting a snapshot of that name fails |
| Texts.FreshIs | src/htmpfs/htmpfs.cpp:712-740 | a fresh filesystem is one version "current" with the empty directory 0 |
| Pools.BufferPool.RequestBufferAllocation | src/htmpfs/htmpfs.cpp:586-602 | an empty buffer with link count one under the least free id; nothing else changes |
| Pools.BufferPool.LinkBuffer | src/htmpfs/htmpfs.cpp:797-807 | one link more, or an error and no change |
| Pools.BufferPool.UnlinkBuffer | src/htmpfs/htmpfs.cpp:604-618 | the last link erases, any other is counted down, or an error and no change |
| InodeObjects.Inode.Truncate | src/htmpfs/htmpfs.cpp:403-584 | the object's pool and current list become those of the specification; only unfrozen blocks are resized and none is frozen afterwards |
| InodeObjects.Inode.Write | src/htmpfs/htmpfs.cpp:25-215 | both modes, the refusal for directories, the count returned; on an error nothing has changed |
| InodeObjects.Inode.WriteBlock | src/htmpfs/htmpfs.cpp:97-114 | a block that is written is not frozen, and no block operation comes out short |
| InodeObjects.Inode.Read | src/htmpfs/htmpfs.cpp:217-306 | the three-part read delivers what the specification does, and no part comes out short |
| InodeObjects.Inode.ToString | src/htmpfs/htmpfs.cpp:308-334 | the specification's string |
| InodeObjects.Inode.CurrentDataSize | src/htmpfs/htmpfs.cpp:336-352 | the size of the concatenated blocks, or no such snapshot |
| InodeObjects.Inode.CreateNewVolume | src/htmpfs/htmpfs.cpp:354-374 | current blocks frozen and shared with the new volume, each with one link more; a block missing from the pool stops it with the blocks before it frozen and linked |
| InodeObjects.Inode.DeleteVolume | src/htmpfs/htmpfs.cpp:376-391 | the volume is gone and each of its blocks has been unlinked; a block missing from the pool stops it with the blocks before it unlinked and the volume still there |
| Resolvers.DirectoryResolver.Open | src/htmpfs/directory_resolver.cpp:47-57 | the entries that the inode's bytes at the version decode to, or the error |
| Resolvers.DirectoryResolver.Refresh | src/htmpfs/directory_resolver.cpp:59-95 | the record loop yields the decoded list |
| Resolvers.DirectoryResolver.SaveCurrent | src/htmpfs/directory_resolver.cpp:131-150 | the inode's current bytes become the packed entries; it never fails |
| Resolvers.DirectoryResolver.Namei | src/htmpfs/directory_resolver.cpp:116-129 | the id of the first entry of that name, or an error if there is none |
| Resolvers.DirectoryResolver.CheckAvailability | src/htmpfs/directory_resolver.cpp:152-160 | true if and only if no entry has the name |
| Resolvers.DirectoryResolver.AddPath | src/htmpfs/directory_resolver.cpp:102-114 | appends the entry, or fails without change if the name is taken |
| Resolvers.DirectoryResolver.RemovePath | src/htmpfs/directory_resolver.cpp:162-177 | erases the first entry of that name, or fails without change |
| FilesystemObjects.InodeSmi.constructor | src/htmpfs/htmpfs.cpp:712-740 | the object starts as the fresh store |
| FilesystemObjects.InodeSmi.MakeChildDentryUnderParent | src/htmpfs/htmpfs.cpp:742-795 | the object does what the store operation does: same error and no change, or same id and same new state |
| FilesystemObjects.InodeSmi.RemoveChildDentryUnderParent | src/htmpfs/htmpfs.cpp:849-916 | likewise for removal |
| FilesystemObjects.InodeSmi.CreateSnapshotVolume | src/htmpfs/htmpfs.cpp:1002-1017 | likewise for creating a snapshot |
| FilesystemObjects.InodeSmi.DeleteSnapshotVolume | src/htmpfs/htmpfs.cpp:1019-1034 | likewise for deleting one; on an error nothing has changed |
| FilesystemObjects.InodeSmi.UnlinkInode | src/htmpfs/htmpfs.cpp:821-836 | one link less; the last one erases the inode; an unknown inode is an error and no change |
| FilesystemObjects.InodeSmi.GetInodeIdByPath | src/htmpfs/htmpfs.cpp:668-710 | the lookup loop finds what the specification of lookup finds, errors included |
| FilesystemObjects.InodeSmi.ExportAsFilesystemMap | src/htmpfs/htmpfs.cpp:921-989 | the recursion ends and yields the exported sequence; an unknown or empty version name gives the error of the first lookup |
| Fuse.WriteByPathIsPosix | src/utils/fuse.cpp:288-308 | in every reachable state and for every path that is not under a snapshot, writing is POSIX write() on the file that the path leads to, and changes nothing else in any version; any other path is refused |
| Fuse.DoWrite | src/utils/fuse.cpp:288-308 | the handler does to the object what the specification does to the store |
| Fuse.DoRename | src/utils/fuse.cpp:486-555 | for any two strings the handler does to the object what the specification of rename by path does to the store, also where it fails half way |
| Fuse.Serve | src/utils/fuse.cpp:288-555 | any request takes the object to the next state of the run, with the result of the specification; a legal one keeps the invariant |
| Bitmaps.BitsApart | src/include/htmpfs/bitmap_t.h:11-31 | setting or removing a bit of a byte changes that bit and no other |
| Bitmaps.PlaceIsInjective | src/htmpfs/bitmap_t.cpp:19-22 | two bits never share buffer, byte and bit |
| Bitmaps.SetThenGet | src/htmpfs/bitmap_t.cpp:17-58 | reading a bit after setting one |
| Bitmaps.BitmapIsArray | src/htmpfs/bitmap_t.cpp:17-58 | over consecutive full blocks, setting a bit is an assignment to an array of booleans |
| Bitmaps.BitOfJoined | src/htmpfs/bitmap_t.cpp:44-58 | bit i of consecutive full blocks is binary digit i % 8 of byte i / 8 of their bytes, taken together |
| Bitmaps.Bitmap.SetBitInMap | src/htmpfs/bitmap_t.cpp:17-42 | the pool becomes the one with the bit put; a missing buffer is an error, and a buffer too short for the byte stays as it is |
| Bitmaps.Bitmap.GetBitInMap | src/htmpfs/bitmap_t.cpp:44-58 | the bit in the pool; a missing buffer is an error, and of a buffer too short for the byte the bit is that of the variable read into |

## Left out

- Pools.BufferPool.RequestBufferAllocation: does not model the depletion of buffer ids, which needs a pool of `std::map::max_size()` buffers; inode ids do run out in the model.
- Fuse.DoWrite: does not model the time stamp and the file handle.
- Bitmaps.Bitmap.SetBitInMap: does not check the length of the bitmap, because the source does not; the byte variable that the source leaves uninitialised is a parameter.
- RenameEffects.RenameEffect: requires a target name of at most 127 bytes; with a longer one the target's directory cannot be read back, and what the source reads from it next is undefined.
- StoreRenames.RenameRefinesStore: requires such a target name, for the same reason.
- StoreRenames.RenameByPathRefines: requires such a target name, for the same reason, and leaves the source `/.snapshot/current` to RootSource.
- ImageRenames.RenameRefines: requires such a target name, for the same reason.
- Refinement.RemoveRefinesStore: requires a parent that is not listed by snapshots alone; handlers look the parent up in the current version.
- Refinement.MakeRefinesStore: leaves a parent that only snapshots list to MakeInRemoved.
- StoreOutcomes.MakeOutcome: leaves such a parent to MakeInRemoved, and what a creation of a longer name stores to Images.MakeRefines.
- StoreOutcomes.RemoveOutcome: requires a parent that is not listed by snapshots alone, as RemoveRefinesStore does.
- Consequences.ReadRefused: does not say what reading the current blocks of an inode gives that only snapshots list.
- Histories.StepKeepsGood: speaks of legal steps; for creations, and for renames to a storable name, the steps left out are shown to break the tree, while truncating a directory or removing an entry from a directory that only snapshots list may or may not.
- FilesystemObjects.InodeSmi.ExportAsFilesystemMap: requires a version name without a slash, because the source's path text then addresses another version.
- Sizes, offsets and link counts are natural numbers: 64-bit wrap-around of `offset + length` and of growing counts is not modelled; counting down from zero wraps as in the source.
- Raw pointers are ids: a version list holds inode ids and a block list buffer ids. Host memory layout is fixed as little-endian, with 136-byte directory records.
- Undefined behaviour of the source (records that are cut short, a name without NUL that overruns its buffer) is an error value, and an entry that names no inode is "inode not found". The invariant excludes all of these.
- The checks of `char` in names see bytes of 128 and more as above 0x7F, where the source sees them as negative; both refuse them.
- `fs_stat` with its time stamps, modes, owners and link count: these are not versioned and not maintained by the inode.
- All FUSE handlers but write and rename, among them symbolic links and fallocate: they add no state of their own.
- `remove_inode_by_path` and `count_link_for_inode`: thin wrappers.
- `load_from_disk`, `sync` and `integrity_check_and_fix` are not implemented in the source; the device layer in `src/disk_ops` is not used by the filesystem.
- Error texts, error numbers, stack traces and the debug-only members.
- `hash64`, `to_string` of a buffer, and the smart pointer.
