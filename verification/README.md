# ATMKoala: a verified model of the kernel's data-keeping cores

ATMKoala is a freestanding kernel. This project models, in Dafny, the parts of it that keep data
structures consistent, and proves what those parts are for:

* **CatFS** (`Words`, `Bitmap`, `CatForest`, `CatStore`, `CatPrune`, `CatBytes`, `CatFs`, `CatRun`, `CatFiles`,
  `CatSpace`, `CatFindings`): the block file system, with its bitmap, inode table and three-level pointer trees stored in 512-byte
  sectors. Every reachable state has single ownership of blocks and an exact bitmap, every run of creates, unlinks, renames,
  writes, reads and truncates is a run over names, sizes and mapped file blocks, also when the disk fills in mid-write, and
  on files without holes those are operations on plain byte sequences. A write takes exactly the blocks it needs and stores as
  many bytes as they allow.
* **CatFS names** (`CatNames`, `CatLookup`, `CatVfs`): parents lead to the root in every run, and form a tree exactly where
  `CatRun.TreeStep` says; what every path names after a create or a rename; printing a path and looking it up undo
  each other.
* **Kernel heap** (`Heap`): first fit, splitting and coalescing over a list of headers that always tiles the heap;
  over every run live allocations are disjoint and never moved, each call takes exactly the bytes it should, and releasing
  everything restores one free block.
* **Btrfs label transaction** (`Btrfs`, `BtrfsCrash`, `BtrfsVolume`): superblock mirrors written secondaries first; what the probe
  selects on any media, and what it finds after a crash between or during any two writes.
* **Service manager** (`ServiceTable`, `Services`): recursive dependency start with cycle detection, guarded stop,
  runlevel changes, over every table; starting succeeds exactly when it can, runs the callbacks of exactly the services
  needed, and dependencies hold at every step of every run on tables of the shipped kind.
* **Falling-block game** (`TetrisBoard`, `Tetris`) and **flood fill** (`Paint`): whole-run invariant of the board;
  exact 4-connected component with undo.
* **Civil time** (`Calendar`): both conversions, their round trips, weekdays computed two ways.
* **Path normalisation** (`Posix`): stack evaluation of `.` and `..` in a bounded buffer, and the laws that determine it.
* **Configuration files** (`Ini`, `IniLines`, `Config`): what every kind of line adds, parser and serializer as inverses,
  lookup and update as a map.
* **ELF64 loader** (`Elf`): the exact memory image of a loaded executable.

State that the kernel changes in place is a class whose methods are proved against functions of the old state; the
theorems are about those functions. Runs return a ghost trace of the states between calls, and every outcome is tied to
the state the call met. Some predicates are wrapped in a quantifier over a dummy argument (`Coherent`, `Pruned`,
`Written`, `Exact`, `Reads`, `FreshBytes`, `Recorded`, `Begun`, `TrimmedTo`, `OpMeans`, `Answered`, `Ran`, `Probes`,
`Interrupted`, `Updated`, `FallsTo`, `DropsTo`, `Reduced`, `Progress`) so that they can be handed on without being unfolded.
`Wrappers` and `Sequences` hold what several models share.

`dafny verify dfyconfig.toml` checks everything.

## Findings

* A crash during the first mirror write can lose both labels although two trusted mirrors existed, if those mirrors
  disagreed (`BtrfsCrash.DisagreementLosesBoth`). `BtrfsCrash.CrashAtomic` gives the exact condition on the media;
  `BtrfsCrash.CrashLeavesOldOrNew` is the promise for mirrors in agreement.
* At the last 64-bit generation the counter wraps and an unreached mirror wins (`BtrfsCrash.WrapKeepsOld`); the exact
  conditions for finding the old and the new label are in `BtrfsCrash.CrashAtWrap`.
* `catfs_read` with `offset + len` at or above 2^32 returns bytes beyond the end of the file exactly when the file does
  not end on a block boundary (`CatFiles.ReadLength`; a file of two bytes delivers 511 in `CatFindings.ReadPastEnd`).
* `catfs_read` stops at a block that was never written, so a file with a hole reads short: exactly when a block of the range
  is missing (`CatFiles.ReadStops`; nothing at all in `CatFindings.HoleReadsNothing`). Holes come from exactly the writes and
  truncates given in `CatFiles.WholeAfterWrite` and `CatFiles.WholeAfterTruncate`.
* `catfs_truncate` rounds the new size up in 32 bits; from 2^32 - 511 on the rounding wraps and a shrink frees every block
  of the file (`CatFs.TruncateKeeps` is the exact condition, `CatFindings.TruncateLosesAll` two calls that do it).
* `catfs_create` does not check that the parent is a directory (`CatFindings.CreateUnderFile`); the namespace stays a tree
  exactly when the parent is a directory and the name legal and new there (`CatNames.TreeCreate`), which the VFS adapter
  ensures (`CatVfs.CreateChild`).
* `catfs_create` drops the first character of a path without a slash: the path then names the new inode exactly if it has a
  slash (`CatLookup.CreatedNames`; "ab" names nothing in `CatFindings.CreateRelative`), and every other path names what it
  did exactly unless the new inode is numbered below a sibling of the same name, which only such a path can bring about (the
  file "/b" is hidden in `CatFindings.CreateHides`).
* `catfs_rename` accepts a name with a slash. The namespace is a tree, and some path names the inode, exactly if the name has
  none (`CatFs.CatFs.Rename`; in `CatFindings.RenameSlash` the file printed as "/b/c" is found by no path).
* A comment in `src/kmalloc.c` speaks of 16-byte headers; the structure has 32 bytes, which is what is modelled.
* `kmalloc` of one of the last seven 64-bit sizes rounds to 0 and succeeds (`Heap.Align8Suffices`; `kmalloc(2^64 - 1)` on a
  fresh heap in `Heap.HugeRequest`).
* A configuration with `global` anywhere but as a non-empty first section never survives saving and loading
  (`Ini.RoundTripIff`, `Ini.GlobalIsLost`).
* `cfg_serialize` writes the newline after a section unchecked. What it prints exceeds the buffer exactly when two
  neighbouring sections `global` meet its last byte, or one a buffer of no bytes (`Ini.KeptFits`); it stays within every
  buffer exactly if no two neighbouring sections are named `global` (`Ini.FitsEveryBuffer`; two bytes go into a buffer of one
  in `Ini.GlobalsOverrun`).
* A configuration line with two or more blanks between key and `=` is lost, because the parser skips only one, and none after
  a key of 63 characters (`IniLines.PairReads` is exact; the text `k  =v` in `IniLines.WideGapLoses`).
* With a dependency name of more than 31 characters a needed service can be stopped, because starting and stopping split
  the list differently (`Services.LongNameStops`; `ServiceTable.ReadingsAgree` and `ServiceTable.StopCloses` are the exact
  conditions).

## Model

| member | source | states |
|---|---|---|
| `CatRun.Run` | src/catfs.c:373-667 | any sequence of creates, unlinks, renames, writes, truncates and reads whose path parts fit the fixed buffers: each call answers and does exactly what it should to names, sizes, mapped file blocks and the pointers in use, and in every state on the way parents lead to the root, counters are right, free blocks and pointers in use add up to the disk, and only inodes in use have blocks |
| `CatRun.Execute` | src/catfs.c:373-667 | the same for one call: exactly when it is refused, what it returns, and the state after it, keeping ownership, bitmap, counters and parents |
| `CatRun.TreeStep` | src/catfs.c:373-509 | a successful call leaves a tree if and only if it does not create below a file, without a name or with one already there, nor rename to a name with a slash; a failing one always does |
| `CatRun.TreeRun` | src/catfs.c:373-509 | over a run the namespace stays a tree as long as every successful call keeps it |
| `CatFiles.FileRun` | src/catfs.c:373-667 | over any part of a run that writes no hole into a file, does not grow it by truncation and does not remove it, its bytes are those the writes and truncates produce one after another |
| `CatFiles.FileStep` | src/catfs.c:373-667 | the same for one call: a write splices exactly [offset, offset+w), a shrink cuts, and every other call and file leaves the bytes alone |
| `CatFiles.FileRead` | src/catfs.c:589-611 | a read of a file without holes delivers the slice up to its end, followed by the rest of the last block exactly where offset + len wraps |
| `CatFiles.FileBorn` | src/catfs.c:373-399 | a created file has no bytes and no holes |
| `CatFiles.WriteBytes` | src/catfs.c:613-649 | a write that starts within a file without holes or at its end splices its first w bytes into that file and leaves all others |
| `CatFiles.TruncateBytes` | src/catfs.c:651-667 | a shrinking truncate of a file without holes cuts its bytes and leaves all other files |
| `CatFiles.WholeAfterWrite` | src/catfs.c:613-649 | a write leaves a file without holes if and only if it starts no later than in the block after its last |
| `CatFiles.WholeAfterTruncate` | src/catfs.c:651-667 | a truncate leaves a file without holes if and only if it does not grow it beyond its last block |
| `CatFiles.ReadStops` | src/catfs.c:589-611 | a read below the wrap delivers all of the range within the file if and only if no block of it is missing |
| `CatRun.Start` | src/catfs.c:182-222 | a formatted disk, whatever its data region held, has one empty directory and satisfies every invariant |
| `CatSpace.TightStep` | src/catfs.c:373-667 | every call keeps an inode free of pointer blocks that lead to no file block, except a write to it that runs out of blocks |
| `CatSpace.TightRun` | src/catfs.c:373-667 | the same over any part of a run |
| `CatSpace.TightShort` | src/catfs.c:522-649 | a write that runs out of blocks leaves such a pointer block if and only if the bytes it stored did not need every block that was free |
| `CatSpace.SpaceIsNeeded` | src/catfs.c:522-587 | then the free blocks are all but block 0, the mapped file blocks and the pointer blocks on the way to them |
| `CatSpace.PathsOfIs` | src/catfs.c:522-649 | the pointers a write needs are exactly those on the way to a file block it touches |
| `CatRun.DoWrite` | src/catfs.c:613-649 | refused exactly for directories and unused inodes; otherwise stores exactly its first w bytes at the offset, beyond the end of the file too, and moves the size to their end; takes exactly one block for each pointer that leads to them and was not in use, and these are no more than the blocks free before, while for one byte more they would be, unless all is written or the file at its maximal size |
| `CatRun.DoRead` | src/catfs.c:589-611 | refused exactly for unused inodes; otherwise the stored bytes from the offset up to the end of the file or the first missing block, with the 32-bit length check as it wraps; changes nothing |
| `CatRun.DoTruncate` | src/catfs.c:651-667 | refused exactly for directories and unused inodes; a shrink drops exactly the blocks from the 32-bit rounded count on and the pointer blocks that then lead nowhere, a growth none; the size becomes the one given |
| `CatRun.DoUnlink` | src/catfs.c:457-479 | refused exactly for the root, unused inodes and directories with children; otherwise frees that inode and all its blocks and no others |
| `CatRun.DoCreate` | src/catfs.c:373-399 | refused exactly without a parent, with an existing path or no free inode; otherwise the lowest free inode becomes an empty file or directory, below whatever the directory part names |
| `CatRun.DoRename` | src/catfs.c:481-509 | refused exactly where a rename is; otherwise changes parent and name of that inode, whatever the name, and no contents |
| `CatFiles.ReadLength` | src/catfs.c:589-611 | the delivered length is right if and only if offset + len stays below 2^32 or the file ends on a block boundary |
| `CatFiles.ReadDelivers` | src/catfs.c:589-611 | the read loop on a file without holes delivers exactly so many bytes, wrap included |
| `CatFindings.ReadPastEnd` | src/catfs.c:589-611 | a file of two bytes read at offset 1 with length 2^32 - 1 delivers 511 bytes |
| `CatFindings.HoleReadsNothing` | src/catfs.c:589-649 | a byte written at 1024 of an empty file leaves a file of 1025 bytes of which a read from the start delivers none |
| `CatFindings.CreateUnderFile` | src/catfs.c:373-399 | creating "/a/b" below the file "/a" succeeds and breaks the tree |
| `CatFindings.CreateRelative` | src/catfs.c:334-399 | creating "ab" makes the child "b" of the root, and looking up "ab" finds nothing |
| `CatFindings.CreateHides` | src/catfs.c:334-399 | creating "ab" at a lower inode hides an existing "/b": the path names the new inode |
| `CatFindings.RenameSlash` | src/catfs.c:481-509 | renaming "/a" to "b/c" succeeds, the namespace is no tree, and no path, not even the one printed for it, names the inode |
| `CatFindings.TruncateLosesAll` | src/catfs.c:651-667 | growing a file to 2^32 - 1 and cutting it to 2^32 - 16 frees its first block |
| `CatFs.CatFs.Write` | src/catfs.c:613-649 | stores exactly the first w bytes at the offset; the pointers that lead to them and were not in use are no more than the blocks free before, and for one byte more they would be, unless all is written or the file at its maximal size; takes exactly those blocks, or all that are left; keeps ownership and bitmap |
| `CatFs.CatFs.Read` | src/catfs.c:589-611 | delivers the bytes of the logical blocks, short only at an unmapped block, with the 32-bit length check as it wraps |
| `CatFs.CatFs.ResolveBlock` | src/catfs.c:522-587 | a file block resolves to the disk block that represents it; creating succeeds if and only if the file is below its limit and the pointers on the way that are not in use are no more than the free blocks, and then fills exactly those; a new block reads as the disk held it and nothing else in the logical view moves |
| `CatStore.PathNeeded` | src/catfs.c:522-587 | a mapped file block has every pointer on its path in use, so no path is longer than it must be |
| `CatStore.HeldCount` | src/catfs.c:35-51 | blocks in use but for block 0 are as many as pointers in use |
| `CatFs.FilledIff` | src/catfs.c:522-587 | filling one pointer after another until no block is left succeeds if and only if the free blocks suffice |
| `CatFs.TookMost` | src/catfs.c:613-649 | writing block by block until none is left stores as many bytes as the blocks free at the beginning allow |
| `CatFs.CatFs.Truncate` | src/catfs.c:651-667 | a shrink cuts the pointer tree at the 32-bit rounded block count, keeping exactly the pointers that lead to a block below it, and frees exactly what it releases; a growth only changes the size; directories and free inodes are refused; block contents stay |
| `CatFs.TruncateKeeps` | src/catfs.c:657-660 | a shrink keeps the blocks below the new size of a file that has any if and only if new_size + 511 stays below 2^32 |
| `CatFs.CatFs.FreeBlocksFrom` | src/catfs.c:432-455 | unmaps exactly the blocks at or beyond the cut, frees a pointer block exactly when no child remains, and raises the free count by exactly the number of blocks released |
| `CatFs.ReleasedCount` | src/catfs.c:432-455 | the free counter rises by the number of released blocks, from the bitmap's exactness |
| `CatFs.CatFs.FreeAllBlocks` | src/catfs.c:401-430 | releases the whole pointer tree of an inode and counts it |
| `CatFs.CatFs.BmAlloc` | src/catfs.c:35-48 | takes the lowest clear bit, fails exactly when no block is free, keeps bitmap and counter exact |
| `CatFs.CatFs.BmFree` | src/catfs.c:49-51 | clears one bit and counts it, ignoring a clear one |
| `CatFs.SingleOwner` | src/catfs.c:401-455 | no block is held by two pointers, of the same or of different inodes |
| `CatFs.BitmapMeansOwned` | src/catfs.c:35-51 | a bit is set if and only if the block is 0 or held by some pointer, and the free counter counts the clear bits |
| `CatFs.CatFs.Format` | src/catfs.c:182-222 | formatting, over any data region, reserves block 0, leaves only the root directory, its own parent nowhere, no pointer in use, and satisfies every invariant |
| `CatFs.CatFs.Create` | src/catfs.c:334-399 | fails exactly for a missing parent, an existing path or no free inode; otherwise fills the lowest free inode with the last path part; from a tree: keeps it if and only if the parent is a directory and the name legal and new there (for paths with a slash, if and only if the parent is a directory), the path names the new inode if and only if it has a slash, and all other paths name what they did exactly unless a sibling of the same name is hidden |
| `CatFs.CatFs.Unlink` | src/catfs.c:457-479 | succeeds exactly on a live inode other than the root that is no directory with children; removes its blocks, and keeps a tree a tree |
| `CatFs.CatFs.Rename` | src/catfs.c:481-509 | succeeds exactly for a live inode, a directory not below it, and a name of legal length new there; the ancestor walk terminates because parents always lead to the root; a tree stays one, and some path names the inode, if and only if the name has no slash |
| `CatFs.CatFs.Lookup` | src/catfs.c:346-371 | the loop computes the walk along the path's components |
| `CatFs.CatFs.FindFreeInode` | src/catfs.c:373-399 | finds the lowest free inode, none exactly when the counter is zero |
| `CatBytes.WrittenSplices` | src/catfs.c:613-649 | writing blocks of a file without holes at an offset within it is splicing its byte sequence |
| `CatBytes.ReadIsSlice` | src/catfs.c:589-611 | bytes read from the blocks of a file without holes are a slice of its contents |
| `CatPrune.PruneTrans` | src/catfs.c:432-455 | cutting one set of pointers and then another is cutting their union |
| `CatPrune.ThreePasses` | src/catfs.c:432-455 | the passes over direct, indirect and double-indirect pointers together cut the whole inode |
| `CatPrune.PruneSingle` | src/catfs.c:440-444 | the indirect block survives the cut exactly when one of its leaves does |
| `CatPrune.PruneDouble` | src/catfs.c:445-454 | a level-1 block survives the cut exactly when one of its leaves does |
| `CatPrune.HeldAfterCut` | src/catfs.c:432-455 | after a cut the pointers in use are those of other inodes and those that lead to a block below it, told from the file blocks mapped alone |
| `CatPrune.CutAtZeroEmpties` | src/catfs.c:401-430 | cutting at block 0 leaves nothing of the inode |
| `CatStore.AddL2` | src/catfs.c:563-587 | hanging a fresh block under a level-1 block keeps single ownership and adds exactly one file block |
| `CatStore.Rewrite` | src/catfs.c:613-649 | rewriting a data block changes exactly that file block of the logical view |
| `CatForest.DetachOwned` | src/catfs.c:401-455 | releasing pointers from the leaves up keeps single ownership |
| `Bitmap.Claim` | src/catfs.c:35-48 | setting a clear bit and decrementing the counter keeps both exact |
| `Bitmap.Release` | src/catfs.c:49-51 | clearing a set bit and incrementing the counter keeps both exact |
| `Bitmap.OneIs` | src/catfs.c:35-51 | the mask of bit n of a byte is 1 shifted left n times |
| `Words.SetPointer` | src/catfs.c:540-587 | writing one 32-bit little-endian pointer into a sector changes that pointer and no other |
| `Words.LittleEndian` | src/catfs.c:540-587 | concrete bytes read as the little-endian word they are |
| `CatNames.TreeCreate` | src/catfs.c:373-399 | a new inode keeps the namespace a tree if and only if its parent is a directory and its name legal and new there |
| `CatNames.NewInodeIs` | src/catfs.c:385-390 | a new inode is empty, rwxr-xr-x as a directory and rw-r--r-- otherwise |
| `CatNames.TreeUnlink` | src/catfs.c:457-479 | removing a leaf keeps the namespace a tree |
| `CatNames.TreeRename` | src/catfs.c:481-509 | a move keeps the namespace a tree if and only if the new place is a directory not below the moved inode and the name legal and new there |
| `CatNames.DepthBound` | src/catfs.c:481-509 | a parent chain has fewer steps than there are inodes, so walks up it end |
| `CatNames.LookupOfPath` | src/catfs_vfs.c:69-96 | looking up the printed path of a live inode finds that inode |
| `CatNames.LookupOfChild` | src/catfs_vfs.c:98-111 | appending a child name steps the lookup by exactly that child |
| `CatNames.LookupSplit` | src/catfs.c:334-371 | looking up a path with a slash is looking up its directory part and then one name |
| `CatNames.LookupWalks` | src/catfs.c:346-371 | looking up any path is walking its components from the root, with or without a leading slash |
| `CatNames.GroundedCreate` | src/catfs.c:373-399 | filling a free inode below one found by its path, file or directory, keeps all parents leading to the root |
| `CatNames.Unlinked` | src/catfs.c:457-479 | freeing an inode keeps all parents leading to the root, and a tree a tree |
| `CatNames.GroundedMove` | src/catfs.c:481-509 | moving an inode to a place not below it keeps all parents leading to the root |
| `CatLookup.CreatedNames` | src/catfs.c:334-399 | after a create the path names the new inode if and only if it has a slash, otherwise nothing; and every path that named something still names the same, newly naming only the new inode, if and only if the path has a slash, its last part is empty, or no sibling of the same name has a higher number |
| `CatLookup.FindChildAdded` | src/catfs.c:346-371 | filling a free inode changes a search exactly when it is what is looked for and comes first |
| `CatLookup.SlashFreeMisses` | src/catfs.c:334-399 | a path without a slash does not name the inode it creates, also where it is as long as two components |
| `CatLookup.SlashedIsUnnamed` | src/catfs.c:346-371 | no path names an inode whose name has a slash |
| `CatLookup.TreeIsNamed` | src/catfs.c:346-371 | in a tree some path names every inode in use |
| `CatVfs.PathForIndex` | src/catfs_vfs.c:69-96 | prints the path that looks up to the inode, failing exactly when the inode is free or the path does not fit |
| `CatVfs.ChildPath` | src/catfs_vfs.c:98-111 | prints the child's path, which for a name without a slash looks up to that child; fails exactly where name or path do not fit |
| `CatVfs.CreateChild` | src/catfs_vfs.c:135-148 | creates exactly the named child, or says why not: an existing child of that name, a name or path too long exactly where it is, no free inode; keeps the namespace a tree and what every other path names |
| `Heap.Run` | src/kmalloc.c:55-135 | in every run kmalloc returns NULL exactly when nothing fits and otherwise takes the first fit, giving what `Heap.MallocAdds` says, exactly the live pointers can be freed, the blocks tile the heap at every step, and, while lists stay within the walk limit (certain for small heaps), no two neighbours are free and whenever nothing is live one free block of the original size remains |
| `Heap.Step` | src/kmalloc.c:70-135 | the same for one call |
| `Heap.MallocAdds` | src/kmalloc.c:70-99 | a successful kmalloc adds one live allocation, elsewhere than all others, in the first block that fits; it gets the rounded size whenever that block has a header and the least split more, else the whole block; free bytes fall by what it gets, and by a header where the block is split; no allocation moves |
| `Heap.BlockBound` | src/kmalloc.c:55-68 | a heap has no more blocks than headers fit into it, so small heaps stay within the walk limit |
| `Heap.HugeRequest` | src/kmalloc.c:70-99 | kmalloc(2^64 - 1) on a fresh heap returns a block of no bytes |
| `Heap.Allocator.Init` | src/kmalloc.c:40-53 | one free block tiling the aligned range, nothing for a range too small |
| `Heap.Allocator.Kmalloc` | src/kmalloc.c:70-99 | NULL exactly when no block within the walk limit fits the rounded size; otherwise the first that fits, giving the rounded size if the rest makes a block and everything otherwise; free bytes fall by exactly that and the header of the rest; all other allocations in place |
| `Heap.Allocator.Kfree` | src/kmalloc.c:115-135 | frees exactly that allocation and merges neighbours; NULL, foreign and already free pointers change nothing |
| `Heap.Allocator.Coalesce` | src/kmalloc.c:55-68 | merges until no two neighbours are free, touching no live allocation |
| `Heap.Allocator.FreeBytes` | src/kmalloc.c:137-142 | the sum over free blocks, which fits 32 bits |
| `Heap.Allocator.ReachableHeadersValid` | src/kmalloc.c:33-38 | every header on the list passes the kernel's validity check |
| `Heap.LiveDisjoint` | src/kmalloc.c:70-135 | live allocations are 8-aligned, inside the heap and pairwise disjoint |
| `Heap.BytesConserved` | src/kmalloc.c:137-146 | free bytes, used bytes and headers add up to the heap |
| `Heap.AllFreedIsOneBlock` | src/kmalloc.c:55-68 | a tiling without neighbouring free blocks and without allocations is one block of the original size |
| `Heap.Align8Suffices` | src/kmalloc.c:70-76 | rounding up gives room for the request, less than eight bytes more, if and only if it is not among the last seven 64-bit sizes |
| `Heap.TakenLive` | src/kmalloc.c:78-99 | taking a block adds one live allocation and moves none |
| `Heap.TakenSizes` | src/kmalloc.c:78-99 | what taking a block costs: bytes given, bytes left free, blocks added, all other blocks as they were |
| `Heap.TwoRequests` | src/kmalloc.c:40-99 | a run: of 992 usable bytes requests of 400 and 480 get just that, and 48 are left |
| `BtrfsCrash.CrashAtomic` | src/btrfs.c:89-120 | after a crash at any point the probe finds the new generation and label once one mirror is written, and before that the old ones, unless the first write is torn, when it does so exactly if that mirror has a backup |
| `BtrfsCrash.CrashLeavesOldOrNew` | src/btrfs.c:89-120 | with two trusted mirrors in agreement a crash leaves the old pair or the new one |
| `BtrfsCrash.CrashAtWrap` | src/btrfs.c:102-110 | at the last generation, for any media and crash point: the old pair is found if and only if the first unreached mirror of that generation carries the old label, the new pair if and only if no unreached trusted mirror has a generation other than 0 and the first of them, if any, has the new label |
| `BtrfsCrash.WrapKeepsOld` | src/btrfs.c:102-110 | two mirrors at the last generation, one rewritten: the probe finds the old label |
| `BtrfsCrash.CrashMarks` | src/btrfs.c:86-110 | a crash leaves each mirror as prepared, torn or untouched, by its place in the writing order |
| `BtrfsCrash.CarriesIs` | src/btrfs.c:29-62 | the probe reports exactly the first of the newest trusted mirrors |
| `BtrfsCrash.DisagreementLosesBoth` | src/btrfs.c:89-110 | concrete media with two trusted mirrors on which a torn first write leaves neither label |
| `Btrfs.BestIsTop` | src/btrfs.c:29-62 | the probe selects the first trusted mirror of the highest generation whenever there is a trusted one |
| `Btrfs.FindIs` | src/btrfs.c:41-62 | a trusted mirror that is first among the newest is what the probe reports |
| `Btrfs.FindMeans` | src/btrfs.c:41-62 | a trusted report names a trusted mirror that is first among the newest |
| `Btrfs.FindSelects` | src/btrfs.c:29-62 | the probe reports the first mirror that no other is to be preferred to, trusted or not, and nothing if and only if none can be inspected |
| `Btrfs.LayoutReads` | src/btrfs.c:18-40 | a superblock laid out field by field is read back field by field, and is well-formed if and only if its sector and node sizes are two of eight powers of two in order |
| `Btrfs.SizesAre` | src/btrfs.c:23-28 | of the sizes within bounds exactly the powers of two 512, 1024, ..., 65536 pass |
| `Btrfs.OffsetsAre` | src/btrfs.c:8-10 | the mirrors lie at 64 KiB, 64 MiB and 256 GiB |
| `Btrfs.LabelsAre` | src/btrfs.c:71-75 | of one byte repeated labels are exactly those of 1 to 255 bytes from the space on, slash and backslash excepted |
| `BtrfsCrash.LosingOne` | src/btrfs.c:29-62 | after one mirror is torn the old report survives if and only if another mirror backs it up |
| `Btrfs.NewSuperReads` | src/btrfs.c:86-107 | the rewritten superblock is valid where it was and reads back the generation and label written |
| `Btrfs.NewSuperBytes` | src/btrfs.c:103-107 | only the checksum area, generation and label change; the checksum is that of the rest, followed by zeros |
| `Btrfs.PlanIsPlanned` | src/btrfs.c:108-110 | writes go to usable mirrors, highest first, the primary last, none twice |
| `Btrfs.PlanCovers` | src/btrfs.c:108-110 | every usable mirror is written |
| `BtrfsVolume.Volume.LabelSet` | src/btrfs.c:89-120 | refuses exactly without permission, trust, a legal label or a passing preflight, then writing nothing; otherwise issues exactly the planned writes, always passes its verification, and leaves all usable mirrors with the new pair; if its records are those of a trusted probe of the media they are so again afterwards, without a new probe and at the last generation too, and a crash anywhere among the writes it logged leaves what the crash theorems say |
| `BtrfsVolume.Volume.Probe` | src/btrfs.c:41-62 | succeeds if and only if some mirror can be inspected; then selects the first one that no other is to be preferred to (a valid checksum goes before none, then the higher generation), copies its generation and label, and trusts it exactly if its checksum is valid; writes nothing and disables writing; a trusted report makes the records current |
| `BtrfsVolume.Volume.SetWriteEnabled` | src/btrfs.c:66-70 | writing is enabled only on a trusted selection |
| `BtrfsVolume.Volume.CheckLabel` | src/btrfs.c:71-75 | accepts exactly labels of 1 to 255 bytes without control characters and slashes |
| `BtrfsVolume.WrittenAll` | src/btrfs.c:108-120 | after all writes every usable mirror is valid and carries the new pair, others are untouched |
| `BtrfsVolume.UpdateIsSafe` | src/btrfs.c:89-120 | with current records the logged writes are the plan for the media, so both crash theorems apply to every crash of them, and once all are done a probe would report the new pair and the records kept |
| `BtrfsCrash.PlanOutcomes` | src/btrfs.c:89-120 | for every crash point of an update of media with a trusted report, torn or not, at the last generation or before it: what the probe then finds |
| `Words.Put64` | src/btrfs.c:18-22 | little-endian storing and loading are inverse |
| `ServiceTable.ReadingsAgree` | src/atminit.c:119-159 | the starting and the stopping code split a dependency list alike if and only if no name exceeds 31 characters |
| `ServiceTable.StartableUnfolds` | src/atminit.c:132-169 | a startable service that is not running is enabled and depends only on services startable through shorter chains |
| `ServiceTable.StartableFolds` | src/atminit.c:132-169 | an enabled service whose dependencies are startable is startable |
| `ServiceTable.StopCloses` | src/atminit.c:255-270 | stopping a service keeps dependencies if and only if no other started service needs it |
| `ServiceTable.ShippedIsOrdered` | src/atminit.c:103-109 | the shipped table is readable, complete, ordered dependencies first, with dependency levels containing dependents' |
| `ServiceTable.ShippedRuns` | src/atminit.c:103-109 | of the shipped table nothing runs in halt, the file system and the scheduler in single, those and the network services in multi, all in graphical |
| `ServiceTable.BitIs` | src/atminit.c:14 | the bit of a runlevel is the one of its number |
| `Services.Manager.StartEntry` | src/atminit.c:132-169 | terminates on every table, cyclic or not; stops nothing; keeps dependencies in every state it passes through, all recorded; succeeds exactly when the service ends up started, which is exactly when no callback fails and it is startable without circular appeal; runs only callbacks of services reached through dependency lists that did not run, each once, and starts exactly those whose callback succeeded |
| `Services.Manager.StartDeps` | src/atminit.c:147-159 | starts the listed dependencies in order or fails when one cannot be |
| `Services.Manager.Start` | src/atminit.c:253 | a manual start brings up the named service; touches only it and what is reached from it through dependency lists; every service newly started is the named one or enabled and has had its callback, once |
| `Services.StartExact` | src/atminit.c:132-169 | after a successful start that leaves dependencies satisfied the services newly started are exactly those reached from the named one that did not run, and exactly those have had their callback |
| `Services.Manager.Stop` | src/atminit.c:255-270 | refused exactly unless the service runs and no started service lists it; then exactly it stops; dependencies that held hold afterwards if and only if no other started service needs it, always for names of at most 31 characters |
| `Services.LongNameStops` | src/atminit.c:119-159 | with a dependency name of 40 characters a needed service can be stopped |
| `Services.Manager.Restart` | src/atminit.c:272-277 | refused where stopping is; otherwise, unless the stop fails, the stop callback and the start of a service that does not run; keeps dependencies, if names have at most 31 characters or no other started service needs the one named |
| `Services.Manager.SetRunlevel` | src/atminit.c:213-243 | succeeds exactly when no callback fails and all enabled services of the level can be started; the stop callbacks run are those of the services outside the level, last declared first, and after them only start callbacks of services reached from the enabled ones of the level, each once and exactly for the services newly started; in an ordered table dependencies hold in every recorded state, only services of the level are started, and after success exactly those of the level run that ran before or are enabled |
| `Services.Manager.Trim` | src/atminit.c:219-231 | stops exactly the started services outside the level, last declared first, and on a failing callback some of them; keeps dependencies in an ordered table |
| `Services.Manager.Raise` | src/atminit.c:232-238 | starts the level's enabled services with enabled dependencies and nothing else; succeeds exactly when no callback fails and all of them are startable; keeps to the level in an ordered table |
| `Services.Manager.DependencyPresent` | src/atminit.c:119-130 | whether a name is among the comma-separated tokens |
| `Services.Manager.HasStartedDependent` | src/atminit.c:171-177 | whether a started service lists this one |
| `Services.Manager.Run` | src/atminit.c:103-286 | in any run of requests on any table, whatever the callbacks do, each request does and answers what it should and runs the callbacks it should, and the states passed through are recorded one change at a time; dependencies hold in all of them if they held before, names have at most 31 characters and, where runlevels change, the table is ordered |
| `Services.OrderedStarts` | src/atminit.c:213-243 | in an ordered complete table whose enabled services depend on enabled ones, everything enabled can start |
| `Services.Refusals` | src/atminit.c:132-145 | a service met again while being visited is not startable: cycle detection never refuses a startable service |
| `Tetris.Game.Run` | src/exp.c:1304-1330 | every run of keys and ticks plays by the rules on positions, which count the pieces locked, and all along the active piece has room while the game is live, occupied cells are four per locked piece less ten per line, the score is a hundred per line, and no full row remains |
| `Tetris.Game.Lock` | src/exp.c:1317 | the piece is added to the board, full rows go, the next piece enters, the game ends exactly if it has no room |
| `Tetris.LockedFacts` | src/exp.c:1316-1317 | locking overwrites no cell, adds four and removes ten a line |
| `Tetris.Game.ClearLines` | src/exp.c:1316 | terminates despite looking at a row again, and leaves exactly the non-full rows in order below empty rows, counting each cleared line |
| `Tetris.Game.Collide` | src/exp.c:1312-1314 | the nested loops decide whether some cell of the piece is off the board or on a taken cell |
| `Tetris.Game.HardDrop` | src/exp.c:1330 | the piece is locked on its landing row |
| `Tetris.LandingRests` | src/exp.c:1330 | on the landing row and everywhere on the way there is room, one row lower there is not |
| `Tetris.Game.TryMove` | src/exp.c:1319 | moves exactly when there is room |
| `Tetris.Game.Rotate` | src/exp.c:1320 | turns exactly when there is room |
| `Tetris.Game.TickTo` | src/exp.c:1321 | falls once for each forty ticks of a wrapping 32-bit counter, at most three times, stopping when the game ends |
| `Tetris.Game.Fall` | src/exp.c:1321 | one row down if there is room, otherwise locked |
| `Tetris.Game.Spawn` | src/exp.c:1311-1315 | the next piece enters at the top, the game ends exactly if it collides |
| `Tetris.Game.Press` | src/exp.c:1330 | every key does exactly its rule and keeps the invariant; after the end only a reset does anything |
| `Tetris.SidewaysKeys` | src/exp.c:1330 | left and right move the piece one column where there is room, and undo each other |
| `Tetris.TurningKey` | src/exp.c:1330 | up turns the piece to the next of its four shapes where there is room |
| `Tetris.LoweringKey` | src/exp.c:1330 | down lowers the piece where there is room |
| `Tetris.DropIsFalls` | src/exp.c:1330 | a hard drop comes to as many single steps as there is room for, and the one that locks |
| `Tetris.TickKeepsTime` | src/exp.c:1321 | a tick uses up forty ticks of the clock for each step, so that none is due afterwards unless steps were skipped |
| `Tetris.StepsDueAre` | src/exp.c:1321 | no step is due before 40 ticks, one before 80, two before 120, three from then on, also across the wrap of the counter |
| `Tetris.RandFrom` | src/exp.c:1311 | the number after 1 in the random sequence |
| `Tetris.SpawnEnters` | src/exp.c:1311-1315 | a piece enters unturned in columns 3 to 6 of the first two rows |
| `Tetris.FreshGame` | src/exp.c:1318 | a new game has an empty board and the first two pieces of the random sequence |
| `TetrisBoard.PlacedAt` | src/exp.c:1317 | a placed piece shows on exactly its own cells |
| `TetrisBoard.PlacedCells` | src/exp.c:1317 | a piece that does not collide lands whole on empty cells |
| `TetrisBoard.ClearedCells` | src/exp.c:1316 | clearing removes ten cells for every full row |
| `TetrisBoard.ShapesDecodeMasks` | src/exp.c:1304-1310 | the cells of each shape are exactly the set bits of the kernel's 16-bit mask |
| `TetrisBoard.FourCells` | src/exp.c:1304-1310 | every mask of the table has four bits set |
| `TetrisBoard.BottomCollides` | src/exp.c:1312-1314 | a piece below the bottom row collides, so every fall ends |
| `TetrisBoard.CollidesMeans` | src/exp.c:1312-1314 | a piece collides if and only if one of its cells is left, right or below the board or on a taken cell |
| `Paint.Canvas.Fill` | src/exp.c:1342-1348 | recolours exactly the 4-connected component of the cursor's colour, keeps the rest, and snapshots the previous canvas; filling with the same colour changes nothing |
| `Paint.Canvas.Visit` | src/exp.c:1346 | a neighbour is queued at most once and the queue bound is never hit |
| `Paint.Canvas.FillThenUndo` | src/exp.c:1342-1367 | undo after a fill that painted gives back the exact canvas |
| `Paint.Canvas.Undo` | src/exp.c:1367 | restores the snapshot once |
| `Paint.ExpandedIsComponent` | src/exp.c:1345-1347 | a queue whose cells have all been expanded is exactly the component |
| `Paint.AdjacentMeans` | src/exp.c:1345-1346 | the index arithmetic with its border tests is sharing a side |
| `Calendar.SecondsRoundTrip` | src/atm_time.c:18-66 | converting to a date and back gives every number of seconds back |
| `Calendar.CivilRoundTrip` | src/atm_time.c:18-66 | converting a calendar date from 1970 on to seconds and back gives it back |
| `Calendar.ProperIff` | src/atm_time.c:66 | the result is a date of the calendar if and only if the seconds are not negative |
| `Calendar.ValidIff` | src/atm_time.c:46-66 | the kernel accepts the date if and only if 0 <= s < 4102444800 |
| `Calendar.UnixMonotone` | src/atm_time.c:18-28 | later dates have larger numbers of seconds |
| `Calendar.CivilMonotone` | src/atm_time.c:66 | larger numbers of seconds give later dates |
| `Calendar.RtcUnixSeconds` | src/atm_time.c:18-28 | the loops compute the sum over years, months and days |
| `Calendar.SecondsToCivil` | src/atm_time.c:66 | the loops, with division towards zero, compute the date |
| `Calendar.WeekdaysAgree` | src/atm_time.c:49 | the counted weekday equals the desktop's closed formula (src/exp.c:1384) on every date from 1970 on |
| `Calendar.NthIsNth` | src/atm_time.c:50 | the n-th such weekday of the month, 0 exactly when the month has fewer |
| `Calendar.LastIsLast` | src/atm_time.c:51 | the last such weekday of the month |
| `Posix.Normalize` | src/atm_posix.c:27-46 | the buffer loop computes the canonical path, the one the laws below determine, and refuses exactly relative paths and those that outgrow the buffer at some component |
| `Posix.ShortFits` | src/atm_posix.c:27-52 | inputs below 1024 characters never outgrow the buffer |
| `Posix.BasePath` | src/atm_posix.c:47-52 | refused exactly for an empty path, a base that is not absolute, or too long an input; otherwise evaluation continues from the base |
| `Posix.NormalUp` | src/atm_posix.c:35-39 | a name followed by `..` cancels, anywhere in a path |
| `Posix.NormalTop` | src/atm_posix.c:35-39 | `..` at the root stays there |
| `Posix.NormalHere` | src/atm_posix.c:30-34 | `.` and empty components go |
| `Posix.NormalDown` | src/atm_posix.c:40-43 | a name is appended to the canonical path of what precedes it |
| `Posix.NormalOfNames` | src/atm_posix.c:27-46 | the printed path of clean components is canonical already |
| `Posix.NormalExample` | src/atm_posix.c:27-46 | `/a/b/../c` is `/a/c` |
| `Posix.NormalIsClean` | src/atm_posix.c:27-46 | no empty, '.' or '..' component is left, and the components are the stack evaluation |
| `Posix.NormalIdempotent` | src/atm_posix.c:27-46 | normalising twice is normalising once |
| `Posix.NormalShortens` | src/atm_posix.c:27-46 | normalisation never lengthens an absolute path |
| `Posix.ResolveContinues` | src/atm_posix.c:47-52 | resolving against a base is continuing evaluation from the normalised base |
| `Posix.PartsOfRender` | src/atm_posix.c:27-46 | printing a stack of components and splitting it again gives it back |
| `Ini.RoundTrip` | src/config.c:27-119 | parsing the printed form of a well-formed configuration gives back the same sections, keys and values in order |
| `Ini.RoundTripIff` | src/config.c:27-119 | for legal configurations the round trip holds if and only if `global` is at most a non-empty first section |
| `Ini.ParseLegal` | src/config.c:27-92 | whatever the text, everything read from it is legal and within the limits |
| `IniLines.PairReads` | src/config.c:59-90 | a line with key and value adds exactly that pair if and only if at most one blank, and none after a key of 63 characters, stands before `=`; otherwise nothing but the section `global` where there is no section; blanks before key and value make no difference |
| `IniLines.WideGapLoses` | src/config.c:59-90 | of the text `k=v` with blanks before `=` the pair is read with one and lost with two |
| `IniLines.CommentLine` | src/config.c:34-43 | a comment adds nothing, wherever it stands |
| `IniLines.BlankLine` | src/config.c:34-43 | nor does a line of blanks |
| `IniLines.HeaderReads` | src/config.c:45-57 | a header opens a section if there is room for one, and what follows the bracket is ignored |
| `IniLines.LongNameCut` | src/config.c:45-57 | of a longer section name the first 63 characters are kept |
| `IniLines.LongKeyLost` | src/config.c:59-90 | a key of 64 or more characters is lost with its value |
| `IniLines.NoPair` | src/config.c:59-90 | a line of one word adds no pair |
| `IniLines.FullSection` | src/config.c:59-90 | a section of 32 entries takes no more |
| `IniLines.LegalValueReads` | src/config.c:76-87 | a legal value is read as it is, without the blanks after it |
| `Ini.ReadPrintRead` | src/config.c:27-119 | printing what was read from any text and reading it again changes nothing, unless `global` is misplaced |
| `Ini.PutIsUpdate` | src/config.c:122-168 | setting is map update, also with duplicate sections |
| `Ini.PutKeepsWellFormed` | src/config.c:139-168 | setting legal strings keeps a configuration well-formed |
| `IniLines.PutKeepsPlaces` | src/config.c:139-168 | setting a value leaves every section and key in its place and puts a new one last |
| `IniLines.PutAppends` | src/config.c:95-168 | setting a value of a new section adds header, pair and an empty line to the end of the printed text |
| `IniLines.GlobalText` | src/config.c:95-119 | the section `global` is printed without a header |
| `IniLines.GetIsFirst` | src/config.c:122-131 | what is looked up is the first such entry in the order of the file |
| `Ini.SetSurvives` | src/config.c:27-195 | what is set is what is read after saving and loading, while the text fits the 8192-byte buffers |
| `Ini.AllKept` | src/config.c:95-119 | a text that fits the buffer is printed whole |
| `IniLines.KeptIsCut` | src/config.c:95-119 | of each section printed there is room for the header and for exactly the entries printed, the next has none; and none for the header of the first section left out, which is not `global` |
| `Ini.KeptReadsBack` | src/config.c:27-119 | what is printed of a legal configuration, whole or cut, is legal and reads back if and only if `global` is in place |
| `Ini.GlobalIsLost` | src/config.c:95-119 | a section `global` after another does not come back |
| `Ini.KeptFits` | src/config.c:95-119 | what is printed stays within the buffer if and only if no two neighbouring sections `global` meet its last byte (and none meets a buffer of no bytes) |
| `Ini.FitsEveryBuffer` | src/config.c:95-119 | a configuration stays within every buffer if and only if no two neighbouring sections are named `global` |
| `Ini.GlobalsOverrun` | src/config.c:95-119 | two empty sections `global` print two bytes into a buffer of one |
| `Config.ConfigFile.Parse` | src/config.c:27-92 | the cursor loops compute the reading of the text |
| `Config.ConfigFile.Serialize` | src/config.c:95-119 | prints the sections up to the first whose header does not fit, of each the entries up to the first that does not; the whole text whenever it fits; exceeds the buffer exactly where two sections `global` meet its end |
| `Config.ConfigFile.Lookup` | src/config.c:122-131 | the first match over all sections of that name |
| `Config.ConfigFile.Set` | src/config.c:139-168 | refused, changing nothing, exactly when there is no room; otherwise map update |
| `Elf.Space.LoadUser` | src/elf.c:181-223 | success means the file is loadable, memory shows exactly the image of its segments and elsewhere what was there, exactly the pages they touch and the stack page are newly mapped, and bounds are exact; a loadable file fails only when memory runs out |
| `Elf.DisjointImage` | src/elf.c:190-216 | for segments that do not overlap the image is the file's bytes and then zeros, segment by segment |
| `Elf.LastDecides` | src/elf.c:190-216 | where segments overlap the last one that covers an address decides, with its byte of the file or, behind those, zero |
| `Elf.SegmentReads` | src/elf.c:192-199 | a program header laid out field by field is read back |
| `Elf.FileHeaderReads` | src/elf.c:139-190 | a file header laid out field by field is accepted if and only if its fields are those of a native executable, and entry point and table position are read back |
| `Elf.Space.LoadSegment` | src/elf.c:204-213 | after mapping, copying and zeroing the segment's bytes are as promised and all others as before |
| `Elf.Space.MapRange` | src/elf.c:204-209 | the page loop terminates and maps every page of the range, changing no mapped byte |
| `Elf.Space.CopyTo` | src/elf.c:158-168 | copies across page boundaries exactly, failing exactly at an unmapped page |
| `Elf.Space.ZeroAt` | src/elf.c:169-179 | zeroes across page boundaries exactly, failing exactly at an unmapped page |
| `Elf.Space.MapPage` | src/elf.c:149-157 | maps a page unless it is mapped, changing no mapped byte |
| `Elf.PatchSeen` | src/elf.c:158-179 | with an injective page map, patching one frame changes what is seen at those addresses and nowhere else |
| `Elf.BoundsStep` | src/elf.c:214-215 | the running base and end stay the exact bounds of the segments loaded |

## Left out

- The CatFS journal, which is logged but never replayed; its slots 200 to 203 land on the first inode-table sector (src/catfs.h:79, src/catfs.c:68-74), so durability of metadata sectors is not claimed.
- CatFS metadata sector I/O, mounting, fsck (which does not follow indirect blocks), symbolic links, chmod and timestamps; the model has the inode table, bitmap and counters in memory and the data region on disk.
- Disk I/O errors in CatFS; the disk is a total map from block to sector.
- CatRun.Run: skips creates whose path is empty or has parts that do not fit the fixed buffers of `split_last`, which the kernel overruns.
- CatRun.Execute: takes the same calls, for the same reason.
- CatRun.DoCreate: takes non-empty paths whose parts fit those buffers.
- CatFiles.FileRun: speaks of files without holes; what writes, truncates and reads do to files with holes is in `CatRun.Run`, block by block, because bytes never written in a block that is mapped are what the disk held.
- CatFiles.FileStep: the same for one call.
- CatFs.CatFs.Create: takes non-empty paths whose parts fit the fixed buffers of `split_last`; longer ones overrun those buffers in the kernel.
- CatVfs.PathForIndex: takes a namespace that is a tree, as `CatVfs.CreateChild` keeps it; elsewhere the printed path need not find the inode (`CatFindings.RenameSlash`).
- CatVfs.ChildPath: the same.
- CatVfs.CreateChild: takes a namespace that is a tree, directories whose own path is below 64 characters, as `CatFs.CatFs.Create` demands, and names without a slash, which is what the VFS hands down.
- `kmalloc_aligned` and the recovery of its pointers in `kfree`.
- Heap.Allocator.Init: takes ranges below 4 GiB; beyond, the kernel's 32-bit total no longer describes the heap.
- Heap.Allocator.Kfree: takes pointers that are NULL, foreign or at a block of the list; other addresses inside the heap read whatever bytes lie before them.
- Btrfs: the checksum is an arbitrary function of the bytes from 0x20 on; write errors and the partition table are left out; a torn superblock is assumed to fail its checksum.
- Services: callbacks return any result but do not themselves change the service table; logging, persistence of the configuration and tick counters are left out.
- Tetris: integer overflow of score and lines, drawing, and the clock, which is a parameter.
- Paint: lines, boxes, dots, import and export.
- Calendar: time zones and daylight saving rules, the RTC, and overflow of a 32-bit year.
- Posix: everything that touches the VFS; strings are sequences without NUL.
- Config.ConfigFile.Set: takes strings that fit the fixed fields, as the kernel's unchecked copies demand.
- Elf: page permissions (a shared page keeps those of its first segment), ELF32, and the paging code below `paging_map_user_page`.
- VFS, scheduler, paging, users, drivers, desktop windows, shell, network, image decoding, ext2 and FAT32: device code, thin wrappers, or repetitions of the index arithmetic above.
