# Verified model of the kernel's file system, heap, scheduler and screen

A Dafny model of the hardware-independent parts of the kernel, with proofs. To check them, run
`dafny verify dfyconfig.toml` in this directory. Where the source updates something in place the model is a class, an
array or a loop proved against a specification function; where it only computes, a function.

| file | models |
|---|---|
| `FatLayout.dfy` | bytes on disk: directory entries, tables, the allocation table, C strings |
| `FatVolume.dfy` | a well-formed volume: one acyclic chain per used slot, no cross-links, no leaks, a tree of directories |
| `FatTree.dfy` | the abstract file system (path to bytes or directory) and path lookup |
| `FatFile.dfy`, `FatNames.dfy`, `FatSpec.dfy` | what writing, naming, making and deleting mean |
| `FatRun.dfy` | whole runs of operations against the abstract file system |
| `FatClient.dfy` | a client that serves requests through the driver's methods, and the run it goes through |
| `FatMeaning.dfy` | what all this says about bytes on the disk, listings and paths, without the functions that compute it |
| `FatZeroed.dfy` | directory slots not in use hold zeros |
| `FatMisplaced.dfy`, `FatShortcomings.dfy` | what a write does to a handle that has read; concrete runs that go wrong |
| `CStrings.dfy` | `str_len`, and `strtok` with its static cursor |
| `Fat32.dfy` | the driver: disk and cached table as arrays, handles with one cached cluster |
| `ShellDelete.dfy` | the shell's recursive delete |
| `OldFat32.dfy`, `OldFatMeaning.dfy` | the whole-file API over the same disk format; what it answers and stores |
| `KernelHeap.dfy` | the aligned first-fit allocator over a doubly linked block list, with whatever backward links it has |
| `HeapMeaning.dfy` | which block an allocation takes, when it answers NULL, and what a free leaves |
| `HeapClient.dfy` | runs of requests and frees, and the run in which the source hands out memory twice |
| `RoundRobin.dfy`, `Scheduler.dfy` | the ready queue, timer switch, halting with wait predicates |
| `Paging.dfy`, `Process.dfy` | page frames and directories; the process table, creation and destruction |
| `ProcessMeaning.dfy` | the memory, ids and frames of processes, and when one can be created |
| `Framebuffer.dfy`, `FramebufferClient.dfy` | the screen as a cache of the topmost layer; runs of drawings |
| `PathResolve.dfy` | path normalisation in place |
| `StdinRing.dfy` | the ring of characters being typed and the line buffer |

## How the file system is stated

`FatVolume.WF(v, m)` says that the volume `v` (clusters and cached table) is well formed with description `m`: a chain
for every used slot, the owner of every used cluster, the depth of every directory. The cached table equals cluster 1
and the signature block is intact, which is what remounting needs. The driver's methods carry `m` as ghost state;
`FatVolume.MetaUnique` shows that it is determined by the volume. `FatTree.Addressable` says that names are usable: no
two entries of a directory have the same full name, and none holds a slash or is empty. `FatTree.Abs` is then the
abstract file system. A freshly formatted disk meets both (`FatVolume.FreshWF`, `FatTree.FreshAbs`), and every method
of the driver keeps the first. `FatRun.RunKeepsWF` and `FatRun.RunRefines` are the statements about whole runs, of
any operations and of those that make no path twice; writes that fill the disk are steps like the others.
`FatClient.ServeAll` runs the driver's methods on any requests and goes through such a run.

The laws in `FatMeaning`, `OldFatMeaning`, `HeapMeaning` and `ProcessMeaning`, and their like in the other modules
(`RoundRobin.WaitsForIt`, `PathResolve.ResolvedUp`, `Screen.ShownMeans`, the clauses of the methods with numbers in
them), say in fields, bytes and numbers what the specification functions stand for.

## Where the code falls short

The code is modelled as it is; each shortcoming is stated exactly, and where a repair is a flag the source is the case
`false`.

* A split in the heap does not tell the old successor about the new block. `Heap.KmallocAligned(size, align, relink)`
  keeps the backward links if and only if `relink` is set or the block taken is the last one or is not split
  (`KernelHeap.InsideSplit`). `Heap.Kfree` may then follow a link past the block in front: the region stays
  partitioned exactly when the link is right, or neither the block it leads to nor the one in front is free
  (`KernelHeap.ReleaseTidy`). Over runs, `HeapClient.RunTidyIff` says the same of every free on the way.
  `HeapClient.Overlap` is a run of the source that ends with 0x400 bytes handed out over 0x100 bytes still in use and
  part of the region lost. `HeapClient.ServeStraight` is the positive side: with the repair, and in the source as long
  as no block is split in front of another one, the heap does what `KernelHeap.Run` says, of which `RunTidy`, `RunGood`
  and `RunReturnsAll` speak.
* The padded size of a request is a 32-bit sum. The block handed out holds the request if and only if the sum does not
  wrap (`KernelHeap.AllocHeld`, `Heap.KmallocAligned`), which is so for every request of at most 2^32 bytes less the
  alignment (`KernelHeap.SmallNoWrap`). `KernelHeap.WrappedRequestAnswered` is a request that a fresh heap answers
  with a block too small for it. With right backward links the partition of the region survives even that
  (`KernelHeap.RunTidy`).
* The duplicate check of `mkgeneral` compares the bare stem with full names. `FatSpec.MkFileAbs` says that names stay
  usable exactly when the full path was new. `FatSpec.DuplicateEscapes` says when a second file of the same path is
  made: there is room and the stem alone is no entry; `FatShortcomings.DuplicateFile` is a run of the driver that does
  it, and `FatSpec.CheckSuffices` shows that the check is enough without an extension.
* `mkfile` keeps only two pieces of a name. The file is found under the path given exactly when its name has at most
  one inner dot (`FatNames.SplitJoin`, `FatSpec.MkFileAbs`); `FatShortcomings.TwoDots` makes "/a.t.t" and has "/a.t".
* An empty first write flushes an uninitialised buffer (`FatSpec.EmptyFirstWrite`).
* A handle that has read is one cluster ahead, and no handle for writing unless it is at the start
  (`Fat32.DirectionFixed`). `Fat32.WriteAfterRead` says what a write through it does: the next cluster of the file is
  overwritten, or nothing but the recorded size changes behind the last one. `FatMisplaced.MisplacedWrite` says that
  the file is what the write should make of it exactly when there was nothing to do, and `FatShortcomings.ReadThenWrite`
  is a run of the driver in which one byte goes 2048 places too far.
* The count of free page frames starts two too high: `PageManager.AllocateCheck` and `PageManager.Valid` carry the two.
* `paging_allocate_user_page_frame` checks neither that the address is one that freeing reaches nor that it is still
  unmapped; `Paging.AllocateExclusive` says that frames stay exclusive exactly when both hold.
* When opening the program fails, `process_create` leaves the freed page directory in CR3
  (`ProcessManager.Create`); all other records are restored.
* `framebuffer_put` paints over covering layers; `Screen.Put` says exactly when the screen stays the composite.
* A backspace does not wrap the ring index. `Stdin.FillStdinBuffer(c, wrap)` keeps the ring valid on a backspace exactly
  when `wrap` is set, the index is not 0 or nothing is there to erase. Over a run of keys, `Stdin.FillAll` says that the
  source does what the editor should exactly as long as no backspace meets index 0 with text left
  (`StdinRing.NeverAtZero`), and `StdinRing.UndoneAtZero` that erasing what was typed does so exactly when the typing
  did not reach the top cell; `StdinRing.LastBackAtZero` reaches index 0.

Where comments and code disagree the model follows the code: `framebuffer_clear` writes blanks, not zero characters;
`paging_allocate_user_page_frame` answers a truth value, not an address; a new page directory has two entries, not
one; `paging_free_page_directory` always answers false.

## Model

| member | source | states |
|---|---|---|
| FatLayout.EntryRoundTrip | src/shared/header/fat32.h:43-59 | a directory entry written to disk reads back unchanged |
| FatLayout.TableRoundTrip | src/kernel/c/filesystem/fat32.c:30-36 | a directory table survives its cluster |
| FatLayout.FatRoundTrip | src/kernel/c/filesystem/fat32.c:82-88 | the allocation table is recovered exactly from the cluster it was written to |
| FatLayout.ClusterOfSetCluster | src/kernel/c/filesystem/fat32.c:389-390 | a cluster number survives the split into two 16-bit halves exactly when it fits the low half |
| FatMeaning.EntryBytes | src/shared/header/fat32.h:43-59 | which of the 32 bytes of an entry hold which field, numbers with their low byte first |
| FatMeaning.TableBytes | src/shared/header/fat32.h:43-63 | entry i of a directory table is at byte 32 i of its cluster |
| FatMeaning.FatBytes | src/kernel/c/filesystem/fat32.c:82-88 | cell c of the allocation table is the four bytes from 4 c on |
| FatMeaning.FormattedBytes | src/kernel/c/filesystem/fat32.c:56-66 | every byte of the allocation table of a formatted disk |
| FatMeaning.BytesOnDisk | src/kernel/c/filesystem/fat32.c:266-289 | byte x of a file is byte x mod 2048 of cluster x / 2048 of its chain |
| FatVolume.ChainDistinct | src/kernel/c/filesystem/fat32.c:481-486 | chains are acyclic |
| FatVolume.ChainsDisjoint | src/kernel/c/filesystem/fat32.c:374-393 | chains of different entries share no cluster |
| FatVolume.ChainNext | src/kernel/c/filesystem/fat32.c:302-304 | following the table from the k-th cluster of a chain gives the next, and end-of-file at the end |
| FatVolume.DataKeepsWF | src/kernel/c/filesystem/fat32.c:331-331 | overwriting file data changes no entry and keeps the volume well formed |
| FatVolume.ExtendKeepsWF | src/kernel/c/filesystem/fat32.c:307-321 | linking a free cluster behind a chain keeps the volume well formed and every entry |
| FatVolume.ResizeKeepsWF | src/kernel/c/filesystem/fat32.c:336-340 | recording a size the chain covers keeps the volume well formed |
| FatVolume.CreateKeepsWF | src/kernel/c/filesystem/fat32.c:374-404 | a new entry with a one-cluster chain, and a fresh table for a directory, keeps the volume well formed |
| FatVolume.RemoveKeepsWF | src/kernel/c/filesystem/fat32.c:481-493 | removing an entry and its chain keeps the volume well formed and every other entry |
| FatVolume.MetaUnique | src/kernel/c/filesystem/fat32.c:82-88 | chains, owners and depths are determined by the disk alone |
| FatVolume.FreshWF | src/kernel/c/filesystem/fat32.c:56-70 | a freshly formatted disk is well formed |
| FatTree.FreshAbs | src/kernel/c/filesystem/fat32.c:56-70 | and holds nothing |
| FatTree.LookupIff | src/kernel/c/filesystem/fat32.c:102-147 | path lookup answers a slot exactly on the path of that slot in the tree |
| FatTree.AbsAt | src/kernel/c/filesystem/fat32.c:102-147 | the abstract file system lists every used slot once, under its own path, and nothing else |
| FatFile.OverlayTwice | src/kernel/c/filesystem/fat32.c:291-343 | writing two chunks in succession is writing their concatenation |
| FatFile.OverlayAt | src/kernel/c/filesystem/fat32.c:291-343 | data laid over a file: its bytes from the position on, the old ones elsewhere, and the size is the larger of the old one and the end of the data |
| FatNames.PathParts | src/kernel/c/filesystem/fat32.c:408-425 | the components of a path are those of its parent part followed by its name part |
| FatNames.SplitJoin | src/kernel/c/filesystem/fat32.c:432-442 | splitting a name at its dot and joining it again is the identity exactly on names with at most one inner dot |
| FatMeaning.PathSplits | src/kernel/c/filesystem/fat32.c:408-425 | d/n has parent d and name n; a path without a slash is all name |
| FatMeaning.NameSplits | src/kernel/c/filesystem/fat32.c:432-442 | a.b has stem a and extension b; a name without a dot has none |
| FatNames.NewEntryReads | src/kernel/c/filesystem/fat32.c:90-100 | the full name of an entry undoes the split it was made from |
| FatSpec.CreateAbs | src/kernel/c/filesystem/fat32.c:345-406 | names stay usable exactly when the path is new and the name plain; then exactly one empty object appears |
| FatSpec.MkFileAbs | src/kernel/c/filesystem/fat32.c:427-448 | after mkfile names stay usable exactly when the full path was new, and the file is found at the path given exactly when its name has at most one inner dot |
| FatMeaning.MakesFile | src/kernel/c/filesystem/fat32.c:427-448 | a file made as d/a or d/a.b is the one new object, empty and found at that path, exactly when the path did not exist |
| FatMeaning.CreatesExactly | src/kernel/c/filesystem/fat32.c:345-383 | on the abstract file system: an entry is made exactly when the parent is a directory with fewer than 62 children, none of the name, and a cluster is free |
| FatSpec.CheckSuffices | src/kernel/c/filesystem/fat32.c:362-371 | without an extension the duplicate check guarantees a new path |
| FatSpec.StemUnlistedPasses | src/kernel/c/filesystem/fat32.c:352-371 | with room left and the bare stem not listed, mkgeneral does not refuse |
| FatSpec.DuplicateEscapes | src/kernel/c/filesystem/fat32.c:362-371 | a file that exists is made again whenever there is room and its stem is not listed, and its path is then ambiguous |
| FatSpec.DeleteAbs | src/kernel/c/filesystem/fat32.c:469-496 | a delete removes one path and keeps every other object |
| FatMeaning.DeletesExactly | src/kernel/c/filesystem/fat32.c:469-496 | on the abstract file system: exactly files and directories without children are deleted |
| FatSpec.WriteAbs | src/kernel/c/filesystem/fat32.c:291-343 | a write replaces the bytes of one file and nothing else |
| FatSpec.WritesOverlay | src/kernel/c/filesystem/fat32.c:291-343 | writes in any chunk sizes lay the concatenation over the old contents, with size the maximum of old and written |
| FatSpec.WritesKeep | src/kernel/c/filesystem/fat32.c:291-343 | and over all those writes every other file and every name is kept |
| FatSpec.EmptyFirstWrite | src/kernel/c/filesystem/fat32.c:331-331 | an empty first write leaves the file intact exactly when the stale buffer agrees with its first bytes |
| FatSpec.ReadsConcat | src/kernel/c/filesystem/fat32.c:266-289 | reads of any sizes return consecutive slices |
| FatSpec.ReadsWhole | src/kernel/c/filesystem/fat32.c:266-289 | reads that ask for enough return exactly the file, and then nothing |
| FatFile.LengtheningKeeps | src/kernel/c/filesystem/fat32.c:307-321 | linking any number of free clusters behind a chain, one after the other, keeps every allocated cluster in exactly one chain |
| FatFile.WrittenKeepsWF | src/kernel/c/filesystem/fat32.c:291-343 | whatever a write answers, its effects on bytes, table and entry, with free clusters linked behind the chain, take a well-formed volume to a well-formed one |
| FatRun.StepRefines | src/kernel/c/filesystem/fat32.c:291-496 | one operation on the disk, a write that fills it included, is one operation on the abstract file system; that the volume is well formed afterwards is derived, of no step assumed |
| FatRun.StepKeepsWF | src/kernel/c/filesystem/fat32.c:291-496 | any operation, on a path used before or not, takes a well-formed volume to a well-formed one |
| FatRun.RunKeepsWF | src/kernel/c/filesystem/fat32.c:291-496 | over any run, from a well-formed first volume, every volume is well formed |
| FatRun.RunKeepsZeroed | src/kernel/c/filesystem/fat32.c:291-496 | and it leaves unused directory slots zeroed |
| FatRun.RunRefines | src/kernel/c/filesystem/fat32.c:291-496 | after any run from a well-formed volume that makes no path twice, every path is found and the file system is what the operations do to the abstract one |
| FatClient.ServeAll | src/kernel/c/filesystem/fat32.c:498-512 | whatever is asked of the driver's methods, every request that is answered with success was performed with the path and the bytes it was given, and what the methods do is such a run, from the volume before to the volume after |
| FatZeroed.FreshZeroed | src/kernel/c/filesystem/fat32.c:56-70 | unused directory slots of a formatted disk hold zeros |
| FatZeroed.MadeZeroed | src/kernel/c/filesystem/fat32.c:345-406 | making an entry, also a directory with its own table, keeps that |
| FatZeroed.DeletedZeroed | src/kernel/c/filesystem/fat32.c:469-496 | so does deleting one |
| FatZeroed.WriteZeroed | src/kernel/c/filesystem/fat32.c:291-343 | and so does a write, whatever it answers |
| CStrings.StrTok.First | src/shared/code/string.c:71-93 | strtok on a string: the first token, ended in place by one NUL, and what is left for later calls |
| CStrings.StrTok.Next | src/shared/code/string.c:71-93 | strtok on NULL: the next token, or -1 and no change when none is left |
| CStrings.TokensJoin | src/shared/code/string.c:71-93 | joining tokens behind delimiters and splitting again is the identity |
| Fat32Driver.Fat32.WriteVfs | src/kernel/c/filesystem/fat32.c:291-343 | the answer is the whole size, or -1 exactly when the clusters of the file and the free ones cannot hold it; the data is laid over the file, the chain grows by the clusters needed and no more, no other entry changes; and what is left after -1 |
| FatFile.WrittenMeans | src/kernel/c/filesystem/fat32.c:291-343 | after a write the bytes of the file are those of the buffer at the position and the old ones elsewhere |
| Fat32Driver.Fat32.ReadVfs | src/kernel/c/filesystem/fat32.c:266-289 | the bytes of the file from the handle on: as many as asked for, or as there are; never the corrupted-file -1 |
| Fat32Driver.Fat32.DirectionFixed | src/kernel/c/filesystem/fat32.c:279-303 | the cluster pointer of a handle that has read is the one writing needs only at the start of the file |
| Fat32Driver.Fat32.WriteAfterRead | src/kernel/c/filesystem/fat32.c:291-343 | a write through a handle that has read into a cluster, of data that ends in it: the next cluster is overwritten, or none behind the last one; the volume and all other files survive |
| FatMisplaced.MisplacedByte | src/kernel/c/filesystem/fat32.c:331-331 | place by place what the file then holds |
| FatMisplaced.MisplacedWrite | src/kernel/c/filesystem/fat32.c:331-331 | the file is the overlay exactly when the data was there before and the next cluster repeated the one it fell into |
| FatMisplaced.MisplacedKeepsWF | src/kernel/c/filesystem/fat32.c:331-343 | the volume stays well formed and all other entries and their data stay |
| FatShortcomings.ReadThenWrite | src/kernel/c/filesystem/fat32.c:266-343 | a run from formatting on: read one byte, write one, and the byte is in the next cluster |
| FatShortcomings.DuplicateFile | src/kernel/c/filesystem/fat32.c:427-448 | a run from formatting on: mkfile of one path succeeds twice |
| FatShortcomings.TwoDots | src/kernel/c/filesystem/fat32.c:427-448 | a run from formatting on: mkfile of a name with two dots succeeds, and the file is under another name |
| Fat32Driver.Fat32.HandleKept | src/kernel/c/filesystem/fat32.c:291-343 | a handle on a file that an operation left alone works on as before |
| Fat32Driver.Fat32.Open | src/kernel/c/filesystem/fat32.c:235-257 | a handle exactly when the path is a file, at its start |
| Fat32Driver.Fat32.GetEntryWithParentClusterAndIndex | src/kernel/c/filesystem/fat32.c:102-147 | the tree walk of the path's components: the entry with its true parent cluster and index, or -1 |
| Fat32Driver.Fat32.MkGeneral | src/kernel/c/filesystem/fat32.c:345-406 | exactly when it succeeds, what it makes, in the first unused slot and the lowest free cluster, and that a failure changes nothing |
| Fat32Driver.Fat32.MkFile | src/kernel/c/filesystem/fat32.c:427-448 | the same for a file path split at its last slash and at its dots |
| Fat32Driver.Fat32.MkDir | src/kernel/c/filesystem/fat32.c:450-467 | the same for a directory, and the slash it overwrites in the caller's path |
| Fat32Driver.Fat32.ParsePath | src/kernel/c/filesystem/fat32.c:408-425 | the path cut at its last slash, in place |
| Fat32Driver.Fat32.DeleteVfs | src/kernel/c/filesystem/fat32.c:469-496 | deletes exactly the existing entries that are files or empty directories; a failure changes nothing |
| Fat32Driver.Fat32.FreeChain | src/kernel/c/filesystem/fat32.c:481-486 | empties exactly the cells of one chain |
| Fat32Driver.Fat32.GetEntryCount | src/kernel/c/filesystem/fat32.c:154-167 | the number of used entries of a directory |
| FatMeaning.CountMeans | src/kernel/c/filesystem/fat32.c:154-167 | the count is the number of entries marked as used |
| FatMeaning.CountChildren | src/kernel/c/filesystem/fat32.c:154-167 | and the number of children in the abstract file system |
| Fat32Driver.Fat32.Stat | src/kernel/c/filesystem/fat32.c:179-187 | name, kind and size of what the path leads to, the root included |
| FatMeaning.StatAbs | src/kernel/c/filesystem/fat32.c:169-187 | stat succeeds exactly on the paths that exist, with the last component of the path, the kind, and the number of bytes or of children |
| Fat32Driver.Fat32.DirStat | src/kernel/c/filesystem/fat32.c:189-208 | names, kinds and sizes of the entries of a directory in table order |
| FatMeaning.ListMeans | src/kernel/c/filesystem/fat32.c:189-208 | the k-th used entry of the table is the k-th of the listing |
| FatMeaning.ListChildren | src/kernel/c/filesystem/fat32.c:189-208 | a listing describes each child of the directory and nothing else |
| Fat32Driver.Fat32.CreateFat32 | src/kernel/c/filesystem/fat32.c:56-70 | signature block, fresh table and empty root, and no other cluster changed |
| Fat32Driver.Fat32.IsEmptyStorage | src/kernel/c/filesystem/fat32.c:72-80 | whether the signature block is missing |
| Fat32Driver.Fat32.Initialize | src/kernel/c/filesystem/fat32.c:82-88 | remounting a well-formed volume recovers exactly that volume, whatever the cache held; a disk without signature becomes an empty file system with zeroed slots |
| ShellDelete.DeleteRecursive | src/program/shell/delete.c:4-34 | terminates and removes exactly the subtree: the abstract file system is the old one without the path and what lies below it, and every other slot keeps entry, chain, data and path |
| ShellDelete.PrunedAbs | src/program/shell/delete.c:4-34 | in the abstract file system exactly the paths below the deleted one are gone |
| ShellDelete.PrunedClusters | src/program/shell/delete.c:4-34 | exactly the clusters of the deleted entries become free |
| OldFat32.Write | src/helper/old_fat32.c:170-260 | each answer exactly when it is due, nothing changed unless 0, and what is then stored, in the first unused slot and the lowest free clusters; every other entry keeps its chain and data |
| OldFat32.StoredKeeps | src/helper/old_fat32.c:215-260 | storing an entry with its chain leaves the chain and data of any other |
| OldFat32.Read | src/helper/old_fat32.c:101-137 | the answer, and for 0 the whole clusters of the file |
| OldFat32.Delete | src/helper/old_fat32.c:262-311 | each answer exactly when it is due, and the one entry deleted |
| OldFat32.WriteThenRead | src/helper/old_fat32.c:101-260 | what was written reads back exactly, the last cluster padded with zeros |
| OldFat32.WriteThenDelete | src/helper/old_fat32.c:170-311 | write then delete restores the allocation table, all chains and the parent table; on a volume of other origin the last exactly when the slot held zeros |
| OldFat32.WrittenDelete | src/helper/old_fat32.c:262-290 | after a write, delete finds the written entry exactly when no earlier directory has its name |
| OldFatMeaning.ReadMeans | src/helper/old_fat32.c:101-137 | read finds the first used entry of the name and extension: 2 without one, 1 for a directory, -1 when the buffer is too small or the parent is none, 0 otherwise |
| OldFatMeaning.WriteMeans | src/helper/old_fat32.c:179-211 | which entries make write answer 1, and that it needs an unused entry and as many free clusters as the data fills |
| OldFatMeaning.DeleteMeans | src/helper/old_fat32.c:262-290 | delete takes the first used entry of the name that is a directory or has the extension |
| OldFatMeaning.RemovableMeans | src/helper/old_fat32.c:288-304 | it removes files, and directories with no used entry behind the two links |
| OldFatMeaning.WroteAbs | src/helper/old_fat32.c:213-260 | a successful write adds one directory, or one file with exactly the bytes given, to the abstract file system |
| KernelHeap.Heap.KmallocAligned | src/kernel/c/memory/kmalloc.c:32-80 | on any list: the new blocks and backward links and the result (HeapMeaning.AllocMeans says which), exactly when the links survive and exactly when the block holds the request |
| HeapMeaning.AllocMeans | src/kernel/c/memory/kmalloc.c:45-79 | the first free block of at least the request with its padding, in 32 bits, and 0x100 bytes is taken, cut when more than 0x114 bytes are left, and the result is its aligned address; without one, NULL and no change |
| HeapMeaning.NullMeans | src/kernel/c/memory/kmalloc.c:43-79 | without a wrap the answer is NULL exactly when every free block is too small |
| KernelHeap.Heap.Kmalloc | src/kernel/c/memory/kmalloc.c:82-84 | the same with alignment 4 |
| KernelHeap.Heap.Split | src/kernel/c/memory/kmalloc.c:57-68 | cuts one block in two, and exactly when the backward links survive |
| KernelHeap.Heap.CombineBlock | src/kernel/c/memory/kmalloc.c:86-91 | a block absorbs a later one and its successor is told; whatever lay between leaves the list |
| KernelHeap.Heap.Kfree | src/kernel/c/memory/kmalloc.c:93-112 | with whatever backward links: the block of the address becomes free, merges with a free successor and into the block its link leads to, if that is free; exactly when the region stays partitioned; with right links this is merging with the neighbours |
| KernelHeap.RunTidy | src/kernel/c/memory/kmalloc.c:32-112 | with the repaired split, or as long as no block is split in front of another one: any interleaving of any requests and frees keeps the region an exact partition with no two free neighbours |
| KernelHeap.RunGood | src/kernel/c/memory/kmalloc.c:32-112 | under the same condition and without requests that wrap, every result stays inside its block |
| KernelHeap.RunReturnsAll | src/kernel/c/memory/kmalloc.c:93-112 | under the same condition, when nothing is live after any run the heap is the one block of the start |
| KernelHeap.ReleaseTidy | src/kernel/c/memory/kmalloc.c:98-107 | freeing a block keeps the region partitioned exactly when its backward link is right, or neither the block it leads to nor the one in front is free |
| KernelHeap.ReleaseStraight | src/kernel/c/memory/kmalloc.c:98-107 | with right links, freeing is merging with the two neighbours and leaves the links right |
| KernelHeap.CutStraight | src/kernel/c/memory/kmalloc.c:59-67 | a split leaves the links right exactly when the successor is told or there is none |
| HeapClient.StraightRun | src/kernel/c/memory/kmalloc.c:32-112 | with the repaired split, and in the source as long as no block is split in front of another one, the links stay right over any run and the layout is that of the run |
| HeapClient.RunTidyIff | src/kernel/c/memory/kmalloc.c:32-112 | over any run the region is partitioned at every point exactly when no free merges along a wrong link |
| HeapClient.Serve | src/kernel/c/memory/kmalloc.c:32-112 | the allocator's methods, on any requests and frees, take the list through the run and answer as it does |
| HeapClient.ServeStraight | src/kernel/c/memory/kmalloc.c:32-112 | and under the condition above leave the layout of the run on it alone |
| HeapClient.StagesFrom | src/kernel/c/memory/kmalloc.c:32-112 | eight calls of the source and the lists they go through, a split in front of another block among them |
| HeapClient.Overlap | src/kernel/c/memory/kmalloc.c:32-112 | after those calls 0x400 bytes are handed out over 0x100 bytes still in use, and the region is no longer partitioned |
| KernelHeap.FreeUndoesAlloc | src/kernel/c/memory/kmalloc.c:56-112 | a free right after a successful allocation restores the layout |
| KernelHeap.FreeUndoesRequest | src/kernel/c/memory/kmalloc.c:56-112 | with right links it restores blocks and links, in the source too, also when the allocation broke a link |
| KernelHeap.LiveDisjoint | src/kernel/c/memory/kmalloc.c:70-73 | live results never overlap and lie in the region |
| KernelHeap.AllocLives | src/kernel/c/memory/kmalloc.c:56-74 | an allocation adds its block to the live ones and disturbs no other |
| KernelHeap.KfreedLives | src/kernel/c/memory/kmalloc.c:93-112 | with right backward links a free takes away exactly the live block of that address |
| HeapMeaning.TidyUnique | src/kernel/c/memory/kmalloc.c:93-112 | a partition of the region without free neighbours is determined by its live blocks |
| HeapMeaning.KfreedIsOnly | src/kernel/c/memory/kmalloc.c:93-112 | so a free leaves the only such partition that has all the live blocks but that of the address |
| KernelHeap.PaddingAligns | src/kernel/c/memory/kmalloc.c:48-51 | the padded address is aligned and the padding less than the alignment |
| KernelHeap.InsideSplitReached | src/kernel/c/memory/kmalloc.c:59-67 | a run after which the next allocation breaks a backward link |
| KernelHeap.WrappedRequestAnswered | src/kernel/c/memory/kmalloc.c:51-54 | a request whose padded size wraps that a fresh heap answers with a block that does not hold it |
| KernelHeap.AllocHeld | src/kernel/c/memory/kmalloc.c:51-73 | the block handed out holds the request exactly when the padded size does not wrap |
| KernelHeap.SmallNoWrap | src/kernel/c/memory/kmalloc.c:48-51 | requests of at most 2^32 less the alignment do not wrap, wherever the block is |
| KernelHeap.KfreedHolds | src/kernel/c/memory/kmalloc.c:93-112 | and keeps the other results inside their blocks |
| RoundRobin.FullRound | src/kernel/c/process/scheduler.c:73-90 | n switches with n processes restore the order and make each process current exactly once |
| RoundRobin.PicksOne | src/kernel/c/process/scheduler.c:98-125 | the search has at most one outcome |
| RoundRobin.ReadyNeedsNoHalt | src/kernel/c/process/scheduler.c:98-125 | a search from a Ready process ends within as many rotations as there are processes, without halting |
| RoundRobin.FirstReady | src/kernel/c/process/scheduler.c:98-125 | such a search always ends |
| RoundRobin.StepKeepsFine | src/kernel/c/process/scheduler.c:22-162 | every step keeps Running exclusive to the current process and process ids distinct |
| RoundRobin.StepMoves | src/kernel/c/process/scheduler.c:92-162 | a step brings a queued process to the front or forward, never back if it is Ready, and keeps its saved frame |
| RoundRobin.BoundedWaiting | src/kernel/c/process/scheduler.c:73-162 | a Ready process at queue index i becomes current within i + 1 ticks, whatever is added, removed or put to sleep in between |
| RoundRobin.UntouchedWhileQueued | src/kernel/c/process/scheduler.c:92-162 | over any run, a process that was not picked is exactly as it was left |
| RoundRobin.ResumesWhereItStopped | src/kernel/c/process/scheduler.c:127-160 | over any run, the first time a suspended process is picked again it has the frame saved when it was suspended |
| RoundRobin.WaitsForIt | src/kernel/c/process/scheduler.c:92-148 | over any run, a process halted in a syscall is current again only by a search that found the predicate it gave to hold, and its syscall is recalled exactly when it was to be |
| RoundRobin.PicksMeans | src/kernel/c/process/scheduler.c:98-125 | the process taken is Ready, or Waiting without a predicate or with one that holds, and none looked at earlier was |
| RoundRobin.PicksBy | src/kernel/c/process/scheduler.c:98-125 | and the search ends no later than at the first such process |
| RoundRobin.ResumedMeans | src/kernel/c/process/scheduler.c:104-129 | the process taken is Running and first, its notifier cleared if it waited; the others follow as they were, rotated |
| RoundRobin.SleepMeans | src/kernel/c/process/scheduler.c:136-148 | a process that halts is Waiting with the frame, predicate and recall flag given, and the search goes on from it |
| RoundRobin.TickMeans | src/kernel/c/process/scheduler.c:150-162 | a process preempted is Ready with the frame it was interrupted with, and the search goes on from it |
| Scheduler.Scheduler.Add | src/kernel/c/process/scheduler.c:22-34 | one node at the back; forward and backward links stay one sequence |
| Scheduler.Scheduler.Remove | src/kernel/c/process/scheduler.c:36-59 | the process's node leaves the queue, the current process stays; links stay one sequence |
| Scheduler.Scheduler.SwitchNext | src/kernel/c/process/scheduler.c:73-90 | rotates current process and queue by one |
| Scheduler.Scheduler.Search | src/kernel/c/process/scheduler.c:93-125 | stops at the first process in round-robin order that is Ready or whose predicate is absent or holds |
| Scheduler.Scheduler.SwitchNextWithNotifier | src/kernel/c/process/scheduler.c:92-134 | the picked process is Running with its notifier cleared, its saved frame and page directory are handed out, and whether its syscall is recalled |
| Scheduler.Scheduler.HandleTimerInterrupt | src/kernel/c/process/scheduler.c:150-162 | one tick step of the sequence of processes, without a halt: who takes over, the frame and page directory handed out, whether a syscall is recalled; the control blocks and their pids and directories are rotated, by how many places, and nothing changes while the current process waits or before the start |
| Scheduler.Scheduler.HaltCurrentProcess | src/kernel/c/process/scheduler.c:136-148 | one sleep step of the sequence of processes (RoundRobin.SleepMeans): who takes over, with what frame and page directory, and whether a syscall is recalled; control blocks, pids and directories are rotated; nothing changes outside a syscall |
| Scheduler.TakesOverRotates | src/kernel/c/process/scheduler.c:98-134 | whoever takes over, the process ids and directories are those before, rotated |
| Scheduler.Scheduler.Init | src/kernel/c/process/scheduler.c:164-179 | the front of the queue becomes current and the order stays |
| Scheduler.Scheduler.CurrentRunningPid | src/kernel/c/process/scheduler.c:181-184 | the current process id, -1 before the start |
| Paging.FramesExclusive | src/kernel/c/memory/paging.c:64-114 | no frame is handed out twice, and no user entry reaches a kernel frame |
| Paging.AllocateExclusive | src/kernel/c/memory/paging.c:64-87 | handing out a frame keeps frames exclusive exactly when the address is a user page not mapped yet |
| Paging.FreeExclusive | src/kernel/c/memory/paging.c:89-114 | taking a frame back keeps frames exclusive |
| Paging.PageManager.AllocateCheck | src/kernel/c/memory/paging.c:60-62 | agrees with the unused frames but for two |
| Paging.PageManager.AllocateFrame | src/kernel/c/memory/paging.c:64-87 | succeeds exactly when a frame is unused, takes the first one and maps it present, writable and for user mode at the address; the conserved sum stays |
| Paging.PageManager.FreeFrame | src/kernel/c/memory/paging.c:89-114 | succeeds exactly when a frame is recorded for the directory and address, and takes it back |
| Paging.PageManager.UpdateEntry | src/kernel/c/memory/paging.c:44-53 | one entry of the directory changes |
| Paging.PageManager.CreateDirectory | src/kernel/c/memory/paging.c:116-136 | a new directory: the kernel's two entries, closed to user mode, and no other |
| Paging.PageManager.FreeDirectory | src/kernel/c/memory/paging.c:138-148 | takes back exactly the frames of the directory, and answers false |
| Processes.CreatedCorresponds | src/kernel/c/process/process.c:118-131 | a creation keeps table slots, queue, frames, directories and count in one-to-one correspondence |
| Processes.DestroyedCorresponds | src/kernel/c/process/process.c:139-152 | so does a destruction |
| Processes.RotatedCorresponds | src/kernel/c/process/scheduler.c:73-90 | and so does a switch by any number of places |
| Processes.HistoryCorresponds | src/kernel/c/process/process.c:75-152 | over any run of creations, destructions and switches the records stay in correspondence |
| Processes.CreateIsChange | src/kernel/c/process/process.c:118-131 | a successful creation is such a change |
| Processes.DestroyIsChange | src/kernel/c/process/process.c:139-152 | and so is a successful destruction |
| Processes.DestroyUndoesCreate | src/kernel/c/process/process.c:75-152 | destroying the process just created restores all the records |
| ProcessMeaning.OwnMemory | src/kernel/c/memory/paging.c:64-87 | the first page of a process is mapped for user mode to a frame that is not the kernel's and that no user entry of another process leads to |
| ProcessMeaning.ProcessesDiffer | src/kernel/c/process/process.c:20-40 | no two processes share an id, a control block or a page directory |
| ProcessMeaning.ProcessHas | src/kernel/c/process/process.c:75-137 | a process is in the table under its id, and exactly one frame is recorded for it |
| ProcessMeaning.NothingLeft | src/kernel/c/process/process.c:139-152 | no table slot and no frame belongs to a process that is not in the scheduler, and the counts agree |
| ProcessMeaning.CreatedMeans | src/kernel/c/process/process.c:46-131 | a creation: the lowest free id, the first unused frame at address 0, and a process at the back of the queue with the registers of user mode, interrupts on, starting at 0 with its stack at the end of the page |
| ProcessMeaning.DestroyedMeans | src/kernel/c/process/process.c:139-152 | a destruction: the process leaves queue and table, and its directory and all its frames are given back |
| ProcessMeaning.AdmittedMeans | src/kernel/c/process/process.c:75-97 | a process can be created exactly when there are fewer than 30, the heap has room, and its program is a file of at most seven pages, and of at most 31 less one for each process |
| Processes.CreateIsSpawn | src/kernel/c/process/process.c:129-130 | to the scheduler, a creation adds a process with a new id |
| Processes.DestroyIsKill | src/kernel/c/process/process.c:139-152 | to the scheduler, a destruction takes the process out of the queue |
| Processes.ProcessManager.GetFreePid | src/kernel/c/process/process.c:20-29 | the lowest free process id, -1 when the table is full |
| Processes.ProcessManager.Create | src/kernel/c/process/process.c:75-137 | exactly when it succeeds; a success adds one process to all the records, a failure changes none; and exactly when CR3 is left changed |
| Processes.ProcessManager.Destroy | src/kernel/c/process/process.c:139-152 | refuses exactly the current process, otherwise takes one process out of all the records |
| Processes.ProcessManager.TimerTick | src/kernel/c/process/scheduler.c:150-162 | a tick is a switch of the records, which stay in correspondence |
| Processes.ProcessManager.Sleep | src/kernel/c/process/scheduler.c:136-148 | so is a sleep |
| Processes.ProcessManager.Start | src/kernel/c/process/scheduler.c:164-179 | the start changes no record and hands out the frame of the first process |
| Processes.ProcessManager.Exit | src/kernel/c/cpu/interrupt.c:134-145 | a tick and then, unless the same process takes over, the destruction of the one that gave way |
| Framebuffer.TopmostCovered | src/kernel/c/text/framebuffer.c:76-109 | what is below a cover does not show |
| Framebuffer.TopmostWithout | src/kernel/c/text/framebuffer.c:51-74 | an empty layer makes no difference wherever it is |
| Framebuffer.PaintedShown | src/kernel/c/text/framebuffer.c:180-185 | a direct paint shows the composite exactly when nothing covers the cell or the same character does |
| Framebuffer.Screen.ShownMeans | src/kernel/c/text/framebuffer.c:76-109 | a place shows its column exactly when it holds the character of the topmost layer that has one there |
| Framebuffer.Screen.constructor | src/kernel/c/text/framebuffer.c:24-32 | one blank layer, shown everywhere |
| Framebuffer.Screen.CreateLayer | src/kernel/c/text/framebuffer.c:34-49 | a new empty layer on top changes nothing shown |
| Framebuffer.Screen.RemoveLayer | src/kernel/c/text/framebuffer.c:51-74 | the layer is gone and every place shows the composite of the remaining ones |
| Framebuffer.Screen.WriteToLayer | src/kernel/c/text/framebuffer.c:76-109 | one cell changes; the place shows its column unless it is covered and did not before; nothing else changes, and a screen that was the composite stays it |
| Framebuffer.Screen.ScrollUp | src/kernel/c/text/framebuffer.c:157-168 | the base layer moves up by one row with a blank last row, under all the layers |
| Framebuffer.Screen.Clear | src/kernel/c/text/framebuffer.c:211-218 | the base layer becomes blank, under all the layers, and the cursor returns |
| Framebuffer.Screen.Put | src/kernel/c/text/framebuffer.c:180-202 | what every cell of the base layer holds afterwards, with the scroll at the end of the screen, where the cursor goes, and exactly when the screen stays the composite |
| Framebuffer.Screen.SetCursor | src/kernel/c/text/framebuffer.c:111-135 | the cursor, kept inside the screen |
| FramebufferClient.DrawAll | src/kernel/c/text/framebuffer.c:34-218 | after any sequence of drawings, and of typing with no layer above, the screen is still the composite of the layers |
| PathResolve.ResolvePath | src/shared/code/path.c:4-58 | an absolute path becomes what it resolves to (ResolvedName, ResolvedUp, ResolvedStays), in the room it had; any other is refused unchanged |
| PathResolve.ResolvedName | src/shared/code/path.c:43-51 | a further name is put behind the resolved path |
| PathResolve.ResolvedUp | src/shared/code/path.c:34-42 | a further ".." takes the last name off, and leaves the root alone |
| PathResolve.ResolvedStays | src/shared/code/path.c:18-33 | a further "." or slash changes nothing, and the root resolves to itself |
| PathResolve.ResolvedClean | src/shared/code/path.c:25-52 | no ".", ".." or empty component is left, and the components are those of the fold |
| PathResolve.ResolvedIdempotent | src/shared/code/path.c:4-58 | resolving twice is resolving once |
| PathResolve.TokensFit | src/shared/code/path.c:11-26 | the index arrays and the path buffer are large enough |
| PathResolve.StrCmp | src/shared/code/string.c:43-54 | 0 exactly on equal strings |
| PathResolve.StrCpyAll | src/shared/code/string.c:62-69 | a copy of the whole string |
| StdinRing.Stdin.FillStdinBuffer | src/kernel/c/filesystem/dev.c:56-86 | what each key does to the text, the line and its read position, and exactly when a backspace breaks the ring |
| StdinRing.Stdin.FillAll | src/kernel/c/filesystem/dev.c:56-86 | any keys act as on the editor, with the repair always and in the source exactly when no backspace meets index 0 with text left |
| StdinRing.Stdin.StdinRead | src/kernel/c/filesystem/dev.c:134-150 | the next piece of the line, as long as asked for or as there is, or a halt exactly when there is none for this reader |
| StdinRing.TypeAndRead | src/kernel/c/filesystem/dev.c:56-150 | a line typed into an empty ring is read back, or its last 1023 characters |
| StdinRing.TypingKeepsLast | src/kernel/c/filesystem/dev.c:77-85 | typing keeps the last characters the ring holds |
| StdinRing.BackspaceUndoes | src/kernel/c/filesystem/dev.c:70-76 | with the repair, as many backspaces as characters undo the typing |
| StdinRing.UndoneAtZero | src/kernel/c/filesystem/dev.c:70-76 | without it they do exactly when the typing did not reach the top cell of the ring |
| StdinRing.ReadsConcat | src/kernel/c/filesystem/dev.c:134-150 | reads of any sizes return consecutive pieces, and all of the line once they ask for enough |
| StdinRing.LastBackAtZero | src/kernel/c/filesystem/dev.c:75-81 | typing 1024 characters brings the last index back to 0 |

## Left out

- Fat32Driver.Fat32.WriteVfs: the handle must have been used for writing only (Fat32.WriteAfterRead has the other case) and no other handle may write the same file; a handle is dead after a write that ran out of clusters.
- Fat32Driver.Fat32.WriteAfterRead: the handle stands inside a cluster and the data ends in it. Not modelled are data that crosses the end of the cluster, which goes on one cluster too far, a handle that has read exactly to a boundary, where the cluster just read is first copied over the next one, and either of them behind the last cluster, where the source indexes the table with the end-of-file mark. A block numbered by that mark is not on the disk, and writing it changes nothing.
- Fat32Driver.Fat32.ReadVfs: the handle must have been used for reading only; after a write the source reads the current cluster a second time at the next boundary.
- Fat32Driver.Fat32.DirStat: the path must not lead to a file, whose data the source would take for a directory table.
- Fat32Driver.Fat32.MkGeneral: the parent must not be a file, whose data the source would take for a directory table.
- Fat32Driver.Fat32.MkFile: the name must hold a character other than a dot, since `strtok` answers NULL otherwise and the source dereferences it.
- Fat32Driver.Fat32.DeleteVfs: an empty root must not be deleted, since the index of the entry is then never set.
- Fat32Driver.Fat32.Open: does not model a failing allocation of the handle, nor the table of open files.
- ShellDelete.DeleteRecursive: paths below the deleted one must fit the path buffer, and no mount point lies below it; the static `status` has no effect and is local.
- OldFat32.Write: names hold at most 7 characters and extensions at most 2, the parent is a directory's own cluster, and the size is at most 2^32 - 2048: above that the number of clusters wraps to none and the source uses an array of no elements.
- OldFat32.Read: the buffer must hold whole clusters, since whole clusters are copied; `read_directory` is not modelled.
- OldFat32.WriteThenDelete: no earlier directory entry may have the file's name, since delete ignores the extension when it meets one; "." and ".." are excluded.
- KernelHeap.RunGood: the requests must not wrap; KernelHeap.RunTidy is the part that holds of all.
- KernelHeap.Heap.Kfree: the backward link of the block freed must not lead to a block that has left the list, whose header may have been overwritten.
- Scheduler.Scheduler.HaltCurrentProcess: some process must become eligible after some number of interrupts; otherwise the source halts for ever.
- Scheduler.Scheduler.SwitchNextWithNotifier: the recalled syscall itself is not modelled, nor the store of a syscall's result into the frame of the newly chosen process by the interrupt handler.
- Scheduler.Scheduler.Add: does not model a failing allocation of the node.
- Processes.ProcessManager.Create: the file size must not overflow a signed 32-bit sum; loading the program into its frame and the table of open files are not modelled.
- Framebuffer.Screen.WriteToLayer: the place must be on the screen, and a cell of the base layer is not erased unless it is covered; the source checks neither.
- Framebuffer.Screen.Put: NUL is not put.
- Framebuffer.Screen.RemoveLayer: the base layer is not removed; the source would dereference NULL.
- PathResolve.StrCmp: does not promise the sign of an unequal answer, which the path code never looks at.
- PathResolve.StrCpyAll: copies of the whole string only, as the path code makes them.
- StdinRing.Stdin.StdinRead: the list of foreground processes is a truth value.
- StdinRing.Stdin.FillStdinBuffer: does not model the echo on the screen, nor the ring once its index is -1.
- FramebufferClient.DrawAll: leaves out the drawings the source has no answer for, as listed for the single methods.
- Processes.ProcessManager.Destroy: the process id must be of a process; the source dereferences NULL otherwise.
- Colours of screen cells, cursor ports, terminal escapes.
- ATA, PIC, RTC, GDT, IDT, TSS, TLB and assembly; blocks are copied, as in `src/helper/inserter.c:14-24`.
- Crash consistency in the middle of an operation: only operation boundaries are claimed.
- The mount table, file table and descriptor table, other shell commands, keyboard tables and calendar code: slot searches and user interface.
- Characters are bytes below 256 on disk and ASCII on the screen; no signedness of `char`.
