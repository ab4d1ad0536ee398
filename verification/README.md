# NutsOS kernel, modelled and proved in Dafny

NutsOS is a small 32-bit teaching kernel. Two stacks of its code carry guarantees that depend on the layer below:

* memory: a first-fit block heap whose only record is one flag byte per 4 KiB block; two-level page tables built out of
  its blocks; processes whose image and stack are mapped into such a directory;
* storage: a byte stream over sectors; a FAT16 reader that walks cluster chains; directories, path lookup and `fread`.

Three smaller pieces are modelled beside them: the path parser (a linked list on the heap), the round-robin task list,
and segment descriptors.

Memory is one flat array of 2^32 bytes. The heap's flag table, page tables, program images, parsed paths and loaded
directories are all bytes in it, so every statement about one of them rests on the allocator keeping live chunks apart.
The ghost map `chunks` says which chunks are live; `Heap.Valid` says the flag table is exactly its encoding.

The main results:

* over every run of user-mode stores made through the directories of any number of loaded processes, no page table and no
  flag byte changes, nothing outside the storing processes' images and stacks changes, every translation stays what it
  was (`Isolation.RunIsolated`, `TranslationInvariant`), and what one process finds in its memory depends on its own
  stores alone (`NonInterference`); loading a program establishes the state these need (`Kernels.Kernel.Load`);
* the allocator keeps the flag table the encoding of a map of disjoint chunks, finds the first fit whenever one exists,
  and freeing a page directory, a path or a directory item brings the table back entry for entry;
* a cluster read as written returns the right bytes exactly when it stays inside one cluster, or starts in the first and
  ends in the second (`ClusterReads.WrittenExact`); the repaired recursion always does (`RepairedExact`);
* path lookup ends exactly as the fold of single-directory lookup does, and releases every intermediate item; a name on
  disk is found exactly if its record lies within the number of records not deleted (`Directories.LookupOnDisk`), and
  a file in reach on disk is opened and read by its path (`DiskPaths.FoundOnDisk`, `Files.ReadPresent`);
* printing and parsing a path, and encoding and decoding a descriptor, give back what went in, on exactly known inputs;
* no task starves, whatever tasks join and leave, for the list as a sequence of tasks (the pointers encode it as long as
  the head of several is not removed by the code as written).

## Where the code departs from its intent

Each of these is modelled as written, with the inputs on which it is right; a repaired form is labelled as such. Module
`Departures` shows an input for each.

* `heap.c:89-94` returns a trailing free run that is too short as if it were long enough. The parameter `guarded` selects
  the source (false) or a scan that checks the length (true). A request served from a short run leaves a flag table that
  encodes no set of chunks at all (`HeapSpec.OverrunEncodesNothing`). A size above 0xFFFFF000 wraps to zero blocks
  (`heap.c:54-55`), and zero blocks are answered with a block that is never marked (`heap.c:84`).
* `fat16.c:525-529` advances the starting cluster but keeps the absolute offset, so a read started in the first cluster
  takes its j-th piece from chain position j(j+1)/2. The parameter `keep` selects the source (false) or the
  recursion that stays with the first cluster (true). A program is therefore loaded only if it fits two clusters
  (`Kernels.DeliveredExact`).
* `fat16.c:21` takes only 0xFFF8 and 0xFFFF for the end of a chain; the numbers between them, which the FAT specification
  counts as ends too, are followed (`Volumes.StopsExactly`, `Departures.EndNotSeen`).
* `fat16.c:226-235` leaves deleted records out of the count that sizes the raw prefix read afterwards: the records behind
  that prefix are not found (`Directories.LookupOnDisk`, `LookupComplete`).
* `task.c:68-71` relinks both neighbours if the previous one exists: taking the tail of several tasks stores through a null
  pointer, taking the head of several leaves the new head with a stale `prev`. `Tasks.Scheduler.Remove` states when the
  list stays right; `guarded` selects the repaired form.
* `gdt.h:20` is off by one: limit 0x100000 is accepted in byte granularity and read back as 0 (`Gdt.LostLimit`).
* `paging.c:67` frees what 1024 directory entries lead to, however many tables were allocated, and `kheap.c:35` clears only
  the entries asked for: the others are old contents of the block. With 1024 tables, as both callers ask for (`kernel.c:94`,
  `task.c:99`), nothing is left over; with fewer the flags come back exactly if each leftover word leads to a clear flag
  (`Spaces.NewThenFreeSome`), and `Departures.StaleEntry` is a run in which another chunk is lost.

## Files

Memory: `Sequences`, `Words`, `HeapSpec`, `Heaps`, `Paging`, `Spaces`, `Isolation`, `Processes`, `Ledger` (what an operation has gained
from the heap), `Kernels`. Storage: `Division`, `Streams`, `Volumes`, `ClusterReads`, `FileReads`, `Fat16`, `Directories`,
`DiskPaths`, `Resolver`, `Files`, `BootDisk` (a volume laid out by hand). `Division` writes quotient,
remainder and product by repeated steps and proves them equal to `/`, `%` and `*`. The rest: `Paths`, `PathParser`, `RoundRobin`, `Tasks`, `Gdt`, `Errors`, `Departures`.

## Model

| member | source | states |
|---|---|---|
| Heaps.Heap.Scan | src/memory/heap/heap.c:64-87 | the loop of the free-block search: a full run is the first fit; running off the end leaves the trailing free run, or none, and then no free run of n blocks exists anywhere |
| Heaps.Heap.NextFreeBlock | src/memory/heap/heap.c:64-95 | as written: the least start of n free blocks whenever there is one; when there is none, -ENOMEM exactly if the last block is taken, else the start of the trailing run |
| Heaps.Heap.NextFreeBlockRepaired | src/memory/heap/heap.c:64-95 | repaired: the first fit whenever n free blocks in a row exist, -ENOMEM if and only if they do not |
| Heaps.Heap.MarkBlocksTaken | src/memory/heap/heap.c:108-124 | the n flags of a chunk say first, has-next on all but the last, taken; no other byte of memory changes |
| Heaps.Heap.MarkBlocksFree | src/memory/heap/heap.c:145-155 | from any block a pointer can have, those in front of the table included, over any bytes: clears up to the first flag without has-next or the table's end, and nothing else |
| Heaps.Heap.MallocBlocks | src/memory/heap/heap.c:126-143 | a request that fits adds one chunk at the least place; a refused one changes nothing; the source's short trailing run leaves a table that encodes nothing |
| Heaps.Heap.Malloc | src/memory/heap/heap.c:157-162 | the same with the size rounded up to blocks, sizes that wrap included |
| Heaps.Heap.Kzalloc | src/memory/heap/kheap.c:29-37 | a new chunk of zeros at the first fit, all memory outside it and the flag table kept; null with nothing changed otherwise |
| Heaps.Heap.Free | src/memory/heap/heap.c:164-167 | for every pointer: at the start of a live chunk exactly that chunk is dropped; at a free block (a second free) nothing changes; inside a chunk the table encodes nothing any more; below the pool bytes in front of the table are cleared, and the chunk at block 0 is dropped exactly if they lead to it |
| Heaps.Heap.BlockOfAddr | src/memory/heap/heap.c:97-106 | block to address and back is the identity on the pool, through the 32-bit wrap, the signed cast and the truncating division; addresses are page aligned and not null |
| Heaps.Create | src/memory/heap/heap.c:23-45 | success exactly for aligned bounds and a table of matching size, wherever they lie, with every flag cleared; an empty sound heap if the pool also lies above 0, is under 2 GiB and apart from the table; on -EINVARG nothing is written |
| Heaps.KheapInit | src/memory/heap/kheap.c:11-22 | the kernel heap starts valid, with no chunk and all 131072 blocks free |
| HeapSpec.BlocksForExact | src/memory/heap/heap.c:48-57 | blocks for a size are the least that hold it, up to 0xFFFFF000; above it the rounding wraps to none |
| HeapSpec.EncodingUnique | src/memory/heap/heap.c:108-155 | a set of chunks has one flag table |
| HeapSpec.DecodingUnique | src/memory/heap/heap.c:108-155 | a flag table encodes at most one set of chunks |
| HeapSpec.AddChunk | src/memory/heap/heap.c:126-143 | marking a free run adds one chunk disjoint from all others to what the table encodes |
| HeapSpec.DropChunk | src/memory/heap/heap.c:145-155 | clearing a chunk's flags removes that chunk from what the table encodes, no other |
| HeapSpec.OverrunEncodesNothing | src/memory/heap/heap.c:89-94 | marking past the end of the table leaves flags that encode no set of chunks |
| HeapSpec.EndOfRun | src/memory/heap/heap.c:145-155 | following has-next from the start of a chunk ends exactly behind it; from a free block it clears nothing |
| HeapSpec.TornEncodesNothing | src/memory/heap/heap.c:145-167 | clearing a chunk from a block inside it leaves flags that encode no set of chunks |
| HeapSpec.MeetsStep | src/memory/heap/heap.c:126-143 | first fit is deterministic: a sequence of requests is met if and only if the first is and the rest are met by the one table it leaves |
| HeapSpec.TailMeets | src/memory/heap/heap.c:64-95 | a free tail as long as the sum of the requests meets all of them |
| HeapSpec.TailServes | src/memory/heap/heap.c:64-95 | a free tail as long as the sum of several requests has all of them answered soundly by the scan as written, and room to spare |
| HeapSpec.FlagBits | src/memory/heap/heap.c:59-62 | the entry type and has-next tests on a flag byte agree with its bits |
| Paging.PackRoundTrip | src/memory/paging/paging.c:25-27 | packing a page-aligned pointer with flags below 4096 loses neither: both come back by masking |
| Paging.PointerIsMask | src/memory/paging/paging.c:25-27 | taking the remainder off an entry is the mask 0xFFFFF000 on its bits |
| Paging.GetIndexes | src/memory/paging/paging.c:133-144 | the two indexes of an aligned address put together give it back; a misaligned one is -EINVARG |
| Paging.Set | src/memory/paging/paging.c:147-168 | exactly one page's entry changes, every other page of the directory keeps its own, and memory outside the tables is kept; nothing on misalignment |
| Paging.Map | src/memory/paging/paging.c:105-113 | one page mapped to one frame with the flags, or nothing at all |
| Paging.MapRange | src/memory/paging/paging.c:117-130 | all or nothing, for any count: page i of the range leads to phys + 4096 i with the flags, modulo 2^32, and every other page keeps its entry |
| Paging.MapTo | src/memory/paging/paging.c:170-186 | the same for an end address; a misaligned or reversed argument changes nothing |
| Paging.MappedTranslates | src/memory/paging/paging.c:117-186 | after mapping, page i of the range translates to phys + 4096 i plus the offset in the page, and every other page as before |
| Paging.ShapeFrame | src/memory/paging/paging.c:147-168 | a directory whose own pages are kept keeps every entry, whatever else is written |
| Spaces.FillTable | src/memory/paging/paging.c:44-49 | the inner loop writes 1024 identity entries into one table and nothing else |
| Spaces.AddTable | src/memory/paging/paging.c:42-55 | one turn of the outer loop: a new table different from all pages taken so far, filled and entered, the earlier ones intact |
| Spaces.ChunkNew | src/memory/paging/paging.c:35-63 | for n tables n + 2 fresh blocks, all different: a directory, its filled tables and the descriptor that leads to them; the directory's block is the first free one, and its words behind the first n are what they were |
| Spaces.IdentityTranslation | src/memory/paging/paging.c:41-55 | such a directory translates every 32-bit address to itself; the flags given decide alone whether user mode may write |
| Spaces.ChunkFree | src/memory/paging/paging.c:65-74 | reading 1024 pointers back from the packed entries frees exactly the space, whatever order its blocks are in, if each word behind its n tables leads to no flag, a clear one, or one of its own; every flag those words lead to is cleared in any case |
| Spaces.ReleaseUndoesAcquire | src/memory/paging/paging.c:35-74 | releasing acquired pages, in any order, restores the chunks and the flag table entry for entry, other allocations live or not |
| Spaces.ReleaseOrderIrrelevant | src/memory/heap/heap.c:145-167 | two orders of freeing the same chunks end in the same memory |
| Spaces.NewThenFree | src/memory/paging/paging.c:35-74 | allocating and freeing a directory of 1024 tables leaves the flag table as it was |
| Spaces.NewThenFreeSome | src/memory/paging/paging.c:35-74 | with n tables, every flag byte comes back if and only if each word behind the first n in the first free block leads to a clear flag or to none |
| Processes.RoundingsAgree | src/memory/paging/paging.c:93-101 | the page-aligned end of an image is the end of the blocks allocated for it |
| Processes.MapMemory | src/task/process.c:76-99 | after mapping, the image window leads to the image, the stack window to the stack, user-writable, and every other page stays identity and read-only to the user; only the tables are written |
| Processes.ValidatedPointerIsOwn | src/task/process.c:185-189 | an accepted pointer is user-writable and leads into the process's own image or stack chunk |
| Processes.ValidatedIff | src/task/process.c:185-189 | a pointer is accepted if and only if the process may write there and it leads to a byte of the file loaded or of the stack |
| Processes.GrowKeepsSystem | src/task/process.c:118-181 | kernel allocations leave every loaded process's chunks and tables in place |
| Isolation.TranslationExact | src/task/process.c:76-99 | for every address: 0x400000+k goes to the image, 0x3FB000+k to the stack, any other to itself; user-writable exactly in the two windows |
| Isolation.WritableIsOwn | src/task/task.c:95-111 | whatever a process may write in user mode lies in its own image or stack |
| Isolation.StoreEffect | src/task/process.c:76-99 | a user store changes the one byte its address leads to, or, outside the windows, nothing |
| Isolation.RunIsolated | src/task/process.c:76-99 | over every run of user stores by any processes, all page tables and the flag table stay and nothing outside the storing processes' own memory changes |
| Isolation.TranslationInvariant | src/task/task.c:95-111 | translation and write permission of every address in every space are the same before and after any such run |
| Isolation.NonInterference | src/task/process.c:76-99 | a process's memory after a run is what its own stores alone would have made it, even from different memory elsewhere |
| Isolation.StoreReadsBack | src/task/process.c:76-99 | a byte stored in a window is read back at its address, and no other address of the windows changes: the windows do not alias |
| Kernels.LoadBinary | src/task/process.c:34-67 | success means a fresh chunk that holds the whole file; what was live is kept either way |
| Kernels.MakeSpace | src/task/task.c:22-34 | the task, its directory, and the two windows mapped into it, on chunks not live before |
| Kernels.Kernel.FindSlot | src/task/process.c:101-116 | the first empty slot of the process table, -1 when all are taken |
| Kernels.Kernel.Load | src/task/process.c:101-181 | a load keeps all live chunks and all loaded processes in place; failing, it leaves the process table; succeeding, it adds one process that carries the file, and fills one slot, whose process structure is a new chunk of two blocks that is no process's own and no other slot's; and it succeeds exactly if there is a slot, the file is delivered, and process structure, image and stack are met one after the other |
| Kernels.TailCanLoad | src/task/process.c:118-181 | a free tail as long as all a load asks for (structs, image, stack, page tables) is enough, for what Load requires and for its success, whatever the rest of the heap looks like |
| Kernels.Kernel.UserStore | src/task/process.c:76-99 | a store through a loaded process's tables keeps the kernel's invariant and touches that process's memory only |
| Kernels.Kernel.KernelAlloc | src/memory/heap/kheap.c:29-37 | an allocation between loads gives a new zeroed chunk at the first fit when one exists, and null with nothing changed otherwise; every process stays in place |
| Kernels.Kernel.KernelFree | src/memory/heap/kheap.c:39-42 | freeing a chunk of no process and no slot drops that chunk, writes the flag table only, and keeps every process in place |
| Kernels.LoadedProgramVisible | src/task/process.c:118-181 | a loaded process reads its file at 0x400000 on and zeros on its stack |
| Kernels.DeliveredExact | src/task/process.c:34-67 | on a chain just long enough, a file arrives whole if it fits two clusters and is refused otherwise |
| Streams.DiskStream.Read | src/disk/stream.c:25-57 | any read puts disk bytes [pos, pos+total) at its place in the buffer, keeps the rest, and advances pos by total, across sector boundaries |
| Streams.SliceAppend | src/disk/stream.c:25-57 | two consecutive reads are one read of the combined length |
| Fat16.Driver.GetFatEntry | src/fs/fat/fat16.c:421-442 | the little-endian 16-bit entry of the cluster in the first table |
| Volumes.FatLayout | src/fs/fat/fat16.c:421-442 | a table laid out little-endian, two bytes an entry, reads as its entries |
| Volumes.StopsExactly | src/fs/fat/fat16.c:19-22 | a data cluster's number never stops the walk; free, bad, 0xFFF8 and 0xFFFF do, and of the other numbers from 0xFFF0 on only 0xFFF0, 0xFFF5 and 0xFFF6 |
| Volumes.ClustersTile | src/fs/fat/fat16.c:197-202 | the clusters tile the data area from cluster 2 on: byte x of it is byte x mod B of cluster 2 + x / B |
| Volumes.DataBehindRoot | src/fs/fat/fat16.c:538-569 | the data area starts at the first sector boundary behind all entries of the root directory |
| Fat16.Driver.GetClusterForOffset | src/fs/fat/fat16.c:445-478 | the cluster as many links on as the offset has whole clusters, or -EIO at the first end, bad, reserved or free entry |
| Fat16.Driver.ReadInternal | src/fs/fat/fat16.c:480-535 | as written and repaired, the buffer receives exactly what the specification function reads, nothing around it changes, and the recursion ends because each piece is not empty |
| ClusterReads.RepairedReads | src/fs/fat/fat16.c:480-535 | repaired: a read succeeds exactly if the chain reaches its last byte, and every byte is the file's byte at its offset |
| ClusterReads.RepairedExact | src/fs/fat/fat16.c:480-535 | repaired: bytes [offset, offset+total) of the concatenated clusters, for every chain, offset and length inside it |
| ClusterReads.WrittenVisits | src/fs/fat/fat16.c:515-531 | as written: which chain position each piece comes from, and that the read fails exactly if the last of them is past the end |
| ClusterReads.VisitRecurrence | src/fs/fat/fat16.c:515-531 | the position of piece j is that of piece j-1 plus k+j for a read starting at position k |
| ClusterReads.VisitTriangular | src/fs/fat/fat16.c:515-531 | from the first cluster, piece j comes from position j(j+1)/2 |
| ClusterReads.VisitsInOrder | src/fs/fat/fat16.c:449-474 | all pieces come from the right positions if and only if there is one piece, or two starting in the first cluster |
| ClusterReads.WrittenStraight | src/fs/fat/fat16.c:480-535 | on those reads the code as written returns the slice of the file, as the repaired one does |
| ClusterReads.WrittenExact | src/fs/fat/fat16.c:480-535 | on a chain with nothing to spare behind the read, the code as written returns the slice of the file if the read stays in one cluster or starts in the first and ends in the second, and -EIO otherwise |
| ClusterReads.WrittenRight | src/fs/fat/fat16.c:480-535 | for every read inside a chain that ends, wherever the read ends: the code as written delivers with every byte taken from the cluster that holds it if and only if the read is one of those |
| ClusterReads.NoLoop | src/fs/fat/fat16.c:445-478 | a chain that ends visits no cluster twice |
| Fat16.FileDescriptor.Seek | src/fs/fat/fat16.c:672-707 | a position at or past the file size, a directory, or an unknown mode is refused with the position kept; pos stays 0 or below the size |
| Fat16.Driver.Read | src/fs/fat/fat16.c:645-670 | the count returned and the bytes delivered are those of reading element by element, the size minus offset never underflows, and nothing past the wanted elements is written |
| FileReads.ReadElementsExact | src/fs/fat/fat16.c:645-670 | min(nmemb, (filesize - pos) / size) elements with exactly the file's bytes, repaired always, as written whenever each element is a read the code gets right |
| FileReads.ReadElementsRight | src/fs/fat/fat16.c:645-670 | as written, the full count with every byte from the cluster that holds it if and only if every element is such a read |
| FileReads.AlignedElementsStraight | src/fs/fat/fat16.c:645-670 | elements of a size that divides the cluster size, from a multiple of it on, never cross a cluster |
| FileReads.AlignedReads | src/fs/fat/fat16.c:645-670 | as written, with such a size and position: min(nmemb, (filesize - pos) / size) elements with exactly the file's bytes |
| Directories.CountItems | src/fs/fat/fat16.c:204-236 | the number of records before the first terminator that are not deleted; ends given the terminator |
| Directories.CountIsLength | src/fs/fat/fat16.c:226-235 | the count is the number of records up to the terminator if and only if none is deleted |
| Directories.CountIsSize | src/fs/fat/fat16.c:204-236 | the count is the number of positions before the terminator whose record is not deleted |
| Directories.RecordRoundTrip | src/fs/fat/fat16.c:79-93 | a record written field by field gives back its attribute, its first cluster and its size |
| Directories.DirectoryBit | src/fs/fat/fat16.c:38 | a record is a directory's if and only if bit 4 of its attribute is set, whatever the others are |
| Directories.FullNameOf | src/fs/fat/fat16.c:327-364 | the name of a file is its base, a dot and its extension, that of a directory its base, each up to the first NUL, blank or control character |
| Directories.SameNameIff | src/stdutil/string.c:60-108 | two names match if and only if they have the same length and each character is the same or a letter in its other case |
| Directories.FindByFields | src/fs/fat/fat16.c:367-381 | lookup finds the first record whose base and extension spell the name |
| Directories.LookupOnDisk | src/fs/fat/fat16.c:367-381 | looking a name up in as many records as are counted finds the first record on disk with that name if and only if its position is below the number of records not deleted |
| Directories.LookupComplete | src/fs/fat/fat16.c:204-236 | every record not deleted is found by its own name if and only if no deleted record comes before one that is not; with none deleted, always |
| Directories.LoadedDirectory | src/fs/fat/fat16.c:239-286 | a directory in one cluster, or in two adjacent ones, is loaded as the first records on disk, as many as are counted |
| Directories.DirectoryLoads | src/fs/fat/fat16.c:239-286 | any directory loads if and only if it is not empty and its chain reaches the position the last piece of the read visits |
| Directories.DirectoryExact | src/fs/fat/fat16.c:239-286 | on a chain just long enough a directory is loaded whole if it fits two clusters and fails to load otherwise |
| Directories.FindFrom | src/fs/fat/fat16.c:367-381 | the first record whose name matches without regard to case, if any does |
| Resolver.LoadDirectory | src/fs/fat/fat16.c:239-286 | it runs out of memory exactly if its requests are not met, and otherwise loads exactly what the disk says or fails exactly when that cannot be loaded; success leaves exactly two new chunks holding the records, failure gives back all that was allocated |
| Resolver.NewItem | src/fs/fat/fat16.c:300-318 | an item in memory that says what its record says, file or loaded directory, and only its own chunks are new; the other outcomes exactly when memory is refused or the directory cannot be loaded |
| Resolver.ItemFree | src/fs/fat/fat16.c:180-195 | freeing an item releases exactly its chunks, read back from memory |
| Resolver.FindItem | src/fs/fat/fat16.c:367-381 | not there, with memory untouched, if and only if no record has the name; otherwise the item of the first that does, or the outcome of making it |
| Resolver.LookUpByFields | src/fs/fat/fat16.c:367-381 | what FindItem answers, by base and extension: the item of the first record that spells the name, not there if none does |
| Resolver.GetDirectoryEntry | src/fs/fat/fat16.c:384-418 | following the parsed path in memory, node by node: unless memory runs out it ends exactly as the fold of single-directory lookup over the parts does, found, not found or directory not loadable, and memory does not run out with as many free blocks at the end of the heap as the items on the path need; success leaves only the result's chunks new, not found restores the flag table, and live chunks are kept in every case |
| DiskPaths.FoundOnDisk | src/fs/fat/fat16.c:384-418 | across any number of directories: if every name on the path that is on disk lies within its directory's count, and every directory to be entered fits one cluster or two adjacent ones, the lookup answers what following the path on disk answers |
| Files.Open | src/fs/file.c:110-160 | parsing, looking up and opening together: not there for strings that are no path to a file on drive 0, else the outcome of the fold over the path's parts, with a descriptor at position 0 that carries the file's record; memory does not run out with enough free blocks at the end of the heap |
| Files.ReadPresent | src/fs/file.c:110-174 | a file on disk under a path in reach, whose record says it has this size, at most two clusters, at this cluster, is opened and read whole, byte for byte, by the code as written |
| BootDisk.HeaderIsRead | src/fs/fat/fat16.c:574-604 | the geometry read from a header like the boot sector's: table, root directory and data area at their sectors |
| BootDisk.ProgramOnDisk | src/fs/fat/fat16.c:384-418 | on a volume laid out by hand with that geometry, "bin" and "empty.bin" lead to the record of EMPTY.BIN in the directory BIN |
| BootDisk.ProgramBytes | src/fs/fat/fat16.c:480-535 | and its eleven bytes are read from where they were put, the start of cluster 3 |
| BootDisk.ProgramPath | src/kernel.c:112-112 | the string the kernel boots with is a path that means those parts |
| Paths.PartsAreLongestPrefix | src/fs/path_parser.c:36-74 | the parts parsed are the longest prefix of non-empty components of splitting at every slash |
| Paths.PartsOfJoin | src/fs/path_parser.c:36-74 | joining non-empty slash-free parts with slashes and taking them apart gives them back |
| Paths.PrintThenParse | src/fs/path_parser.c:9-26 | printing any drive digit and parts gives a valid path that means the same drive and parts |
| Paths.ValidIff | src/fs/path_parser.c:9-13 | a string is taken for a path if and only if it is a digit, a colon, a slash and anything after |
| Paths.PartsWellFormed | src/fs/path_parser.c:36-56 | every part is non-empty and slash-free and no longer than the path; there are at most half as many as characters, rounded up |
| PathParser.CopyPart | src/fs/path_parser.c:39-48 | the component ends up NUL-terminated in its 256-byte buffer, nothing outside it is written, and the cursor is behind its slash |
| PathParser.ExtractPart | src/fs/path_parser.c:36-56 | a string chunk of its own for a component; for an empty one the buffer is given back and nothing is gained |
| PathParser.ParsePathPart | src/fs/path_parser.c:58-74 | one more node behind the last one, or none at the first empty component; the list stays linked and apart |
| PathParser.ReadPart | src/fs/path_parser.c:58-74 | a node of the parsed list gives back its part, and the next node, null exactly behind the last |
| PathParser.Parse | src/fs/path_parser.c:89-121 | null with memory untouched for a string over 256 characters or without a drive, else a root with the drive digit and a linked list of exactly the path's parts, each in a chunk of its own |
| PathParser.Free | src/fs/path_parser.c:76-87 | following the list frees every chunk of it: the live chunks and the flag table are what they were before the parse |
| PathParser.ParseThenFree | src/fs/path_parser.c:76-121 | for every string, parsing and freeing restores the flag table and keeps every live chunk's contents |
| Tasks.Scheduler.Add | src/task/task.c:36-46 | linking a new task appends it to the list, links right in both directions, the current task unchanged |
| Tasks.Scheduler.GetNext | src/task/task.c:57-64 | the task behind the current one, the head behind the last |
| Tasks.Scheduler.SwitchTo | src/task/task.c:113-118 | the given task is current, its page directory the one in use, the list as it was |
| Tasks.Scheduler.Turns | src/task/task.c:57-64 | n times get-next and switch make current, in order, whom the round-robin order says |
| Tasks.Scheduler.Remove | src/task/task.c:66-84 | the list loses exactly that task and current moves to its successor, while the page directory in use stays; as written both directions stay right unless the head of several goes, and a null pointer is stored through exactly if the tail of several goes; repaired never |
| RoundRobin.EachOnce | src/task/task.c:57-64 | n switches among n tasks return to the start having made each task current exactly once |
| RoundRobin.SwitchesPosition | src/task/task.c:57-64 | after k switches the current task is the one k places further on, around the end |
| RoundRobin.RemovalHandsOver | src/task/task.c:66-84 | removing the current task hands over to the one a switch would have made current; removing another changes neither the current task nor any other |
| RoundRobin.NoStarvation | src/task/task.c:22-84 | for the list as a sequence, over any run of switches, arrivals and removals, a task that stays is current again within as many switches as its distance plus one per arrival |
| Gdt.EncodeEntry | src/gdt/gdt.c:6-42 | the eight bytes of the packed entry hold base, limit, access and flags where the processor looks for them; on a refused limit nothing is written |
| Gdt.KnownBytes | src/gdt/gdt.c:6-42 | the flat code segment and one of all different nibbles, byte by byte |
| Gdt.RoundTrip | src/gdt/gdt.c:6-42 | a segment is accepted and decodes to itself if and only if its limit is at most 0xFFFFF or ends in 0xFFF |
| Gdt.LostLimit | src/gdt/gdt.h:20 | 0x100000 is the one limit accepted and lost, read back as 0 |
| Gdt.RepairedRoundTrip | src/gdt/gdt.h:20 | with the boundary at 0xFFFFF exactly the representable limits are accepted, and all survive |
| Gdt.GetRawTable | src/gdt/gdt.c:44-50 | a table of any length: success exactly if every limit is accepted, and then every entry encodes its segment; for no entries the first four bytes of the table are cleared |
| Departures.ShortTail | src/memory/heap/heap.c:89-94 | a table with one block taken and one free, on which a request for two is answered and leaves flags that encode nothing |
| Departures.WholePool | src/memory/heap/heap.c:89-94 | at boot, a request of one block more than the pool is answered with the pool's start |
| Departures.SizeWraps | src/memory/heap/heap.c:48-57 | the first size rounded to no blocks, and the last one that is not |
| Departures.StaleEntry | src/memory/paging/paging.c:65-74 | a run on the booted heap in which freeing a directory of one table frees a chunk that is still in use, through an address left in the directory's block |
| Departures.RefusedFile | src/fs/fat/fat16.c:525-529 | a chain of three clusters that holds a file of 1025 bytes the driver refuses to read |
| Departures.WrongByte | src/fs/fat/fat16.c:525-529 | a chain of four clusters on which that file is delivered with its last byte from the wrong cluster |
| Departures.EndNotSeen | src/fs/fat/fat16.c:21 | a chain that ends with 0xFFFA is walked on |
| Departures.HiddenByDeleted | src/fs/fat/fat16.c:226-235 | a directory of a deleted record and a file that is on disk under its name and is not found |
| Departures.RemoveFromTwo | src/task/task.c:66-84 | taking the head of two tasks breaks the list, taking the tail stores through a null pointer |

## Left out

- Disk I/O through ports: the disk is an immutable total function from byte positions to bytes, read a sector at a time;
  read errors, and disk positions of 2 GiB and more (where the source's `int` overflows), are not modelled.
- The processor: only 32-bit translation and access rights (Intel SDM Vol. 3A, chapter "Paging") and descriptor layout.
  The TLB, kernel-mode stores, register save and restore, interrupts and boot are not part of this model.
- The system call table, the file descriptor table and the file system registry: array lookups. The heap traffic of
  `fopen`, `fstat` and `fclose` inside a load is not counted.
- `struct process` and `struct task` are allocated as blocks, but their fields live in the slot table and in the task
  objects, not in bytes; task list and address spaces are proved separately.
- `task_new` on a failed allocation: the source then frees a task it does not have (`task.c:49-51`), through a null pointer.
- Terminal, keyboard, string and print helpers, FAT writing, long file names, timestamps.
- Kernels.Kernel.Load: requires that each allocation of the load is met or refused soundly by the heap as written (a
  short trailing run would overrun the table), and that image and stack, once allocated, leave 1027 free blocks, because
  the source does not look at the results of those allocations. Its file is given as a descriptor.
- Spaces.ChunkNew: tables of 1024 entries, as both callers ask for, from one to 1024 of them, and free blocks for all, because
  the source does not check its allocations.
- Spaces.ChunkFree: fewer than 1024 tables on the kernel's heap only; elsewhere a flag in front of the table could lie in a page.
- Heaps.Heap.Kzalloc: as written it is called where the heap meets the request or has its last block taken, and for
  sizes that do not wrap; what the allocator does otherwise is stated by Malloc.
- Resolver.GetDirectoryEntry: the directories on the path have a terminator and lie on the disk; allocation is the repaired
  one; when an allocation is refused or a subdirectory cannot be loaded, where the source goes on with a null or error
  pointer, the lookup stops, and the struct it had begun stays allocated.
- Directories.LoadedDirectory: a directory over clusters that are not adjacent; it is counted on disk, cluster after cluster, but read along its chain, and is stated by DirectoryExact.
- Fat16.Driver.Read: element size above 0; with size 0 each turn of the loop reads nothing. A descriptor of a file: one of a
  directory, which the source also opens, is read as if the loaded directory were a record.
- Directories.DirectoryLoads: a directory counted as empty does not load, which is the repaired allocator's answer to a request
  for no bytes; the one as written hands out an unmarked block unless the last block is taken, and it loads with no records.
- Kernels.LoadForSlot: a path that cannot be opened is -EIO; the source then closes a file through the null pointer it got
  (`process.c:38-40`, `process.c:65`).
- Files.Open: the blocks of the descriptors, the descriptor table and the mode string; disks other than drive 0.
- PathParser.Parse: two free blocks per part and two more, because the source does not check its allocations.
- Gdt.GetRawTable: an array of no entries at all; the source then clears four bytes that are not its own.
