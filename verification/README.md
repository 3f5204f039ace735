# ZyOs kernel core, modelled and proved in Dafny

ZyOs is a small teaching kernel in C. This project models the parts of it whose logic is hardest to
see through by reading, and proves what they promise for every input, every run or every
interleaving.

- **Directory store** (`fs/dir.c`). An inode with twelve direct block addresses, one indirect table and
  a byte size; entries in fixed slots of sectors; a block bitmap shared by the whole partition. Two
  views carry all the results: the *rows* of slots and the *listing* of live entries in block and slot
  order. `DirStore` says what a call does to values, `DirListing` how the listing reacts to one change,
  `DirInvariant` that every call in scope keeps one invariant, `DirTheorems` what callers get from it,
  `DirRuns` what holds over whole runs on many directories of one partition, `DirOps` that the loops of
  the C code, on mutable objects, do exactly what the values say. `DirBytes` is the byte layout of an
  entry, `DirWitness` holds concrete directories on which the code fails what one would expect of it.
- **IDE driver** (`device/ide.c`). `IdeDisk` is the data path: LBA28 registers, the 8-bit sector count
  in which 256 becomes 0, the chunked loops. `IdeProtocol` runs any number of threads through
  `ide_read` and `ide_write` statement by statement, with interrupts, genuine or spurious, between any
  two steps, and shows that the requests form a serial history. `PartitionScan` is the walk over MBR
  and EBRs, `PartitionGuard` the exact reach of its guard against a ninth logical partition.
- **Queue and keyboard** (`device/ioqueue.c`, `device/keyboard.c`). `IoQueue` is the 64-byte ring and a
  step system of blocking readers and writers; `Keyboard` is the scan-code decoder and the keyboard
  feeding one reader.
- **Linked list** (`lib/kernel/list.c`). `KernelList`: pointers between two sentinels refine a sequence.
- **Path normaliser** (`shell/buildin_cmd.c`). `PathSpec` is the stack of components and its laws,
  `PathWash` the in-place buffer edits that refine it, on the terminated strings of `CStrings`.
- **Formatter** (`lib/stdio.c`). `Format`: `vsprintf` refines a pure renderer and its numbers parse back.

`Common` holds the few definitions that several of these share.

## How the code was read

- A sector is a sequence of 21 entries of 24 bytes, or a table of 128 addresses. `DirBytes` proves that
  slots do not overlap and that entries with names under 16 bytes survive encoding, so this loses
  nothing for them; a name of exactly 16 bytes has no terminator in its field and is found again only if
  the low byte of its inode number is zero (`DirBytes.NameFoundIff`).
- `block_bitmap_alloc` and `bitmap_sync` (`fs/file.c:64-93`), `inode_release` (`fs/inode.c:141-195`) and
  `path_parse` (`fs/fs.c:192-207`) are modelled from their code; the table below cites the places that
  call them.
- `block_bitmap_alloc` takes the lowest free block or reports that there is none. `bitmap_scan` asserts
  (`lib/kernel/bitmap.c:29`) before it would return -1, so on a full bitmap the kernel as written panics
  there; the model follows the return value that `fs/dir.c` tests. `DirTheorems.FailsIffExhausted` says
  exactly which insertions get there, and `DirTheorems.StoredSyncsBitmap` what holds for all others.
- `bitmap_sync` writes back the whole 4096-bit sector of the bit it is given.
- The lock is a mutex that any waiting thread may get when it is free; a semaphore counts.
  `thread_unblock` does not switch threads. The code of `ioq_getchar` and `ioq_putchar` runs with
  interrupts off between blocking points.
- `delete_dir_entry` counts the indirect blocks in a loop whose index never moves
  (`fs/dir.c:288-292`); the outcome `Hangs` stands for entering it
  (`DirOps.CountLoopNeverEnds`), and `DirInvariant.DeleteKeepsInv` says for exactly which directories
  that happens.
- `sync_dir_entry` gathers only the direct blocks (`fs/dir.c:128-135`). When all of them are full it
  always starts a new table, even if there is one. `DirTheorems.SyncKeepsEntriesIff` says exactly when
  an existing entry is lost by that, `DirWitness.FullDirectoryLosesEntry` shows one being lost. The
  report "directory is full" is never reached.
- `ioq_getchar` and `ioq_putchar` test the ring before they queue up for the lock and not again once
  they have it (`device/ioqueue.c:51-55`, `74-78`). `IoQueue.NoLostWakeupIff` is the one step at which a
  wake-up is lost by that; `IoQueue.LostWakeupIff` and `IoQueue.LostWakeupByRoles` say for exactly which
  callers some run contains such a step.
- `vsprintf` writes no terminator of its own. `Format.Vsprintf` says exactly when the string in the
  buffer ends where the text ends; the messages that `device/ide.c` prints into uninitialised buffers
  (lines 183, 221 and 259) do not end in `%s`, so for them it depends on the byte left there.
- `busy_wait` either succeeds or the kernel panics; only the first is followed further.
- The walk over the MBR and the walk over EBRs are the same C function; they are two methods here, told
  apart by the test `ext_lba == 0` that the function itself makes.

## Model

| member | source | states |
|---|---|---|
| DirStore.FirstFree | fs/dir.c:146-150 | the lowest free block from an address on, none only if all are in use |
| DirStore.Alloc | fs/dir.c:146-150 | the lowest free block of the partition, none exactly if every block is in use |
| DirStore.FirstRoom | fs/dir.c:128-209 | the first direct block that is missing or has a dead slot; every one before it is full |
| DirStore.FindBlock | fs/dir.c:236-270 | the first block that holds the inode; none before it does |
| DirListing.FindInRows | fs/dir.c:62-87 | the scan over raw slots, dead ones included, answers like the listing of live entries |
| DirListing.OneSlot | fs/dir.c:249-264 | in a valid directory a name, or the inode of an ordinary entry, picks out one slot |
| DirListing.SlotPlaces | fs/dir.c:345-371 | live slots appear in the listing in block and slot order, each at its own place |
| DirInvariant.HoleKeepsInv | fs/dir.c:194-205 | filling a hole keeps the whole invariant and adds exactly the new entry |
| DirInvariant.NewBlockKeepsInv | fs/dir.c:145-192 | taking a block keeps the invariant: distinct blocks, bitmap, size, dead slots zero |
| DirInvariant.NewTableKeepsInv | fs/dir.c:160-192 | starting the indirect table keeps the invariant; a failed second allocation restores inode, sectors and bitmap |
| DirInvariant.SyncKeepsInv | fs/dir.c:117-212 | every in-scope insertion, stored or failed, keeps the invariant; a failed one changes nothing |
| DirInvariant.DeleteKeepsInv | fs/dir.c:215-323 | a deletion misses exactly unlisted inodes, hangs exactly on an entry alone in an indirect block, otherwise drops that entry and keeps the invariant |
| DirInvariant.FreesBlockIff | fs/dir.c:275-283 | a block is given back exactly if it is not block 0 and holds one live entry |
| DirInvariant.VictimPlace | fs/dir.c:249-270 | the scan of delete_dir_entry stops at the one slot that holds the inode |
| DirTheorems.SearchIsLookup | fs/dir.c:32-91 | search_dir_entry is look-up in a finite map from names to entries |
| DirTheorems.SyncIsMapInsert | fs/dir.c:117-212 | an in-scope insertion adds one binding if it succeeds, none if it fails |
| DirTheorems.DeleteIsMapRemove | fs/dir.c:215-323 | a deletion that returns removes exactly the binding of its inode |
| DirTheorems.SyncThenDelete | fs/dir.c:187-205 | inserting into a direct block and deleting again restores inode, bitmap and every sector in use |
| DirTheorems.SyncIndirectThenDeleteHangs | fs/dir.c:284-292 | an insertion that had to start the table cannot be undone: the deletion never returns |
| DirTheorems.EmptyExactly | fs/dir.c:377-391 | the size test holds exactly for "." and "..", and then no block but block 0 is allocated |
| DirTheorems.OutOfScopeListing | fs/dir.c:158-191 | with all direct blocks full and a table present, the call leaves only the direct entries and perhaps the new one |
| DirTheorems.SyncKeepsEntriesIff | fs/dir.c:128-191 | no existing entry is lost if and only if there is no table yet, a direct block is not full, or no block is free |
| DirTheorems.FailsIffExhausted | fs/dir.c:145-170 | an insertion fails, and bitmap_scan meets its assertion, if and only if the first direct block that is not full is missing and no block is free, or all are full and fewer than two are free |
| DirTheorems.SyncExact | fs/dir.c:117-212 | where every other insertion puts the entry: the first dead slot of the first direct block that is not full, the lowest free block if that one is missing, the two lowest for a table if all are full; nothing else changes |
| DirTheorems.StoredSyncsBitmap | fs/dir.c:145-170 | every insertion that gets past that assertion stores the entry and leaves both copies of the bitmap equal |
| DirTheorems.BitmapOnDiskIff | fs/dir.c:145-170 | the bitmap on disk equals the one in memory if and only if not all direct blocks are full with exactly one block free; in that case that block stays marked on disk |
| DirTheorems.DeleteSyncsBitmap | fs/dir.c:275-279 | deletions keep both copies of the bitmap equal |
| DirRuns.CallKeeps | fs/dir.c:117-323 | one call keeps its directory valid and leaves every other block in use alone |
| DirRuns.CallRefines | fs/dir.c:117-323 | one call changes the entries as the finite map says |
| DirRuns.Unmoved | fs/dir.c:62-87 | a directory none of whose sectors changed is valid and reads as before |
| DirRuns.Bystander | fs/dir.c:145-311 | a call on one directory changes neither inode, slots nor blocks of another on the same partition |
| DirRuns.StepKeepsSysInv | fs/dir.c:117-323 | any number of directories stay valid and disjoint; the bitmap marks exactly their blocks and the rest |
| DirRuns.RunsRefineMaps | fs/dir.c:117-323 | over every run of allowed calls: invariant, block conservation, nothing else touched, and the directories are the finite maps the calls describe |
| DirRuns.StoresIff | fs/dir.c:145-170 | in a run an insertion is stored if and only if the partition has the blocks it needs |
| DirRuns.InsertedIsFound | fs/dir.c:32-212 | an entry inserted while there is room is found by search_dir_entry after any further calls on any directories, unless its inode is deleted there |
| DirRuns.RemovedStaysGone | fs/dir.c:215-323 | after a deletion no name leads to the inode until it is inserted again |
| DirOps.Partition.BlockBitmapAlloc | fs/dir.c:146-150 | the bitmap scan returns and marks the lowest free block of the partition, or none if all are in use |
| DirOps.Partition.BitmapSync | fs/dir.c:152-155 | exactly the 4096 bits of the sector that holds the bit are written back |
| DirOps.GatherBlocks | fs/dir.c:326-339 | the loop collects the direct addresses and, if wanted, the table |
| DirOps.SearchDirEntry | fs/dir.c:32-91 | the nested loops return the first slot of that name over all blocks |
| DirOps.SyncDirEntry | fs/dir.c:117-212 | the loops change inode, bitmap and sectors exactly as Sync says; the "directory is full" exit is dead |
| DirOps.SyncToNewBlock | fs/dir.c:145-192 | the allocation branch, with the rollback of the table |
| DirOps.ScanBlock | fs/dir.c:243-264 | one sector's count, "." flag and victim; the uniqueness assertion never fails |
| DirOps.DeleteDirEntry | fs/dir.c:215-323 | the loops change inode, bitmap and sectors exactly as Delete says |
| DirOps.CountLoopNeverEnds | fs/dir.c:286-292 | after any number of rounds the counting loop's condition still holds |
| DirOps.DirRead | fs/dir.c:326-374 | one call returns the entry at the read position and advances, or NULL at the end; the position assertion never fails |
| DirOps.ReadAll | fs/dir.c:326-374 | from position 0 the calls return the listing, each entry once in order, then NULL |
| DirOps.DirIsEmpty | fs/dir.c:377-381 | true exactly if the names are "." and ".." |
| DirOps.InodeRelease | fs/dir.c:401-402 | inode_release gives every block of the inode, the table included, back to the bitmap |
| DirOps.DirRemove | fs/dir.c:384-405 | on an empty child no assertion fails and its block is freed; the parent is a valid directory whose listing and map lack exactly the entry, no other directory's sector changes, both copies of the bitmap stay equal; it hangs exactly on an entry alone in an indirect block of the parent |
| DirBytes.NameFoundIff | fs/dir.c:107-114 | a stored name is found again if and only if it is under 16 bytes or the inode's low byte is zero |
| DirBytes.EntryLayout | fs/dir.h:19-23 | byte by byte: 16 of name padded with zeros, then inode number and type, least significant byte first |
| DirBytes.EntryRoundTrip | fs/dir.h:19-23 | an entry with a name under 16 bytes decodes to itself |
| DirBytes.PutSlotExact | fs/dir.c:198-201 | writing one slot changes that slot and no other |
| DirWitness.FullIsValid | fs/dir.c:128-135 | a concrete directory of 253 entries meets the invariant |
| DirWitness.FullDirectoryLosesEntry | fs/dir.c:158-191 | one more insertion into it succeeds and makes an existing entry unfindable |
| DirWitness.FullDirectoryHangs | fs/dir.c:284-292 | deleting its one indirect entry does not return |
| DirWitness.TightIsValid | fs/dir.c:128-135 | a concrete directory of twelve full blocks and no table meets the invariant on every partition it fits in |
| DirWitness.LastBlockLeaks | fs/dir.c:160-170 | with one block left, inserting into it fails and leaves that block marked on disk and free in memory |
| DirWitness.StoredThenHangs | fs/dir.c:160-192 | with more blocks left, inserting into it succeeds and deleting the new entry does not return |
| IdeDisk.RegistersRoundTrip | device/ide.c:87-102 | every 28-bit address and count 1 to 256 is read back by the drive as meant, with LBA mode and the fixed bits set |
| IdeDisk.OrIsSum | device/ide.c:101 | combining the device bits with or is adding them |
| IdeDisk.OverwriteExact | device/ide.c:195-234 | a write stores exactly its sectors and leaves all others |
| IdeDisk.PassesIff | device/ide.c:160-168 | no assertion fails if and only if something is asked for and no chunk starts beyond max_lba |
| IdeDisk.Channel.IdeRead | device/ide.c:150-192 | on success exactly the sectors asked for in order; it panics exactly if a chunk starts beyond max_lba or nothing is asked |
| IdeDisk.Channel.IdeWrite | device/ide.c:195-234 | all sectors are stored exactly if no assertion fails, otherwise those of the chunks before the first that starts beyond max_lba; both drives otherwise unchanged |
| IdeDisk.WriteThenRead | device/ide.c:150-234 | reading back returns what was written, all other sectors keep their bytes |
| IdeProtocol.AdvanceKeeps | device/ide.c:150-234 | each statement of the lock holder keeps the protocol invariant; one that leaves has done its request |
| IdeProtocol.StepKeepsInv | device/ide.c:105-345 | any step of any thread and any interrupt keeps the invariant |
| IdeProtocol.HandshakeSafe | device/ide.c:330-345 | commands sent = completions consumed + disk_done + expecting_intr; disk_done at most 1; both clear while the lock is free; each command carries its own thread's registers |
| IdeProtocol.CallsAreDone | device/ide.c:150-234 | for every interleaving and each thread: the requests it has done, then the one it works on, are exactly those it called |
| IdeProtocol.ReplaySector | device/ide.c:195-234 | after a serial history a sector holds what the last write to it stored, or its first contents |
| IdeProtocol.RequestsAreSerial | device/ide.c:150-234 | for every interleaving the completed requests are those the threads called, in a serial history: each read returned, sector by sector, what the last write before it stored |
| IdeProtocol.EveryoneFinishes | device/ide.c:105-345 | from every reachable state, without further calls, all threads can finish: no interleaving of threads and interrupts deadlocks |
| PartitionScan.LogicalsAreTheChain | device/ide.c:277-317 | the k-th logical found is the k-th EBR's at its absolute address, and the first eight are found |
| PartitionScan.ChainNext | device/ide.c:285-292 | links are relative to the start of the extended partition |
| PartitionScan.PrimaryAt | device/ide.c:295-301 | the entry behind k other primaries is primary k + 1, with its own start and size |
| PartitionScan.FoundAround | device/ide.c:284-315 | the list holds the primaries before the extended entry, its logicals, then the primaries after it |
| PartitionScan.Scanner.ScanEbr | device/ide.c:284-315 | ends even on a cyclic chain; array and list grow by exactly the logicals of the chain |
| PartitionScan.Scanner.ScanMbr | device/ide.c:277-317 | panics exactly if all four entries are primaries; otherwise list and arrays hold what is found, in scan order |
| PartitionGuard.ScanExact | device/ide.c:284-315 | what the scan of a chain of EBRs with entries in any order comes to, for every starting count |
| PartitionGuard.GuardExact | device/ide.c:309-311 | a write past logic_parts happens if and only if the chain has more than eight EBRs and one of the first eight has its link before its logical |
| PartitionGuard.NineOverflow | device/ide.c:309-311 | nine EBRs with their links first: the outermost call writes behind the array |
| IoQueue.CapacityExact | device/ioqueue.c:14-28 | full is exactly 63 bytes, empty exactly none |
| IoQueue.PutAppends | device/ioqueue.c:79-80 | writing at head appends to the contents |
| IoQueue.TakePops | device/ioqueue.c:57-58 | reading at tail takes the first byte |
| IoQueue.Queue.Put | device/ioqueue.c:68-80 | in-place update of buffer and head equals appending |
| IoQueue.Queue.Get | device/ioqueue.c:45-65 | in-place update of tail equals removing the first byte |
| IoQueue.StepKeepsInv | device/ioqueue.c:31-85 | every step keeps the waiter and lock invariant and the FIFO equation, and no assertion fails |
| IoQueue.QueueIsFifo | device/ioqueue.c:45-85 | for any threads and interleaving: assertions hold, a waiter is asleep holding the lock, never both set, bytes returned are a prefix of bytes accepted and the rest is in the ring |
| IoQueue.RunExact | device/ioqueue.c:31-85 | what one scheduled step of a call does, in each place it can stand, to byte, place and lock |
| IoQueue.CallsMoveBytes | device/ioqueue.c:45-85 | over every run: each thread's calls return in order; the bytes accepted are those of the completed ioq_putchar calls and the offers that found room; the k-th of them goes to the k-th completed ioq_getchar |
| IoQueue.NoLostWakeupIff | device/ioqueue.c:51-55 | the cause, in one step: a wake-up is lost if and only if a thread gets the lock while its condition no longer holds |
| IoQueue.SettledRun | device/ioqueue.c:45-85 | one thread, whatever it calls, or any number of writers: no run loses a wake-up |
| IoQueue.TwoReadersLoseWakeup | device/ioqueue.c:51-55 | any two readers have a run that ends with one asleep beside a byte and the other gone |
| IoQueue.ReaderAndWriterLoseWakeup | device/ioqueue.c:74-78 | any reader and any writer have a run that ends with the writer asleep beside a free place and the reader gone |
| IoQueue.LostWakeupByRoles | device/ioqueue.c:45-85 | with fixed roles, some run loses a wake-up if and only if there is a reader and a second thread |
| IoQueue.LostWakeupIff | device/ioqueue.c:45-85 | with threads free to call either, some run loses a wake-up if and only if there are two threads |
| IoQueue.DeadForever | device/ioqueue.c:45-85 | a reader asleep beside a full ring never wakes up while no other thread calls ioq_getchar: every offer is dropped and no byte moves |
| IoQueue.TwoReadersDie | device/ioqueue.c:51-55 | any two readers have a run into that state |
| Keyboard.Handler.Interrupt | device/keyboard.c:111-228 | flags and queue change exactly as Press says; nothing blocks, a full queue drops the character |
| Keyboard.PressFlags | device/keyboard.c:114-224 | what one byte does to each flag, independent of the key map |
| Keyboard.FlagsFromHistory | device/keyboard.c:114-224 | after every byte stream the flags are the stated function of the history |
| Keyboard.LetterCase | device/keyboard.c:179-190 | letters are upper case exactly if shift differs from caps lock |
| Keyboard.Characterless | device/keyboard.c:189-193 | indices stay in the key map; the rows without a character are exactly the modifiers |
| Keyboard.KeyMapIsTheKeyboard | device/keyboard.c:45-108 | the key map is the rows of a US keyboard, without and with shift |
| Keyboard.PressOffers | device/keyboard.c:160-210 | the character of every byte: none for prefixed keys, releases and modifiers; caps lock turns letters only; ctrl turns l and u into 11 and 20 |
| Keyboard.OfferedFromHistory | device/keyboard.c:111-228 | the same from the whole history of bytes |
| Keyboard.ReaderGetsTheTranslation | device/keyboard.c:205-210 | a sleeping reader means an empty queue; the reader's bytes and the ring are the translation of the scan codes minus those dropped while full |
| Keyboard.HistoryIsRun | device/keyboard.c:205-210 | keyboard and reader are a run of the queue whose offers are the translated characters |
| Keyboard.DroppedIffFull | device/keyboard.c:205-210 | a character is dropped if and only if 63 bytes wait |
| KernelList.List.constructor | lib/kernel/list.c:5-10 | an empty list between linked sentinels |
| KernelList.List.InsertBefore | lib/kernel/list.c:13-28 | insertion at any place, next and prev stay inverse, only the neighbours' pointers change |
| KernelList.List.Remove | lib/kernel/list.c:41-48 | removal at any place, only the neighbours' pointers change |
| KernelList.List.Push | lib/kernel/list.c:31-33 | puts the element in front |
| KernelList.List.Append | lib/kernel/list.c:36-38 | puts the element at the end |
| KernelList.List.Pop | lib/kernel/list.c:51-55 | takes the first element of a non-empty list |
| KernelList.List.Find | lib/kernel/list.c:58-67 | membership |
| KernelList.List.Traverse | lib/kernel/list.c:73-87 | the first element the callback, which may read memory and gets the argument, accepts, or null if none |
| KernelList.List.Length | lib/kernel/list.c:90-98 | the number of elements |
| KernelList.List.InsertThenRemove | lib/kernel/list.c:13-48 | removing a just inserted element restores every node's pointers |
| PathSpec.WashIsClean | shell/buildin_cmd.c:12-50 | the normal form starts with "/", has no "//", no trailing "/", no "." or ".." component |
| PathSpec.WashByComponent | shell/buildin_cmd.c:23-48 | at the end of any path: "/" and "/." change nothing, "/.." cuts the last component, "/c" adds one |
| PathSpec.UpUndoesDown | shell/buildin_cmd.c:26-36 | ".." undoes the component before it; at the root it does nothing |
| PathSpec.WashDetermined | shell/buildin_cmd.c:12-50 | the normal form is the only reading of absolute paths with these equations |
| PathSpec.WashIdempotent | shell/buildin_cmd.c:12-50 | normalising twice is normalising once |
| PathSpec.WashNotLonger | shell/buildin_cmd.c:12-50 | the normal form of an absolute path is never longer than the path |
| PathSpec.WashRelative | shell/buildin_cmd.c:53-66 | cwd + "/" + rel is rel's components run from cwd's stack |
| PathSpec.CompsRender | shell/buildin_cmd.c:37-42 | rendering a stack and splitting it again gives the stack |
| PathWash.PathParse | shell/buildin_cmd.c:14-48 | from any place in any path: the next component goes to name, the rest of the path or NULL is returned |
| PathWash.Ascend | shell/buildin_cmd.c:26-36 | the buffer loses its last component, the root stays |
| PathWash.Descend | shell/buildin_cmd.c:37-42 | the buffer gains the name as last component, without "//" at the root |
| PathWash.WashPath | shell/buildin_cmd.c:12-50 | the in-place edits leave the normal form in the result buffer, within the room the path takes |
| PathWash.MakeClearAbsPath | shell/buildin_cmd.c:53-66 | the final buffer holds the normal form of the absolute path; the assertion in wash_path fails exactly if the path is relative and getcwd failed |
| PathWash.ClearPathMeaning | shell/buildin_cmd.c:53-66 | a relative path is resolved from the current directory, an absolute one ignores it |
| CStrings.Strcmp | lib/string.c:54-63 | the result of Compare: 0 exactly for equal strings |
| CStrings.CompareAt | lib/string.c:54-63 | the sign is that of the first difference, the terminator being the least character |
| CStrings.Strrchr | lib/string.c:78-89 | the last occurrence, or nowhere |
| CStrings.Strcat | lib/string.c:92-99 | the destination holds both strings joined |
| CStrings.Strcpy | lib/string.c:38-43 | the destination holds the source string |
| CStrings.Strlen | lib/string.c:46-51 | the number of characters before the terminator |
| Format.DigitsParse | lib/stdio.c:13-24 | the digits of a number are digits of the base, upper case, without leading zero, and parse back to it |
| Format.DecimalRoundTrip | lib/stdio.c:53-62 | every 32-bit integer written as %d does is a decimal numeral and reads back, the least one included |
| Format.HexRoundTrip | lib/stdio.c:64-68 | the bit pattern written as %x does is a hexadecimal numeral and reads back |
| Format.RenderDirectives | lib/stdio.c:40-68 | %d and %x print numerals that read back in decimal and hexadecimal, %s prints the string, %c the character |
| Format.RenderLiteral | lib/stdio.c:33-37 | text without '%' is printed as it is |
| Format.RenderUnknown | lib/stdio.c:38-39 | a '%' before anything else, or at the end, is dropped |
| Format.RenderConcat | lib/stdio.c:32-70 | formats one after the other print their texts one after the other, each with its own arguments |
| Format.EndsInStringExact | lib/stdio.c:41-46 | a terminator is left by a final %s and by nothing else |
| Format.Itoa | lib/stdio.c:13-24 | the recursive digits go to the buffer in order through the advancing pointer |
| Format.Vsprintf | lib/stdio.c:27-72 | in any buffer: it begins with the pure render of format and arguments and is otherwise unchanged but for the terminator of a final %s; the result is the length of the string in it, that of the render exactly if a %s came last or a zero stood behind |

## Left out

- PartitionScan.Scanner.ScanEbr: covers EBRs of the shape (logical, link or empty, empty, empty), cyclic chains included; chains with the entries in another order are covered as values by PartitionGuard, for finite chains.
- PartitionGuard.ScanExact: covers finite chains in which every EBR has one logical entry and, except for the last, one link.
- PartitionGuard.GuardExact: covers the same chains.
- PartitionScan.Scanner.ScanMbr: covers at most one extended entry, with a non-zero start, whose chain stays at readable addresses.
- CStrings.Strcmp: characters are compared as unsigned codes; in the C code char is signed, so the sign differs for bytes from 128 on. The callers only test for zero.
- Format.Itoa: covers the two bases the callers use, 10 and 16.
- Format.Vsprintf: covers arguments that match their directives and a buffer with room in which strlen finds a terminator; the format and string arguments are values.
- PathWash.PathParse: components have fewer than 16 characters, the size of the name buffer; the code does not check this.
- PathWash.WashPath: components have fewer than 16 characters, as above.
- PathWash.MakeClearAbsPath: components have fewer than 16 characters, and path and joined path fit the 512-byte buffer; the code checks neither.
- KernelList.List.Traverse: covers callbacks that only read; one that changes the list or the structures around it is not part of this model.
- DirOps.Partition.BlockBitmapAlloc: on a full bitmap returns the -1 that the callers test; as built, the assertion in bitmap_scan stops the kernel there.
- DirTheorems.BitmapOnDiskIff: its failing case is one in which that assertion is met first; DirTheorems.FailsIffExhausted and DirTheorems.StoredSyncsBitmap state what holds as built.
- Writing the inode itself to the inode table (`inode_sync`, which also cuts the inode number to eight bits, `fs/inode.c:43`) and the inode bitmap.
- Memory allocation failures in search_dir_entry and dir_remove, and freeing.
- Fairness of the lock and the scheduler: the runs of IoQueue and IdeProtocol say what can happen, not that a waiting thread runs eventually.
- The polling limit of busy_wait, which subtracts 1 per poll because of operator precedence (`device/ide.c:139`).
- identify_disk and ide_init, which send commands before other threads use the channel.
- Recursive acquisition of a lock by its holder; none of the modelled code does it.
- 32-bit overflow of list lengths, directory sizes and addresses, all far below the limit in a valid system.
- Console output, port input and output, boot code, memory management, the scheduler and the other shell commands.
