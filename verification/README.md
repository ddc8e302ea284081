# Verified models of Mellivora OS components

This project models the parts of Mellivora OS whose correctness rests on an argument rather than on a single line of code, and proves what those parts promise:

- **HBFS undo journal** (`Sectors`, `Journal*`, `LogChecker`). The disk is a sequence of sectors, every protocol operation is a list of single-sector writes, and power may fail before any of them. A run is any sequence of operations, cuts and recoveries.
- **C runtime heap** (`Heap*`). First fit, split, address-sorted free list and two-way coalescing over memory that is a map from addresses to dwords; headers live in that memory.
- **HBFS builder and its independent checker** (`Hbfs*`, `Builder*`, `Checker*`). The builder is compared with a plain table of files, and the checker is compared with the builder and with what a clean verdict ought to mean.
- **CRC-32C** (`Crc`), **civil calendar** (`Calendar`), **`qsort` and `bsearch`** (`Sorting`), **UTF-8 and UTF-16** (`Utf`, `UtfText`), **printing and parsing integers** (`Numbers`, `NumbersIO`), **dependency ordering** (`Topology`), **HBX import and export tables** (`Hbx*`).

Code that works by changing things (the journal, the heap, the volume builder, the checker, the sort, the resolver, the converters, the output buffer) is a class or a method with loops, proved against specification functions; the promises are then proved about those functions for all inputs, in terms of the sectors, blocks, entries or characters that result. Code that is arithmetic is a function.

Five places where the code does less than one would expect are stated exactly, each with an input at which it happens:

- `create_subdir` on a directory that already exists reads that directory back from the disk, where it is still empty before `finalize`, so every file added to it in this session is lost (`BuilderMeetsChecker.MakeDirEmpties`, and `BuilderMeetsChecker.MakeDirLosesFile` for one such file). The table of files that `BuilderMeetsChecker.ReadBack` compares with follows the code.
- A name longer than 252 characters is stored short, and one with a NUL is read back only up to it; `add_file` reports success all the same. The file is found again under its name if and only if the name has neither fault (`BuilderMeetsChecker.NameKept`, and `BuilderMeetsChecker.NulNameIsLost` for one name).
- A commit record whose checksum happens to be zero is taken for an old record without one, and its transaction is rolled back by the next replay; `JournalTheorems.CommitRecordKeeps` says exactly when a commit record keeps a transaction. With CRC-32C it happens: for every record count at exactly one epoch (`JournalCrc.ZeroCommit`), and `JournalCrc.CommittedIsLost` is a run that loses a transaction so.
- `malloc` adds the header to the size, and the kernel adds the sum to the break, modulo 2^32: a request close to 2^32 can move the break down (`HeapModel.GrowsBackward`, in the window the kernel gives a program); `HeapModel.GrowsForward` says exactly when neither sum goes wrong, and that is what `Heap.Heap.Malloc` asks for.
- When the `0` flag meets a precision nothing pads a printed number to its width (`Numbers.FieldWidth`, and `Numbers.ShortField` for one field), and `strtol` negates the most negative value, which C leaves undefined (`Numbers.PrintParse`).

Conventions: machine words are integers with the wrap-around written out, or bit vectors where the code works on bits; a NUL-terminated string is a sequence that ends with its NUL, so that an index into it is a proof that nothing beyond the NUL is read; `malloc` failing inside `qsort`, the point where power fails and the kernel's window for the break are parameters. C division truncates and is defined as `Calendar.CDiv` and `Calendar.CMod`.

## Model

| member | source | states |
|---|---|---|
| `JournalTheorems.CrashAtomicity` | tools/hbfs_journal.py:114-295 | for every run of operations, cuts before any sector write and recoveries: replay does not refuse, and leaves every protected sector, the superblock apart from its journal fields included, as the last durable transaction left it |
| `JournalTheorems.OpenTransactionIsLogged` | tools/hbfs_journal.py:141-202 | in every reachable state with an open transaction the scan finds exactly the records memory holds, all of this epoch; each protected sector that changed has its old contents among them; the log position is even and leaves room for the commit record |
| `JournalTheorems.CommitRecordKeeps` | tools/hbfs_journal.py:188-202 | once the commit record is on disk, replay keeps the transaction if and only if the record's checksum is not zero, or nothing was logged, or nothing changed |
| `JournalCrc.ZeroCommit` | tools/hbfs_journal.py:188-202 | for every record count there is exactly one epoch whose commit record has checksum zero |
| `JournalCrc.ZeroOnce` | tools/hbfs_journal.py:188-202 | no epoch gives a zero checksum for two record counts |
| `JournalCrc.CommittedIsLost` | tools/hbfs_journal.py:255-264 | a run from a fresh volume, cut right after its commit record, that replay takes back |
| `JournalTheorems.RunKeeps` | tools/hbfs_journal.py:141-212 | the invariant between disk, memory and the ideal contents holds after every run |
| `JournalTheorems.DoKeeps` | tools/hbfs_journal.py:141-212 | each completed operation keeps the invariant and does to the contents what the ideal operation does |
| `JournalTheorems.CutKeeps` | tools/hbfs_journal.py:114-124 | each operation cut after any number of its sector writes leaves a disk that recovers to the durable contents |
| `JournalRuns.BeginCut` | tools/hbfs_journal.py:141-154 | any prefix of the writes of `begin` leaves a recoverable disk |
| `JournalRuns.LogCut` | tools/hbfs_journal.py:156-175 | any prefix of the writes of `log` leaves a recoverable disk: the payload goes out before the header that makes it a record |
| `JournalRuns.WriteCut` | tools/hbfs_journal.py:177-180 | any prefix of a journalled write leaves a disk that rolls back to the contents at `begin` |
| `JournalRuns.CommitCut` | tools/hbfs_journal.py:188-202 | any prefix of a commit leaves either the old or the new contents recoverable, decided by the record alone |
| `JournalRuns.AbortCut` | tools/hbfs_journal.py:204-212 | any prefix of an abort leaves a disk that rolls back to the contents at `begin` |
| `JournalRuns.RecoverCut` | tools/hbfs_journal.py:276-295 | any prefix of the writes of replay leaves a disk that recovers to the same contents |
| `JournalSafety.ScanLogFinds` | tools/hbfs_journal.py:243-274 | the scan of replay returns exactly the log of the current epoch and whether a believed commit ends it; stale records are never in it |
| `JournalSafety.RecoverKeeps` | tools/hbfs_journal.py:276-295 | after any number of replay's writes the disk is still recoverable with the same log, and after all of them it is clean |
| `JournalRestart.ReplayRestarts` | tools/hbfs_journal.py:224-295 | replay interrupted before any of its own writes and run again reaches exactly the disk one uninterrupted replay reaches, also when the superblock is among the sectors rolled back |
| `JournalRestart.ReplayConverges` | tools/hbfs_journal.py:224-295 | the same for any number of interrupted attempts |
| `JournalRestart.ReachedIsReplayable` | tools/hbfs_journal.py:224-295 | every disk a run of the protocol reaches is one replay can be restarted on |
| `JournalClass.Journal.WriteSector` | tools/hbfs_journal.py:114-124 | the only write: power is lost exactly at the crash point, otherwise one sector changes and is counted; one past the end of the image makes it longer |
| `JournalClass.Journal.Superblock` | tools/hbfs_journal.py:127-134 | state, log position and epoch of the object are in the superblock, everything else of it is kept, and a version 4 superblock carries its true checksum |
| `JournalRuns.StampedMarks` | tools/hbfs_journal.py:215-221 | restamping sets the three journal fields, makes a version 4 checksum true and touches nothing else |
| `JournalEffects.BeginEffect` | tools/hbfs_journal.py:141-154 | refused exactly while open or dirty, with that reason; else the epoch counts on by one and the superblock becomes dirty, its checksum true, and nothing else changes |
| `JournalEffects.LogEffect` | tools/hbfs_journal.py:156-175 | refused exactly without a transaction, with fifteen records or past the end; nothing for a sector already logged; else one record with the old contents and their sum lies in the next slot and nothing else changes |
| `JournalEffects.WriteEffect` | tools/hbfs_journal.py:177-180 | refused exactly when the sector cannot be logged; else the log of the sector and then its new contents alone |
| `JournalEffects.WriteDataEffect` | tools/hbfs_journal.py:182-186 | never refused; exactly its own sector changes |
| `JournalEffects.CommitEffect` | tools/hbfs_journal.py:188-202 | never refused; the record counts the log and carries its own sum, the superblock is clean with a true checksum, and no other sector changes |
| `JournalEffects.AbortEffect` | tools/hbfs_journal.py:204-212 | never refused; every logged sector is as it was logged, every other as it was, and the superblock is clean with a true checksum |
| `JournalClass.Journal.Begin` | tools/hbfs_journal.py:141-154 | raises on an open or dirty journal without touching the disk, otherwise sends exactly the protocol's writes or a proper prefix that ends at the crash point |
| `JournalClass.Journal.Log` | tools/hbfs_journal.py:156-175 | the same for `log`, with its three refusals; a sector already logged sends nothing |
| `JournalClass.Journal.Write` | tools/hbfs_journal.py:177-180 | the same for a journalled write: the pre-image first, then the sector |
| `JournalClass.Journal.WriteData` | tools/hbfs_journal.py:182-186 | the same for an unjournalled write; past the end of the image the file grows, zeros in between |
| `JournalClass.Journal.Commit` | tools/hbfs_journal.py:188-202 | the same for commit: record, then superblock |
| `JournalClass.Journal.Abort` | tools/hbfs_journal.py:204-212 | the same for abort: pre-images newest first, then the superblock |
| `JournalClass.PerformedIsEvent` | tools/hbfs_journal.py:141-212 | a call on the object, done, refused or cut, is one event of the protocol's runs: the same disk, and the same fields unless power was lost |
| `JournalClass.ObjectRecovers` | tools/hbfs_journal.py:114-295 | after any run and one more call on the object, replay of the image it leaves restores the last durable contents |
| `JournalClass.Replay` | tools/hbfs_journal.py:224-295 | leaves the recovered disk of the theorems, or the untouched one exactly when a pre-image is torn, and reports dirty, committed, records and undone truthfully; a log that names sectors past the end makes the image longer |
| `JournalClass.ScanRecords` | tools/hbfs_journal.py:243-274 | the scanning loop computes the scan the theorems speak about |
| `JournalClass.PutBack` | tools/hbfs_journal.py:276-287 | the undo loop applies the pre-images newest first |
| `JournalScan.ScanExact` | tools/hbfs_journal.py:243-274 | on every image, said on its sectors: the scan refuses exactly when a record before the first sector that is none has a sum that is not its payload's, and names the first; else it collects all of them in order, and believes the commit record exactly when sum and count are right, or both are zero |
| `JournalScan.ReplayExact` | tools/hbfs_journal.py:276-295 | from every dirty image whose scan succeeds: each sector is kept when the commit was believed, and else holds the oldest pre-image logged for it; the superblock is then clean, its log position zero, a version 4 checksum true, every other word as it was |
| `JournalScan.ReplayLeavesAlone` | tools/hbfs_journal.py:224-232 | a clean image, or one with a torn record, is left as it is |
| `LogChecker.CheckJournal` | tools/fsck_hbfs.py:377-442 | the checker's loop computes its recursive definition |
| `LogChecker.CheckExact` | tools/fsck_hbfs.py:377-442 | on every disk: pre-images of the epoch are counted, other records warned about; a commit is seen exactly when one ends the log; no error exactly when every pre-image aims into the volume with a sum that is absent or right, and on version 4 the commit record has such a sum and the right count |
| `LogChecker.RefusedIsAnError` | tools/fsck_hbfs.py:377-442 | on every disk: a log that replay refuses is one the checker finds an error in, and a commit that replay believes is one it sees after the same number of records |
| `LogChecker.ReadersAgree` | tools/fsck_hbfs.py:377-442 | on every reachable disk the checker counts exactly the records replay would collect, errs only for a target outside the volume, and agrees about the commit up to the zero checksum |
| `Sectors.ApplyAfterPrefix` | tools/hbfs_journal.py:276-295 | repeating a list of sector writes after any prefix of it changes nothing |
| `Heap.Heap.Malloc` | c/rt/malloc.c:79-137 | NULL, changing nothing, exactly when no free block fits and the break cannot move; else the first fitting block, or the new one at the old break when none fitted, cut to the request with the rest free behind it exactly when the rest makes a block; 8-aligned, not in use before; every block in use keeps size and contents; the whole invariant is kept |
| `Heap.Heap.Search` | c/rt/malloc.c:85-110 | the search loop moves the break at most once and then finds the block it added |
| `Heap.Heap.FirstFit` | c/rt/malloc.c:88-95 | the first block of the list that is large enough, and the one before it |
| `Heap.Heap.AddBlock` | c/rt/malloc.c:97-109 | one more free block at the old break, or nothing changed when the kernel refuses |
| `Heap.Heap.CarveFront` | c/rt/malloc.c:115-127 | splitting serves the request exactly from the front and leaves the rest free and listed in its place |
| `Heap.Heap.CarveWhole` | c/rt/malloc.c:128-136 | taking a whole block unlinks exactly it and keeps its size |
| `Heap.Heap.Free` | c/rt/malloc.c:139-168 | exactly the given block stops being in use, everything in use keeps size and contents, no two free blocks touch afterwards; NULL or a block not in use changes nothing |
| `Heap.Heap.ListInsert` | c/rt/malloc.c:54-66 | the block is linked at its address's place in the sorted list |
| `Heap.Heap.FreeBehind` | c/rt/malloc.c:153-166 | after the backward merge only the merged block can touch a free block ahead of it; nothing else becomes live or free, and every live block keeps size and contents |
| `Heap.Heap.FreeAhead` | c/rt/malloc.c:69-77 | the forward merge leaves no two free blocks touching, and every live block with its size and contents |
| `Heap.Heap.Calloc` | c/rt/malloc.c:170-182 | zeroed memory; refuses exactly the products that do not fit 32 bits, and otherwise as `malloc` does |
| `Heap.Heap.Realloc` | c/rt/malloc.c:184-208 | a block large enough stays; else NULL exactly when `malloc` would refuse, leaving the block as it was, or a new block that holds every byte of the old one, which is freed only then |
| `Heap.Heap.Sbrk` | kernel/syscall.inc:3740-3800 | for every increment: moves the break to the wrapped sum and zeroes what it moves up over, or refuses exactly outside the window and changes nothing |
| `HeapModel.AllFreeIsOneBlock` | c/rt/malloc.c:139-168 | with nothing in use the arena is one free block from the first break to the present one |
| `HeapModel.OneBlockPerAddress` | c/rt/malloc.c:54-168 | headers and payloads tile the arena: every address lies in exactly one block |
| `HeapModel.NeedCovers` | c/rt/malloc.c:39-42 | rounding up serves the request if and only if it is at most 2^32 - 8 |
| `HeapModel.GrowsForward` | c/rt/malloc.c:98-104 | growing asks for enough and moves the break up if and only if size, header and the distance to the window's start fit 32 bits together |
| `HeapModel.GrowsBackward` | c/rt/malloc.c:98-104 | a request for which the kernel, in the window it gives a program, moves the break down |
| `HeapModel.NothingServes` | c/rt/malloc.c:88-104 | a request for which growing goes wrong is larger than any block of the arena |
| `HeapModel.ProductFits` | c/rt/malloc.c:170-182 | the division test refuses exactly the products of 2^32 and more |
| `HeapMerge.MergeEffect` | c/rt/malloc.c:69-77 | merging keeps tiling, headers, list, links and every payload in use |
| `HeapCarve.SplitEffect` | c/rt/malloc.c:115-127 | splitting keeps tiling, headers, list, links and every payload in use |
| `HeapCarve.TakeEffect` | c/rt/malloc.c:128-136 | taking a whole block keeps them too |
| `HeapCarve.GrowEffect` | c/rt/malloc.c:97-109 | so does adding a block at the break |
| `HeapCarve.CarvedTight` | c/rt/malloc.c:112-136 | a block handed out exceeds the request by less than a block of its own; what is over is a free block right behind it, and no other block changes |
| `BuilderMeetsChecker.BuilderMeetsChecker` | populate.py:747-787 | for every sequence of `create_subdir` and `add_file` calls on a fresh volume, overwrites, fragmented files and refusals included, the checker finds no error, no block marked but unclaimed, the right free count and no file in the journal |
| `BuilderMeetsChecker.ReadBack` | populate.py:626-690 | after any such sequence, following the entry for any directory and name on the finalized volume, inline or through extents, yields exactly the bytes, the type and the layout a plain table of files holds for it, or nothing |
| `BuilderMeetsChecker.MakeDirEmpties` | populate.py:559-624 | a successful `create_subdir` empties a directory of that name and no other |
| `BuilderMeetsChecker.MakeDirLosesFile` | populate.py:559-624 | a file added to a directory and lost when the directory is asked for again |
| `BuilderMeetsChecker.NameKept` | populate.py:245-258 | a file added successfully after any calls is found under its name with its bytes and type if and only if the name is not empty, has at most 252 characters and no NUL |
| `BuilderMeetsChecker.NulNameIsLost` | populate.py:361-366 | one such name: stored, reported as done, never found again |
| `BuilderMeetsChecker.RootAt` | populate.py:443-489 | walking the finalized root claims exactly the blocks the rebuilt bitmap marks, each in the name of its owner |
| `BuilderMeetsChecker.Finalized` | populate.py:747-787 | writing the subdirectories puts all their parts in all their blocks and disturbs no file and no other directory |
| `BuilderReadback.RunKeeps` | populate.py:559-690 | after any calls every block has one owner, and every lookup agrees with the table of files |
| `BuilderReadback.AddFileKeeps` | populate.py:626-690 | one `add_file`, refused or not, keeps ownership and agreement with the table |
| `BuilderReadback.MakeDirKeeps` | populate.py:559-624 | one `create_subdir`, refused or not, keeps ownership and agreement with the table |
| `BuilderReadback.PlacedReads` | populate.py:511-557 | a file placed in one run or in fragments reads back as its bytes, zeros filling its last block, for every length and fragment count an extent block holds |
| `BuilderOutcomes.AddFileOutcome` | populate.py:626-690 | after any calls: raises exactly for a name that is not ASCII or fragments that cannot be had, else refuses exactly when the directory has no free slot and none of that name, else succeeds |
| `BuilderOutcomes.MakeDirOutcome` | populate.py:559-624 | after any calls: raises exactly when there is no such directory and the name is not ASCII or the root has no room, else succeeds |
| `BuilderOutcomes.EntriesPlain` | populate.py:245-275 | after any calls every slot of every directory is empty or an entry without foreign flags or attributes, directories of the fixed size |
| `BuilderOutcomes.RunsFair` | populate.py:511-548 | fragments are consecutive runs of one length, the last perhaps shorter, at most as many as asked for, and no shorter length would do |
| `BuilderClass.FSImage.PutFile` | populate.py:626-690 | the method computes the specified volume and outcome, the refusal by a full directory and the exceptions for too many runs and for a name that is not ASCII included |
| `BuilderClass.FSImage.CreateDir` | populate.py:559-624 | the method computes the specified volume and outcome, the exceptions for a full directory and for a name that is not ASCII included |
| `BuilderClass.FSImage.WriteFragments` | populate.py:511-548 | the loop writes the pieces to consecutive runs that together hold the whole data, and refuses more runs than an extent block holds |
| `BuilderClass.FSImage.WriteBlocks` | populate.py:550-557 | block after block of the data, the last one padded |
| `BuilderClass.FSImage.AllocBlocks` | populate.py:436-441 | the next blocks in order, marked, never handed out again |
| `BuilderClass.FSImage.FindEntrySlot` | populate.py:402-409 | the first used slot with the name |
| `BuilderClass.FSImage.FindFreeSlot` | populate.py:411-418 | the first free slot |
| `BuilderClass.FSImage.RebuildBitmap` | populate.py:443-489 | the bitmap is the journal and the blocks of live entries, one directory level down, and the count is its size |
| `BuilderClass.FSImage.Finalize` | populate.py:747-787 | directories on disk, rebuilt bitmap, and a free count that matches it |
| `CheckerSound.VerdictSound` | tools/fsck_hbfs.py:456-647 | when the checker records no error, every claimed block lies in the volume and is marked, every reachable entry is sound and its blocks are claimed in its own name alone, extent runs sum to the block count, files have enough blocks, and no directory is reached twice |
| `CheckerExact.VerdictExact` | tools/fsck_hbfs.py:456-647 | for every image: no error exactly when some assignment of owners to marked blocks suits every entry and no directory is reached twice; then exactly the marked blocks no entry names are unreferenced and an overlap is seen exactly when an entry names a journal block; the free count is found wrong exactly when it is not the number of unmarked blocks |
| `CheckerTrue.VerdictTrue` | tools/fsck_hbfs.py:456-647 | every error names a fault the volume has: of an entry that can be reached from the root, at the path it gives, or a block such an entry names and the bitmap does not mark |
| `CheckerSound.WalkDirSound` | tools/fsck_hbfs.py:474-566 | the recursive walk, from any state it is called in, establishes that or records an error |
| `CheckerSound.EntrySound` | tools/fsck_hbfs.py:488-566 | one directory entry |
| `CheckerSound.FileSound` | tools/fsck_hbfs.py:568-599 | one file, inline or with extents |
| `CheckerClass.Fsck.ClaimRange` | tools/fsck_hbfs.py:456-471 | claims a run block by block: out of range and doubly claimed blocks are errors, the first owner stays |
| `CheckerClass.Fsck.ClaimExtentFile` | tools/fsck_hbfs.py:568-599 | the extent list of a file is read, bounded, claimed and summed as specified |
| `CheckerClass.Fsck.Walk` | tools/fsck_hbfs.py:474-566 | the recursion over directories ends and computes the specified walk |
| `CheckerClass.Fsck.Visit` | tools/fsck_hbfs.py:488-566 | one entry of the walk, with every early exit |
| `CheckerClass.Fsck.CrossCheckAll` | tools/fsck_hbfs.py:602-630 | claims against bitmap both ways, and the free count |
| `CheckerClass.Fsck.Check` | tools/fsck_hbfs.py:633-647 | the verdict the theorems speak about |
| `Crc.BitwiseCrc` | populate.py:169-181 | the bit-at-a-time loop computes CRC-32C |
| `Crc.Crc32cTable` | tools/fsck_hbfs.py:110-117 | the table holds the remainder of every byte |
| `Crc.TableCrc` | tools/fsck_hbfs.py:123-135 | the table-driven loop gives the value of the bit-at-a-time one on every byte string |
| `Crc.ByteStep` | tools/fsck_hbfs.py:123-135 | eight bit steps are one table step |
| `Crc.WordStep` | populate.py:169-181 | four bytes enter the register as one word |
| `Crc.BurstDetected` | populate.py:169-181 | byte strings that differ only within four neighbouring bytes never share a checksum |
| `Crc.StampSeals` | populate.py:191-202 | a stamped run checks, is otherwise unchanged, and stamping again changes nothing; a run checks if and only if stamping leaves it alone |
| `Crc.DamageDetected` | tools/fsck_hbfs.py:138-162 | any damage to a run that checks, confined to four neighbouring bytes inside or outside the checksum field, makes it fail |
| `Crc.OneByteDetected` | tools/fsck_hbfs.py:138-143 | changing any one byte of a stamped run of any length, the field included, is detected |
| `Crc.StampRunChecksum` | populate.py:191-202 | stamps in place and returns the value stored |
| `Crc.Compare` | tools/fsck_hbfs.py:156-162 | stored and recomputed values, equal exactly when the region checks |
| `Crc.CatalogueValue` | populate.py:169-181 | the checksum of the nine digits is 0xE3069283 |
| `Calendar.DaysOfCivil` | c/rt/time.c:87-122 | for every day number, counting the date it maps to gives it back, and that date is a real one |
| `Calendar.CivilOfDays` | c/rt/time.c:87-122 | every real date comes out of its own count |
| `Calendar.CivilSteps` | c/rt/time.c:103-122 | day number 0 is 1 January 1970, and the date of the next day number is the Gregorian successor, in both directions of time |
| `Calendar.TomorrowCountsOne` | c/rt/time.c:87-100 | the successor of any real date counts one more |
| `Calendar.Tm.FillTm` | c/rt/time.c:124-148 | the fields say the date, weekday, day of year and time of the seconds, also before the epoch |
| `Calendar.Tm.Localtime` | c/rt/time.c:160-166 | the same, shifted by the zone offset |
| `Calendar.Tm.Mktime` | c/rt/time.c:168-183 | the seconds the fields name less the offset, and the fields normalised |
| `Calendar.CountedBack` | c/rt/time.c:160-183 | the fields of a local time count back to it, and no sum overflows if and only if the start of the local day fits 32 bits |
| `Calendar.RoundTrip` | c/rt/time.c:160-183 | `mktime` after `localtime` returns the time, whenever that holds |
| `Sorting.Qsort` | c/rt/stdlib.c:170-241 | with or without a scratch buffer the array ends as the one ordered, stable arrangement of its input, a permutation of it |
| `Sorting.MergeSort` | c/rt/stdlib.c:206-239 | the bottom-up path with alternating buffers sorts stably into the caller's array |
| `Sorting.MergePass` | c/rt/stdlib.c:210-232 | one pass merges every pair of neighbouring runs, the last one short |
| `Sorting.MergeRuns` | c/rt/stdlib.c:213-231 | one merge of two runs into the other buffer, touching nothing else |
| `Sorting.InsertionSort` | c/rt/stdlib.c:181-204 | the path without memory sorts stably in place |
| `Sorting.Unique` | c/rt/stdlib.c:170-241 | two ordered arrangements with the same classes in the same order are equal, so both paths give the identical array |
| `Sorting.PassDoubles` | c/rt/stdlib.c:209-237 | one pass doubles the length of the ordered runs and keeps every class in order |
| `Sorting.MergeClass` | c/rt/stdlib.c:222-227 | merging puts equal elements of the left run before those of the right |
| `Sorting.StablePermutes` | c/rt/stdlib.c:170-241 | a stable rearrangement is a permutation |
| `Sorting.SortOfSorts` | c/rt/stdlib.c:170-241 | for every total preorder there is an ordered, stable arrangement |
| `Sorting.Bsearch` | c/rt/stdlib.c:147-168 | finds a matching element exactly when there is one |
| `Sorting.SortedIsPartitioned` | c/rt/stdlib.c:147-168 | what `qsort` leaves can be searched for any key with the same comparator |
| `Utf.Decode` | c/rt/utf.c:20-72 | one code point by the byte grammar of section 4 of RFC 3629, or the replacement and one byte; never reads past the NUL, always advances, never over the terminator |
| `Utf.EncodeReads` | c/rt/utf.c:74-98 | decoding an encoded scalar gives it and its length, whatever follows |
| `Utf.SequenceEncodes` | c/rt/utf.c:20-72 | every accepted sequence is exactly the encoding of its value, which is a Unicode scalar |
| `Utf.Judged` | c/rt/utf.c:50-61 | the refusals by value (overlong, surrogate, above Unicode) are exactly those of the grammar |
| `Utf.UnitsRead` | c/rt/utf.c:122-136 | a scalar in UTF-16 units reads back as itself, whatever follows |
| `UtfText.CrossingFromUtf8` | c/rt/utf.c:113-178 | UTF-8 to UTF-16 and back is the identity if and only if the text is well formed |
| `UtfText.CrossingFromUtf16` | c/rt/utf.c:113-178 | UTF-16 to UTF-8 and back is the identity if and only if there is no lone surrogate |
| `UtfText.WellFormedIsEncoded` | c/rt/utf.c:20-98 | the well-formed texts are exactly the encodings of sequences of scalars |
| `UtfText.Utf16Len` | c/rt/utf.c:100-111 | the units the whole text needs |
| `UtfText.Utf8ToUtf16` | c/rt/utf.c:113-142 | writes the longest run of whole code points that fits with a terminator, never half a pair, and nothing else; with room, exactly the needed units |
| `UtfText.Utf16ToUtf8` | c/rt/utf.c:144-178 | the same in the other direction |
| `UtfText.WideHasNoZero` | c/rt/utf.c:113-142 | text without NUL converts to units without NUL, so the terminator ends exactly what was written |
| `UtfText.NarrowHasNoZero` | c/rt/utf.c:144-178 | the same for the bytes of the other direction |
| `UtfText.ReadUnit` | c/rt/utf.c:148-164 | pairs are combined, lone surrogates replaced, and the look-ahead stays inside the string |
| `UtfText.ThereAndBack` | c/rt/utf.c:113-178 | with room in both buffers a well-formed string comes back byte for byte |
| `Numbers.PrintParse` | c/rt/stdio.c:692-723 | every conversion with every flag, width and precision reads back as its value in its own base, and in base 0 when `#` marked it; reading stops right after the digits; the one exception is the most negative %d |
| `Numbers.DigitsDenote` | c/rt/stdio.c:591-594 | the printed digits denote the number and are digits of the base |
| `Numbers.FieldWidth` | c/rt/stdio.c:596-612 | the field is filled to its width if and only if the `0` flag does not meet a precision or no padding was needed |
| `Numbers.FieldExact` | c/rt/stdio.c:581-723 | every field is blanks, the mark of the conversion and flags, zeros, the digits in their one canonical form and blanks, each only where the flags put them |
| `Numbers.ShortField` | c/rt/stdio.c:596-612 | %08.3d of 5 is three characters wide |
| `Numbers.ReadsShape` | c/rt/stdlib.c:37-83 | any white space, a sign, a prefix and digits of any base from 2 to 36 are taken apart and the digits read in the right base, whatever ends them |
| `Numbers.NothingRead` | c/rt/stdlib.c:46-83 | without a digit of the base after white space and sign nothing is read |
| `Numbers.DigitTable` | c/rt/stdlib.c:26-35 | the digits are the ten figures and the letters in order, small or capital, and nothing else |
| `NumbersIO.OutNumber` | c/rt/stdio.c:581-613 | puts out exactly the specified field |
| `NumbersIO.FillDigits` | c/rt/stdio.c:591-594 | the digit buffer holds the digits backwards and is never overrun |
| `NumbersIO.Out.OutChar` | c/rt/stdio.c:552-563 | every character is counted; a buffer holds as much of the text as fits before the terminator, and for a stream what was handed on and the chunk together are the text, the chunk never full |
| `NumbersIO.Out.OutFlush` | c/rt/stdio.c:539-550 | after a flush everything put out so far has been handed on, in order, and the chunk is empty |
| `NumbersIO.FormatInteger` | c/rt/stdio.c:692-723 | the d, u, o, x and X branches put out the specified text |
| `NumbersIO.ParseLong` | c/rt/stdlib.c:46-83 | the walk over the string computes the specified result and end for every base up to 99, negative ones included, wrapping at 32 bits, and reads nothing past the NUL |
| `NumbersIO.ThereAndBack` | c/rt/stdio.c:692-723 | printed into a buffer with room, terminated and parsed: the same value |
| `Topology.Resolver.TopoSort` | tools/hbpkg.c:1035-1047 | -1 if and only if the in-range graph has a cycle; otherwise the node count, and an order with every node once and every dependency before its dependents |
| `Topology.Resolver.TopoVisit` | tools/hbpkg.c:1018-1033 | visits within a decreasing measure, keeps flags, order and stack in agreement, never overruns the order, and fails only on a cycle |
| `Topology.OrderedIsAcyclic` | tools/hbpkg.c:1018-1047 | a graph with an install order has no cycle |
| `Topology.StackCloses` | tools/hbpkg.c:1020-1020 | meeting a node of the stack again closes a cycle |
| `HbxTables.ImportsReadBack` | tools/mkhbx.py:217-268 | a reader of the finished image finds the imports grouped by module, with every symbol and slot |
| `HbxTables.ImportFound` | tools/mkhbx.py:217-268 | each import is found in the image in the group of its module, after that module's earlier imports, with its symbol and its slot |
| `HbxTables.ModulesFirstSeen` | tools/mkhbx.py:225-231 | each module once, exactly those that occur, in first-seen order |
| `HbxTables.OfKeepsOrder` | tools/mkhbx.py:225-231 | a module's group holds exactly its imports in order |
| `HbxTables.GroupingConserves` | tools/mkhbx.py:225-231 | grouping loses and repeats nothing |
| `HbxTables.SlotsApart` | tools/mkhbx.py:251-264 | no two allocated slots overlap |
| `HbxTables.SlotPlaced` | tools/mkhbx.py:251-264 | every named slot is kept, and every allocated one lies between the thunks and the descriptors |
| `HbxTables.ExportsReadBack` | tools/mkhbx.py:271-287 | the export table decoded by the loop of `find_exports` gives the exports back |
| `HbxTables.DecodeExact` | tools/mkhbx.py:137-164 | for any bytes: the table is refused exactly for a missing count, a count that does not fit, or an entry whose name starts past the end, is empty or is not ASCII, with the first such fault; else every entry comes out in order |
| `HbxBuilder.BuildImports` | tools/mkhbx.py:217-268 | raises exactly when a name is not ASCII or a number does not fit 32 bits; otherwise the loops produce the specified bytes, descriptor offset and count |
| `HbxBuilder.BuildExports` | tools/mkhbx.py:271-287 | raises exactly when a name is not ASCII or a number does not fit 32 bits; otherwise the loops produce the specified bytes and table offset |
| `HbxBuilder.FindExports` | tools/mkhbx.py:137-164 | the table after the first marker, decoded or refused with the first fault, and the payload with the marker blanked |
| `HbxFormat.NameReads` | tools/mkhbx.py:159-159 | a NUL-terminated name placed among others reads back from its offset |

## Left out

- Torn sectors with partial contents, and collisions of the checksum: power fails between whole sectors, and the journal theorems hold for every checksum function.
- The early return of `check_journal` for volumes without a journal epoch and the warnings it prints at the end.
- LogChecker.CheckExact: speaks of images that hold the whole journal area and one sector more.
- Epoch wrap-around: a run is assumed not to count 2^32 transactions.
- `check_superblock`, `check_checksums` and the warnings of the checker that do not enter its error list (unprintable names, unknown flags, legacy modes).
- CheckerClass.Fsck.Check: the verdict is that of the directory walk and the bitmap; the superblock, journal and checksum passes of `run` do not enter it.
- Directory entries and extent blocks as bytes: they are typed values, so the byte offsets of their fields, times, modes and owners are not modelled; the contents of files are bytes.
- Preserving an existing image, stale-entry cleanup, extended attributes on the builder's side, and directories more than one level deep on the builder's side.
- BuilderMeetsChecker.BuilderMeetsChecker: speaks of names that are stored whole; what becomes of the others is what `BuilderMeetsChecker.NameKept` says.
- BuilderMeetsChecker.ReadBack: the same.
- BuilderMeetsChecker.MakeDirEmpties: the same.
- BuilderReadback.RunKeeps: the same.
- BuilderReadback.AddFileKeeps: the same.
- BuilderReadback.MakeDirKeeps: the same.
- BuilderOutcomes.AddFileOutcome: the same of the calls before; the name of the call itself is any.
- BuilderOutcomes.MakeDirOutcome: the same.
- BuilderOutcomes.EntriesPlain: the same as `BuilderMeetsChecker.ReadBack`.
- BuilderMeetsChecker.NameKept: the same of the calls before, and of a directory that no file has replaced since it was made.
- BuilderClass.FSImage.AllocBlocks: has no upper bound, as the code has none; the volume is assumed large enough where the checker is applied.
- BuilderClass.FSImage.Finalize: writes subdirectories in some order and asks for the invariant, which every sequence of calls establishes.
- Heap.Heap.Malloc: asks that size, header and the distance to the window's start fit 32 bits; `HeapModel.GrowsForward` shows that beyond this growing goes wrong.
- Heap.Heap.Search: asks the same of the rounded size.
- Heap.Heap.AddBlock: asks the same of the rounded size.
- Heap.Heap.Calloc: asks the same of the product when it fits 32 bits.
- Heap.Heap.Realloc: asks the same of the new size.
- Heap.Heap.Free: asks for an address whose header can be read, as C asks for one that `malloc` returned.
- Heap.Heap.Sbrk: keeps no record of the words above a break that moved down; nothing reads them.
- Sorting.Qsort: an element is one value, so the byte-wise swap and copy are single steps, element size 0 is not modelled, and neither is which buffer is released at the end or sizes whose doubling wraps at 32 bits.
- Numbers.FieldWidth: speaks of fields shorter than 2^32 characters.
- NumbersIO.Out.OutFlush: a stream that takes less than it is given, and the failure flag it sets, are not modelled.
- NumbersIO.ParseLong: asks for a base of at most 99; from 100 on every character, the NUL too, counts as a digit, and the walk leaves the string.
- %s, %c, %p and %f, `vsnprintf` with size 0, `strtod` and `errno`.
- `mv_printw` and `mv_putwc`, which print what the converters produce.
- The HBX header, sections, relocation and thread-local tables, and `find_imports`, whose loop is that of `find_exports`.
- HbxTables.ImportsReadBack: speaks of names without a NUL, since others cannot be read back from a NUL-terminated string, and of tables that could be packed at all.
- HbxTables.ImportFound: the same.
- HbxTables.ExportsReadBack: the same.
- Package metadata, downloads and the database around the dependency ordering.
- The kernel, the scheduler, drivers, the desktop, build scripts and validators: input and output with no property of their own here.
