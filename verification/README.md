# Verified models of the paging simulator, the intersection and the ext2 tools

This project models three components of the repository in Dafny and proves what they are for.

**The demand-paging simulator** (`Assignment3`). Page-table words, the swap bitmap, the swap file as
an array of slots, the LRU list, the CLOCK hand and the FIFO head are classes and arrays changed in
place (`SwapBitmap`, `PageTable`, `SwapSpace`, `Lru`, `Clock`, `Simulator`). They are proved to refine
one state machine on values (`Paging`), on which whole runs are reasoned about: paging is invisible
(`FlatMemory`), evictions are counted on the right side (`Evictions`), LRU and FIFO keep what their
names promise and LRU has the stack property (`Queues`, `Replacement`), CLOCK evicts what has not been
used since the hand went past it (`ClockRuns`), and LRU and FIFO are competitive against every policy
(`Competitive`).

**The intersection threads** (`Assignment2`). Lanes are records updated in place (`Lane`); the eight
threads are a transition system with one step for each lock, unlock, wait, signal and update, over all
interleavings and with spurious wakeups (`Intersection`). No reachable unfinished state is stuck, every
run is bounded, and every car ends in the list of its exit lane (`Progress`).

**The ext2 tools** (`Assignment4`). Bitmaps with their two counters (`ResourceMap`), inodes and block
pointers (`Inodes`, `FileData`), the mounted image changed in place (`Volume`), directory blocks byte
by byte (`DirBlock`) and as finite maps (`Directory`, `DirectoryTools`), the scan that restores deleted
files (`Restore`), what it does to a directory wherever it ends (`Unhiding`) and when it undoes a
delete (`RoundTrip`), what all tools keep of a whole volume over whole runs (`Soundness`, `SoundTools`,
`SoundRestore`, `Growth`, `SoundRuns`) and of files they are not about (`Frames`), what exits and
misfits break (`Exits`, and on concrete volumes `Records`, `RootVolumes`, `FailingVolumes`), the
consistency checker (`Checker`) with its whole effect (`CheckerEffect`), and that it finds nothing
where the tools have been at work (`Tidy`, `CheckedVolumes`).

`Prelude` and `BitWords` hold the counting arguments and the binary digits that all three share.
`dafny verify dfyconfig.toml` checks the project.

## Where the code does not do what it says

- `restore` does not always undo `rm`. It does exactly when the file had one link and no deletion time,
  was not the first entry of its block, and the walk through the gaps reaches its record
  (`RoundTrip.RestoreUndoesDeleteExactly`). Four bytes of slack that still hold an old name make the
  walk step over the record behind them; the tools themselves lead to such a volume from a formatted
  one (`FailingVolumes.LaterEntryIsLost`, `FailingVolumes.EarlierEntryIsLost`).
- `restore` trusts the length of a stale record. The volume stays sound exactly when the record fits
  behind the valid one (`SoundRestore.RestoreKeepsSoundExactly`, `FailingVolumes.MisfitBreaks`).
- `create_dir_entry` splits a record, or links a new block, before it allocates the inode. The exit for
  want of an inode then leaves a chain that is whole only by accident, or a block of zeros in which no
  scan ends (`Exits.ExitKeepsDirectoryExactly`, `Exits.ExitKeepsSoundExactly`,
  `FailingVolumes.SplitBreaks`, `FailingVolumes.NewBlockBreaks`).
- `mkdir` exits between its creations exactly when the first of them leaves no free block, and then
  there is a directory without `.` and `..` (`SoundTools.MakeDirectory`, `FailingVolumes.MkdirBreaks`).
- `restore` takes the inode before its blocks; the exit at a block that is reached twice leaves an inode
  in use without a name (`Volume.ClashExactly`, `SoundRestore.ClashIsUnsound`,
  `FailingVolumes.ClashBreaks`).
- The checker makes the root a directory only if its type was 0 or directory already
  (`Checker.RootBecomesDirectory`); a root of any other type is reported again in every run
  (`Checker.CheckerIsIdempotent`).
- `opt.c` keeps `current` at -1 and never looks ahead; it is covered only as a choice of some frame in
  range, and no optimality is claimed for it.

## Model

| member | source | states |
|---|---|---|
| SwapBitmap.Bitmap.constructor | Assignment3/swap.c:28-62 | a new bitmap has no index marked, and the bits past the last one are set |
| SwapBitmap.Bitmap.Alloc | Assignment3/swap.c:64-87 | marks and returns the least unmarked index; fails exactly when all are marked; both asserts hold |
| SwapBitmap.Bitmap.Mark | Assignment3/swap.c:100-111 | adds one index to the marked set |
| SwapBitmap.Bitmap.Unmark | Assignment3/swap.c:113-124 | takes one index out of the marked set |
| SwapBitmap.Bitmap.IsMarked | Assignment3/swap.c:127-135 | answers membership in the marked set |
| BitWords.BitOfOr | Assignment3/swap.c:91-111 | or with a shifted 1 sets that binary digit and no other |
| BitWords.BitOfAndNot | Assignment3/swap.c:114-124 | and with its complement clears that digit and no other |
| BitWords.AllBitsMakeOnes | Assignment3/swap.c:72-84 | a word whose digits are all set is the all-ones word, so a word that differs has a clear digit |
| SwapSpace.Swap.PageOut | Assignment3/swap.c:222-256 | keeps the page's slot or takes the least free one, stores the frame there, and returns -1 exactly when a slot is needed and none is free |
| SwapSpace.Swap.PageIn | Assignment3/swap.c:188-213 | copies the slot into the frame and changes no other frame |
| PageTable.ShiftedFrame | Assignment3/pagetable.c:188-197 | frame << 12 fits the word, reads back as the frame, and carries no status bit |
| PageTable.StatusBits | Assignment3/pagetable.h:13-16 | setting or clearing one PG_ bit changes that flag and nothing else of the decoded entry |
| PageTable.EvictedWord | Assignment3/pagetable.c:46-64 | the bit updates of an eviction, decoded: not valid, not dirty, on swap if it was dirty, new slot |
| PageTable.PlacedWord | Assignment3/pagetable.c:188-199 | the bit updates of a fault, decoded: new frame, on swap, dirty only on the first touch |
| PageTable.ReferencedWord | Assignment3/pagetable.c:212-219 | the bit updates that end a reference, decoded: valid, referenced, dirty after a write |
| PageTable.TwoLevelIndex | Assignment3/pagetable.h:24-41 | the directory and table indices together are the page number, so no two pages share an entry |
| PageTable.Table.EnsureTable | Assignment3/pagetable.c:95-166 | adding a second-level table changes no entry |
| PageTable.Table.Get | Assignment3/pagetable.c:162-172 | reads the entry of the page from the two levels; a page never touched reads as unused |
| PageTable.Table.Set | Assignment3/pagetable.c:171-219 | writes the entry of one page and of no other |
| LruQueue.Queue.Evict | Assignment3/lru.c:33-53 | removes and returns the head frame of the linked list; list and referenced array stay in step |
| LruQueue.Queue.Ref | Assignment3/lru.c:59-109 | moves the frame to the tail, or appends it; each referenced frame stays on the list exactly once |
| LruQueue.Queue.MoveToTail | Assignment3/lru.c:63-89 | the search for the frame's old node ends at it, and removing it keeps the order of the others |
| ClockHand.Hand.Evict | Assignment3/clock.c:26-45 | the in-place scan computes the second-chance scan of the bits from the hand |
| ClockHand.Hand.Ref | Assignment3/clock.c:51-56 | sets one bit and no other |
| ClockHand.ScanFindsFirstClear | Assignment3/clock.c:28-41 | the victim is the first clear bit cyclically from the hand, exactly the skipped bits are cleared, in one probe more than were skipped |
| ClockHand.ScanAllSet | Assignment3/clock.c:28-41 | when all bits are set the hand's own frame is taken on probe memsize + 1 and all other bits end up clear |
| ClockHand.ScanEnds | Assignment3/clock.c:29-43 | every scan ends within memsize + 1 probes |
| Simulator.FifoHead.Evict | Assignment3/fifo.c:21-27 | returns the head and advances it modulo memsize |
| Paging.InitialIsGood | Assignment3/sim.c:119-148 | the simulator starts in a state that satisfies the invariant |
| Paging.WriteBackKeepsData | Assignment3/pagetable.c:43-64 | writing the victim back loses no page's data, and writing back a clean victim changes no slot |
| Paging.AllocateKeeps | Assignment3/pagetable.c:26-73 | allocate_frame hands over a frame that no other valid page uses and keeps every other page's data |
| Paging.FindPhyspageKeeps | Assignment3/pagetable.c:155-227 | frames and valid entries stay inverse bijections, slots stay owned injectively and marked, clean pages equal their slots, and all other data is unchanged |
| Simulator.Sim.constructor | Assignment3/sim.c:119-148 | coremap, memory, swap, page directory and policy represent the initial state |
| Simulator.Sim.FreeFrame | Assignment3/pagetable.c:28-34 | finds the lowest free frame, or -1 |
| Simulator.Sim.EvictVictim | Assignment3/pagetable.c:35-66 | the in-place eviction refines the eviction of the state machine, failing in the same cases and counting on the same side |
| Simulator.Sim.AllocateFrame | Assignment3/pagetable.c:26-73 | refines the allocation of the state machine |
| Simulator.Sim.FillFrame | Assignment3/pagetable.c:179-201 | fills the frame from swap or with a fresh page and builds the entry that decodes accordingly |
| Simulator.Sim.FindPhyspage | Assignment3/pagetable.c:155-227 | refines the translation of the state machine on the two-level table, the coremap, the memory and the policy's own structures |
| Simulator.Sim.AccessMem | Assignment3/sim.c:49-63 | refines a reference, keeps the invariant, and detects exactly the pages whose recorded address differs |
| Simulator.Sim.ReplayTrace | Assignment3/sim.c:66-83 | the loop over the lines performs the run of the references among them, or stops where the run does; from empty memory the error of access_mem is raised at a reference exactly when its address is not the first one used on its page |
| Simulator.Simulate | Assignment3/sim.c:86-166 | from empty memory the program ends normally if and only if the run of the trace does; its five counters are those of that run, dirty and clean evictions being the references that evict a page changed, or not, since it was loaded |
| FlatMemory.RunRefinesFlat | Assignment3/sim.c:49-83 | after every run the pages, in memory or on swap, hold what flat memory holds |
| FlatMemory.FlatMeaning | Assignment3/sim.c:58-61 | flat memory holds for each page its first address and its number of writes modulo 2^32 |
| FlatMemory.PagingIsInvisible | Assignment3/pagetable.c:142-227 | for every trace, memory size, policy and victim choice the page returned holds its first address and its version |
| FlatMemory.StepShowsFirstTouch | Assignment3/sim.c:54-62 | after any reference of any run the referenced page lies in its frame with the address of its first reference |
| FlatMemory.OutOfSwapExactly | Assignment3/pagetable.c:54-61 | the swap exit happens if and only if the page is absent, no frame is free, the victim owns no slot and no slot is free |
| FlatMemory.OutOfSwapNeedsPages | Assignment3/swap.c:228-233 | it takes more distinct pages than slots to run out of swap |
| FlatMemory.EnoughSwap | Assignment3/swap.c:228-233 | a trace of at most swapsize distinct pages always runs to its end |
| FlatMemory.EvictionsOnlyWhenFull | Assignment3/pagetable.c:29-66 | no page is evicted while a frame is free, over whole runs |
| FlatMemory.CountersAgree | Assignment3/pagetable.c:46-215 | hits + misses = references, and misses = clean + dirty evictions + min(memsize, misses), in every run of every policy |
| FlatMemory.ReferencesCounted | Assignment3/pagetable.c:215 | every reference of the trace is counted once |
| FlatMemory.AnyVictimIsAny | Assignment3/rand.c:17-22 | a policy that is free to choose can evict every page in memory |
| Evictions.DirtyIsChanged | Assignment3/pagetable.c:179-219 | in every run of every policy the pages in memory marked dirty are those that were first touched or written since they were last loaded |
| Evictions.CountersAreEvictions | Assignment3/pagetable.c:45-51 | in every run of every policy the dirty evictions counted are the references that evict such a page, and the clean ones those that evict any other |
| Evictions.UnchangedEqualsSlot | Assignment3/pagetable.c:46-64 | a victim that has not changed since it was loaded equals its slot |
| Evictions.DirtyIsPaidFor | Assignment3/pagetable.c:45-51 | dirty evictions, and the dirty pages still in memory, are at most the distinct pages touched and the write references together |
| ClockRuns.BitsTellRecency | Assignment3/clock.c:26-56 | in every CLOCK run a bit is set if and only if its frame has been used since the hand last went past it, and the hand is on the frame last freed |
| ClockRuns.FramesFollowPages | Assignment3/clock.c:51-56 | the last use of a frame is the last reference to the page in it |
| ClockRuns.ClockVictim | Assignment3/clock.c:26-56 | the victim is the first page ahead of the hand not referenced since the hand last went past it, all pages in between having been; only when all pages in memory have been is it a page that has, and then the one under the hand |
| Queues.RecencyMeaning | Assignment3/lru.c:55-109 | the recency order lists the pages used, each once, by last use |
| Queues.LruIsRecency | Assignment3/lru.c:33-109 | an LRU queue of m pages is always the last m of the recency order |
| Queues.Conservative | Assignment3/lru.c:33-109 | a stretch with at most m distinct pages misses at most once per page, under LRU and FIFO, from any contents |
| Queues.MissesPerPhase | Assignment3/fifo.c:21-27 | at most m misses in each phase of m distinct pages, under LRU and FIFO |
| Replacement.DemandPaging | Assignment3/pagetable.c:155-227 | under every policy a hit leaves memory alone and a miss brings in just the referenced page |
| Replacement.RunIsQueue | Assignment3/pagetable.c:26-73 | from any reachable LRU or FIFO state the pages in memory and the misses of a run are those of the policy's queue of pages |
| Replacement.LruHoldsMostRecent | Assignment3/lru.c:33-109 | memory always holds the memsize most recently used pages, in that order |
| Replacement.LruVictimIsOldest | Assignment3/lru.c:28-53 | the evicted page is the one in memory whose last use is oldest |
| Replacement.LruStack | Assignment3/README.txt:230 | stack property: more frames hold a superset of the pages after every trace, and hits never fall |
| Replacement.ConservativeRun | Assignment3/lru.c:33-109 | the same bound of one miss per page for the simulator itself, from any reachable state |
| Replacement.FifoIsLoadOrder | Assignment3/fifo.c:21-27 | in every FIFO run the pages in memory, next victim first, are in the order of the misses that loaded them |
| Replacement.FifoVictimIsOldest | Assignment3/fifo.c:21-27 | with no frame free, every other page in memory was loaded after the victim, however recently either was used |
| Replacement.FifoMissLands | Assignment3/fifo.c:21-27 | the k-th miss lands in frame k mod memsize; with no frame free that frame holds the victim, the page whose last load is oldest |
| Competitive.AnyPolicyPays | Assignment3/pagetable.c:35-37 | lower bound on the misses of any policy with any victims, phase by phase |
| Competitive.LruAndFifoAreCompetitive | Assignment3/lru.c:33-109 | LRU or FIFO with m frames misses at most m / (m - h + 1) times as often as any policy with h <= m frames, both starting empty |
| Competitive.SameMemory | Assignment3/fifo.c:21-27 | with equal memories the factor is memsize |
| Lanes.PutIsEnqueue | Assignment2/cars.c:113-122 | putting a car in the ring appends it to the pending cars, whatever wraps |
| Lanes.TakeIsDequeue | Assignment2/cars.c:173-183 | taking a car out removes the first pending car, whatever wraps |
| Lanes.LaneRecord.constructor | Assignment2/cars.c:64-81 | a lane starts with an empty ring and empty lists |
| Lanes.LaneRecord.Schedule | Assignment2/cars.c:30-41 | a scheduled car goes to the head of in_cars and is counted |
| Lanes.LaneRecord.Put | Assignment2/cars.c:113-122 | the in-place update is the enqueue |
| Lanes.LaneRecord.Take | Assignment2/cars.c:173-183 | the in-place update is the dequeue |
| Lanes.LaneRecord.Pass | Assignment2/cars.c:205-207 | the car goes to the head of out_cars and is counted |
| Intersection.StepKeeps | Assignment2/cars.c:93-222 | every step of every thread keeps the invariant: lock owners, ring buffers, who may sleep, and the account of all cars |
| Intersection.SpuriousKeeps | Assignment2/cars.c:109-171 | so does a wakeup without a signal |
| Progress.InitialInv | Assignment2/cars.c:53-83 | the initial intersection satisfies the invariant |
| Progress.HolderMoves | Assignment2/cars.c:203-209 | the holder of a lane lock never waits while it holds it |
| Progress.ChaseQuadrant | Assignment2/cars.c:195-199 | waiting for quadrants in ascending order cannot form a cycle: the chain of waiting cars ends at a thread that can move |
| Progress.SomebodyAwake | Assignment2/cars.c:97-171 | no wakeup is lost: with the locks free, one of a lane's two unfinished threads can move |
| Progress.NeverStuck | Assignment2/cars.c:93-222 | no reachable unfinished state is stuck |
| Progress.StepLowers | Assignment2/cars.c:93-222 | every step lowers a measure |
| Progress.RunsAreBounded | Assignment2/cars.c:93-222 | every run is finite, with at most two more steps for each wakeup without a signal |
| Progress.FinishedState | Assignment2/cars.c:201-207 | when all threads have returned, each out_cars holds exactly the scheduled cars with that out_dir, lanes are empty and locks free |
| Progress.EveryCarCrosses | Assignment2/cars.c:93-222 | the three together, for every interleaving from the start |
| Progress.LaneAtRest | Assignment2/cars.c:97-187 | at a free lane lock: inc = |in_cars| + in_buf, tail = (head + in_buf) mod capacity, ring = pending cars in arrival order, and the schedule is crossed + pending + waiting |
| Progress.QuadrantsAreExclusive | Assignment2/cars.c:195-215 | no quadrant is held by two cars, while they lock, cross or release; a car that crosses holds its whole route |
| ResourceMap.AcquireBalanced | Assignment4/ext2_utils.c:336-342 | both counters stay equal to the number of clear bits when a free number is taken |
| ResourceMap.ReleaseBalanced | Assignment4/ext2_utils.c:208-226 | and when a number in use is released |
| ResourceMap.AcquireUndoesRelease | Assignment4/ext2_utils.c:208-330 | taking back a released number restores bitmap and counters, even when a counter wraps |
| ResourceMap.ReleaseUndoesAcquire | Assignment4/ext2_utils.c:208-349 | releasing a number just taken restores them too |
| ResourceMap.Bitmap.IsInUse | Assignment4/ext2_utils.c:109-118 | answers membership in the numbers in use |
| ResourceMap.Bitmap.SetInUse | Assignment4/ext2_utils.c:296-330 | takes the number and counts it twice; exits exactly when it is in use already |
| ResourceMap.Bitmap.Free | Assignment4/ext2_utils.c:208-226 | releases the number and counts it twice, whatever its bit was |
| ResourceMap.Bitmap.Allocate | Assignment4/ext2_utils.c:80-101 | takes the least free number; exits exactly when none is free, although the scan runs over count bytes |
| Inodes.ReleaseAllValue | Assignment4/ext2_utils.c:232-265 | freeing a list of numbers removes exactly these and adds their count to both counters |
| Inodes.ClaimAllValue | Assignment4/ext2_restore.c:149-185 | claiming a list succeeds if and only if its numbers are distinct and free, and then adds exactly these |
| Inodes.ClaimUndoesRelease | Assignment4/ext2_restore.c:134-188 | claiming what was freed, in another order, restores bitmap and counters |
| Inodes.ReleaseUndoesClaim | Assignment4/ext2_utils.c:232-265 | freeing what was claimed, in another order, restores them |
| Inodes.SameBlocks | Assignment4/ext2_restore.c:149-185 | the blocks claimed by a restore are those freed by an unlink, the indirect block earlier |
| Volume.Disk.FreeDataBlocks | Assignment4/ext2_utils.c:232-265 | frees the direct blocks up to the first 0, the blocks listed in the indirect block, and the indirect block |
| Volume.Disk.Unlink | Assignment4/ext2_utils.c:273-291 | one link less; at the last one deletion time, blocks freed, inode freed; exits exactly when there was none |
| Volume.Disk.IsAllFree | Assignment4/ext2_restore.c:70-125 | true if and only if neither the inode nor any block it reaches is in use |
| Volume.Disk.Reclaim | Assignment4/ext2_restore.c:134-188 | refuses with ENOENT and no change, restores inode, links, time and blocks, or exits at a block that is reached twice, with the inode and the blocks before it taken |
| Volume.ClashExactly | Assignment4/ext2_restore.c:139-187 | that exit happens if and only if the inode and all its blocks are free and some block is reached twice |
| Volume.ReclaimUndoesUnlink | Assignment4/ext2_restore.c:134-188 | unlinking the last link and reclaiming restores both bitmaps, all four counters, the inode and every block |
| Volume.Disk.AllocateBlock | Assignment4/ext2_utils.c:336-349 | the least free block, zeroed; no other block changes |
| Volume.Disk.CopySource | Assignment4/ext2_utils.c:693-748 | succeeds if and only if enough blocks are free; then every byte up to 268 blocks reads back through the pointers, size and sectors are right, and nothing else changed; on the exit of a full disk the blocks taken so far hold the first part of the source |
| Volume.CopyEnd | Assignment4/ext2_utils.c:693-748 | the finished copy reads back byte by byte, and freeing its blocks returns the block map and its counters to their state before |
| FileData.ReadsBack | Assignment4/ext2_utils.c:700-747 | walking the 12 direct slots and then the indirect block finds each byte of the source |
| DirBlock.FindIsFirst | Assignment4/ext2_utils.c:456-472 | the scan of a block finds a name if and only if it is listed, and finds its first listing |
| DirBlock.AddInserts | Assignment4/ext2_utils.c:519-557 | adding over an unused record or behind a name keeps the records tiling 1024 bytes and inserts exactly one entry into the listing |
| DirBlock.AbandonedSplit | Assignment4/ext2_utils.c:538-556 | with only the first half of a split done, the block tiles if and only if the bytes behind the name do, and then lists what these bytes say |
| DirBlock.FirstEntryAlone | Assignment4/ext2_utils.c:565-582 | a new directory block tiles and lists just the new entry |
| DirBlock.HideRemoves | Assignment4/ext2_rm.c:104-114 | zeroing the first record's inode, or merging rec_len into the record before, keeps the tiling and removes exactly one entry |
| Directory.FindIsLookup | Assignment4/ext2_utils.c:436-475 | find_entry is lookup in the finite map of the directory |
| Directory.SpotIsFirst | Assignment4/ext2_utils.c:508-562 | where nothing is found no record of the directory has the bytes to spare; the record found has them, and none before it in its block or in the first block |
| Directory.PutInserts | Assignment4/ext2_utils.c:509-562 | the same insertion over all blocks of a directory |
| Directory.HidingRemoves | Assignment4/ext2_rm.c:75-139 | the same removal over all blocks of a directory |
| Directory.InsertIsInsert | Assignment4/ext2_utils.c:495-586 | inserting an entry under a new name into a listing inserts it into the map |
| Directory.RemoveIsRemove | Assignment4/ext2_rm.c:67-145 | removing an entry of a listing without duplicate names removes its name from the map |
| DirectoryTools.FindInBlock | Assignment4/ext2_utils.c:454-472 | the loop over one block computes the first match and ends at the block's end |
| DirectoryTools.FindName | Assignment4/ext2_utils.c:436-475 | exits if and only if the name has more than 255 bytes, else the loops over the blocks compute the first match of the directory |
| DirectoryTools.FindSpot | Assignment4/ext2_utils.c:508-562 | the loops find the first record with room, or the slot for a new block |
| DirectoryTools.AllocateInode | Assignment4/ext2_utils.c:182-203 | takes and blanks the least free inode and sets its type; exits exactly when none is free |
| DirectoryTools.InitEntry | Assignment4/ext2_utils.c:411-429 | one more link on the given or a new inode, and the record's fields and name written |
| DirectoryTools.CreateEntry | Assignment4/ext2_utils.c:495-586 | EEXIST if and only if the name is there, exit if and only if room or an inode is missing, else exactly the new entry, its block and its inode; on the exit the image is as it was, or has half a split done, or a zeroed block linked |
| DirectoryTools.CreateIsInsert | Assignment4/ext2_utils.c:495-586 | creating inserts one name into the map, leaves all others, and keeps names unique and blocks tiled |
| DirectoryTools.CreateAt | Assignment4/ext2_utils.c:516-556 | the entry goes over the unused record or behind the name; when no inode is free only the split's first half is done |
| DirectoryTools.CreateInNewBlock | Assignment4/ext2_utils.c:565-586 | the entry gets a block of its own; when no inode is free the block stays linked, all zeros |
| Exits.ExitKeepsDirectoryExactly | Assignment4/ext2_utils.c:495-586 | after an exit the directory is still one if and only if the name was too long, there was no room, the spot was an unused record, or the bytes behind the split name tile under new names |
| Exits.ExitKeepsSoundExactly | Assignment4/ext2_utils.c:495-586 | after an exit a sound volume is still sound if and only if nothing was written, or the bytes behind the split name tile under new names and name every inode as often as before |
| Exits.SlackDecides | Assignment4/ext2_utils.c:533-556 | where the slack reads as records up to its end, half a split keeps the volume sound if and only if none of these is in use |
| FailingVolumes.SplitBreaks | Assignment4/ext2_utils.c:538-556 | on a formatted volume whose only file has taken the last inode, asking for one more name leaves a root that no longer tiles |
| FailingVolumes.NewBlockBreaks | Assignment4/ext2_utils.c:565-582 | on one whose root has no room left, with a free block and no free inode, the exit leaves a block that no scan gets through |
| DirectoryTools.DeleteEntry | Assignment4/ext2_rm.c:67-145 | exits on a name over 255 bytes; else ENOENT if and only if the name is missing, EISDIR if and only if it is a directory's, the exit if and only if it is a file's without links, each without a change; else the inode unlinked and the entry hidden |
| DirectoryTools.AnswerByName | Assignment4/ext2_rm.c:98-139 | the answer at the entry found is that for the name in the directory's map |
| DirectoryTools.DeleteIsRemove | Assignment4/ext2_rm.c:67-145 | deleting removes one name from the map, leaves all others, and keeps names unique and blocks tiled |
| Restore.QuietIsPassed | Assignment4/ext2_restore.c:251-302 | a gap of whole stale records under other names is walked to its end |
| Restore.QuietIsScanned | Assignment4/ext2_restore.c:243-309 | through such gaps pos and last_valid_entry stay together, record by record |
| Restore.HiddenIsHit | Assignment4/ext2_restore.c:243-302 | after a delete the scan of the block ends at the hidden record, with its predecessor as last_valid_entry |
| Restore.UnhideUndoesHide | Assignment4/ext2_restore.c:194-204 | unhiding restores every byte that hiding changed |
| Restore.WalkThroughGap | Assignment4/ext2_restore.c:251-302 | the inner loop computes the walk of a gap, whatever bytes it meets, and ends |
| Restore.ScanOneBlock | Assignment4/ext2_restore.c:229-309 | the outer loop computes the scan of a block, including the drift after an overshoot, and ends |
| Restore.RestoreFile | Assignment4/ext2_restore.c:215-314 | exits on a name over 255 bytes; EEXIST if and only if the name is listed, ENOENT if and only if no stale record is found or what it leads to is not free, EISDIR if and only if it is a directory's, each without a change; else inode, blocks and both rec_len restored, or the exit if and only if a block is reached twice |
| Restore.RestoreUndoesDelete | Assignment4/ext2_restore.c:215-314 | with whole stale records under other names in the gaps before it, an entry that is not first comes back: directory bytes, both bitmaps, all counters and the inode as they were |
| Restore.FirstEntryIsLost | Assignment4/ext2_restore.c:237-241 | with whole stale records in all gaps, restoring the first entry of a block answers ENOENT |
| Unhiding.ScanShape | Assignment4/ext2_restore.c:243-309 | however far pos has drifted, a hit is behind the name of the record last_valid_entry points to, and that is a record of the chain |
| Unhiding.UnhidingInserts | Assignment4/ext2_restore.c:194-204 | unhiding a stale record that fits inserts exactly one entry into the directory's listing |
| Unhiding.RestoreTilesExactly | Assignment4/ext2_restore.c:194-204 | unhiding leaves the directory's blocks tiled if and only if the stale record fits in the gap, or starts right behind the block and the next block is not the directory's |
| RoundTrip.ReachesExactly | Assignment4/ext2_restore.c:229-309 | the scan ends at a given stale record if and only if the walk through the gaps comes to it, with that last_valid_entry and without an earlier hit |
| RoundTrip.UndoneIsHidden | Assignment4/ext2_restore.c:194-204 | an unhide that gives back the bytes before a delete has found the very record that the delete hid, and that was not the first of its block |
| RoundTrip.RestoreUndoesDeleteExactly | Assignment4/ext2_rm.c:104-114 | for every name that rm removes from any directory, rm and then restore is the identity on the volume if and only if the file had one link and no deletion time, was not the first entry of its block, and the walk reaches it |
| RoundTrip.SoundRestoreUndoesDelete | Assignment4/ext2_restore.c:215-314 | in a sound volume this decides it for every name that is removed |
| RoundTrip.ShortGapIsLost | Assignment4/ext2_restore.c:251-302 | behind four bytes of slack that are not zero the walk steps over the record, so it is not brought back |
| FailingVolumes.LaterEntryIsLost | Assignment4/ext2_restore.c:251-302 | from a formatted volume: create two files, remove the first, create another; then rm and restore of the second, which has one link and no deletion time and is not first in its block, answers ENOENT |
| FailingVolumes.EarlierEntryIsLost | Assignment4/ext2_restore.c:237-241 | from a formatted volume: a file whose entry is the first of the root's second block does not come back |
| Soundness.OwnedStep | Assignment4/ext2_utils.c:80-101 | a step in which one inode takes only free blocks keeps block ownership disjoint and marked |
| Soundness.CreateKeepsSound | Assignment4/ext2_utils.c:495-586 | creating a file, a hard link or a directory entry keeps the volume sound: ownership disjoint and in use, four counters equal to the clear bits, link counts equal to the entries naming the inode |
| SoundTools.UnlinkOwned | Assignment4/ext2_utils.c:273-291 | unlinking keeps block ownership disjoint and marked |
| SoundTools.ListedIsUnlinkable | Assignment4/ext2_utils.c:277-280 | in a sound volume a listed inode has a link to give up, so the exit of unlink_inode is not reached |
| SoundTools.FilesAreDeleted | Assignment4/ext2_rm.c:98-120 | in a sound volume a listed name is deleted if and only if it is no directory's, and else refused with EISDIR |
| SoundTools.DeleteKeepsSound | Assignment4/ext2_rm.c:67-145 | whatever name is deleted, the volume stays sound and one name is gone from one directory |
| SoundTools.RemoveName | Assignment4/ext2_rm.c:67-145 | delete_file_entry on any name of a sound volume keeps it sound: ENOENT, EISDIR and success by the name alone, no change unless it succeeds, and then just that name gone |
| SoundTools.CopyKeepsSound | Assignment4/ext2_utils.c:693-748 | copying a source in keeps the volume sound and every directory as it was |
| SoundTools.StoppedCopyKeepsSound | Assignment4/ext2_utils.c:693-748 | so does a copy that exits on a full disk, however far it has come |
| SoundTools.EmptyVolumeIsSound | Assignment4/ext2_utils.c:182-203 | an empty root directory in an otherwise free volume is sound |
| SoundTools.BlankDisk | Assignment4/ext2_utils.c:17-30 | a mounted image with such a value exists, and the tools accept it |
| RootVolumes.FormattedRoot | Assignment4/ext2_utils.c:495-586 | a sound and tidy volume whose root is inode 2 and lists itself as . and .., made by creations, with the size and sectors of its one block |
| SoundRestore.ReclaimOwned | Assignment4/ext2_restore.c:134-188 | reclaiming keeps block ownership disjoint and marked |
| SoundRestore.ReclaimAccounted | Assignment4/ext2_restore.c:134-188 | reclaiming keeps all four counters equal to the clear bits |
| SoundRestore.ClashIsUnsound | Assignment4/ext2_restore.c:144-156 | the exit in the middle of a reclaim leaves all four counters right and an inode in use with one link that no directory lists, so the volume is unsound |
| SoundRestore.AbandonedIsUnsound | Assignment4/ext2_restore.c:215-314 | a restore that exits there never leaves a sound volume |
| SoundRestore.RestoreKeepsSoundExactly | Assignment4/ext2_restore.c:215-314 | a restore that succeeds keeps the volume sound if and only if the stale record fits behind the valid one; then it inserts one name into one directory |
| FailingVolumes.MisfitBreaks | Assignment4/ext2_restore.c:194-204 | a sound volume, its root at inode 2 with . and .., that a restore leaves unsound |
| FailingVolumes.ClashBreaks | Assignment4/ext2_restore.c:144-156 | a sound volume on which a restore exits at a block reached twice |
| SoundRuns.RunKeepsSoundExactly | Assignment4/ext2_utils.c:495-586 | along any sequence of creations, hard links, directories, deletions, copies and restores, ended or left by an exit, the volume is sound throughout if and only if every record restored fits and every exit is one of the harmless ones |
| Growth.CreateGrows | Assignment4/ext2_utils.c:565-573 | a creation leaves i_size 1024 and i_blocks 2 for each block of every directory, one that it has made or let grow included |
| Growth.ExitGrows | Assignment4/ext2_utils.c:565-573 | so does its exit, also after it has linked a block of zeros |
| SoundRuns.RunKeepsGrown | Assignment4/ext2_utils.c:565-573 | along any sequence of uses, harmless or not, the size of every directory is 1024 bytes and its sector count 2 for each of its blocks |
| Frames.SameFileReads | Assignment4/ext2_utils.c:232-265 | an untouched file reads back the same, byte by byte, and has the same size and mode |
| Frames.UseKeepsFiles | Assignment4/ext2_utils.c:273-291 | no harmless use of a tool in a sound volume touches a file it does not copy to: mode, size, sectors, pointers and bytes stay; only the deletion of the last link sets a deletion time, the time given |
| Tidiness.CreateKeepsTidyExactly | Assignment4/ext2_utils.c:411-429 | a creation keeps inodes and entries in order if and only if the type asked for is one of the three, or that of the inode linked |
| Tidiness.RestoreKeepsTidyExactly | Assignment4/ext2_restore.c:215-314 | a restore does if and only if the stale record fits, has the type of its inode, and no pointer of that inode follows a 0 |
| Tidiness.RunKeepsTidyExactly | Assignment4/ext2_utils.c:182-203 | along any sequence of uses inodes in use have no deletion time, no pointer behind a 0, every entry the type of its inode and every directory the counts of its blocks, if and only if every use is harmless and of this kind |
| SoundTools.MakesDirectory | Assignment4/ext2_mkdir.c:53-64 | the three creations of mkdir keep the volume sound; the new directory lists itself and its parent |
| SoundTools.EnterName | Assignment4/ext2_utils.c:495-586 | create_dir_entry in a sound volume: its outcome, the volume sound after a success, unchanged after EEXIST and after the exit of a hard link, and what the exit leaves otherwise |
| SoundTools.MakeDirectory | Assignment4/ext2_mkdir.c:53-66 | the outcome is that of the first creation, except that it exits if and only if that creation leaves no free block; after success there is exactly such a directory, of one block and with its size and sectors, after EEXIST no change, and after that exit a sound volume with a directory without names |
| SoundTools.NoBlockLeft | Assignment4/ext2_mkdir.c:54-61 | the first creation leaves no free block if and only if the blocks in use, and one more if the parent has no room for the name, are all there are |
| FailingVolumes.MkdirBreaks | Assignment4/ext2_mkdir.c:53-64 | on a formatted volume of one block mkdir exits and leaves the new directory listed, without . and .. |
| Checker.TypeMatchesMode | Assignment4/ext2_checker.c:112-124 | the type an entry is created with is the one expected of its new inode, exactly for the three file types |
| Checker.RecordsAreListed | Assignment4/ext2_checker.c:278-286 | the records visited in a block are exactly the entries it lists |
| Checker.VisitCovers | Assignment4/ext2_checker.c:252-291 | the visit leaves nothing out: with each entry that is followed, all entries of its directory are visited |
| Checker.MarkValue | Assignment4/ext2_checker.c:199-244 | afterwards exactly the old and the listed numbers are in use, and nothing is counted if and only if all were |
| Checker.CleanNeedsNothing | Assignment4/ext2_checker.c:134-244 | an entry needs no repair if and only if its type, bit, deletion time and blocks are consistent |
| Checker.RepairedIsClean | Assignment4/ext2_checker.c:134-244 | a repaired entry is consistent |
| Checker.RepairKeepsClean | Assignment4/ext2_checker.c:252-291 | repairing one entry keeps another consistent |
| Checker.TreeAlike | Assignment4/ext2_checker.c:252-291 | repairs change neither the tree nor the order in which it is visited |
| Checker.TreeRepairIsIdempotent | Assignment4/ext2_checker.c:252-291 | after one walk every visited entry is consistent, and a second walk visits the same entries and repairs nothing |
| Checker.BalancedNeedsNothing | Assignment4/ext2_checker.c:17-106 | a counter is reported if and only if it differs from the number of clear bits, and is then made equal to it |
| Checker.RootBecomesDirectory | Assignment4/ext2_checker.c:307-314 | or-ing in the directory bit makes the root a directory if and only if its type was 0 or directory |
| Checker.CheckerIsIdempotent | Assignment4/ext2_checker.c:294-330 | after one run counters match bitmaps and entries are consistent, and a second run visits the same entries and changes nothing; it reports nothing if and only if the root's type was 0 or directory, and else the root once more |
| Checker.CountersCommute | Assignment4/ext2_checker.c:320 | repairing the counters before or after the tree gives the same image and the same number of tree repairs |
| Checker.ReportCommutes | Assignment4/ext2_checker.c:320 | unless a counter wraps, the reported total does not depend on the order of the three calls either |
| CheckerEffect.RepairAllEffect | Assignment4/ext2_checker.c:134-244 | the repairs of any list of records change their types, the deletion times of the inodes they name, and the bits of these and of the blocks looked at, each to what the image says at the start, and nothing else |
| CheckerEffect.CheckedInodes | Assignment4/ext2_checker.c:175-191 | after a run every inode has its size, links, sectors and pointers; its mode too, for the root up to the type; and loses its deletion time if and only if it was visited |
| CheckerEffect.CheckedBytes | Assignment4/ext2_checker.c:134-149 | of all bytes of all blocks only the types of visited records change |
| CheckerEffect.CheckedMaps | Assignment4/ext2_checker.c:158-244 | exactly the visited inodes, and the blocks looked at for them, come into use |
| CheckerEffect.VisitedBlocksInUse | Assignment4/ext2_checker.c:199-244 | afterwards the 12 direct blocks of a visited inode, its indirect block and the first 255 listed there are in use, as far as they are not 0 |
| CheckerEffect.ReportIsFaults | Assignment4/ext2_checker.c:294-330 | the number reported is one for a root that is no directory, the errors of the four counters, and one for each mistyped record, each dated inode, each unmarked inode and each unmarked block |
| CheckerEffect.DirectoriesStay | Assignment4/ext2_checker.c:252-291 | every directory lists the same names and inode numbers as before |
| CheckerEffect.FilesStay | Assignment4/ext2_checker.c:252-291 | a file whose blocks hold no visited record reads back the same, byte by byte, and has the same size |
| CheckedVolumes.CheckerKeepsFiles | Assignment4/ext2_checker.c:252-291 | in a sound volume the checker leaves every file as it was, whatever it repairs |
| CheckedVolumes.CheckerFindsNothing | Assignment4/ext2_checker.c:294-330 | in a volume as the tools keep it the checker reports 0 and changes nothing |
| CheckedVolumes.CheckTidy | Assignment4/ext2_checker.c:294-330 | the run of the program on such a volume: 0 repairs, the same image |
| CheckedVolumes.CheckFormatted | Assignment4/ext2_checker.c:294-330 | on a volume just formatted, of any size, it finds nothing |
| Checker.CountFree | Assignment4/ext2_checker.c:22-37 | the double loop counts the free numbers |
| Checker.FixFreeCount | Assignment4/ext2_checker.c:17-106 | sets both counters to the number of clear bits and returns by how much they were off |
| Checker.FixDataBlocks | Assignment4/ext2_checker.c:199-244 | takes the unmarked ones of the 12 direct blocks, the indirect block and its first 255 words, and counts them |
| Checker.FixEntry | Assignment4/ext2_checker.c:254-256 | the four repairs of one entry and their number |
| Checker.FixRecursively | Assignment4/ext2_checker.c:252-291 | the recursion performs the repairs of all visited entries in order, and returns their number |
| Checker.Check | Assignment4/ext2_checker.c:294-330 | the whole run, from the mounted image to the number of repairs |

## Left out

- Paging: memsize is at most 2^20 so that `frame << 12` fits, addresses are below 2^36, swapsize * 16 fits an int, and the five counters are unbounded; the version in a page wraps at 2^32.
- Paging: `opt.c` and `rand.c` are an arbitrary victim in range; `malloc`, `lseek`, `read` and `write` failures, the swap file's name, `getopt` and printing are left out; a trace line is its first character and an address.
- Paging: a frame holds a version and an address instead of 16 bytes; a slot of the swap file holds one such page.
- Intersection: `compute_path` is replaced by any strictly ascending list of quadrants, because its switch has no breaks; the loops that use the size of a pointer are read as going over the whole path.
- Intersection: `parse_schedule` appears as one lane update; thread creation, `free` and printing are left out; LANE_LENGTH is any positive capacity.
- ext2: superblock, group descriptor, bitmaps and inode table are separate regions of the model, so a pointer that leads into them is not followed there; the casts before `->` in the counter updates are read as the superblock's fields, and `get_group_descriptor` as `get_group_desc`.
- ext2: the padding bits behind the last valid bit of a bitmap are 1, as mke2fs leaves them; without that the allocators, which take the number of bits for the number of bytes, would run on.
- ext2: bit n - 1 of the block bitmap stands for block n of the image, so the bit of number s_blocks_count stands for no block and is taken as set.
- ext2: both maps have fewer than 65536 numbers, because the group's counters have 16 bits; a link count that would pass 65535 is excluded where link counts are compared with names.
- ext2: the read of one word past slot 255 of an indirect block is guarded, since its value is never used; reads past the end of the image during a restore are taken as 0.
- ext2: directories are well formed where the tools loop on `pos != block_end`: records tile their block, with room for their names. The branch of `delete_file_entry` for a rec_len of 0 is then not reached.
- ext2: access, change and modification times, user and group ids, `bg_used_dirs_count`, printing, `mmap`, and the search of a path for its directory (`strtok`, `find_container_directory`) are left out, and so are the main functions of cp and ln beyond the entries and data they create; a read from the source file is short only at its end.
- ext2: a stale record leads to an inode of the image whose pointers lead to blocks of the image; what a restore does with other numbers is not described.
- ext2: the exits for bad command lines and paths, before any tool has written, are left out.
- DirectoryTools.AllocateInode: the three time stamps of lines 194-200 are not modelled.
- SoundTools.MakeDirectory: `bg_used_dirs_count` (line 57 of ext2_mkdir.c) is not modelled.
- Checker.ReportCommutes: a counter that wraps while the tree is repaired is excluded.
- Checker: entries below a directory whose name begins with a dot are not visited, as in the source; the tree is acyclic, no directory block in it serves as an indirect block, and the last word of an indirect block is not looked at.
- `Assignment1`, page-table printing, `swap_destroy` and `verify` hold no state of interest.
