/** Restoring in a sound volume: reclaiming keeps ownership and both bitmaps' accounts, and the whole
    restore keeps the volume sound exactly when the stale record fits. */
module SoundRestore {
  import opened Prelude
  import opened ResourceMap
  import opened Inodes
  import opened DirBlock
  import opened Directory
  import opened Volume
  import opened DirectoryTools
  import opened Restore
  import opened Unhiding
  import opened Soundness
  import opened SoundTools

  // ---------- reclaiming ----------

  lemma {:induction false} DirectPositive(ptr: seq<nat>, k: nat)
    requires |ptr| == SLOTS && k <= DIRECT
    ensures 0 !in Direct(ptr, k)
    decreases DIRECT - k
  {
    if k == DIRECT || ptr[k] == 0 {
    } else {
      DirectPositive(ptr, k + 1);
    }
  }

  lemma {:induction false} EntriesPositive(b: Block, k: nat)
    requires k <= PTRS
    ensures 0 !in Inodes.Entries(b, k)
    decreases PTRS - k
  {
    hide U32At;
    if k == PTRS || U32At(b, 4 * k) == 0 {
    } else {
      EntriesPositive(b, k + 1);
    }
  }

  lemma ClaimPositive(i: Inode, disk: seq<Block>)
    requires PointersOk(i, disk)
    ensures forall n :: n in ClaimOrder(i, disk) ==> 0 < n < |disk|
  {
    hide Direct, Inodes.Entries;
    DirectPositive(i.ptr, 0);
    if HasIndirect(i) {
      EntriesPositive(disk[i.ptr[DIRECT]], 0);
    }
  }

  lemma ClaimedOnce(i: Inode, disk: seq<Block>)
    requires PointersOk(i, disk) && NoDup(ClaimOrder(i, disk))
    ensures NoDup(FreeOrder(i, disk))
  {
    hide Direct, Inodes.Entries;
    if HasIndirect(i) {
      UnrotateNoDup(Direct(i.ptr, 0), Inodes.Entries(disk[i.ptr[DIRECT]], 0), i.ptr[DIRECT]);
    }
  }

  /** What a reclaim changes, as far as the invariant can see. */
  lemma ReclaimStep(fs: Fs, num: nat, fs1: Fs)
    requires Accounted(fs) && Linked(fs, num) && AfterReclaim(fs, num) == Restored(fs1)
    ensures fs1.disk == fs.disk && |fs1.inodes| == |fs.inodes|
    ensures forall i :: 0 <= i < |fs.inodes| && i != num - 1 ==> fs1.inodes[i] == fs.inodes[i]
    ensures fs1.inodes[num - 1].ptr == fs.inodes[num - 1].ptr && fs1.inodes[num - 1].links == 1
    ensures num !in fs.inodeMap.used && fs1.inodeMap.used == fs.inodeMap.used + {num}
    ensures fs.blockMap.used <= fs1.blockMap.used && NoDup(Order(fs, num))
    ensures forall n :: n in Order(fs, num) ==> n in fs1.blockMap.used && n !in fs.blockMap.used
    ensures Accounted(fs1)
  {
    hide FreeOrder, ClaimOrder, NoDup, ClaimAll, PointersOk;
    var i := fs.inodes[num - 1];
    var order := ClaimOrder(i, fs.disk);
    ClaimAllValue(fs.blockMap, order);
    ClaimPositive(i, fs.disk);
    ClaimedOnce(i, fs.disk);
    SameBlocks(i, fs.disk);
    ClaimAllBalanced(fs.blockMap, order, |fs.disk|);
    AcquireBalanced(fs.inodeMap, num, |fs.inodes|);
    assert forall n :: n in order ==> n in Elements(order);
  }

  /** A reclaimed inode shares no block with any other. */
  lemma ReclaimOwned(fs: Fs, num: nat, fs1: Fs)
    requires Owned(fs) && Accounted(fs) && Linked(fs, num) && AfterReclaim(fs, num) == Restored(fs1)
    ensures Owned(fs1)
  {
    hide NoDup, FreeOrder, PointersOk, AfterReclaim, Accounted;
    ReclaimStep(fs, num, fs1);
    PointersKeep(fs, fs1, num);
    forall i | i in fs.inodeMap.used ensures SameOrder(fs, fs1, i) && Owns(fs, i) {
      assert Owns(fs, i);
      PointersKeep(fs, fs1, i);
    }
    OwnedStep(fs, fs1, num);
  }

  lemma ReclaimAccounted(fs: Fs, num: nat, fs1: Fs)
    requires Accounted(fs) && Linked(fs, num) && AfterReclaim(fs, num) == Restored(fs1)
    ensures Accounted(fs1)
  {
    hide AfterReclaim, Accounted;
    ReclaimStep(fs, num, fs1);
  }

  /** Directories in use keep their listings. */
  lemma ReclaimListing(fs: Fs, num: nat, fs1: Fs, d: nat)
    requires Accounted(fs) && Linked(fs, num) && AfterReclaim(fs, num) == Restored(fs1) && GoodDir(fs, d)
    ensures SameListing(fs, fs1, d) && GoodDir(fs1, d) && d != num
  {
    hide NoDup, Direct, AfterReclaim, Accounted, Listing, Tiled, FreeOrder, UniqueNames, PointersOk;
    ReclaimStep(fs, num, fs1);
  }

  // ---------- the exit in the middle of a reclaim ----------

  lemma {:induction false} ClaimUpToBalanced(m: Map, ns: seq<nat>, count: nat)
    requires Balanced(m, count) && count < U16 && forall n :: n in ns ==> n in Numbers(count)
    ensures Balanced(ClaimUpTo(m, ns), count)
    decreases |ns|
  {
    hide Balanced, Acquire;
    if ns == [] || ns[0] in m.used {
    } else {
      assert ns[0] in ns;
      AcquireBalanced(m, ns[0], count);
      ClaimUpToBalanced(Acquire(m, ns[0]), ns[1..], count);
    }
  }

  /** The exit leaves the counters right and one more inode in use, with one link. */
  lemma ClashStep(fs: Fs, num: nat, left: Fs)
    requires Accounted(fs) && Linked(fs, num) && AfterReclaim(fs, num) == Clash(left)
    ensures left.disk == fs.disk && |left.inodes| == |fs.inodes| && Accounted(left)
    ensures forall i :: 0 <= i < |fs.inodes| && i != num - 1 ==> left.inodes[i] == fs.inodes[i]
    ensures num !in fs.inodeMap.used && left.inodeMap.used == fs.inodeMap.used + {num} && left.inodes[num - 1].links == 1
  {
    hide ClaimOrder, ClaimUpTo, ClaimAll, PointersOk;
    ClaimPositive(fs.inodes[num - 1], fs.disk);
    ClaimUpToBalanced(fs.blockMap, ClaimOrder(fs.inodes[num - 1], fs.disk), |fs.disk|);
    AcquireBalanced(fs.inodeMap, num, |fs.inodes|);
  }

  lemma ClashListing(fs: Fs, num: nat, left: Fs, d: nat)
    requires Accounted(fs) && Linked(fs, num) && AfterReclaim(fs, num) == Clash(left) && GoodDir(fs, d)
    ensures SameListing(fs, left, d)
  {
    hide NoDup, Direct, AfterReclaim, Accounted, Listing, Tiled, FreeOrder, UniqueNames, PointersOk;
    ClashStep(fs, num, left);
  }

  /** Its link is no name's: in a sound volume the exit leaves an inode in use that nothing lists. */
  lemma ClashIsUnsound(fs: Fs, dirs: seq<nat>, num: nat, left: Fs)
    requires Sound(fs, dirs) && Linked(fs, num) && AfterReclaim(fs, num) == Clash(left)
    ensures Accounted(left) && num in left.inodeMap.used && left.inodes[num - 1].links == 1
    ensures AllDirsOk(left, dirs) && Total(left, dirs, num) == 0
    ensures !Sound(left, dirs)
  {
    hide AfterReclaim, Accounted, Owned, Listed, DirOk, Compact, GoodEntry, NoDup, PointersOk, LinksCounted;
    ClashStep(fs, num, left);
    forall d | d in dirs ensures SameListing(fs, left, d) && DirOk(left, d) {
      assert GoodDir(fs, d);
      ClashListing(fs, num, left, d);
    }
    AllGoodEntries(fs, dirs);
    FreeHasNoNames(fs, dirs, dirs, num);
    TotalSame(fs, left, dirs, num);
    NotCounted(left, dirs, num);
  }

  lemma NotCounted(fs: Fs, dirs: seq<nat>, num: nat)
    requires AllDirsOk(fs, dirs) && 1 <= num <= |fs.inodes| && fs.inodes[num - 1].links == 1 && Total(fs, dirs, num) == 0
    ensures !Sound(fs, dirs)
  {
    hide Owned, Accounted, DirsGood, AllDirsOk, Total;
  }

  // ---------- restoring ----------

  /** restore_file succeeds in a sound volume. */
  ghost predicate Restores(fs: Fs, fs': Fs, dirs: seq<nat>, dir: nat, name: seq<Byte>) {
    && Sound(fs, dirs) && dir in dirs && DirOk(fs, dir)
    && StaleLinked(fs, dir, name) && AfterRestore(fs, dir, name) == Recovered(fs')
  }

  /** What the scan has found. */
  ghost function StaleOf(fs: Fs, dir: nat, name: seq<Byte>): Stale
    requires DirOk(fs, dir)
  {
    match Scan(fs.disk, Blocks(fs, dir), name) case Some(at) => at case None => Stale(0, 0)
  }

  /** The stale record lies, with its name, inside the valid record that the scan was at. */
  ghost predicate RestoreFits(fs: Fs, dir: nat, name: seq<Byte>)
    requires DirOk(fs, dir)
  {
    var at := StaleOf(fs, dir, name);
    at.last <= at.entry && StaleFits(fs.disk, at, name)
  }

  /** The entry that comes back. */
  ghost function RestoredEntry(fs: Fs, dir: nat, name: seq<Byte>): (e: Entry)
    requires DirOk(fs, dir)
    ensures e.name == name
  {
    StaleEntry(fs.disk, StaleOf(fs, dir, name), name)
  }

  /** A restore as a reclaim followed by a change of the directory's bytes. */
  ghost predicate InSteps(fs: Fs, fs1: Fs, fs': Fs, dir: nat, name: seq<Byte>, n: nat)
    requires DirOk(fs, dir)
  {
    var at, num := StaleOf(fs, dir, name), RestoredEntry(fs, dir, name).inode;
    && Linked(fs, num) && AfterReclaim(fs, num) == Restored(fs1)
    && fs' == Fs(fs1.blockMap, fs1.inodeMap, fs1.inodes, Unhidden(fs.disk, at))
    && n in Blocks(fs, dir) && n < |fs.disk| && Ends(fs.disk, n, at, name) && at.last + HEADER <= at.entry
  }

  lemma RestoreSteps(fs: Fs, fs': Fs, dirs: seq<nat>, dir: nat, name: seq<Byte>) returns (fs1: Fs, n: nat)
    requires Restores(fs, fs', dirs, dir, name)
    ensures InSteps(fs, fs1, fs', dir, name, n)
    ensures name !in Names(fs, dir) && RestoredEntry(fs, dir, name).kind != FT_DIR
  {
    hide Sound, Direct, AllTiled, UniqueNames, Listing, Scan, Ends, AfterReclaim, Unhidden, Peek, PeekIno, AsMap, FindEntry, PointersOk;
    var at := StaleOf(fs, dir, name);
    assert Scan(fs.disk, Blocks(fs, dir), name).Some?;
    n := ScanShape(fs.disk, Blocks(fs, dir), name);
    EndsBehind(fs.disk, n, at, name);
    EndsInRange(fs.disk, n, at, name);
    fs1 := AfterReclaim(fs, PeekIno(fs.disk, at.entry)).fs;
    FindIsLookup(fs.disk, Blocks(fs, dir), name);
  }

  lemma EndsInRange(disk: seq<Block>, n: nat, at: Stale, name: seq<Byte>)
    requires Ends(disk, n, at, name)
    ensures n < |disk|
  {}

  /** What the reclaim keeps. */
  lemma RestoreReclaims(fs: Fs, fs1: Fs, fs': Fs, dirs: seq<nat>, dir: nat, name: seq<Byte>, n: nat)
    requires Sound(fs, dirs) && dir in dirs && DirOk(fs, dir) && InSteps(fs, fs1, fs', dir, name, n)
    ensures Accounted(fs1) && Owned(fs1) && AllGood(fs1, dirs) && AllGood(fs, dirs)
    ensures forall d :: d in dirs ==> SameListing(fs, fs1, d)
    ensures fs1.disk == fs.disk && |fs1.inodes| == |fs.inodes| && Blocks(fs1, dir) == Blocks(fs, dir)
    ensures var num := RestoredEntry(fs, dir, name).inode;
      && 1 <= num <= |fs.inodes| && num !in fs.inodeMap.used && fs1.inodeMap.used == fs.inodeMap.used + {num} && num !in dirs
      && fs1.inodes[num - 1].links == 1
      && forall i :: 0 <= i < |fs.inodes| && i != num - 1 ==> fs1.inodes[i] == fs.inodes[i]
  {
    hide Direct, AllTiled, UniqueNames, Listing, Owned, Accounted, LinksCounted, Ends, AfterReclaim, Unhidden, Listed, PointersOk, RestoredEntry,
         StaleOf, SameListing, Compact, GoodEntry, NoDup;
    var num := RestoredEntry(fs, dir, name).inode;
    ReclaimStep(fs, num, fs1);
    ReclaimOwned(fs, num, fs1);
    forall d | d in dirs ensures GoodDir(fs, d) && SameListing(fs, fs1, d) && GoodDir(fs1, d) && d != num {
      assert GoodDir(fs, d);
      ReclaimListing(fs, num, fs1, d);
    }
  }

  /** The directory lists one entry more, at index k, and maps its name to it. */
  ghost predicate Inserted(fs: Fs, fs': Fs, dir: nat, k: nat, e: Entry) {
    && k <= |Listed(fs, dir)| && Listed(fs', dir) == InsertAt(Listed(fs, dir), k, e)
    && DirOk(fs, dir) && DirOk(fs', dir) && Names(fs', dir) == Names(fs, dir)[e.name := e]
  }

  ghost predicate OtherBlocksStay(fs: Fs, fs': Fs, n: nat) {
    |fs'.disk| == |fs.disk| && forall m :: 0 <= m < |fs.disk| && m != n ==> fs'.disk[m] == fs.disk[m]
  }

  /** After a fitting restore one directory lists one entry more. */
  lemma RestoreLists(fs: Fs, fs1: Fs, fs': Fs, dir: nat, name: seq<Byte>, n: nat) returns (k: nat)
    requires DirOk(fs, dir) && InSteps(fs, fs1, fs', dir, name, n) && RestoreFits(fs, dir, name) && name !in Names(fs, dir)
    requires |fs1.inodes| == |fs.inodes| && Blocks(fs1, dir) == Blocks(fs, dir)
    ensures Inserted(fs, fs', dir, k, RestoredEntry(fs, dir, name)) && OtherBlocksStay(fs, fs', n)
  {
    hide Direct, AllTiled, UniqueNames, Listing, Ends, AfterReclaim, Unhidden, StaleFits, PutIndex, InsertAt, AsMap, Peek, PeekIno, Scan, PointersOk;
    var bs, at, e := Blocks(fs, dir), StaleOf(fs, dir, name), RestoredEntry(fs, dir, name);
    var lp := LastIn(fs.disk, n, at, name);
    assert AllTiled(fs.disk, bs);
    UnhidingInserts(fs.disk, bs, n, at, name, lp);
    k := PutIndex(fs.disk, bs, Place(n, lp));
    forall m | 0 <= m < |fs.disk| && m != n ensures fs'.disk[m] == fs.disk[m] {
      FittingElsewhere(fs.disk, n, at, name, m);
    }
    NewName(Listed(fs, dir), name);
    InsertIsInsert(Listed(fs, dir), k, e);
    InsertKeepsUnique(Listed(fs, dir), k, e);
  }

  /** What the steps of a fitting restore keep. */
  lemma RestoreKeeps(fs: Fs, fs1: Fs, fs': Fs, dirs: seq<nat>, dir: nat, name: seq<Byte>, n: nat) returns (k: nat)
    requires Sound(fs, dirs) && dir in dirs && DirOk(fs, dir) && InSteps(fs, fs1, fs', dir, name, n)
    requires RestoreFits(fs, dir, name) && name !in Names(fs, dir)
    ensures Accounted(fs') && Owned(fs') && AllGood(fs', dirs)
    ensures forall d :: d in dirs && d != dir ==> SameListing(fs, fs', d)
    ensures Inserted(fs, fs', dir, k, RestoredEntry(fs, dir, name))
  {
    hide Direct, AllTiled, UniqueNames, Listing, Owned, Accounted, LinksCounted, Ends, AfterReclaim, Unhidden, Listed, PointersOk, RestoredEntry,
         StaleOf, SameListing, Compact, GoodEntry, NoDup, InsertAt, AsMap, RestoreFits, DirOk, DirsGood, AllDirsOk, Entered;
    RestoreReclaims(fs, fs1, fs', dirs, dir, name, n);
    k := RestoreLists(fs, fs1, fs', dir, name, n);
    assert GoodDir(fs1, dir);
    BytesEntered(fs1, fs', dir, n);
    EntryOwned(fs1, fs', dir, n);
    EntryAccounted(fs1, fs', dir, n);
    forall d | d in dirs && d != dir ensures SameListing(fs, fs', d) && GoodDir(fs', d) {
      OtherListing(fs1, fs', dir, n, d);
      SameThrough(fs, fs1, fs', d);
      SameIsOk(fs1, fs', d);
    }
  }

  /** Link counts after a fitting restore: the inode had no name, and now has one. */
  lemma RestoreCounts(fs: Fs, fs1: Fs, fs': Fs, dirs: seq<nat>, dir: nat, name: seq<Byte>, n: nat)
    requires Sound(fs, dirs) && dir in dirs && DirOk(fs, dir) && InSteps(fs, fs1, fs', dir, name, n)
    requires RestoreFits(fs, dir, name) && name !in Names(fs, dir)
    ensures AllDirsOk(fs', dirs) && LinksCounted(fs', dirs)
  {
    hide Direct, AllTiled, UniqueNames, Listing, Owned, Accounted, Ends, AfterReclaim, Unhidden, Listed, PointersOk, RestoredEntry,
         StaleOf, SameListing, Compact, GoodEntry, NoDup, InsertAt, AsMap, RestoreFits, DirOk, Entered, GoodDir, Total;
    RestoreReclaims(fs, fs1, fs', dirs, dir, name, n);
    var k := RestoreKeeps(fs, fs1, fs', dirs, dir, name, n);
    var e := RestoredEntry(fs, dir, name);
    GoodAreOk(fs', dirs);
    AllGoodEntries(fs, dirs);
    FreeHasNoNames(fs, dirs, dirs, e.inode);
    forall i | 1 <= i <= |fs'.inodes| ensures fs'.inodes[i - 1].links == Total(fs', dirs, i) {
      EntryTotals(fs, fs', dirs, dir, k, e, i);
      assert fs.inodes[i - 1].links == Total(fs, dirs, i);
    }
  }

  lemma RestoreEntriesGood(fs: Fs, fs1: Fs, fs': Fs, dirs: seq<nat>, dir: nat, name: seq<Byte>, n: nat, d: nat, x: Entry)
    requires Sound(fs, dirs) && dir in dirs && DirOk(fs, dir) && InSteps(fs, fs1, fs', dir, name, n) && d in dirs
    requires RestoreFits(fs, dir, name) && name !in Names(fs, dir) && RestoredEntry(fs, dir, name).kind != FT_DIR
    requires DirOk(fs', d) && x in Listed(fs', d)
    ensures GoodEntry(fs', dirs, x)
  {
    hide Direct, AllTiled, UniqueNames, Listing, Owned, Accounted, Ends, AfterReclaim, Unhidden, Listed, PointersOk, RestoredEntry,
         StaleOf, Compact, NoDup, InsertAt, AsMap, RestoreFits, DirOk, LinksCounted, AllDirsOk;
    RestoreReclaims(fs, fs1, fs', dirs, dir, name, n);
    var k := RestoreKeeps(fs, fs1, fs', dirs, dir, name, n);
    var e := RestoredEntry(fs, dir, name);
    if d == dir {
      InsertedIn(Listed(fs, dir), k, e, x);
    } else {
      assert SameListing(fs, fs', d);
    }
    if x != e {
      assert x in Listed(fs, d);
      assert GoodEntry(fs, dirs, x);
    }
  }

  lemma FittingKeepsSound(fs: Fs, fs': Fs, dirs: seq<nat>, dir: nat, name: seq<Byte>)
    requires Restores(fs, fs', dirs, dir, name) && RestoreFits(fs, dir, name)
    ensures Sound(fs', dirs) && DirOk(fs', dir) && Names(fs', dir) == Names(fs, dir)[name := RestoredEntry(fs, dir, name)]
    ensures forall d :: d in dirs && d != dir ==> SameListing(fs, fs', d)
  {
    hide Direct, AllTiled, UniqueNames, Listing, Owned, Accounted, InSteps, Listed, RestoredEntry, StaleLinked, AfterRestore,
         SameListing, Compact, GoodEntry, NoDup, AsMap, RestoreFits, DirOk, LinksCounted, AllDirsOk, GoodDir;
    var fs1, n := RestoreSteps(fs, fs', dirs, dir, name);
    var k := RestoreKeeps(fs, fs1, fs', dirs, dir, name, n);
    RestoreCounts(fs, fs1, fs', dirs, dir, name, n);
    forall d, x | d in dirs && DirOk(fs', d) && x in Listed(fs', d) ensures GoodEntry(fs', dirs, x) {
      RestoreEntriesGood(fs, fs1, fs', dirs, dir, name, n, d, x);
    }
    GoodIsOk(fs', dirs);
  }

  lemma GoodIsOk(fs: Fs, dirs: seq<nat>)
    requires AllGood(fs, dirs)
    ensures forall d :: d in dirs ==> DirOk(fs, d) && GoodDir(fs, d)
  {}

  // ---------- when the stale record does not fit ----------

  /** What a block lists it listed before. */
  ghost predicate ListsNoMore(disk: seq<Block>, disk': seq<Block>, m: nat) {
    m < |disk| == |disk'| && (Tiled(disk[m], 0) && Tiled(disk'[m], 0) ==> forall e :: e in Live(disk'[m], 0) ==> e in Live(disk[m], 0))
  }

  lemma {:induction false} NoMore(disk: seq<Block>, disk': seq<Block>, bs: seq<nat>, e: Entry)
    requires AllTiled(disk, bs) && AllTiled(disk', bs) && (forall m :: m in bs ==> ListsNoMore(disk, disk', m))
    requires e in Listing(disk', bs)
    ensures e in Listing(disk, bs)
    decreases |bs|
  {
    hide Tiled, Live;
    if e in Live(disk'[bs[0]], 0) {
      assert ListsNoMore(disk, disk', bs[0]);
    } else {
      NoMore(disk, disk', bs[1..], e);
    }
  }

  /** A restore that leaves a block whole without fitting brings no entry back. */
  lemma UnfitLists(disk: seq<Block>, n: nat, at: Stale, name: seq<Byte>, m: nat)
    requires Ends(disk, n, at, name) && at.last <= at.entry && !StaleFits(disk, at, name)
    requires m < |disk| && Tiled(disk[m], 0) && Tiled(Unhidden(disk, at)[m], 0) && Tiled(Unhidden(disk, at)[n], 0)
    ensures ListsNoMore(disk, Unhidden(disk, at), m)
  {
    hide Unhidden, Tiled, OnChain, NameAt, Peek, PeekIno, Live, StaleFits, Ends;
    var lp := LastIn(disk, n, at, name);
    BrokenTiles(disk, n, at, name, lp);
    if m == n {
      BehindTiles(disk, n, at, name, lp);
    } else if m == n + 1 {
      BehindBreaks(disk, n, at, name);
    } else {
      BehindElsewhere(disk, n, at, name, m);
    }
  }

  lemma UnfitListed(fs: Fs, fs1: Fs, fs': Fs, dir: nat, name: seq<Byte>, n: nat, d: nat, e: Entry)
    requires DirOk(fs, dir) && InSteps(fs, fs1, fs', dir, name, n) && !RestoreFits(fs, dir, name)
    requires DirOk(fs, d) && DirOk(fs', d) && |fs'.inodes| == |fs.inodes| && Blocks(fs', d) == Blocks(fs, d)
    requires Tiled(fs'.disk[n], 0) && e in Listed(fs', d)
    ensures e in Listed(fs, d)
  {
    hide Unhidden, Tiled, Peek, PeekIno, Live, StaleFits, Ends, Direct, UniqueNames, Listing, AfterReclaim, Scan, PointersOk;
    forall m | m in Blocks(fs, d) ensures ListsNoMore(fs.disk, fs'.disk, m) {
      UnfitLists(fs.disk, n, StaleOf(fs, dir, name), name, m);
    }
    NoMore(fs.disk, fs'.disk, Blocks(fs, d), e);
  }

  /** With a record that does not fit the restored inode has a link but no name. */
  lemma UnfitIsUnsound(fs: Fs, fs': Fs, dirs: seq<nat>, dir: nat, name: seq<Byte>)
    requires Restores(fs, fs', dirs, dir, name) && !RestoreFits(fs, dir, name)
    ensures !Sound(fs', dirs)
  {
    hide Direct, AllTiled, UniqueNames, Listing, Owned, Accounted, Listed, RestoredEntry, StaleLinked, AfterRestore, Unhidden,
         Compact, NoDup, AsMap, RestoreFits, Total, Ends, AfterReclaim, PointersOk, Peek, Tiled, StaleOf;
    var fs1, n := RestoreSteps(fs, fs', dirs, dir, name);
    RestoreReclaims(fs, fs1, fs', dirs, dir, name, n);
    var num := RestoredEntry(fs, dir, name).inode;
    if Sound(fs', dirs) {
      TiledIn(fs', fs1, dir, n);
      AllGoodEntries(fs, dirs);
      forall d, e | d in dirs && DirOk(fs', d) && e in Listed(fs', d) ensures e.inode != num {
        SameBlocksIn(fs, fs1, fs', d);
        UnfitListed(fs, fs1, fs', dir, name, n, d, e);
        assert GoodEntry(fs, dirs, e);
      }
      NoNamesCounted(fs', dirs, dirs, num);
    }
  }

  lemma {:induction false} NoNamesCounted(fs: Fs, all: seq<nat>, dirs: seq<nat>, i: nat)
    requires AllDirsOk(fs, dirs) && (forall d :: d in dirs ==> d in all)
    requires forall d, e :: d in all && DirOk(fs, d) && e in Listed(fs, d) ==> e.inode != i
    ensures Total(fs, dirs, i) == 0
    decreases |dirs|
  {
    hide Direct, Listing, Tiled, UniqueNames;
    if dirs == [] {
    } else {
      var d := dirs[0];
      assert d in dirs && d in all && DirOk(fs, d);
      CountNone(Listed(fs, d), i);
      NoNamesCounted(fs, all, dirs[1..], i);
    }
  }

  lemma TiledIn(fs': Fs, fs1: Fs, dir: nat, n: nat)
    requires DirOk(fs', dir) && fs'.inodes == fs1.inodes && n in Blocks(fs1, dir)
    ensures n < |fs'.disk| && Tiled(fs'.disk[n], 0)
  {
    hide Direct, UniqueNames, Tiled;
  }

  lemma SameBlocksIn(fs: Fs, fs1: Fs, fs': Fs, d: nat)
    requires SameListing(fs, fs1, d) && fs'.inodes == fs1.inodes && |fs1.inodes| == |fs.inodes|
    requires forall i :: 0 <= i < |fs.inodes| && i == d - 1 ==> fs1.inodes[i] == fs.inodes[i]
    ensures DirOk(fs, d) && Blocks(fs', d) == Blocks(fs, d)
  {}

  /** restore_file that exits in the middle of its reclaim never leaves the volume sound. */
  lemma AbandonedIsUnsound(fs: Fs, left: Fs, dirs: seq<nat>, dir: nat, name: seq<Byte>)
    requires Sound(fs, dirs) && dir in dirs && DirOk(fs, dir) && StaleLinked(fs, dir, name)
    requires AfterRestore(fs, dir, name) == Abandoned(left)
    ensures !Sound(left, dirs)
  {
    hide Sound, Direct, AllTiled, UniqueNames, Listing, Scan, AfterReclaim, Unhidden, Peek, PeekIno, FindEntry, PointersOk;
    var at := Scan(fs.disk, Blocks(fs, dir), name).value;
    ClashIsUnsound(fs, dirs, PeekIno(fs.disk, at.entry), left);
  }

  /** restore_file keeps a sound volume sound exactly when the stale record fits behind the valid
      one; then it inserts one name into one directory. */
  lemma RestoreKeepsSoundExactly(fs: Fs, fs': Fs, dirs: seq<nat>, dir: nat, name: seq<Byte>)
    requires Restores(fs, fs', dirs, dir, name)
    ensures Sound(fs', dirs) <==> RestoreFits(fs, dir, name)
    ensures RestoreFits(fs, dir, name) ==>
      && DirOk(fs', dir) && Names(fs', dir) == Names(fs, dir)[name := RestoredEntry(fs, dir, name)]
      && forall d :: d in dirs && d != dir ==> SameListing(fs, fs', d)
  {
    hide Sound, StaleLinked, AfterRestore, RestoreFits, DirOk, Names, SameListing;
    if RestoreFits(fs, dir, name) {
      FittingKeepsSound(fs, fs', dirs, dir, name);
    } else {
      UnfitIsUnsound(fs, fs', dirs, dir, name);
    }
  }
}
