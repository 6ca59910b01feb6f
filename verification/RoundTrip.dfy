/** rm and then restore: exactly when the second undoes the first. */
module RoundTrip {
  import opened Prelude
  import opened ResourceMap
  import opened Inodes
  import opened DirBlock
  import opened Directory
  import opened Volume
  import opened DirectoryTools
  import opened Restore
  import opened Unhiding
  import opened Soundness
  import opened SoundTools

  // ---------- the walk to a hidden record ----------

  /** From pos, with last_valid_entry at last, the scan comes to the record at prev without a hit,
      and walks from behind its name to the stale record at entry without an earlier hit. */
  predicate Arrives(disk: seq<Block>, pos: nat, last: nat, end: nat, at: Stale, name: seq<Byte>)
    decreases end - pos
  {
    pos < end && last <= at.last &&
    var w := WalkGap(disk, pos + PeekActual(disk, last), pos + PeekRecLen(disk, last), name);
    if last == at.last then w == Hit(at.entry)
    else w.Passed? && Arrives(disk, w.pos, last + PeekRecLen(disk, last), end, at, name)
  }

  /** The same over the blocks of a directory, n being the block of the stale record. */
  ghost predicate Reaches(disk: seq<Block>, bs: seq<nat>, n: nat, at: Stale, name: seq<Byte>)
    decreases |bs|
  {
    bs != [] &&
    if bs[0] == n then Arrives(disk, BLOCK_SIZE * n, BLOCK_SIZE * n, BLOCK_SIZE * n + BLOCK_SIZE, at, name)
    else ScanFrom(disk, bs[0], name).None? && Reaches(disk, bs[1..], n, at, name)
  }

  lemma {:induction false} LastGrows(disk: seq<Block>, pos: nat, last: nat, end: nat, name: seq<Byte>)
    ensures var r := ScanBlock(disk, pos, last, end, name); r.Some? ==> r.value.last >= last
    decreases end - pos
  {
    hide WalkGap, PeekRecLen, PeekActual;
    if pos >= end {
    } else {
      ActualGrows(disk, last);
      var w := WalkGap(disk, pos + PeekActual(disk, last), pos + PeekRecLen(disk, last), name);
      if w.Passed? {
        LastGrows(disk, w.pos, last + PeekRecLen(disk, last), end, name);
      }
    }
  }

  /** The scan of a block ends at a given record exactly when the walk gets there. */
  lemma {:induction false} ArrivesExactly(disk: seq<Block>, pos: nat, last: nat, end: nat, at: Stale, name: seq<Byte>)
    requires PeekRecLen(disk, at.last) > 0
    ensures ScanBlock(disk, pos, last, end, name) == Some(at) <==> Arrives(disk, pos, last, end, at, name)
    decreases end - pos
  {
    hide WalkGap, PeekRecLen, PeekActual;
    LastGrows(disk, pos, last, end, name);
    if pos >= end || last > at.last {
    } else {
      ActualGrows(disk, last);
      var w := WalkGap(disk, pos + PeekActual(disk, last), pos + PeekRecLen(disk, last), name);
      if w.Passed? {
        LastGrows(disk, w.pos, last + PeekRecLen(disk, last), end, name);
        ArrivesExactly(disk, w.pos, last + PeekRecLen(disk, last), end, at, name);
      }
    }
  }

  /** A scan ends in the block it names. */
  lemma EndsOnce(disk: seq<Block>, bs: seq<nat>, n: nat, at: Stale, name: seq<Byte>)
    requires AllTiled(disk, bs) && BLOCK_SIZE * n <= at.last < BLOCK_SIZE * n + BLOCK_SIZE && Scan(disk, bs, name) == Some(at)
    ensures n in bs && Ends(disk, n, at, name)
  {
    hide Tiled, Scan, OnChain, PeekIno, NameAt, Actual, RecordOk;
    var m := ScanShape(disk, bs, name);
    assert m == n;
  }

  /** The scan of the directory ends at a given record exactly when the walk gets there. */
  lemma {:induction false} ReachesExactly(disk: seq<Block>, bs: seq<nat>, n: nat, at: Stale, name: seq<Byte>)
    requires AllTiled(disk, bs) && NoDup(bs) && n in bs
    requires BLOCK_SIZE * n <= at.last < BLOCK_SIZE * n + BLOCK_SIZE && PeekRecLen(disk, at.last) > 0
    ensures Scan(disk, bs, name) == Some(at) <==> Reaches(disk, bs, n, at, name)
    decreases |bs|
  {
    hide Tiled, ScanBlock, PeekRecLen, Arrives;
    NoDupCons(bs);
    ArrivesExactly(disk, BLOCK_SIZE * n, BLOCK_SIZE * n, BLOCK_SIZE * n + BLOCK_SIZE, at, name);
    if bs[0] == n {
      if Scan(disk, bs[1..], name) == Some(at) {
        EndsOnce(disk, bs[1..], n, at, name);
      }
    } else {
      ReachesExactly(disk, bs[1..], n, at, name);
      if ScanFrom(disk, bs[0], name) == Some(at) {
        FirstScan(disk, bs[0], at, name);
        EndsOnce(disk, [bs[0]], n, at, name);
      }
    }
  }

  lemma FirstScan(disk: seq<Block>, m: nat, at: Stale, name: seq<Byte>)
    requires ScanFrom(disk, m, name) == Some(at)
    ensures Scan(disk, [m], name) == Some(at)
  {}

  // ---------- a restore that undoes a delete has found what the delete hid ----------

  /** Hiding changes the block. */
  lemma HideChanges(b: Block, e: nat)
    requires Tiled(b, 0) && OnChain(b, 0, e) && RecordOk(b, e) && Ino(b, e) != 0
    ensures HideAt(b, e) != b
    ensures e == 0 ==> forall i :: 4 <= i < BLOCK_SIZE ==> HideAt(b, e)[i] == b[i]
    ensures e > 0 ==> forall i :: 0 <= i < BLOCK_SIZE && i != Before(b, 0, e) + 4 && i != Before(b, 0, e) + 5 ==> HideAt(b, e)[i] == b[i]
  {
    hide Tiled, OnChain, Before, Actual, NameLen;
    if e == 0 {
      InoWritten(b, 0, 0);
    } else {
      var prev := Before(b, 0, e);
      RecLenWritten(b, prev, RecLen(b, prev) + RecLen(b, e));
    }
  }

  lemma NextKept(disk: seq<Block>, n: nat, at: Stale, name: seq<Byte>, lp: nat)
    requires Ends(disk, n, at, name) && at.last == BLOCK_SIZE * n + lp && at.entry - at.last == RecLen(disk[n], lp)
    requires lp + RecLen(disk[n], lp) < BLOCK_SIZE
    ensures at.last + HEADER <= at.entry && !Tiled(Unhidden(disk, at)[n], 0)
  {
    hide Tiled, OnChain, Unhidden, NameAt, Peek, PeekIno, PeekRecLen, PeekNameLen, PeekActual, Actual, RecLen, Ino, NameLen, EntryAt;
    EndsBehind(disk, n, at, name);
    var b, b' := disk[n], Unhidden(disk, at)[n];
    var ep := lp + RecLen(b, lp);
    PeekHeader(disk, n, lp);
    UnhiddenLast(disk, at, n, lp);
    ChainNext(b, 0, lp);
    ChainAt(b, 0, lp);
    ChainAt(b, 0, ep);
    UnhiddenEntry(disk, at, n, ep);
    if Tiled(b', 0) {
      forall i | 0 <= i < lp ensures b'[i] == b[i] {
        UnhiddenBytes(disk, at, n, i);
      }
      PrefixLeads(b, b', 0, lp);
      LiveFrom(b', lp);
      LiveFrom(b', ep);
    }
  }

  lemma SameLength(b: Block, b': Block, p: nat)
    requires p + HEADER <= BLOCK_SIZE && RecLen(b, p) == RecLen(b', p)
    ensures b[p + 4] == b'[p + 4] && b[p + 5] == b'[p + 5]
  {}

  lemma EndKept(disk: seq<Block>, n: nat, at: Stale, name: seq<Byte>, lp: nat, m: nat)
    requires Ends(disk, n, at, name) && at.last == BLOCK_SIZE * n + lp && at.entry - at.last == RecLen(disk[n], lp)
    requires lp + RecLen(disk[n], lp) == BLOCK_SIZE && m < |disk|
    ensures at.last + HEADER <= at.entry
    ensures m != n + 1 ==> Unhidden(disk, at)[m] == disk[m]
    ensures m == n + 1 ==> !Tiled(Unhidden(disk, at)[m], 0)
  {
    hide Tiled, OnChain, Unhidden, NameAt, Peek, PeekIno, PeekRecLen, PeekNameLen, PeekActual, Actual, RecLen, Ino, NameLen, EntryAt;
    EndsBehind(disk, n, at, name);
    if m == n + 1 {
      BehindBreaks(disk, n, at, name);
    } else if m == n {
      UnhiddenLast(disk, at, n, lp);
      SameLength(disk[n], Unhidden(disk, at)[n], lp);
      forall i | 0 <= i < BLOCK_SIZE ensures Unhidden(disk, at)[n][i] == disk[n][i] {
        UnhiddenBytes(disk, at, n, i);
      }
    } else {
      BehindElsewhere(disk, n, at, name, m);
    }
  }

  /** An unhide that gives back a directory as it was has changed the length of its valid record. */
  lemma LengthChanges(disk: seq<Block>, disk1: seq<Block>, n0: nat, n: nat, at: Stale, name: seq<Byte>, lp: nat)
    requires |disk1| == |disk| && n0 < |disk| && Tiled(disk[n0], 0) && disk1 != disk
    requires forall m :: 0 <= m < |disk| && m != n0 ==> disk1[m] == disk[m]
    requires Ends(disk1, n, at, name) && Tiled(disk[n], 0) && at.last == BLOCK_SIZE * n + lp
    requires Unhidden(disk1, at) == disk
    ensures RecLen(disk[n], lp) == at.entry - at.last && RecLen(disk1[n], lp) != at.entry - at.last
  {
    hide Tiled, OnChain, Unhidden, NameAt, PeekIno, PeekRecLen, Actual, RecLen, Ino, NameLen, EntryAt;
    EndsBehind(disk1, n, at, name);
    UnhiddenLast(disk1, at, n, lp);
    if RecLen(disk1[n], lp) == at.entry - at.last {
      if lp + RecLen(disk1[n], lp) < BLOCK_SIZE {
        NextKept(disk1, n, at, name, lp);
      } else {
        EndKept(disk1, n, at, name, lp, n0);
      }
    }
  }

  /** A change of one rec_len is a change of no other. */
  lemma SameLengths(b: Block, b': Block, p: nat, q: nat)
    requires p + HEADER <= BLOCK_SIZE && p % 4 == 0 && q % 4 == 0 && p != q
    requires forall i :: 0 <= i < BLOCK_SIZE && i != q + 4 && i != q + 5 ==> b'[i] == b[i]
    ensures RecLen(b', p) == RecLen(b, p)
  {}

  lemma InoOnly(b: Block, b': Block, p: nat)
    requires p + HEADER <= BLOCK_SIZE && forall i :: 4 <= i < BLOCK_SIZE ==> b'[i] == b[i]
    ensures RecLen(b', p) == RecLen(b, p)
  {}

  /** The restored record is the one the delete hid, and that was not the first of its block. */
  lemma UndoneIsHidden(disk: seq<Block>, n0: nat, e: nat, n: nat, at: Stale, name: seq<Byte>)
    requires n0 < |disk| && Tiled(disk[n0], 0) && OnChain(disk[n0], 0, e) && RecordOk(disk[n0], e) && Ino(disk[n0], e) != 0
    requires var disk1 := disk[n0 := HideAt(disk[n0], e)];
      Ends(disk1, n, at, name) && Tiled(disk[n], 0) && Unhidden(disk1, at) == disk
    ensures e > 0 && n == n0 && at == HiddenStale(disk, Place(n0, e))
  {
    hide Tiled, OnChain, Unhidden, NameAt, PeekIno, PeekRecLen, Actual, Ino, NameLen, EntryAt, HideAt, RecLen;
    var b := disk[n0];
    var disk1 := disk[n0 := HideAt(b, e)];
    HideChanges(b, e);
    assert disk1[n0] != disk[n0];
    var lp := LastIn(disk1, n, at, name);
    LengthChanges(disk, disk1, n0, n, at, name, lp);
    assert n == n0;
    ChainAt(disk1[n], 0, lp);
    TiledAligned(disk1[n], lp);
    if e == 0 {
      InoOnly(b, disk1[n], lp);
    } else {
      var prev := Before(b, 0, e);
      ChainAt(b, 0, prev);
      TiledAligned(b, prev);
      if lp != prev {
        SameLengths(b, disk1[n], lp, prev);
      }
    }
  }

  // ---------- the round trip ----------

  /** The directory bytes as the delete leaves them. */
  ghost function Hidden(fs: Fs, at: Place): seq<Block>
    requires Deletable(fs, at.block, at.pos)
  {
    fs.disk[at.block := HideAt(fs.disk[at.block], at.pos)]
  }

  /** Over the bytes as the delete will leave them, the scan walks to the record's place, with
      last_valid_entry at the record before it and without an earlier hit. */
  ghost predicate WalkFinds(fs: Fs, dir: nat, name: seq<Byte>, at: Place)
    requires Deletable(fs, at.block, at.pos) && 1 <= dir <= |fs.inodes|
  {
    at.pos > 0 && Reaches(Hidden(fs, at), Blocks(fs, dir), at.block, HiddenStale(fs.disk, at), name)
  }

  /** restore brings back the whole volume as it was before the delete. */
  ghost predicate Undone(fs: Fs, fs1: Fs, dir: nat, name: seq<Byte>) {
    DirOk(fs1, dir) && StaleLinked(fs1, dir, name) && AfterRestore(fs1, dir, name) == Recovered(fs)
  }

  /** The directory after the delete. */
  lemma ErasedState(fs: Fs, dir: nat, name: seq<Byte>, at: Place, now: nat)
    requires Erasable(fs, dir, name, at)
    ensures Deletable(fs, at.block, at.pos) && DeleteOutcome(fs, at.block, at.pos) == Ok
    ensures var fs1 := AfterDelete(fs, at.block, at.pos, now);
      && fs1.disk == Hidden(fs, at) && |fs1.inodes| == |fs.inodes| && Blocks(fs1, dir) == Blocks(fs, dir)
      && DirOk(fs, dir) && DirOk(fs1, dir) && at.block in Blocks(fs, dir)
      && FindEntry(fs1.disk, Blocks(fs1, dir), name).None?
      && Matches(fs.disk[at.block], at.pos, name) && Ino(fs.disk[at.block], at.pos) == EntryIn(fs, dir, name, at).inode
  {
    hide Tiled, OnChain, Direct, UniqueNames, FreeOrder, NoDup, PointersOk, Listed, Listing, FindEntry, EntryIn, EntryAt, HideAt, DeleteOutcome,
         AfterDelete, AfterUnlink, AllTiled;
    LiveIsDeletable(fs, dir, name, at);
    DeletedState(fs, dir, name, at, now);
    DeletedIsGone(fs, dir, name, at);
    SameDirectory(WithoutEntry(fs, dir, name, at), AfterDelete(fs, at.block, at.pos, now), dir);
  }

  lemma HiddenStaleLength(fs: Fs, at: Place)
    requires Deletable(fs, at.block, at.pos) && at.pos > 0
    ensures var r := HiddenStale(fs.disk, at);
      BLOCK_SIZE * at.block <= r.last < BLOCK_SIZE * at.block + BLOCK_SIZE && PeekRecLen(Hidden(fs, at), r.last) > 0
  {
    hide Tiled, OnChain, Ino, RecLen, PeekRecLen, Peek, HideAt;
    var b, prev := fs.disk[at.block], Before(fs.disk[at.block], 0, at.pos);
    HiddenLengths(b, at.pos);
    ChainAt(b, 0, prev);
    PeekHeader(Hidden(fs, at), at.block, prev);
  }

  /** The scan after the delete ends at the hidden record exactly when the walk gets there. */
  lemma ErasedIsScanned(fs: Fs, dir: nat, name: seq<Byte>, at: Place)
    requires Deletable(fs, at.block, at.pos) && at.pos > 0 && 1 <= dir <= |fs.inodes|
    requires AllTiled(Hidden(fs, at), Blocks(fs, dir)) && NoDup(Blocks(fs, dir)) && at.block in Blocks(fs, dir)
    ensures Scan(Hidden(fs, at), Blocks(fs, dir), name) == Some(HiddenStale(fs.disk, at)) <==> WalkFinds(fs, dir, name, at)
  {
    hide NoDup, AllTiled, Tiled, OnChain, RecordOk, PointersOk, Reaches, Scan, HiddenStale, PeekRecLen, Direct, Hidden;
    HiddenStaleLength(fs, at);
    ReachesExactly(Hidden(fs, at), Blocks(fs, dir), at.block, HiddenStale(fs.disk, at), name);
  }

  /** A live file that the scan finds comes back whole. */
  lemma ReachedIsUndone(fs: Fs, dir: nat, name: seq<Byte>, at: Place, now: nat)
    requires LiveFile(fs, dir, name, at)
    requires Deletable(fs, at.block, at.pos) && DeleteOutcome(fs, at.block, at.pos) == Ok && WalkFinds(fs, dir, name, at)
    ensures Undone(fs, AfterDelete(fs, at.block, at.pos, now), dir, name)
  {
    hide Tiled, Direct, UniqueNames, NoDup, PointersOk, HideAt, Unhidden, Scan, Peek, PeekIno, Ino, AllTiled, Listed, Listing, FindEntry,
         AfterUnlink, AfterReclaim, FreeOrder, AfterDelete, DeleteOutcome, Before, OnChain, WalkFinds, HiddenStale;
    ErasedIsFile(fs, dir, name, at);
    ErasedState(fs, dir, name, at, now);
    FindsPos(fs, dir, name, at);
    FoundIsShort(fs, dir, name, at);
    ErasedIsScanned(fs, dir, name, at);
    HiddenRecord(fs.disk, at);
    DeletedIsReclaimed(fs, dir, name, at, now);
  }

  lemma FindsPos(fs: Fs, dir: nat, name: seq<Byte>, at: Place)
    requires Deletable(fs, at.block, at.pos) && 1 <= dir <= |fs.inodes| && WalkFinds(fs, dir, name, at)
    ensures at.pos > 0
  {}

  /** The parts of a restore that gives back a given volume. */
  lemma UndoneParts(fs: Fs, fs1: Fs, dir: nat, name: seq<Byte>) returns (found: Stale, num: nat)
    requires Undone(fs, fs1, dir, name)
    ensures DirOk(fs1, dir) && Scan(fs1.disk, Blocks(fs1, dir), name) == Some(found) && Unhidden(fs1.disk, found) == fs.disk
    ensures num == PeekIno(fs1.disk, found.entry) && 1 <= num <= |fs.inodes|
    ensures fs.inodes[num - 1].links == 1 && fs.inodes[num - 1].dtime == 0
  {
    hide DirOk, Direct, PointersOk, Scan, Unhidden, Peek, PeekIno, FindEntry, ClaimAll, AllFree, ClaimOrder;
    InRange(fs1, dir);
    found := Scan(fs1.disk, Blocks(fs1, dir), name).value;
    num := PeekIno(fs1.disk, found.entry);
  }

  /** A restore that gives back the whole volume has found the hidden record of a file with one link
      and no deletion time. */
  lemma UndoneIsReached(fs: Fs, dir: nat, name: seq<Byte>, at: Place, now: nat)
    requires Erasable(fs, dir, name, at)
    requires Deletable(fs, at.block, at.pos) && DeleteOutcome(fs, at.block, at.pos) == Ok
    requires Undone(fs, AfterDelete(fs, at.block, at.pos, now), dir, name)
    ensures Once(fs, dir, name, at) && WalkFinds(fs, dir, name, at)
  {
    hide Tiled, Direct, UniqueNames, PointersOk, HideAt, Unhidden, Scan, Peek, PeekIno, Ino, Listed, Listing, FindEntry, EntryIn, EntryAt, Ends,
         AfterUnlink, AfterReclaim, FreeOrder, AfterDelete, DeleteOutcome, Before, OnChain, WalkFinds, HiddenStale, Undone, NoDup;
    var fs1 := AfterDelete(fs, at.block, at.pos, now);
    ErasedState(fs, dir, name, at, now);
    var found, num := UndoneParts(fs, fs1, dir, name);
    var n := ScanShape(fs1.disk, Blocks(fs1, dir), name);
    UndoneIsHidden(fs.disk, at.block, at.pos, n, found, name);
    HiddenRecord(fs.disk, at);
    ErasedIsScanned(fs, dir, name, at);
  }

  /** rm and then restore is the identity on the whole volume exactly when the file had one link and
      no deletion time, was not the first entry of its block, and the scan, past whatever is left in
      the gaps before it, walks to it. */
  lemma RestoreUndoesDeleteExactly(fs: Fs, dir: nat, name: seq<Byte>, at: Place, now: nat)
    requires Erasable(fs, dir, name, at)
    ensures Deletable(fs, at.block, at.pos) && DeleteOutcome(fs, at.block, at.pos) == Ok && 1 <= dir <= |fs.inodes|
    ensures Undone(fs, AfterDelete(fs, at.block, at.pos, now), dir, name) <==>
      Once(fs, dir, name, at) && WalkFinds(fs, dir, name, at)
  {
    hide Deletable, DeleteOutcome, AfterDelete, Undone, Once, WalkFinds, Erasable, DirOk;
    ErasedState(fs, dir, name, at, now);
    InRange(fs, dir);
    if Undone(fs, AfterDelete(fs, at.block, at.pos, now), dir, name) {
      UndoneIsReached(fs, dir, name, at, now);
    } else if Once(fs, dir, name, at) && WalkFinds(fs, dir, name, at) {
      ReachedIsUndone(fs, dir, name, at, now);
    }
  }

  // ---------- in a sound volume ----------

  lemma SoundFileIsErasable(fs: Fs, dirs: seq<nat>, dir: nat, name: seq<Byte>, at: Place)
    requires Deletes(fs, dirs, dir, name, at)
    ensures Erasable(fs, dir, name, at)
  {
    hide FreeOrder, NoDup, Direct, EntryIn, LinksCounted, FindEntry, Listing, AllTiled, UniqueNames, PointersOk;
    var num := EntryIn(fs, dir, name, at).inode;
    DeletedIsFile(fs, dirs, dir, name, at);
    assert GoodDir(fs, dir) && Owns(fs, dir) && Apart(fs, num, dir);
    DirectoryOrder(fs, dir);
    UsedFits(fs.blockMap, |fs.disk|);
    UsedFits(fs.inodeMap, |fs.inodes|);
  }

  /** In a sound volume this decides it for every name of every file. */
  lemma SoundRestoreUndoesDelete(fs: Fs, dirs: seq<nat>, dir: nat, name: seq<Byte>, at: Place, now: nat)
    requires Deletes(fs, dirs, dir, name, at)
    ensures Erasable(fs, dir, name, at)
    ensures Deletable(fs, at.block, at.pos) && DeleteOutcome(fs, at.block, at.pos) == Ok && 1 <= dir <= |fs.inodes|
    ensures Undone(fs, AfterDelete(fs, at.block, at.pos, now), dir, name) <==>
      Once(fs, dir, name, at) && WalkFinds(fs, dir, name, at)
  {
    hide Deletes, Deletable, DeleteOutcome, AfterDelete, Undone, Once, WalkFinds, Erasable, DirOk;
    SoundFileIsErasable(fs, dirs, dir, name, at);
    RestoreUndoesDeleteExactly(fs, dir, name, at, now);
  }

  // ---------- short gaps ----------

  /** Four bytes of slack whose word is not zero, before a record whose inode number is below
      0x10000: they read as a record without a name, and the step from it leads past the header of
      the next. */
  lemma ShortGapSkips(disk: seq<Block>, n: nat, e: nat, gapEnd: nat, name: seq<Byte>)
    requires n < |disk| && 4 <= e && e + HEADER <= BLOCK_SIZE && name != [] && BLOCK_SIZE * n + e <= gapEnd
    requires U32At(disk[n], e - 4) != 0 && disk[n][e + 2] == 0
    ensures WalkGap(disk, BLOCK_SIZE * n + e - 4, gapEnd, name) == WalkGap(disk, BLOCK_SIZE * n + e + 4, gapEnd, name)
    ensures WalkGap(disk, BLOCK_SIZE * n + e - 4, gapEnd, name) != Hit(BLOCK_SIZE * n + e)
  {
    hide Peek, PeekRecLen;
    PeekHeader(disk, n, e - 4);
    NameNotEmpty(disk, BLOCK_SIZE * n + e - 4, name);
  }

  lemma NameNotEmpty(disk: seq<Block>, a: nat, name: seq<Byte>)
    requires name != [] && PeekNameLen(disk, a) == 0
    ensures !NameAt(disk, a, name)
  {}

  lemma {:induction false} ReachesArrives(disk: seq<Block>, bs: seq<nat>, n: nat, at: Stale, name: seq<Byte>)
    requires Reaches(disk, bs, n, at, name)
    ensures Arrives(disk, BLOCK_SIZE * n, BLOCK_SIZE * n, BLOCK_SIZE * n + BLOCK_SIZE, at, name)
    decreases |bs|
  {
    hide Arrives, ScanFrom;
    if bs[0] == n {
    } else {
      ReachesArrives(disk, bs[1..], n, at, name);
    }
  }

  /** Through quiet gaps the walk comes to a record with pos and last together. */
  lemma {:induction false} QuietArrives(disk: seq<Block>, n: nat, p: nat, prev: nat, at: Stale, name: seq<Byte>)
    requires n < |disk| && Tiled(disk[n], p) && prev <= BLOCK_SIZE && QuietTo(disk[n], p, prev, name, false)
    requires at.last == BLOCK_SIZE * n + prev
    requires Arrives(disk, BLOCK_SIZE * n + p, BLOCK_SIZE * n + p, BLOCK_SIZE * n + BLOCK_SIZE, at, name)
    ensures Arrives(disk, BLOCK_SIZE * n + prev, BLOCK_SIZE * n + prev, BLOCK_SIZE * n + BLOCK_SIZE, at, name)
    decreases BLOCK_SIZE - p
  {
    hide Peek, Ino, RecLen, NameLen, PeekIno, PeekRecLen, PeekNameLen, PeekActual, QuietGap, WalkGap, Actual;
    if p == prev {
    } else {
      var b, base := disk[n], BLOCK_SIZE * n;
      var next := p + RecLen(b, p);
      PeekHeader(disk, n, p);
      QuietIsPassed(disk, n, p + Actual(b, p), next, next, name, true);
      WalkNothing(disk, base + next, name);
      QuietArrives(disk, n, next, prev, at, name);
    }
  }

  /** Four bytes of slack behind the record before, in a block whose earlier gaps are quiet. */
  ghost predicate ShortGap(b: Block, e: nat, name: seq<Byte>) {
    && Tiled(b, 0) && OnChain(b, 0, e) && RecordOk(b, e) && e > 0
    && var prev := Before(b, 0, e);
    && prev + Actual(b, prev) == e - 4 && U32At(b, e - 4) != 0 && b[e + 2] == 0
    && QuietTo(b, 0, prev, name, false)
  }

  lemma ShortGapAfter(b: Block, e: nat, name: seq<Byte>)
    requires ShortGap(b, e, name) && Ino(b, e) != 0
    ensures var b', prev := HideAt(b, e), Before(b, 0, e);
      && Tiled(b', 0) && QuietTo(b', 0, prev, name, false) && prev + HEADER <= BLOCK_SIZE
      && Actual(b', prev) == Actual(b, prev) && RecLen(b', prev) == RecLen(b, prev) + RecLen(b, e)
      && U32At(b', e - 4) != 0 && b'[e + 2] == 0
  {
    hide QuietTo, PutRecLen, Tiled, OnChain, Ino, RecLen, EntryAt, Before;
    var b', prev := HideAt(b, e), Before(b, 0, e);
    var len := RecLen(b, prev) + RecLen(b, e);
    RecLenWritten(b, prev, len);
    PutRecLenElsewhere(b, prev, len);
    HideRemoves(b, e);
    SameQuiet(b, b', 0, prev, name, false);
  }

  /** With pos and last together at the record before, the walk does not get there. */
  lemma ShortGapStops(disk: seq<Block>, n: nat, prev: nat, e: nat, name: seq<Byte>)
    requires n < |disk| && prev + HEADER <= BLOCK_SIZE && e + HEADER <= BLOCK_SIZE && name != []
    requires prev + Actual(disk[n], prev) == e - 4 && prev + RecLen(disk[n], prev) >= e && U32At(disk[n], e - 4) != 0 && disk[n][e + 2] == 0
    ensures var base := BLOCK_SIZE * n;
      !Arrives(disk, base + prev, base + prev, base + BLOCK_SIZE, Stale(base + e, base + prev), name)
  {
    hide Peek, PeekIno, PeekRecLen, PeekNameLen, PeekActual, Ino, RecLen, NameLen, Actual, WalkGap, U32At;
    PeekHeader(disk, n, prev);
    ShortGapSkips(disk, n, e, BLOCK_SIZE * n + prev + RecLen(disk[n], prev), name);
  }

  /** The entry behind such a gap is not brought back. */
  lemma ShortGapIsLost(fs: Fs, dir: nat, name: seq<Byte>, at: Place)
    requires Deletable(fs, at.block, at.pos) && 1 <= dir <= |fs.inodes| && name != []
    requires ShortGap(fs.disk[at.block], at.pos, name)
    ensures !WalkFinds(fs, dir, name, at)
  {
    hide Peek, PeekIno, PeekRecLen, PeekNameLen, PeekActual, Ino, RecLen, NameLen, Actual, QuietTo, Tiled, OnChain, WalkGap, HideAt, Before, U32At,
         Arrives, Reaches, PointersOk;
    var b, e, n := fs.disk[at.block], at.pos, at.block;
    var disk1, prev := Hidden(fs, at), Before(b, 0, e);
    if WalkFinds(fs, dir, name, at) {
      var r := HiddenStale(fs.disk, at);
      ReachesArrives(disk1, Blocks(fs, dir), n, r, name);
      ShortGapAfter(b, e, name);
      QuietArrives(disk1, n, 0, prev, r, name);
      ShortGapStops(disk1, n, prev, e, name);
    }
  }
}
