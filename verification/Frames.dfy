/** What the tools leave alone: the mode, the size, the pointers and every byte of every file that a use
    is not about. */
module Frames {
  import opened Prelude
  import opened ResourceMap
  import opened Inodes
  import opened FileData
  import opened DirBlock
  import opened Directory
  import opened Volume
  import opened DirectoryTools
  import opened Restore
  import opened Unhiding
  import opened Soundness
  import opened SoundTools
  import opened SoundRestore
  import opened Exits
  import opened Growth
  import opened SoundRuns

  // ---------- one file ----------

  /** The inode has the same mode, size, sectors and pointers, and its blocks the same bytes. */
  ghost predicate SameFile(fs: Fs, fs': Fs, i: nat) {
    && Linked(fs, i) && |fs'.inodes| == |fs.inodes| && |fs'.disk| == |fs.disk|
    && fs'.inodes[i - 1] == fs.inodes[i - 1].(links := fs'.inodes[i - 1].links, dtime := fs'.inodes[i - 1].dtime)
    && forall n :: n in Order(fs, i) ==> n < |fs.disk| && fs'.disk[n] == fs.disk[n]
  }

  lemma OrderHasIndirect(fs: Fs, i: nat)
    requires Linked(fs, i) && HasIndirect(fs.inodes[i - 1])
    ensures fs.inodes[i - 1].ptr[DIRECT] in Order(fs, i)
  {
    hide Direct, Inodes.Entries;
  }

  /** Then it reaches the same blocks, and is trimmed if it was. */
  lemma SameFileOrder(fs: Fs, fs': Fs, i: nat)
    requires SameFile(fs, fs', i)
    ensures SameOrder(fs, fs', i)
    ensures Trimmed(fs'.inodes[i - 1], fs'.disk) <==> Trimmed(fs.inodes[i - 1], fs.disk)
  {
    hide FreeOrder, Direct, Inodes.Entries, U32At;
    if HasIndirect(fs.inodes[i - 1]) {
      OrderHasIndirect(fs, i);
    }
    PointersKeep(fs, fs', i);
  }

  /** Block j of the file is one of the blocks that the inode reaches. */
  ghost predicate Holds(fs: Fs, i: nat, j: nat)
    requires Linked(fs, i)
  {
    var x := fs.inodes[i - 1];
    && j < MAX_BLOCKS && (j >= DIRECT ==> HasIndirect(x) && x.ptr[DIRECT] < |fs.disk|)
    && BlockOf(x, fs.disk, j) in Order(fs, i)
  }

  /** It reads back the same, byte by byte. */
  lemma SameFileReads(fs: Fs, fs': Fs, i: nat, x: nat)
    requires SameFile(fs, fs', i) && Holds(fs, i, x / BLOCK_SIZE)
    ensures BlockOf(fs.inodes[i - 1], fs.disk, x / BLOCK_SIZE) < |fs.disk|
    ensures fs'.inodes[i - 1].size == fs.inodes[i - 1].size && fs'.inodes[i - 1].mode == fs.inodes[i - 1].mode
    ensures Reads(fs'.inodes[i - 1], fs'.disk, x, ByteAt(fs.inodes[i - 1], fs.disk, x))
  {
    hide FreeOrder, Direct, Inodes.Entries, U32At, PointersOk;
    if HasIndirect(fs.inodes[i - 1]) {
      OrderHasIndirect(fs, i);
    }
  }

  // ---------- creating ----------

  /** What an inode keeps in any case. */
  predicate SameModeAndTime(i: Inode, i': Inode) {
    i'.mode == i.mode && i'.dtime == i.dtime
  }

  /** A directory's block, or a free one, is no block of another inode. */
  lemma NotAmong(fs: Fs, dir: nat, i: nat, n: nat)
    requires Owned(fs) && GoodDir(fs, dir) && i in fs.inodeMap.used && i != dir
    requires n in Blocks(fs, dir) || n !in fs.blockMap.used
    ensures Linked(fs, i) && n !in Order(fs, i)
  {
    hide FreeOrder, Direct, PointersOk, NoDup, AllTiled, UniqueNames, Compact;
    assert Owns(fs, i) && Owns(fs, dir) && Apart(fs, dir, i);
    DirectoryOrder(fs, dir);
  }

  lemma InRangeBlocks(fs: Fs, i: nat)
    requires Linked(fs, i)
    ensures forall n :: n in Order(fs, i) ==> n < |fs.disk|
  {
    hide FreeOrder, PointersOk;
    OrderInRange(fs.inodes[i - 1], fs.disk);
  }

  /** One block changes, of a directory or free, and nothing about the inode but links and time. */
  lemma OneBlockChanges(fs: Fs, fs': Fs, dir: nat, i: nat, n: nat)
    requires Owned(fs) && GoodDir(fs, dir) && i in fs.inodeMap.used && i != dir && 1 <= i <= |fs.inodes|
    requires n in Blocks(fs, dir) || n !in fs.blockMap.used
    requires |fs'.inodes| == |fs.inodes| && |fs'.disk| == |fs.disk|
    requires fs'.inodes[i - 1] == fs.inodes[i - 1].(links := fs'.inodes[i - 1].links, dtime := fs'.inodes[i - 1].dtime)
    requires forall k :: 0 <= k < |fs.disk| && k != n ==> fs'.disk[k] == fs.disk[k]
    ensures SameFile(fs, fs', i)
  {
    hide FreeOrder, PointersOk, Owned, DirOk, Compact;
    NotAmong(fs, dir, i, n);
    InRangeBlocks(fs, i);
  }

  /** The inodes after the entry has been put in. */
  lemma EnteredInodes(fs: Fs, dir: nat, blk: nat, e: Entry)
    requires CanEnter(fs, dir, blk, e)
    ensures var fs1 := WithEntry(fs, dir, blk, e);
      && |fs1.inodes| == |fs.inodes| && 1 <= dir <= |fs.inodes|
      && (forall k :: 0 <= k < |fs.inodes| && k != dir - 1 ==> fs1.inodes[k] == fs.inodes[k])
      && SameModeAndTime(fs.inodes[dir - 1], fs1.inodes[dir - 1])
  {
    hide CanEnter, WithEntry, SpotIn, DirOk, Direct;
    CanEnterOk(fs, dir, blk, e);
    EntryInodes(fs, dir, blk, e);
  }

  /** One inode gets a link, or is taken blank with its first. */
  lemma LinkedInodes(fs1: Fs, link: nat, ino: nat, kind: Byte)
    requires 1 <= ino <= |fs1.inodes|
    ensures var fs' := WithInode(fs1, link, ino, kind);
      && |fs'.inodes| == |fs1.inodes| && fs'.disk == fs1.disk
      && (forall k :: 0 <= k < |fs1.inodes| && k != ino - 1 ==> fs'.inodes[k] == fs1.inodes[k])
      && (link != 0 ==> fs'.inodes[ino - 1] == fs1.inodes[ino - 1].(links := fs'.inodes[ino - 1].links))
      && (link == 0 ==> fs'.inodes[ino - 1] == OneMoreLink(BlankInode(kind)))
  {
    hide BlankInode;
  }

  /** The inodes after a creation. */
  lemma CreatedInodes(fs: Fs, fs': Fs, dirs: seq<nat>, dir: nat, blk: nat, link: nat, e: Entry)
    requires Creates(fs, fs', dirs, dir, blk, link, e)
    ensures |fs'.inodes| == |fs.inodes| && |fs'.disk| == |fs.disk| && GoodDir(fs, dir)
    ensures link == 0 ==> e.inode !in fs.inodeMap.used && 1 <= e.inode <= |fs.inodes| && fs'.inodes[e.inode - 1] == OneMoreLink(BlankInode(e.kind))
    ensures forall i :: i in fs.inodeMap.used ==> 1 <= i <= |fs.inodes| && SameModeAndTime(fs.inodes[i - 1], fs'.inodes[i - 1])
    ensures forall i :: i in fs.inodeMap.used && i != dir ==> fs'.inodes[i - 1] == fs.inodes[i - 1].(links := fs'.inodes[i - 1].links)
    ensures var n := EntryBlock(fs, dir, blk, e);
      && (n in Blocks(fs, dir) || n !in fs.blockMap.used)
      && forall k :: 0 <= k < |fs.disk| && k != n ==> fs'.disk[k] == fs.disk[k]
  {
    hide Owned, DirOk, WithEntry, WithInode, CanEnter, AsMap, SpotIn, Direct, LinksCounted, BlankInode, OneMoreLink, Compact, Numbers, EntryBlock;
    assert GoodDir(fs, dir);
    EntryStep(fs, dir, blk, e);
    CanEnterOk(fs, dir, blk, e);
    EnteredInodes(fs, dir, blk, e);
    LinkedInodes(WithEntry(fs, dir, blk, e), link, e.inode, e.kind);
    UsedInRange(fs);
  }

  lemma UsedInRange(fs: Fs)
    requires Accounted(fs)
    ensures forall i :: i in fs.inodeMap.used ==> 1 <= i <= |fs.inodes|
  {}

  lemma CreateFrames(fs: Fs, fs': Fs, dirs: seq<nat>, dir: nat, blk: nat, link: nat, e: Entry, i: nat)
    requires Creates(fs, fs', dirs, dir, blk, link, e) && i in fs.inodeMap.used && i !in dirs
    ensures SameFile(fs, fs', i) && fs'.inodes[i - 1].dtime == fs.inodes[i - 1].dtime
  {
    hide Owned, DirOk, Created, AsMap, SpotIn, Direct, LinksCounted, BlankInode, Compact, EntryBlock, GoodDir, Linkable;
    CreatedInodes(fs, fs', dirs, dir, blk, link, e);
    OneBlockChanges(fs, fs', dir, i, EntryBlock(fs, dir, blk, e));
  }

  // ---------- deleting ----------

  /** The inodes and blocks after a deletion: one link less for one inode, which at its last link gets a
      deletion time and is no longer in use, and one block of the directory changed. */
  ghost predicate Dropped(fs: Fs, fs': Fs, dirs: seq<nat>, dir: nat, num: nat, n: nat, now: nat) {
    && |fs'.inodes| == |fs.inodes| && |fs'.disk| == |fs.disk| && 1 <= num <= |fs.inodes| && num !in dirs && num in fs.inodeMap.used
    && (forall k :: 0 <= k < |fs.inodes| && k != num - 1 ==> fs'.inodes[k] == fs.inodes[k])
    && fs.inodes[num - 1].links > 0
    && fs'.inodes[num - 1] == fs.inodes[num - 1].(links := fs.inodes[num - 1].links - 1,
                                 dtime := if fs.inodes[num - 1].links == 1 then now else fs.inodes[num - 1].dtime)
    && fs'.inodeMap.used == (if fs.inodes[num - 1].links == 1 then fs.inodeMap.used - {num} else fs.inodeMap.used)
    && GoodDir(fs, dir) && n in Blocks(fs, dir)
    && forall k :: 0 <= k < |fs.disk| && k != n ==> fs'.disk[k] == fs.disk[k]
  }

  lemma UnlinkedInode(fs: Fs, num: nat, now: nat)
    requires Linked(fs, num) && AfterUnlink(fs, num, now).Some?
    ensures var fs1 := AfterUnlink(fs, num, now).value;
      && |fs1.inodes| == |fs.inodes| && fs.inodes[num - 1].links > 0
      && fs1.inodes[num - 1] == fs.inodes[num - 1].(links := fs.inodes[num - 1].links - 1,
                                   dtime := if fs.inodes[num - 1].links == 1 then now else fs.inodes[num - 1].dtime)
  {
    hide PointersOk, ReleaseAll, FreeOrder;
  }

  lemma DeletedInodes(fs: Fs, dirs: seq<nat>, dir: nat, name: seq<Byte>, at: Place, now: nat)
    requires Deletes(fs, dirs, dir, name, at)
    ensures Dropped(fs, AfterDelete(fs, at.block, at.pos, now), dirs, dir, EntryIn(fs, dir, name, at).inode, at.block, now)
  {
    hide Direct, AllTiled, UniqueNames, Listing, Owned, NoDup, LinksCounted, OnChain, Tiled, HideAt, GoodEntry, Owns, AfterUnlink, DirOk,
         Listed, EntryIn, Compact, DeleteOutcome, Deletable, AsMap, FindEntry, Found, PointersOk, ReleaseAll, AfterDelete, WithoutEntry;
    var num := EntryIn(fs, dir, name, at).inode;
    DeleteStates(fs, dirs, dir, name, at, now);
    UnlinkedInode(fs, num, now);
    UnlinkStep(fs, num, now);
    UsedInRange(fs);
    assert GoodDir(fs, dir);
  }

  lemma DeleteFrames(fs: Fs, dirs: seq<nat>, dir: nat, name: seq<Byte>, at: Place, now: nat, i: nat)
    requires Deletes(fs, dirs, dir, name, at) && i in fs.inodeMap.used && i !in dirs
    ensures var fs' := AfterDelete(fs, at.block, at.pos, now);
      && SameFile(fs, fs', i)
      && fs'.inodes[i - 1].dtime ==
         (if i == EntryIn(fs, dir, name, at).inode && fs.inodes[i - 1].links == 1 then now else fs.inodes[i - 1].dtime)
  {
    hide Direct, Owned, LinksCounted, DirOk, GoodEntry, AfterDelete, EntryIn, Compact, DeleteOutcome, Deletable, Found, PointersOk, Listed, FreeOrder,
         GoodDir;
    DeletedInodes(fs, dirs, dir, name, at, now);
    UsedInRange(fs);
    OneBlockChanges(fs, AfterDelete(fs, at.block, at.pos, now), dir, i, at.block);
  }

  // ---------- copying ----------

  lemma TakeFrames(fs: Fs, fs': Fs, num: nat, i: nat)
    requires Owned(fs) && Takes(fs, fs', num) && i in fs.inodeMap.used && i != num
    ensures SameFile(fs, fs', i) && fs'.inodes[i - 1] == fs.inodes[i - 1]
  {
    hide Accounted, FreeOrder, PointersOk, NoDup;
    assert Owns(fs, i);
    InRangeBlocks(fs, i);
  }

  // ---------- restoring ----------

  /** The inodes and blocks after a fitting restore: the inode that comes back was free, and has one
      link and no deletion time. */
  lemma RestoredInodes(fs: Fs, fs': Fs, dirs: seq<nat>, dir: nat, name: seq<Byte>) returns (n: nat)
    requires Restores(fs, fs', dirs, dir, name) && RestoreFits(fs, dir, name)
    ensures var num := RestoredEntry(fs, dir, name).inode;
      && |fs'.inodes| == |fs.inodes| && |fs'.disk| == |fs.disk| && 1 <= num <= |fs.inodes| && num !in fs.inodeMap.used && num !in dirs
      && fs'.inodes[num - 1] == fs.inodes[num - 1].(links := 1, dtime := 0)
      && (forall i :: 0 <= i < |fs.inodes| && i != num - 1 ==> fs'.inodes[i] == fs.inodes[i])
      && fs'.inodeMap.used == fs.inodeMap.used + {num} && Linked(fs, num)
      && (forall m :: m in Order(fs, num) ==> m !in fs.blockMap.used)
    ensures GoodDir(fs, dir) && n in Blocks(fs, dir) && forall k :: 0 <= k < |fs.disk| && k != n ==> fs'.disk[k] == fs.disk[k]
  {
    hide Direct, AllTiled, UniqueNames, Listing, Owned, LinksCounted, Ends, Unhidden, Listed, PointersOk, RestoredEntry, StaleLinked, AfterRestore,
         StaleOf, SameListing, Compact, GoodEntry, NoDup, RestoreFits, DirOk, Accounted, AfterReclaim, FreeOrder;
    var fs1;
    fs1, n := RestoreSteps(fs, fs', dirs, dir, name);
    RestoreReclaims(fs, fs1, fs', dirs, dir, name, n);
    var k := RestoreLists(fs, fs1, fs', dir, name, n);
    ReclaimStep(fs, RestoredEntry(fs, dir, name).inode, fs1);
    RestoredInode(fs, RestoredEntry(fs, dir, name).inode, fs1);
    assert GoodDir(fs, dir);
  }

  lemma RestoredInode(fs: Fs, num: nat, fs1: Fs)
    requires Linked(fs, num) && AfterReclaim(fs, num) == Restored(fs1)
    ensures |fs1.inodes| == |fs.inodes| && fs1.inodes[num - 1] == fs.inodes[num - 1].(links := 1, dtime := 0)
  {
    hide PointersOk, ClaimOrder, ClaimAll, ClaimUpTo, AllFree;
  }

  lemma RestoreFrames(fs: Fs, fs': Fs, dirs: seq<nat>, dir: nat, name: seq<Byte>, i: nat)
    requires Restores(fs, fs', dirs, dir, name) && RestoreFits(fs, dir, name) && i in fs.inodeMap.used && i !in dirs
    ensures SameFile(fs, fs', i) && fs'.inodes[i - 1] == fs.inodes[i - 1]
  {
    hide Direct, Owned, LinksCounted, DirOk, GoodEntry, RestoredEntry, StaleLinked, AfterRestore, RestoreFits, Compact, PointersOk, Listed, FreeOrder, GoodDir;
    var n := RestoredInodes(fs, fs', dirs, dir, name);
    UsedInRange(fs);
    OneBlockChanges(fs, fs', dir, i, n);
  }

  // ---------- exits ----------

  lemma ExitFrames(fs: Fs, fs': Fs, dirs: seq<nat>, dir: nat, link: nat, name: seq<Byte>, blk: nat, i: nat)
    requires Sound(fs, dirs) && dir in dirs && DirOk(fs, dir) && CreateOutcome(fs, dir, link, name) == Exit && Exited(fs, fs', dir, name, blk)
    requires HarmlessExit(fs, dirs, dir, name) && i in fs.inodeMap.used && i !in dirs
    ensures SameFile(fs, fs', i) && fs'.inodes[i - 1] == fs.inodes[i - 1]
  {
    hide Direct, Owned, LinksCounted, DirOk, GoodEntry, Compact, PointersOk, Listed, FreeOrder, Exited, HarmlessExit, CreateOutcome;
    UsedInRange(fs);
    assert GoodDir(fs, dir);
    var n := ExitBlock(fs, fs', dirs, dir, link, name, blk);
    if fs' == fs {
      NothingChanges(fs, i);
    } else {
      OneBlockChanges(fs, fs', dir, i, n);
    }
  }

  lemma NothingChanges(fs: Fs, i: nat)
    requires Owned(fs) && i in fs.inodeMap.used
    ensures SameFile(fs, fs, i)
  {
    hide FreeOrder, PointersOk, NoDup;
    assert Owns(fs, i);
    InRangeBlocks(fs, i);
  }

  /** A harmless exit changes nothing, or one block of the directory. */
  lemma ExitBlock(fs: Fs, fs': Fs, dirs: seq<nat>, dir: nat, link: nat, name: seq<Byte>, blk: nat) returns (n: nat)
    requires GoodDir(fs, dir) && CreateOutcome(fs, dir, link, name) == Exit && Exited(fs, fs', dir, name, blk)
    requires HarmlessExit(fs, dirs, dir, name)
    ensures fs'.inodes == fs.inodes && fs'.inodeMap == fs.inodeMap && |fs'.disk| == |fs.disk|
    ensures fs' == fs || n in Blocks(fs, dir)
    ensures forall k :: 0 <= k < |fs.disk| && (fs' == fs || k != n) ==> fs'.disk[k] == fs.disk[k]
  {
    hide DirOk, Compact, Splits, AfterSplit, AfterNewBlock, SplitIsHarmless, SpotIn, Direct, AsMap, Entered;
    n := 0;
    if |name| > NAME_MAX || NoRoom(fs, dir, Need(name), |fs.disk|) {
    } else if Splits(fs, dir, Need(name)) {
      n := SplitEnters(fs, dir, Need(name));
      SplitInodes(fs, dir, Need(name));
      SplitBlock(fs, AfterSplit(fs, dir, Need(name)), dir, n);
    }
  }

  lemma SplitBlock(fs: Fs, fs1: Fs, dir: nat, n: nat)
    requires DirOk(fs, dir) && Entered(fs, fs1, dir, n) && Blocks(fs1, dir) == Blocks(fs, dir)
    ensures n in Blocks(fs, dir) && |fs1.disk| == |fs.disk| && forall k :: 0 <= k < |fs.disk| && k != n ==> fs1.disk[k] == fs.disk[k]
  {
    hide DirOk, Direct, Compact;
    assert |Blocks(fs, dir) + [n]| == |Blocks(fs, dir)| + 1;
  }

  // ---------- all uses ----------

  /** A copy writes to this file. */
  predicate WritesTo(u: Use, i: nat) {
    match u
    case Copy(num, _) => num == i
    case CopyExit(num, _, _, _, _) => num == i
    case _ => false
  }

  /** The use takes the last link of this file, at this time. */
  ghost predicate Erases(u: Use, s: State, i: nat) {
    match u
    case Delete(dir, name, at, now) =>
      Found(s.fs, dir, name, at) && EntryIn(s.fs, dir, name, at).inode == i && 1 <= i <= |s.fs.inodes| && s.fs.inodes[i - 1].links == 1
    case _ => false
  }

  function TimeOf(u: Use): nat {
    if u.Delete? then u.now else 0
  }

  /** No use of a tool that keeps a sound volume sound touches a file that it does not copy to: mode,
      size, sectors, pointers and all bytes stay. Only when its last link goes does a file get a
      deletion time. */
  lemma UseKeepsFiles(u: Use, s: State, t: State, i: nat)
    requires Sound(s.fs, s.dirs) && Does(u, s, t) && Harmless(u, s) && i in s.fs.inodeMap.used && i !in s.dirs && !WritesTo(u, i)
    ensures SameFile(s.fs, t.fs, i)
    ensures t.fs.inodes[i - 1].dtime == if Erases(u, s, i) then TimeOf(u) else s.fs.inodes[i - 1].dtime
  {
    hide Sound, Created, Copied, Deletable, DeleteOutcome, AfterDelete, EntryIn, Found, Linkable, StaleLinked, AfterRestore, DirOk, RestoreFits,
         Copying, Exited, CreateOutcome, HarmlessExit, SameFile, Takes, Empty;
    SoundParts(s.fs, s.dirs);
    match u
    case Create(dir, blk, link, e) => CreateFrames(s.fs, t.fs, s.dirs, dir, blk, link, e, i);
    case Delete(dir, name, at, now) => DeleteFrames(s.fs, s.dirs, dir, name, at, now, i); UsedInRange(s.fs);
    case Copy(num, src) =>
      CopyStep(s.fs, t.fs, num, src);
      TakeFrames(s.fs, t.fs, num, i);
    case Undelete(dir, name) => RestoreFrames(s.fs, t.fs, s.dirs, dir, name, i);
    case CreateExit(dir, link, name, blk) => ExitFrames(s.fs, t.fs, s.dirs, dir, link, name, blk, i);
    case CopyExit(num, src, ds, ind, es) =>
      CopyingStep(s.fs, t.fs, num, src, ds, ind, es);
      TakeFrames(s.fs, t.fs, num, i);
    case UndeleteExit(dir, name) => assert false;
  }

  lemma SoundParts(fs: Fs, dirs: seq<nat>)
    requires Sound(fs, dirs)
    ensures Owned(fs) && Accounted(fs)
  {}
}
