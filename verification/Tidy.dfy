/** What the tools leave behind is in the order that the checker asks for: no inode in use has a deletion
    time, no pointer follows a 0, every entry has the type of its inode, and every directory the
    counts of its blocks. */
module Tidiness {
  import opened Prelude
  import opened ResourceMap
  import opened Inodes
  import opened FileData
  import opened DirBlock
  import opened Directory
  import opened Volume
  import opened DirectoryTools
  import opened Restore
  import opened Unhiding
  import opened Soundness
  import opened SoundTools
  import opened SoundRestore
  import opened Exits
  import opened Growth
  import opened SoundRuns
  import opened Frames
  import Checker

  // ---------- the invariant ----------

  ghost predicate InodeTidy(fs: Fs, i: nat) {
    Linked(fs, i) && fs.inodes[i - 1].dtime == 0 && Trimmed(fs.inodes[i - 1], fs.disk)
  }

  /** The entry's type is the one that its inode's mode calls for. */
  predicate Typed(fs: Fs, e: Entry) {
    1 <= e.inode <= |fs.inodes| && e.kind == Checker.ExpectedType(fs.inodes[e.inode - 1].mode)
  }

  predicate IsDir(fs: Fs, d: nat) {
    1 <= d <= |fs.inodes| && Checker.ExpectedType(fs.inodes[d - 1].mode) == FT_DIR
  }

  ghost predicate InodesTidy(fs: Fs) {
    forall i :: i in fs.inodeMap.used ==> InodeTidy(fs, i)
  }

  ghost predicate EntriesTyped(fs: Fs, dirs: seq<nat>) {
    && (forall d :: d in dirs ==> IsDir(fs, d))
    && forall d, e :: d in dirs && e in Listed(fs, d) ==> Typed(fs, e)
  }

  /** A sound volume in which, besides, all inodes in use and all entries are in order. */
  ghost predicate Tidy(fs: Fs, dirs: seq<nat>) {
    Sound(fs, dirs) && AllGrown(fs, dirs) && InodesTidy(fs) && EntriesTyped(fs, dirs)
  }

  // ---------- what carries it over ----------

  /** A directory's pointers are compact, so they are trimmed. */
  lemma DirectoryTrimmed(fs: Fs, d: nat)
    requires Linked(fs, d) && Compact(fs.inodes[d - 1])
    ensures Trimmed(fs.inodes[d - 1], fs.disk)
  {
    hide Direct;
    DirectStops(fs.inodes[d - 1].ptr, 0);
  }

  /** The inode i, in use in both, is tidy again: a directory with the same mode and time, or an
      untouched file. */
  ghost predicate Carried(fs: Fs, fs': Fs, dirs: seq<nat>, i: nat) {
    && i in fs.inodeMap.used && 1 <= i <= |fs.inodes| == |fs'.inodes| && SameModeAndTime(fs.inodes[i - 1], fs'.inodes[i - 1])
    && (i !in dirs ==> SameFile(fs, fs', i))
  }

  lemma CarriedIsTidy(fs: Fs, fs': Fs, dirs: seq<nat>, dirs': seq<nat>, i: nat)
    requires InodesTidy(fs) && Carried(fs, fs', dirs, i) && Sound(fs', dirs') && i in fs'.inodeMap.used && (i in dirs ==> i in dirs')
    ensures InodeTidy(fs', i)
  {
    hide DirOk, Accounted, LinksCounted, PointersOk, FreeOrder, Compact, Trimmed, NoDup, Listed, AllDirsOk;
    assert InodeTidy(fs, i) && Owns(fs', i);
    if i in dirs {
      assert GoodDir(fs', i);
      DirectoryTrimmed(fs', i);
    } else {
      SameFileOrder(fs, fs', i);
    }
  }

  /** Old entries stay typed when modes stay. */
  lemma OldTyped(fs: Fs, fs': Fs, dirs: seq<nat>, d: nat, e: Entry)
    requires Sound(fs, dirs) && EntriesTyped(fs, dirs) && d in dirs && e in Listed(fs, d) && |fs'.inodes| == |fs.inodes|
    requires forall i :: i in fs.inodeMap.used && 1 <= i <= |fs.inodes| ==> fs'.inodes[i - 1].mode == fs.inodes[i - 1].mode
    ensures Typed(fs', e)
  {
    hide DirOk, Accounted, Owned, LinksCounted, Listed, AllDirsOk, NoDup;
    assert GoodEntry(fs, dirs, e) && Typed(fs, e);
  }

  lemma OldDirs(fs: Fs, fs': Fs, dirs: seq<nat>)
    requires Sound(fs, dirs) && EntriesTyped(fs, dirs) && |fs'.inodes| == |fs.inodes|
    requires forall i :: i in fs.inodeMap.used && 1 <= i <= |fs.inodes| ==> fs'.inodes[i - 1].mode == fs.inodes[i - 1].mode
    ensures forall d :: d in dirs ==> IsDir(fs', d)
  {
    hide DirOk, Accounted, Owned, LinksCounted, Listed, AllDirsOk, NoDup, Compact;
    forall d | d in dirs ensures IsDir(fs', d) {
      assert GoodDir(fs, d) && IsDir(fs, d);
    }
  }

  // ---------- creating ----------

  /** The type asked for is one that the tools give to new inodes, or that of the inode linked. */
  ghost predicate KindFits(fs: Fs, link: nat, kind: Byte) {
    if link == 0 then kind == FT_REG_FILE || kind == FT_DIR || kind == Checker.FT_SYMLINK
    else link <= |fs.inodes| && kind == Checker.ExpectedType(fs.inodes[link - 1].mode)
  }

  lemma BlankIsTidy(fs: Fs, i: nat, kind: Byte)
    requires 1 <= i <= |fs.inodes| && fs.inodes[i - 1] == OneMoreLink(BlankInode(kind))
    ensures InodeTidy(fs, i)
  {}

  lemma LinkedUsed(fs: Fs, dirs: seq<nat>, link: nat, e: Entry, fs': Fs, dir: nat, blk: nat)
    requires Creates(fs, fs', dirs, dir, blk, link, e)
    ensures link != 0 ==> e.inode == link && link in fs.inodeMap.used && 1 <= link <= |fs.inodes|
    ensures e.inode in fs'.inodeMap.used && fs'.inodeMap.used == fs.inodeMap.used + {e.inode} && dir in dirs
  {
    hide Sound, CanEnter, WithEntry, WithInode, LeastFree, DirOk, SpotIn, AsMap, SameListing, Listed;
    CreateKeeps(fs, fs', dirs, dir, blk, link, e);
  }

  lemma CreatedTidyInodes(fs: Fs, fs': Fs, dirs: seq<nat>, dir: nat, blk: nat, link: nat, e: Entry)
    requires Creates(fs, fs', dirs, dir, blk, link, e) && InodesTidy(fs) && Sound(fs', DirsAfter(dirs, link, e))
    ensures InodesTidy(fs')
  {
    hide Sound, Created, Linkable, InodeTidy, SameFile, OneMoreLink, BlankInode, Carried, GoodDir;
    CreatedInodes(fs, fs', dirs, dir, blk, link, e);
    LinkedUsed(fs, dirs, link, e, fs', dir, blk);
    forall i | i in fs'.inodeMap.used ensures InodeTidy(fs', i) {
      if link == 0 && i == e.inode {
        BlankIsTidy(fs', i, e.kind);
      } else {
        CreateCarries(fs, fs', dirs, dir, blk, link, e, i);
        CarriedIsTidy(fs, fs', dirs, DirsAfter(dirs, link, e), i);
      }
    }
  }

  lemma CreateCarries(fs: Fs, fs': Fs, dirs: seq<nat>, dir: nat, blk: nat, link: nat, e: Entry, i: nat)
    requires Creates(fs, fs', dirs, dir, blk, link, e) && i in fs.inodeMap.used
    ensures Carried(fs, fs', dirs, i)
  {
    hide Sound, Created, Linkable, SameFile, OneMoreLink, BlankInode, GoodDir;
    CreatedInodes(fs, fs', dirs, dir, blk, link, e);
    if i !in dirs {
      CreateFrames(fs, fs', dirs, dir, blk, link, e, i);
    }
  }

  lemma CreatedModes(fs: Fs, fs': Fs, dirs: seq<nat>, dir: nat, blk: nat, link: nat, e: Entry)
    requires Creates(fs, fs', dirs, dir, blk, link, e)
    ensures |fs'.inodes| == |fs.inodes|
    ensures forall i :: i in fs.inodeMap.used && 1 <= i <= |fs.inodes| ==> fs'.inodes[i - 1].mode == fs.inodes[i - 1].mode
    ensures Typed(fs', e) <==> KindFits(fs, link, e.kind)
    ensures link == 0 && e.kind == FT_DIR ==> IsDir(fs', e.inode)
  {
    hide Sound, Created, Linkable, Checker.ExpectedType, GoodDir;
    CreatedInodes(fs, fs', dirs, dir, blk, link, e);
    LinkedUsed(fs, dirs, link, e, fs', dir, blk);
    Checker.TypeMatchesMode(e.kind);
  }

  /** What is listed afterwards is the new entry and what was listed before. */
  lemma CreatedLists(fs: Fs, fs': Fs, dirs: seq<nat>, dir: nat, blk: nat, link: nat, e: Entry, d: nat, x: Entry)
    requires Creates(fs, fs', dirs, dir, blk, link, e) && d in DirsAfter(dirs, link, e) && x in Listed(fs', d)
    ensures x == e || (d in dirs && x in Listed(fs, d))
  {
    hide Creates, Listed, DirOk, AsMap, InsertAt, EntryIndex;
    if d !in dirs {
      NewListsNothing(fs, fs', dirs, dir, blk, link, e);
    } else {
      CreateKeeps(fs, fs', dirs, dir, blk, link, e);
      if d == dir {
        InsertedIn(Listed(fs, dir), EntryIndex(fs, dir, e), e, x);
      } else {
        assert SameListing(fs, fs', d);
      }
    }
  }

  lemma NewListsNothing(fs: Fs, fs': Fs, dirs: seq<nat>, dir: nat, blk: nat, link: nat, e: Entry)
    requires Creates(fs, fs', dirs, dir, blk, link, e) && link == 0
    ensures Listed(fs', e.inode) == []
  {
    hide Sound, Linkable, Listed, DirOk, WithInode, LeastFree, SpotIn, AsMap;
    CanEnterOk(fs, dir, blk, e);
    EntryInodes(fs, dir, blk, e);
    NewDirectory(WithEntry(fs, dir, blk, e), e.inode, e.kind);
  }

  lemma CreatedIsListed(fs: Fs, fs': Fs, dirs: seq<nat>, dir: nat, blk: nat, link: nat, e: Entry)
    requires Creates(fs, fs', dirs, dir, blk, link, e)
    ensures dir in DirsAfter(dirs, link, e) && e in Listed(fs', dir)
  {
    hide Sound, Linkable, Listed, DirOk, AsMap, Created, EntryIndex;
    CreateKeeps(fs, fs', dirs, dir, blk, link, e);
    assert InsertAt(Listed(fs, dir), EntryIndex(fs, dir, e), e)[EntryIndex(fs, dir, e)] == e;
  }

  /** A creation keeps the volume tidy exactly if the type fits. */
  lemma CreateKeepsTidyExactly(fs: Fs, fs': Fs, dirs: seq<nat>, dir: nat, blk: nat, link: nat, e: Entry)
    requires Tidy(fs, dirs) && Creates(fs, fs', dirs, dir, blk, link, e)
    ensures Tidy(fs', DirsAfter(dirs, link, e)) <==> KindFits(fs, link, e.kind)
  {
    hide Sound, Created, Linkable, InodesTidy, AllGrown, Typed, IsDir, Listed, Creates, KindFits, SameListing, DirOk, AsMap;
    CreateKeepsSound(fs, fs', dirs, dir, blk, link, e);
    CreatedGrown(fs, fs', dirs, dir, blk, link, e);
    CreatedTidyInodes(fs, fs', dirs, dir, blk, link, e);
    CreatedModes(fs, fs', dirs, dir, blk, link, e);
    CreatedIsListed(fs, fs', dirs, dir, blk, link, e);
    OldDirs(fs, fs', dirs);
    if KindFits(fs, link, e.kind) {
      forall d, x | d in DirsAfter(dirs, link, e) && x in Listed(fs', d) ensures Typed(fs', x) {
        CreatedLists(fs, fs', dirs, dir, blk, link, e, d, x);
        if x != e {
          OldTyped(fs, fs', dirs, d, x);
        }
      }
    }
  }

  lemma CreatedGrown(fs: Fs, fs': Fs, dirs: seq<nat>, dir: nat, blk: nat, link: nat, e: Entry)
    requires Creates(fs, fs', dirs, dir, blk, link, e) && AllGrown(fs, dirs)
    ensures AllGrown(fs', DirsAfter(dirs, link, e))
  {
    hide Sound, Created, Linkable, AllGrown;
    CreateGrows(fs, fs', dirs, dir, blk, link, e);
  }

  /** One more name for a directory. */
  lemma DirectoryNamedAgain(fs: Fs, fs': Fs, dirs: seq<nat>, dir: nat, blk: nat, e: Entry)
    requires Tidy(fs, dirs) && Creates(fs, fs', dirs, dir, blk, e.inode, e) && e.inode != 0 && e.inode in dirs && e.kind == FT_DIR
    ensures Tidy(fs', dirs)
  {
    hide Sound, Created, Linkable, InodesTidy, AllGrown;
    assert IsDir(fs, e.inode);
    CreateKeepsTidyExactly(fs, fs', dirs, dir, blk, e.inode, e);
    LinkedStay(dirs, e);
  }

  /** A volume to start from is tidy. */
  lemma EmptyVolumeIsTidy(fs: Fs, root: nat)
    requires Unused(fs, root)
    ensures Tidy(fs, [root])
  {
    hide Sound, Listed, FreeOrder;
    EmptyVolumeIsSound(fs, root);
    BlankRoot(fs, root);
    assert fs.inodes[root - 1] == BlankInode(FT_DIR);
    EmptyIsGrown(fs, root, FT_DIR);
    Checker.TypeMatchesMode(FT_DIR);
    forall i | i in fs.inodeMap.used ensures InodeTidy(fs, i) {
      assert fs.inodes[i - 1] == BlankInode(FT_DIR);
    }
  }

  // ---------- the other uses ----------

  /** A step after which every inode in use is carried over or tidy by itself, and every entry is old
      or typed by itself. */
  lemma StepKeepsTidy(fs: Fs, fs': Fs, dirs: seq<nat>, who: nat)
    requires Tidy(fs, dirs) && Sound(fs', dirs) && AllGrown(fs', dirs) && |fs'.inodes| == |fs.inodes|
    requires forall i :: i in fs'.inodeMap.used && i != who ==> Carried(fs, fs', dirs, i)
    requires who in fs'.inodeMap.used ==> InodeTidy(fs', who)
    requires forall i :: i in fs.inodeMap.used && 1 <= i <= |fs.inodes| ==> fs'.inodes[i - 1].mode == fs.inodes[i - 1].mode
    requires forall d, e :: d in dirs && e in Listed(fs', d) ==> e in Listed(fs, d) || Typed(fs', e)
    ensures Tidy(fs', dirs)
  {
    hide Sound, AllGrown, InodeTidy, Carried, Typed, IsDir, Listed;
    forall i | i in fs'.inodeMap.used ensures InodeTidy(fs', i) {
      if i != who {
        CarriedIsTidy(fs, fs', dirs, dirs, i);
      }
    }
    OldDirs(fs, fs', dirs);
    forall d, e | d in dirs && e in Listed(fs', d) ensures Typed(fs', e) {
      if e in Listed(fs, d) {
        OldTyped(fs, fs', dirs, d, e);
      }
    }
  }

  lemma SameGrown(fs: Fs, fs': Fs, dirs: seq<nat>)
    requires AllGrown(fs, dirs) && |fs'.inodes| == |fs.inodes|
    requires forall k :: 0 <= k < |fs.inodes| && k + 1 in dirs ==> SameSizes(fs.inodes[k], fs'.inodes[k])
    ensures AllGrown(fs', dirs)
  {
    AllGrownKept(fs, fs', dirs);
  }

  /** A deletion always keeps the volume tidy. */
  lemma DeleteKeepsTidy(fs: Fs, dirs: seq<nat>, dir: nat, name: seq<Byte>, at: Place, now: nat)
    requires Tidy(fs, dirs) && Deletes(fs, dirs, dir, name, at)
    ensures Tidy(AfterDelete(fs, at.block, at.pos, now), dirs)
  {
    hide Sound, AllGrown, InodesTidy, InodeTidy, Carried, Typed, IsDir, Listed, EntryIn, AfterDelete, Deletable, DeleteOutcome, GoodDir, SameFile,
         SameListing, DirOk, AsMap, Found;
    var fs', num := AfterDelete(fs, at.block, at.pos, now), EntryIn(fs, dir, name, at).inode;
    DeleteKeepsSound(fs, dirs, dir, name, at, now);
    DeletedInodes(fs, dirs, dir, name, at, now);
    SameGrown(fs, fs', dirs);
    forall i | i in fs'.inodeMap.used ensures Carried(fs, fs', dirs, i) {
      DeleteCarries(fs, dirs, dir, name, at, now, i);
    }
    forall d, e | d in dirs && e in Listed(fs', d) ensures e in Listed(fs, d) {
      DeletedLists(fs, dirs, dir, name, at, now, d, e);
    }
    ZeroUnused(fs', dirs);
    StepKeepsTidy(fs, fs', dirs, 0);
  }

  lemma ZeroUnused(fs: Fs, dirs: seq<nat>)
    requires Sound(fs, dirs)
    ensures 0 !in fs.inodeMap.used
  {}

  lemma DeleteCarries(fs: Fs, dirs: seq<nat>, dir: nat, name: seq<Byte>, at: Place, now: nat, i: nat)
    requires Deletes(fs, dirs, dir, name, at)
    requires i in AfterDelete(fs, at.block, at.pos, now).inodeMap.used
    ensures Carried(fs, AfterDelete(fs, at.block, at.pos, now), dirs, i)
  {
    hide Found, EntryIn, AfterDelete, Deletable, DeleteOutcome, GoodDir, SameFile, Owned, DirsGood, AllDirsOk, LinksCounted;
    DeletedInodes(fs, dirs, dir, name, at, now);
    DeletesAccounted(fs, dirs, dir, name, at);
    UsedInRange(fs);
    if i !in dirs {
      DeleteFrames(fs, dirs, dir, name, at, now, i);
    }
  }

  lemma DeletesAccounted(fs: Fs, dirs: seq<nat>, dir: nat, name: seq<Byte>, at: Place)
    requires Deletes(fs, dirs, dir, name, at)
    ensures Accounted(fs) && dir in dirs
  {}

  lemma DeletedLists(fs: Fs, dirs: seq<nat>, dir: nat, name: seq<Byte>, at: Place, now: nat, d: nat, e: Entry)
    requires Deletes(fs, dirs, dir, name, at) && d in dirs && e in Listed(AfterDelete(fs, at.block, at.pos, now), d)
    ensures e in Listed(fs, d)
  {
    hide Sound, Found, EntryIn, AfterDelete, Deletable, DeleteOutcome, DirOk, Listed, AsMap, RemoveAt;
    var k := DeleteLists(fs, dirs, dir, name, at, now);
    DeleteKeepsSound(fs, dirs, dir, name, at, now);
    if d == dir {
      RemovedIn(Listed(fs, dir), k, e);
    } else {
      assert SameListing(fs, AfterDelete(fs, at.block, at.pos, now), d);
    }
  }

  /** A file that takes free blocks keeps it tidy if its own pointers stay trimmed. */
  lemma TakingKeepsTidy(fs: Fs, fs': Fs, dirs: seq<nat>, num: nat)
    requires Tidy(fs, dirs) && num in fs.inodeMap.used && num !in dirs && Takes(fs, fs', num)
    requires SameModeAndTime(fs.inodes[num - 1], fs'.inodes[num - 1]) && Linked(fs', num) && Trimmed(fs'.inodes[num - 1], fs'.disk)
    ensures Tidy(fs', dirs)
  {
    hide AllGrown, Typed, IsDir, Listed, Owns, DirOk, PointersOk, Trimmed, FreeOrder, DirsGood, LinksCounted, Owned, AllDirsOk, EntriesTyped;
    TakingKeepsSound(fs, fs', dirs, num);
    SameGrown(fs, fs', dirs);
    UsedInRange(fs);
    assert InodeTidy(fs, num);
    forall i | i in fs'.inodeMap.used && i != num ensures Carried(fs, fs', dirs, i) {
      TakeFrames(fs, fs', num, i);
    }
    forall d, e | d in dirs && e in Listed(fs', d) ensures e in Listed(fs, d) {
      assert SameListing(fs, fs', d);
    }
    StepKeepsTidy(fs, fs', dirs, num);
  }

  lemma CopyKeepsTidy(fs: Fs, fs': Fs, dirs: seq<nat>, num: nat, src: seq<Byte>)
    requires Tidy(fs, dirs) && Copies(fs, fs', dirs, num, src)
    ensures Tidy(fs', dirs)
  {
    hide Sound, AllGrown, InodesTidy, EntriesTyped, Takes, Trimmed, PointersOk, FreeOrder, ClaimAll, ReleaseAll, ClaimOrder, Reads, NoDup;
    SoundIsAccounted(fs, dirs);
    CopyStep(fs, fs', num, src);
    TakingKeepsTidy(fs, fs', dirs, num);
  }

  lemma CopyingTrimmed(fs: Fs, fs': Fs, num: nat, src: seq<Byte>, ds: seq<nat>, ind: nat, es: seq<nat>)
    requires Copying(fs, fs', num, src, ds, ind, es)
    ensures 1 <= num <= |fs.inodes| == |fs'.inodes|
    ensures Linked(fs', num) && Trimmed(fs'.inodes[num - 1], fs'.disk) && SameModeAndTime(fs.inodes[num - 1], fs'.inodes[num - 1])
  {
    hide ClaimAll, Stored, Direct, Inodes.Entries, U32At;
    CopyingOrder(fs, fs', num, src, ds, ind, es);
    DirectIs(fs'.inodes[num - 1], ds, ind, 0);
    if ind != 0 {
      EntriesAre(fs'.disk[ind], es, 0);
    }
  }

  lemma StoppedCopyKeepsTidy(fs: Fs, fs': Fs, dirs: seq<nat>, num: nat, src: seq<Byte>, ds: seq<nat>, ind: nat, es: seq<nat>)
    requires Tidy(fs, dirs) && num in fs.inodeMap.used && num !in dirs && Copying(fs, fs', num, src, ds, ind, es)
    ensures Tidy(fs', dirs)
  {
    hide Sound, AllGrown, InodesTidy, EntriesTyped, Takes, Trimmed, PointersOk, Copying;
    SoundIsAccounted(fs, dirs);
    CopyingStep(fs, fs', num, src, ds, ind, es);
    CopyingTrimmed(fs, fs', num, src, ds, ind, es);
    TakingKeepsTidy(fs, fs', dirs, num);
  }

  // ---------- restoring ----------

  /** The inode that comes back is trimmed, and the stale record has its type. */
  ghost predicate RestoreIsTidy(fs: Fs, dir: nat, name: seq<Byte>)
    requires DirOk(fs, dir)
  {
    var e := RestoredEntry(fs, dir, name);
    Typed(fs, e) && Linked(fs, e.inode) && Trimmed(fs.inodes[e.inode - 1], fs.disk)
  }

  lemma RestoredIsTidy(fs: Fs, fs': Fs, dirs: seq<nat>, dir: nat, name: seq<Byte>)
    requires Restores(fs, fs', dirs, dir, name) && RestoreFits(fs, dir, name)
    ensures var num := RestoredEntry(fs, dir, name).inode;
      && Linked(fs, num) && num !in fs.inodeMap.used && |fs'.inodes| == |fs.inodes| && fs'.inodeMap.used == fs.inodeMap.used + {num}
      && (InodeTidy(fs', num) <==> Trimmed(fs.inodes[num - 1], fs.disk))
      && (Typed(fs', RestoredEntry(fs, dir, name)) <==> Typed(fs, RestoredEntry(fs, dir, name)))
  {
    hide Direct, Owned, Accounted, DirsGood, LinksCounted, AllDirsOk, DirOk, RestoredEntry, StaleLinked, AfterRestore, RestoreFits, Compact, PointersOk,
         FreeOrder, GoodDir, Trimmed, U32At, Inodes.Entries;
    var n := RestoredInodes(fs, fs', dirs, dir, name);
    var num := RestoredEntry(fs, dir, name).inode;
    DirectoryBlocksUsed(fs, dirs, dir);
    InRangeBlocks(fs, num);
    assert SameFile(fs, fs', num);
    SameFileOrder(fs, fs', num);
  }

  lemma DirectoryBlocksUsed(fs: Fs, dirs: seq<nat>, dir: nat)
    requires Sound(fs, dirs) && dir in dirs
    ensures forall n :: n in Blocks(fs, dir) ==> n in fs.blockMap.used
  {
    hide Sound, Direct, DirOk, Compact;
    InUse(fs, dirs, dir);
  }

  lemma RestoredLists(fs: Fs, fs': Fs, dirs: seq<nat>, dir: nat, name: seq<Byte>)
    requires Restores(fs, fs', dirs, dir, name) && RestoreFits(fs, dir, name)
    ensures RestoredEntry(fs, dir, name) in Listed(fs', dir)
    ensures forall d, e :: d in dirs && e in Listed(fs', d) ==> e in Listed(fs, d) || e == RestoredEntry(fs, dir, name)
  {
    hide Direct, DirOk, RestoredEntry, StaleLinked, AfterRestore, RestoreFits, Sound, Listed, InSteps, AsMap, Restores;
    var fs1, n := RestoreSteps(fs, fs', dirs, dir, name);
    RestoresIn(fs, fs', dirs, dir, name);
    var k := RestoreKeeps(fs, fs1, fs', dirs, dir, name, n);
    var e := RestoredEntry(fs, dir, name);
    assert InsertAt(Listed(fs, dir), k, e)[k] == e;
    forall d, x | d in dirs && x in Listed(fs', d) ensures x in Listed(fs, d) || x == e {
      if d == dir {
        InsertedIn(Listed(fs, dir), k, e, x);
      } else {
        assert SameListing(fs, fs', d);
      }
    }
  }

  lemma RestoresIn(fs: Fs, fs': Fs, dirs: seq<nat>, dir: nat, name: seq<Byte>)
    requires Restores(fs, fs', dirs, dir, name)
    ensures Sound(fs, dirs) && dir in dirs && DirOk(fs, dir)
  {}

  lemma RestoreCarries(fs: Fs, fs': Fs, dirs: seq<nat>, dir: nat, name: seq<Byte>, i: nat)
    requires Restores(fs, fs', dirs, dir, name) && RestoreFits(fs, dir, name) && i in fs.inodeMap.used
    ensures Carried(fs, fs', dirs, i)
  {
    hide Direct, DirOk, RestoredEntry, StaleLinked, AfterRestore, RestoreFits, Owned, DirsGood, LinksCounted, AllDirsOk, SameFile, GoodDir, FreeOrder, PointersOk;
    var n := RestoredInodes(fs, fs', dirs, dir, name);
    UsedInRange(fs);
    if i !in dirs {
      RestoreFrames(fs, fs', dirs, dir, name, i);
    }
  }

  /** A restore keeps the volume tidy exactly if the record fits, has the type of its inode, and no
      pointer of that inode follows a 0. */
  lemma RestoreKeepsTidyExactly(fs: Fs, fs': Fs, dirs: seq<nat>, dir: nat, name: seq<Byte>)
    requires Tidy(fs, dirs) && Restores(fs, fs', dirs, dir, name)
    ensures Tidy(fs', dirs) <==> RestoreFits(fs, dir, name) && RestoreIsTidy(fs, dir, name)
  {
    hide Direct, DirOk, RestoredEntry, StaleLinked, AfterRestore, RestoreFits, Sound, Listed, SameFile, AllGrown, Typed, IsDir, InodeTidy, Carried,
         Trimmed, PointersOk, FreeOrder, GoodDir, AsMap, Restores;
    RestoreKeepsSoundExactly(fs, fs', dirs, dir, name);
    RestoresIn(fs, fs', dirs, dir, name);
    if RestoreFits(fs, dir, name) {
      var num := RestoredEntry(fs, dir, name).inode;
      RestoredIsTidy(fs, fs', dirs, dir, name);
      RestoredLists(fs, fs', dirs, dir, name);
      if RestoreIsTidy(fs, dir, name) {
        RestoredGrown(fs, fs', dirs, dir, name);
        forall i | i in fs'.inodeMap.used && i != num ensures Carried(fs, fs', dirs, i) {
          RestoreCarries(fs, fs', dirs, dir, name, i);
        }
        RestoredModes(fs, fs', dirs, dir, name);
        StepKeepsTidy(fs, fs', dirs, num);
      }
    }
  }

  lemma RestoredModes(fs: Fs, fs': Fs, dirs: seq<nat>, dir: nat, name: seq<Byte>)
    requires Restores(fs, fs', dirs, dir, name) && RestoreFits(fs, dir, name)
    ensures |fs'.inodes| == |fs.inodes|
    ensures forall i :: i in fs.inodeMap.used && 1 <= i <= |fs.inodes| ==> fs'.inodes[i - 1].mode == fs.inodes[i - 1].mode
  {
    hide Direct, DirOk, RestoredEntry, StaleLinked, AfterRestore, RestoreFits, Sound, GoodDir, FreeOrder, PointersOk;
    var n := RestoredInodes(fs, fs', dirs, dir, name);
  }

  lemma RestoredGrown(fs: Fs, fs': Fs, dirs: seq<nat>, dir: nat, name: seq<Byte>)
    requires Restores(fs, fs', dirs, dir, name) && RestoreFits(fs, dir, name) && AllGrown(fs, dirs)
    ensures AllGrown(fs', dirs)
  {
    hide Direct, DirOk, RestoredEntry, StaleLinked, AfterRestore, RestoreFits, Sound, GoodDir, FreeOrder, PointersOk, AllGrown;
    var n := RestoredInodes(fs, fs', dirs, dir, name);
    SameGrown(fs, fs', dirs);
  }

  // ---------- exits ----------

  /** What the slack shows after half a split has the types of its inodes. */
  ghost predicate SplitIsTidy(fs: Fs, dir: nat, need: nat)
    requires DirOk(fs, dir) && Splits(fs, dir, need)
  {
    SpotIsRecord(fs, dir, need);
    SplitIsClean(fs, dir, need) &&
    forall e :: e in RestListing(fs.disk, Blocks(fs, dir), SpotIn(fs, dir, need).value) ==> Typed(fs, e)
  }

  ghost predicate ExitIsTidy(fs: Fs, dir: nat, name: seq<Byte>)
    requires DirOk(fs, dir)
  {
    || |name| > NAME_MAX || NoRoom(fs, dir, Need(name), |fs.disk|)
    || (Splits(fs, dir, Need(name)) ==> SplitIsTidy(fs, dir, Need(name)))
  }

  /** Where only the listing of one directory changes, its types decide. */
  lemma ListingTyped(fs: Fs, fs': Fs, dirs: seq<nat>, dir: nat)
    requires EntriesTyped(fs, dirs) && fs'.inodes == fs.inodes && dir in dirs
    requires forall d :: d in dirs && d != dir ==> Listed(fs', d) == Listed(fs, d)
    ensures EntriesTyped(fs', dirs) <==> forall e :: e in Listed(fs', dir) ==> Typed(fs, e)
  {
    hide Listed, Checker.ExpectedType;
    if forall e :: e in Listed(fs', dir) ==> Typed(fs, e) {
      forall d, e | d in dirs && e in Listed(fs', d) ensures Typed(fs', e) {
        if d != dir {
          assert e in Listed(fs, d);
          assert Typed(fs, e);
        }
      }
      forall d | d in dirs ensures IsDir(fs', d) {
        assert IsDir(fs, d);
      }
    }
    if EntriesTyped(fs', dirs) {
      forall e | e in Listed(fs', dir) ensures Typed(fs, e) {
        assert Typed(fs', e);
      }
    }
  }

  lemma SplitTyped(fs: Fs, dirs: seq<nat>, dir: nat, need: nat)
    requires Tidy(fs, dirs) && dir in dirs && DirOk(fs, dir) && Splits(fs, dir, need) && need >= HEADER
    requires Sound(AfterSplit(fs, dir, need), dirs)
    ensures EntriesTyped(AfterSplit(fs, dir, need), dirs) <==> SplitIsTidy(fs, dir, need)
  {
    hide DirOk, Sound, AfterSplit, Splits, Listed, RestTiles, RestListing, SpotIn, OnChains, GoodDir, AllTiled, SplitIsClean, EntriesTyped, AllGrown,
         InodesTidy, Typed;
    var fs' := AfterSplit(fs, dir, need);
    SoundTools.DirectoryIsOk(fs', dirs, dir);
    SplitListed(fs, dir, need);
    SplitInodes(fs, dir, need);
    SplitKeeps(fs, dirs, dir, need);
    forall d | d in dirs && d != dir ensures Listed(fs', d) == Listed(fs, d) {
      assert SameListing(fs, fs', d);
    }
    ListingTyped(fs, fs', dirs, dir);
  }

  /** The inodes after half a split. */
  lemma SplitTidyInodes(fs: Fs, dirs: seq<nat>, dir: nat, link: nat, name: seq<Byte>, fs': Fs, blk: nat)
    requires Tidy(fs, dirs) && dir in dirs && DirOk(fs, dir) && CreateOutcome(fs, dir, link, name) == Exit && Exited(fs, fs', dir, name, blk)
    requires HarmlessExit(fs, dirs, dir, name) && Sound(fs', dirs)
    ensures fs'.inodes == fs.inodes && InodesTidy(fs')
  {
    hide DirOk, Sound, AllGrown, EntriesTyped, CreateOutcome, Exited, HarmlessExit, InodeTidy, Carried, SameFile;
    DirectoryIsGood(fs, dirs, dir);
    var n := ExitBlock(fs, fs', dirs, dir, link, name, blk);
    forall i | i in fs'.inodeMap.used ensures InodeTidy(fs', i) {
      UsedIn(fs, dirs, i);
      if i !in dirs {
        ExitFrames(fs, fs', dirs, dir, link, name, blk, i);
      }
      CarriedAsIs(fs, fs', dirs, i);
      CarriedIsTidy(fs, fs', dirs, dirs, i);
    }
  }

  lemma DirectoryIsGood(fs: Fs, dirs: seq<nat>, dir: nat)
    requires Sound(fs, dirs) && dir in dirs
    ensures GoodDir(fs, dir)
  {}

  lemma UsedIn(fs: Fs, dirs: seq<nat>, i: nat)
    requires Sound(fs, dirs) && i in fs.inodeMap.used
    ensures 1 <= i <= |fs.inodes|
  {}

  lemma CarriedAsIs(fs: Fs, fs': Fs, dirs: seq<nat>, i: nat)
    requires i in fs.inodeMap.used && 1 <= i <= |fs.inodes| && fs'.inodes == fs.inodes && (i !in dirs ==> SameFile(fs, fs', i))
    ensures Carried(fs, fs', dirs, i)
  {
    hide SameFile;
  }

  /** An exit of create_dir_entry keeps the volume tidy exactly if it is harmless, and what half a split
      shows is typed. */
  lemma ExitKeepsTidyExactly(fs: Fs, fs': Fs, dirs: seq<nat>, dir: nat, link: nat, name: seq<Byte>, blk: nat)
    requires Tidy(fs, dirs) && dir in dirs && DirOk(fs, dir) && CreateOutcome(fs, dir, link, name) == Exit && Exited(fs, fs', dir, name, blk)
    ensures Tidy(fs', dirs) <==> HarmlessExit(fs, dirs, dir, name) && ExitIsTidy(fs, dir, name)
  {
    hide DirOk, Sound, AllGrown, EntriesTyped, CreateOutcome, HarmlessExit, InodesTidy, Splits, SpotIn, AfterSplit, SplitIsTidy;
    InUse(fs, dirs, dir);
    InRange(fs, dir);
    ExitKeepsSoundExactly(fs, fs', dirs, dir, link, name, blk);
    if HarmlessExit(fs, dirs, dir, name) {
      ExitGrows(fs, fs', dirs, dir, link, name, blk);
      SplitTidyInodes(fs, dirs, dir, link, name, fs', blk);
      HarmlessHasRoom(fs, dirs, dir, name);
      if |name| <= NAME_MAX && !NoRoom(fs, dir, Need(name), |fs.disk|) && Splits(fs, dir, Need(name)) {
        SplitTyped(fs, dirs, dir, Need(name));
      }
    }
  }

  lemma HarmlessHasRoom(fs: Fs, dirs: seq<nat>, dir: nat, name: seq<Byte>)
    requires DirOk(fs, dir) && HarmlessExit(fs, dirs, dir, name)
    ensures |name| > NAME_MAX || NoRoom(fs, dir, Need(name), |fs.disk|) || SpotIn(fs, dir, Need(name)).Some?
  {
    hide DirOk, NoRoom, SpotIn, Splits, SplitIsHarmless;
  }

  // ---------- whole runs ----------

  /** The use gives types that fit, and brings nothing back that is out of order. */
  ghost predicate Neat(u: Use, s: State) {
    match u
    case Create(_, _, link, e) => KindFits(s.fs, link, e.kind)
    case Undelete(dir, name) => DirOk(s.fs, dir) && RestoreIsTidy(s.fs, dir, name)
    case CreateExit(dir, link, name, blk) => DirOk(s.fs, dir) && ExitIsTidy(s.fs, dir, name)
    case _ => true
  }

  /** One use keeps a tidy volume tidy exactly when it is harmless and neat. */
  lemma UseKeepsTidyExactly(u: Use, s: State, t: State)
    requires Tidy(s.fs, s.dirs) && Does(u, s, t)
    ensures Tidy(t.fs, t.dirs) <==> Harmless(u, s) && Neat(u, s)
  {
    hide Sound, AllGrown, InodesTidy, EntriesTyped, Created, Copied, Deletable, DeleteOutcome, AfterDelete, EntryIn, Found, Linkable, StaleLinked,
         AfterRestore, DirOk, RestoreFits, Copying, Exited, CreateOutcome, HarmlessExit, KindFits, RestoreIsTidy, ExitIsTidy, Empty;
    match u
    case Create(dir, blk, link, e) => CreateKeepsTidyExactly(s.fs, t.fs, s.dirs, dir, blk, link, e);
    case Delete(dir, name, at, now) => DeleteKeepsTidy(s.fs, s.dirs, dir, name, at, now);
    case Copy(num, src) => CopyKeepsTidy(s.fs, t.fs, s.dirs, num, src);
    case Undelete(dir, name) => RestoreKeepsTidyExactly(s.fs, t.fs, s.dirs, dir, name);
    case CreateExit(dir, link, name, blk) => ExitKeepsTidyExactly(s.fs, t.fs, s.dirs, dir, link, name, blk);
    case CopyExit(num, src, ds, ind, es) => StoppedCopyKeepsTidy(s.fs, t.fs, s.dirs, num, src, ds, ind, es);
    case UndeleteExit(dir, name) => AbandonedIsUnsound(s.fs, t.fs, s.dirs, dir, name);
  }

  lemma {:induction false} NeatRun(us: seq<Use>, ss: seq<State>)
    requires |ss| == |us| + 1 && Tidy(ss[0].fs, ss[0].dirs)
    requires forall k :: 0 <= k < |us| ==> Does(us[k], ss[k], ss[k + 1])
    requires forall k :: 0 <= k < |us| ==> Harmless(us[k], ss[k]) && Neat(us[k], ss[k])
    ensures forall k :: 0 <= k < |ss| ==> Tidy(ss[k].fs, ss[k].dirs)
    decreases |us|
  {
    hide Tidy, Does, Harmless, Neat;
    if us == [] {
    } else {
      UseKeepsTidyExactly(us[0], ss[0], ss[1]);
      NeatRun(us[1..], ss[1..]);
    }
  }

  /** The volume is tidy all along a run exactly when every use is harmless and neat. */
  lemma RunKeepsTidyExactly(us: seq<Use>, ss: seq<State>)
    requires |ss| == |us| + 1 && Tidy(ss[0].fs, ss[0].dirs)
    requires forall k :: 0 <= k < |us| ==> Does(us[k], ss[k], ss[k + 1])
    ensures (forall k :: 0 <= k < |ss| ==> Tidy(ss[k].fs, ss[k].dirs)) <==>
      forall k :: 0 <= k < |us| ==> Harmless(us[k], ss[k]) && Neat(us[k], ss[k])
  {
    hide Tidy, Does, Harmless, Neat;
    if forall k :: 0 <= k < |us| ==> Harmless(us[k], ss[k]) && Neat(us[k], ss[k]) {
      NeatRun(us, ss);
    }
    if forall k :: 0 <= k < |ss| ==> Tidy(ss[k].fs, ss[k].dirs) {
      forall k | 0 <= k < |us| ensures Harmless(us[k], ss[k]) && Neat(us[k], ss[k]) {
        UseKeepsTidyExactly(us[k], ss[k], ss[k + 1]);
      }
    }
  }
}
