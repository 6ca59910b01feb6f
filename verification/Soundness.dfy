/** What every tool keeps of a whole volume: blocks have one owner and are marked in use, all four
    counters equal the number of clear bits, and every link count is the number of entries that
    name the inode. */
module Soundness {
  import opened Prelude
  import opened ResourceMap
  import opened Inodes
  import opened DirBlock
  import opened Directory
  import opened Volume
  import opened DirectoryTools

  // ---------- ownership ----------

  /** The blocks reached from an inode. */
  ghost function Order(fs: Fs, i: nat): seq<nat>
    requires Linked(fs, i)
  {
    FreeOrder(fs.inodes[i - 1], fs.disk)
  }

  /** Every block reached is in use, and none is reached twice. */
  ghost predicate Owns(fs: Fs, i: nat) {
    Linked(fs, i) && NoDup(Order(fs, i)) && forall n :: n in Order(fs, i) ==> n in fs.blockMap.used
  }

  ghost predicate Apart(fs: Fs, i: nat, j: nat)
    requires Linked(fs, i) && Linked(fs, j)
  {
    forall n :: n in Order(fs, i) ==> n !in Order(fs, j)
  }

  /** No block is reached from two inodes in use. */
  ghost predicate Owned(fs: Fs) {
    && (forall i :: i in fs.inodeMap.used ==> Owns(fs, i))
    && (forall i, j :: i in fs.inodeMap.used && j in fs.inodeMap.used && i != j ==> Apart(fs, i, j))
  }

  /** The inode reaches the same blocks in both states. */
  ghost predicate SameOrder(fs: Fs, fs': Fs, i: nat) {
    Linked(fs, i) && Linked(fs', i) && Order(fs', i) == Order(fs, i)
  }

  /** Only the pointers and the indirect block decide what an inode reaches. */
  lemma PointersKeep(fs: Fs, fs': Fs, i: nat)
    requires Linked(fs, i) && |fs'.inodes| == |fs.inodes| && |fs'.disk| == |fs.disk|
    requires fs'.inodes[i - 1].ptr == fs.inodes[i - 1].ptr
    requires HasIndirect(fs.inodes[i - 1]) ==> fs'.disk[fs.inodes[i - 1].ptr[DIRECT]] == fs.disk[fs.inodes[i - 1].ptr[DIRECT]]
    ensures SameOrder(fs, fs', i)
  {
    hide Direct, Inodes.Entries;
  }

  /** A step that changes what one inode owns, and only takes blocks that were free. */
  lemma OwnedStep(fs: Fs, fs': Fs, who: nat)
    requires Owned(fs)
    requires forall i :: i in fs'.inodeMap.used && i != who ==> i in fs.inodeMap.used && SameOrder(fs, fs', i)
    requires forall i :: i in fs'.inodeMap.used && i != who ==> forall n :: n in Order(fs, i) ==> n in fs'.blockMap.used
    requires who in fs'.inodeMap.used ==> Owns(fs', who)
    requires who in fs'.inodeMap.used ==> forall n :: n in Order(fs', who) ==>
      n !in fs.blockMap.used || (who in fs.inodeMap.used && n in Order(fs, who))
    ensures Owned(fs')
  {
    hide FreeOrder, PointersOk, NoDup;
    forall i | i in fs'.inodeMap.used ensures Owns(fs', i) {}
    forall i, j | i in fs'.inodeMap.used && j in fs'.inodeMap.used && i != j ensures Apart(fs', i, j) {
      if i != who && j != who {
        assert Apart(fs, i, j);
      } else if i == who && who in fs.inodeMap.used {
        assert Apart(fs, i, j);
      } else if j == who && who in fs.inodeMap.used {
        assert Apart(fs, i, j);
      }
    }
  }

  // ---------- counting names ----------

  function Count(l: seq<Entry>, num: nat): nat
    decreases |l|
  {
    if l == [] then 0 else (if l[0].inode == num then 1 else 0) + Count(l[1..], num)
  }

  lemma {:induction false} CountConcat(a: seq<Entry>, b: seq<Entry>, num: nat)
    ensures Count(a + b, num) == Count(a, num) + Count(b, num)
    decreases |a|
  {
    if a == [] {
      assert a + b == b;
    } else {
      assert (a + b)[1..] == a[1..] + b;
      CountConcat(a[1..], b, num);
    }
  }

  lemma CountInsert(l: seq<Entry>, k: nat, e: Entry, num: nat)
    requires k <= |l|
    ensures Count(InsertAt(l, k, e), num) == Count(l, num) + if e.inode == num then 1 else 0
  {
    assert l == l[..k] + l[k..];
    CountConcat(l[..k], l[k..], num);
    CountConcat(l[..k] + [e], l[k..], num);
    CountConcat(l[..k], [e], num);
  }

  lemma CountRemove(l: seq<Entry>, k: nat, num: nat)
    requires k < |l|
    ensures Count(RemoveAt(l, k), num) + (if l[k].inode == num then 1 else 0) == Count(l, num)
  {
    assert InsertAt(RemoveAt(l, k), k, l[k]) == l;
    CountInsert(RemoveAt(l, k), k, l[k], num);
  }

  ghost predicate AllDirsOk(fs: Fs, dirs: seq<nat>) {
    forall k :: 0 <= k < |dirs| ==> DirOk(fs, dirs[k])
  }

  /** The entries naming inode num in all directories. */
  ghost function Total(fs: Fs, dirs: seq<nat>, num: nat): nat
    requires AllDirsOk(fs, dirs)
    decreases |dirs|
  {
    if dirs == [] then 0 else
      assert dirs[0] in dirs;
      Count(Listed(fs, dirs[0]), num) + Total(fs, dirs[1..], num)
  }

  ghost predicate SameListing(fs: Fs, fs': Fs, d: nat) {
    DirOk(fs, d) && DirOk(fs', d) && Listed(fs', d) == Listed(fs, d)
  }

  lemma {:induction false} TotalSame(fs: Fs, fs': Fs, dirs: seq<nat>, num: nat)
    requires AllDirsOk(fs, dirs) && AllDirsOk(fs', dirs)
    requires forall d :: d in dirs ==> SameListing(fs, fs', d)
    ensures Total(fs', dirs, num) == Total(fs, dirs, num)
    decreases |dirs|
  {
    hide Listing, Direct, Tiled;
    if dirs == [] {
    } else {
      assert dirs[0] in dirs;
      TotalSame(fs, fs', dirs[1..], num);
    }
  }

  /** When one directory's listing changes, the total changes by as much. */
  lemma {:induction false} TotalChange(fs: Fs, fs': Fs, dirs: seq<nat>, dir: nat, num: nat)
    requires NoDup(dirs) && dir in dirs && AllDirsOk(fs, dirs) && AllDirsOk(fs', dirs)
    requires forall d :: d in dirs && d != dir ==> SameListing(fs, fs', d)
    ensures Total(fs', dirs, num) - Total(fs, dirs, num) == Count(Listed(fs', dir), num) - Count(Listed(fs, dir), num)
    decreases |dirs|
  {
    hide Listing, Direct, Tiled;
    NoDupCons(dirs);
    assert dirs[0] in dirs;
    if dirs[0] == dir {
      TotalSame(fs, fs', dirs[1..], num);
    } else {
      assert dir in dirs[1..];
      TotalChange(fs, fs', dirs[1..], dir, num);
    }
  }

  lemma {:induction false} TotalPositive(fs: Fs, dirs: seq<nat>, dir: nat, e: Entry)
    requires dir in dirs && AllDirsOk(fs, dirs) && e in Listed(fs, dir)
    ensures Total(fs, dirs, e.inode) > 0
    decreases |dirs|
  {
    hide Listing, Direct, Tiled;
    assert dirs[0] in dirs;
    if dirs[0] == dir {
      CountPositive(Listed(fs, dir), e);
    } else {
      TotalPositive(fs, dirs[1..], dir, e);
    }
  }

  lemma {:induction false} CountPositive(l: seq<Entry>, e: Entry)
    requires e in l
    ensures Count(l, e.inode) > 0
    decreases |l|
  {
    if l[0] == e {
    } else {
      CountPositive(l[1..], e);
    }
  }

  // ---------- the invariant ----------

  /** Both bitmaps agree with both of their counters. */
  ghost predicate Accounted(fs: Fs) {
    && Balanced(fs.blockMap, |fs.disk|) && Balanced(fs.inodeMap, |fs.inodes|)
    && |fs.disk| < U16 && |fs.inodes| < U16
  }

  ghost predicate GoodDir(fs: Fs, d: nat) {
    d in fs.inodeMap.used && DirOk(fs, d) && Compact(fs.inodes[d - 1])
  }

  /** The entry names an inode in use, and its type says whether that is a directory. */
  predicate GoodEntry(fs: Fs, dirs: seq<nat>, e: Entry) {
    e.inode in fs.inodeMap.used && (e.kind == FT_DIR <==> e.inode in dirs)
  }

  /** The directories of a volume are the inodes listed in dirs. */
  ghost predicate DirsGood(fs: Fs, dirs: seq<nat>) {
    && NoDup(dirs) && (forall d :: d in dirs ==> GoodDir(fs, d))
    && (forall d, e :: d in dirs && e in Listed(fs, d) ==> GoodEntry(fs, dirs, e))
  }

  ghost predicate LinksCounted(fs: Fs, dirs: seq<nat>)
    requires AllDirsOk(fs, dirs)
  {
    forall i :: 1 <= i <= |fs.inodes| ==> fs.inodes[i - 1].links == Total(fs, dirs, i)
  }

  ghost predicate Sound(fs: Fs, dirs: seq<nat>) {
    Accounted(fs) && Owned(fs) && DirsGood(fs, dirs) && AllDirsOk(fs, dirs) && LinksCounted(fs, dirs)
  }

  // ---------- a new entry ----------

  /** A directory without an indirect block reaches its own blocks only. */
  lemma DirectoryOrder(fs: Fs, d: nat)
    requires Linked(fs, d) && Compact(fs.inodes[d - 1])
    ensures !HasIndirect(fs.inodes[d - 1]) && Order(fs, d) == Blocks(fs, d)
  {
    DirectStops(fs.inodes[d - 1].ptr, 0);
    assert Order(fs, d) == Blocks(fs, d) + [];
  }

  /** A step that keeps all pointers and changes no block but those of one directory and free ones. */
  lemma OthersKeep(fs: Fs, fs': Fs, dir: nat, i: nat, n: nat)
    requires Owned(fs) && dir in fs.inodeMap.used && i in fs.inodeMap.used && i != dir
    requires n in Order(fs, dir) || n !in fs.blockMap.used
    requires |fs'.inodes| == |fs.inodes| && |fs'.disk| == |fs.disk| && n < |fs.disk|
    requires fs'.inodes[i - 1].ptr == fs.inodes[i - 1].ptr
    requires forall k :: 0 <= k < |fs.disk| && k != n ==> fs'.disk[k] == fs.disk[k]
    ensures SameOrder(fs, fs', i)
  {
    hide Direct, Inodes.Entries, NoDup;
    assert Owns(fs, i) && Owns(fs, dir) && Apart(fs, dir, i);
    var x := fs.inodes[i - 1];
    if HasIndirect(x) {
      assert x.ptr[DIRECT] in Order(fs, i);
    }
    PointersKeep(fs, fs', i);
  }

  /** The block that receives the entry. */
  ghost function EntryBlock(fs: Fs, dir: nat, blk: nat, e: Entry): nat
    requires DirOk(fs, dir)
  {
    match SpotIn(fs, dir, Need(e.name)) case Some(at) => at.block case None => blk
  }

  ghost predicate Enterable(fs: Fs, dir: nat, blk: nat, e: Entry) {
    && CanEnter(fs, dir, blk, e) && GoodDir(fs, dir)
    && (SpotIn(fs, dir, Need(e.name)).None? ==> LeastFree(fs.blockMap, blk, |fs.disk|))
  }

  /** What a new entry changes: one block, which is the directory's own or a free one that becomes
      its last. */
  ghost predicate Entered(fs: Fs, fs1: Fs, dir: nat, n: nat) {
    && 1 <= dir <= |fs.inodes| == |fs1.inodes| && n < |fs.disk| == |fs1.disk| && fs1.inodeMap == fs.inodeMap
    && (forall k :: 0 <= k < |fs.disk| && k != n ==> fs1.disk[k] == fs.disk[k])
    && (forall i :: 0 <= i < |fs.inodes| && i != dir - 1 ==> fs1.inodes[i] == fs.inodes[i])
    && fs1.inodes[dir - 1].links == fs.inodes[dir - 1].links && Compact(fs1.inodes[dir - 1])
    && (if n in Blocks(fs, dir) then Blocks(fs1, dir) == Blocks(fs, dir) && fs1.blockMap == fs.blockMap
        else Blocks(fs1, dir) == Blocks(fs, dir) + [n] && fs1.blockMap == Acquire(fs.blockMap, n) && LeastFree(fs.blockMap, n, |fs.disk|))
  }

  lemma EntryStep(fs: Fs, dir: nat, blk: nat, e: Entry)
    requires Enterable(fs, dir, blk, e)
    ensures Entered(fs, WithEntry(fs, dir, blk, e), dir, EntryBlock(fs, dir, blk, e))
  {
    hide AddAt, FirstEntry, UniqueNames, AsMap, Spot, Tiled, Fits;
    BlocksAfterEntry(fs, dir, blk, e);
    if SpotIn(fs, dir, Need(e.name)).Some? {
      SpotHasRoom(fs.disk, Blocks(fs, dir), Need(e.name));
    }
  }

  lemma EntryOwned(fs: Fs, fs1: Fs, dir: nat, n: nat)
    requires Owned(fs) && GoodDir(fs, dir) && Entered(fs, fs1, dir, n)
    ensures Owned(fs1)
  {
    hide FreeOrder, UniqueNames, AllTiled, Direct, Numbers;
    assert Owns(fs, dir);
    DirectoryOrder(fs, dir);
    forall i | i in fs1.inodeMap.used && i != dir ensures SameOrder(fs, fs1, i) {
      assert Owns(fs, i);
      OthersKeep(fs, fs1, dir, i, n);
    }
    DirectoryLinked(fs, fs1, dir, n);
    DirectoryOrder(fs1, dir);
    assert forall i :: i in fs.inodeMap.used ==> Owns(fs, i);
    OwnedStep(fs, fs1, dir);
  }

  lemma DirectoryLinked(fs: Fs, fs1: Fs, dir: nat, n: nat)
    requires Owns(fs, dir) && GoodDir(fs, dir) && Entered(fs, fs1, dir, n)
    ensures Linked(fs1, dir)
  {
    hide Direct;
    DirectoryOrder(fs, dir);
    DirectStops(fs1.inodes[dir - 1].ptr, 0);
  }

  lemma EntryAccounted(fs: Fs, fs1: Fs, dir: nat, n: nat)
    requires Accounted(fs) && Entered(fs, fs1, dir, n)
    ensures Accounted(fs1)
  {
    if n !in Blocks(fs, dir) {
      AcquireBalanced(fs.blockMap, n, |fs.disk|);
    }
  }

  /** Another directory has no block in common with this one. */
  lemma OtherListing(fs: Fs, fs1: Fs, dir: nat, n: nat, d: nat)
    requires Owned(fs) && GoodDir(fs, dir) && GoodDir(fs, d) && d != dir && Entered(fs, fs1, dir, n)
    ensures SameListing(fs, fs1, d) && Compact(fs1.inodes[d - 1])
  {
    hide Direct, FreeOrder, Tiled, Listing, Numbers;
    assert Owns(fs, d) && Owns(fs, dir) && Apart(fs, dir, d);
    DirectoryOrder(fs, d);
    DirectoryOrder(fs, dir);
    ListingSame(fs.disk, fs1.disk, Blocks(fs, d));
  }

  // ---------- the inode of a new entry ----------

  ghost predicate InodeReady(fs: Fs, link: nat, ino: nat) {
    && 1 <= ino <= |fs.inodes|
    && if link == 0 then ino !in fs.inodeMap.used else ino == link && ino in fs.inodeMap.used && fs.inodes[ino - 1].links + 1 < U16
  }

  lemma BlankReachesNothing(fs: Fs, i: nat, kind: Byte)
    requires 1 <= i <= |fs.inodes| && fs.inodes[i - 1] == OneMoreLink(BlankInode(kind))
    ensures Linked(fs, i) && Order(fs, i) == [] && Blocks(fs, i) == [] && Compact(fs.inodes[i - 1])
    ensures fs.inodes[i - 1].links == 1
  {}

  lemma InodeOwned(fs: Fs, link: nat, ino: nat, kind: Byte)
    requires Owned(fs) && InodeReady(fs, link, ino)
    ensures Owned(WithInode(fs, link, ino, kind))
  {
    hide FreeOrder, PointersOk, NoDup;
    var fs1 := WithInode(fs, link, ino, kind);
    forall i | i in fs1.inodeMap.used && i in fs.inodeMap.used ensures SameOrder(fs, fs1, i) && Owns(fs, i) {
      assert Owns(fs, i);
      PointersKeep(fs, fs1, i);
    }
    if link == 0 {
      BlankReachesNothing(fs1, ino, kind);
      EmptyNoDup();
    }
    OwnedStep(fs, fs1, ino);
  }

  lemma EmptyNoDup()
    ensures NoDup<nat>([])
  {}

  lemma InodeAccounted(fs: Fs, link: nat, ino: nat, kind: Byte)
    requires Accounted(fs) && InodeReady(fs, link, ino)
    ensures Accounted(WithInode(fs, link, ino, kind))
  {
    if link == 0 {
      AcquireBalanced(fs.inodeMap, ino, |fs.inodes|);
    }
  }

  /** Directories in use keep their listings when links are counted or a free inode is taken. */
  lemma InodeListing(fs: Fs, link: nat, ino: nat, kind: Byte, d: nat)
    requires InodeReady(fs, link, ino) && GoodDir(fs, d)
    ensures SameListing(fs, WithInode(fs, link, ino, kind), d) && GoodDir(WithInode(fs, link, ino, kind), d)
  {
    hide Direct, Tiled, Listing, UniqueNames;
  }

  // ---------- creating keeps the volume sound ----------

  ghost predicate AllGood(fs: Fs, dirs: seq<nat>) {
    forall k :: 0 <= k < |dirs| ==> GoodDir(fs, dirs[k])
  }

  /** Another directory, after a new entry. */
  lemma EntryOther(fs: Fs, dir: nat, blk: nat, e: Entry, d: nat)
    requires Owned(fs) && GoodDir(fs, d) && d != dir && Enterable(fs, dir, blk, e)
    ensures SameListing(fs, WithEntry(fs, dir, blk, e), d) && GoodDir(WithEntry(fs, dir, blk, e), d)
  {
    hide DirOk, Listed, WithEntry, Compact, SameListing, Owned, LeastFree, SpotIn, EntryBlock, AsMap;
    var fs1, n := WithEntry(fs, dir, blk, e), EntryBlock(fs, dir, blk, e);
    EntryStep(fs, dir, blk, e);
    OtherListing(fs, fs1, dir, n, d);
    SameIsOk(fs, fs1, d);
  }

  /** The directory itself, after a new entry. */
  lemma EntryOwn(fs: Fs, dir: nat, blk: nat, e: Entry)
    requires Enterable(fs, dir, blk, e)
    ensures GoodDir(WithEntry(fs, dir, blk, e), dir)
  {
    hide DirOk, WithEntry, Compact, CanEnter, LeastFree, SpotIn, EntryBlock;
    EntryStep(fs, dir, blk, e);
    CreateIsInsert(fs, dir, blk, e);
  }

  /** After a new entry, all directories are good, and only dir lists one entry more. */
  lemma EntryDirs(fs: Fs, dirs: seq<nat>, dir: nat, blk: nat, e: Entry)
    requires Owned(fs) && AllGood(fs, dirs) && dir in dirs && Enterable(fs, dir, blk, e)
    ensures var fs1 := WithEntry(fs, dir, blk, e);
      && AllGood(fs1, dirs)
      && (forall d :: d in dirs && d != dir ==> SameListing(fs, fs1, d))
      && Names(fs1, dir) == Names(fs, dir)[e.name := e]
      && EntryIndex(fs, dir, e) <= |Listed(fs, dir)|
      && Listed(fs1, dir) == InsertAt(Listed(fs, dir), EntryIndex(fs, dir, e), e)
  {
    hide DirOk, Listed, WithEntry, Compact, SameListing, Owned, AsMap, GoodDir, LeastFree, SpotIn, EntryIndex, InsertAt;
    forall d | d in dirs && d != dir ensures SameListing(fs, WithEntry(fs, dir, blk, e), d) && GoodDir(WithEntry(fs, dir, blk, e), d) {
      EntryOther(fs, dir, blk, e, d);
    }
    EntryOwn(fs, dir, blk, e);
    CreateIsInsert(fs, dir, blk, e);
    EntryListed(fs, dir, blk, e);
  }

  lemma SameIsOk(fs: Fs, fs': Fs, d: nat)
    requires SameListing(fs, fs', d)
    ensures DirOk(fs', d)
  {}

  lemma EntryListed(fs: Fs, dir: nat, blk: nat, e: Entry)
    requires Enterable(fs, dir, blk, e)
    ensures DirOk(WithEntry(fs, dir, blk, e), dir)
    ensures EntryIndex(fs, dir, e) <= |Listed(fs, dir)|
    ensures Listed(WithEntry(fs, dir, blk, e), dir) == InsertAt(Listed(fs, dir), EntryIndex(fs, dir, e), e)
  {
    hide WithEntry, Direct, AsMap, Tiled, Listing;
    CreateIsInsert(fs, dir, blk, e);
    EntryIsInserted(fs, dir, blk, e);
  }

  lemma GoodAreOk(fs: Fs, dirs: seq<nat>)
    requires AllGood(fs, dirs)
    ensures AllDirsOk(fs, dirs)
  {}

  /** The entry is counted once, for its inode. */
  lemma EntryTotals(fs: Fs, fs1: Fs, dirs: seq<nat>, dir: nat, k: nat, e: Entry, i: nat)
    requires NoDup(dirs) && dir in dirs && AllDirsOk(fs, dirs) && AllDirsOk(fs1, dirs)
    requires forall d :: d in dirs && d != dir ==> SameListing(fs, fs1, d)
    requires DirOk(fs, dir) && DirOk(fs1, dir) && k <= |Listed(fs, dir)| && Listed(fs1, dir) == InsertAt(Listed(fs, dir), k, e)
    ensures Total(fs1, dirs, i) == Total(fs, dirs, i) + if e.inode == i then 1 else 0
  {
    hide InsertAt, Direct, Listing, Tiled;
    TotalChange(fs, fs1, dirs, dir, i);
    CountInsert(Listed(fs, dir), k, e, i);
  }

  /** Inodes that are not in use have no names and no links. */
  lemma {:induction false} FreeHasNoNames(fs: Fs, all: seq<nat>, dirs: seq<nat>, i: nat)
    requires AllDirsOk(fs, dirs) && (forall d :: d in dirs ==> d in all)
    requires forall d, e :: d in all && DirOk(fs, d) && e in Listed(fs, d) ==> GoodEntry(fs, all, e)
    requires i !in fs.inodeMap.used
    ensures Total(fs, dirs, i) == 0
    decreases |dirs|
  {
    hide Direct, Listing, Tiled, UniqueNames;
    if dirs == [] {
    } else {
      var d := dirs[0];
      assert d in dirs && d in all && DirOk(fs, d);
      forall e | e in Listed(fs, d) ensures e.inode != i {
        assert GoodEntry(fs, all, e);
      }
      CountNone(Listed(fs, d), i);
      FreeHasNoNames(fs, all, dirs[1..], i);
    }
  }

  lemma {:induction false} CountNone(l: seq<Entry>, i: nat)
    requires forall e :: e in l ==> e.inode != i
    ensures Count(l, i) == 0
    decreases |l|
  {
    if l == [] {
    } else {
      CountNone(l[1..], i);
    }
  }

  /** The link a new entry makes: to an inode in use whose counter has room, of the entry's type. */
  ghost predicate Linkable(fs: Fs, dirs: seq<nat>, link: nat, kind: Byte) {
    link != 0 ==>
      && link in fs.inodeMap.used && 1 <= link <= |fs.inodes| && fs.inodes[link - 1].links + 1 < U16
      && (kind == FT_DIR <==> link in dirs)
  }

  /** A new directory joins the list of directories. */
  function DirsAfter(dirs: seq<nat>, link: nat, e: Entry): seq<nat> {
    if link == 0 && e.kind == FT_DIR then dirs + [e.inode] else dirs
  }

  /** The same directories after the inode step. */
  lemma InodeDirs(fs1: Fs, dirs: seq<nat>, link: nat, ino: nat, kind: Byte)
    requires AllGood(fs1, dirs) && InodeReady(fs1, link, ino)
    ensures var fs' := WithInode(fs1, link, ino, kind);
      && AllGood(fs', dirs) && forall d :: d in dirs ==> SameListing(fs1, fs', d)
  {
    hide GoodDir, SameListing, WithInode;
    forall d | d in dirs ensures SameListing(fs1, WithInode(fs1, link, ino, kind), d) && GoodDir(WithInode(fs1, link, ino, kind), d) {
      InodeListing(fs1, link, ino, kind, d);
    }
  }

  /** The link counter of one inode goes up by one, the new one's to 1. */
  lemma InodeLinks(fs1: Fs, link: nat, ino: nat, kind: Byte, i: nat)
    requires InodeReady(fs1, link, ino) && 1 <= i <= |fs1.inodes|
    ensures |WithInode(fs1, link, ino, kind).inodes| == |fs1.inodes|
    ensures WithInode(fs1, link, ino, kind).inodes[i - 1].links ==
      if i != ino then fs1.inodes[i - 1].links else if link == 0 then 1 else fs1.inodes[i - 1].links + 1
  {}

  ghost predicate Creates(fs: Fs, fs': Fs, dirs: seq<nat>, dir: nat, blk: nat, link: nat, e: Entry) {
    && Sound(fs, dirs) && dir in dirs && Linkable(fs, dirs, link, e.kind)
    && Created(fs, fs', dir, blk, link, e, |fs.disk|)
  }

  /** What the steps of a creation keep, before the new directory is listed. */
  lemma CreateKeeps(fs: Fs, fs': Fs, dirs: seq<nat>, dir: nat, blk: nat, link: nat, e: Entry)
    requires Creates(fs, fs', dirs, dir, blk, link, e)
    ensures Accounted(fs') && Owned(fs') && AllGood(fs', dirs)
    ensures |fs'.inodes| == |fs.inodes| && |fs'.disk| == |fs.disk|
    ensures forall d :: d in dirs && d != dir ==> SameListing(fs, fs', d)
    ensures DirOk(fs, dir) && DirOk(fs', dir) && Names(fs', dir) == Names(fs, dir)[e.name := e]
    ensures EntryIndex(fs, dir, e) <= |Listed(fs, dir)|
    ensures Listed(fs', dir) == InsertAt(Listed(fs, dir), EntryIndex(fs, dir, e), e)
    ensures fs'.inodeMap.used == fs.inodeMap.used + {e.inode}
  {
    hide Owned, GoodDir, Listed, Compact, WithEntry, WithInode, Accounted, LinksCounted, Entered, AsMap, InsertAt, EntryIndex;
    var fs1 := WithEntry(fs, dir, blk, e);
    assert AllGood(fs, dirs);
    EntryStep(fs, dir, blk, e);
    EntryOwned(fs, fs1, dir, EntryBlock(fs, dir, blk, e));
    EntryAccounted(fs, fs1, dir, EntryBlock(fs, dir, blk, e));
    EntryDirs(fs, dirs, dir, blk, e);
    EnteredReady(fs, fs1, dir, EntryBlock(fs, dir, blk, e), link, e.inode);
    InodeOwned(fs1, link, e.inode, e.kind);
    InodeAccounted(fs1, link, e.inode, e.kind);
    InodeDirs(fs1, dirs, link, e.inode, e.kind);
    UsedAfter(fs1, link, e.inode, e.kind);
  }

  lemma UsedAfter(fs1: Fs, link: nat, ino: nat, kind: Byte)
    requires InodeReady(fs1, link, ino)
    ensures WithInode(fs1, link, ino, kind).inodeMap.used == fs1.inodeMap.used + {ino}
    ensures |WithInode(fs1, link, ino, kind).disk| == |fs1.disk| && |WithInode(fs1, link, ino, kind).inodes| == |fs1.inodes|
  {}

  lemma EnteredReady(fs: Fs, fs1: Fs, dir: nat, n: nat, link: nat, ino: nat)
    requires Entered(fs, fs1, dir, n) && InodeReady(fs, link, ino)
    ensures InodeReady(fs1, link, ino) && fs1.inodeMap == fs.inodeMap
    ensures |fs1.inodes| == |fs.inodes| && |fs1.disk| == |fs.disk|
    ensures forall i :: 0 <= i < |fs.inodes| ==> fs1.inodes[i].links == fs.inodes[i].links
  {}

  /** Link counts after a creation, over the directories there were. */
  lemma CreateCounts(fs: Fs, fs': Fs, dirs: seq<nat>, dir: nat, blk: nat, link: nat, e: Entry)
    requires Creates(fs, fs', dirs, dir, blk, link, e)
    ensures AllDirsOk(fs', dirs) && LinksCounted(fs', dirs)
  {
    hide Owned, GoodDir, Listed, Compact, WithEntry, WithInode, Accounted, Entered, AsMap, InsertAt, EntryIndex, DirOk, SameListing, GoodEntry;
    CreateKeeps(fs, fs', dirs, dir, blk, link, e);
    GoodAreOk(fs', dirs);
    forall i | 1 <= i <= |fs'.inodes| ensures fs'.inodes[i - 1].links == Total(fs', dirs, i) {
      EntryTotals(fs, fs', dirs, dir, EntryIndex(fs, dir, e), e, i);
      CreateLinks(fs, fs', dir, blk, link, e, i);
      if link == 0 && i == e.inode {
        AllGoodEntries(fs, dirs);
        FreeHasNoNames(fs, dirs, dirs, i);
      }
    }
  }

  lemma AllGoodEntries(fs: Fs, dirs: seq<nat>)
    requires DirsGood(fs, dirs)
    ensures forall d, e :: d in dirs && DirOk(fs, d) && e in Listed(fs, d) ==> GoodEntry(fs, dirs, e)
  {}

  lemma CreateLinks(fs: Fs, fs': Fs, dir: nat, blk: nat, link: nat, e: Entry, i: nat)
    requires Created(fs, fs', dir, blk, link, e, |fs.disk|) && 1 <= i <= |fs.inodes| && GoodDir(fs, dir)
    requires link != 0 ==> link in fs.inodeMap.used && fs.inodes[link - 1].links + 1 < U16
    ensures |fs'.inodes| == |fs.inodes|
    ensures fs'.inodes[i - 1].links == if i != e.inode then fs.inodes[i - 1].links else if link == 0 then 1 else fs.inodes[i - 1].links + 1
  {
    hide WithEntry, WithInode, DirOk, AsMap, Compact, Numbers, OneMoreLink, Entered, GoodDir, SpotIn, EntryBlock;
    var fs1 := WithEntry(fs, dir, blk, e);
    EntryStep(fs, dir, blk, e);
    EnteredReady(fs, fs1, dir, EntryBlock(fs, dir, blk, e), link, e.inode);
    InodeLinks(fs1, link, e.inode, e.kind, i);
  }

  /** A new directory has no blocks yet. */
  lemma NewDirectory(fs1: Fs, ino: nat, kind: Byte)
    requires 1 <= ino <= |fs1.inodes|
    ensures GoodDir(WithInode(fs1, 0, ino, kind), ino) && Listed(WithInode(fs1, 0, ino, kind), ino) == []
    ensures Blocks(WithInode(fs1, 0, ino, kind), ino) == []
  {
    BlankReachesNothing(WithInode(fs1, 0, ino, kind), ino, kind);
  }

  lemma {:induction false} TotalSnoc(fs: Fs, dirs: seq<nat>, d: nat, i: nat)
    requires AllDirsOk(fs, dirs) && DirOk(fs, d)
    ensures AllDirsOk(fs, dirs + [d]) && Total(fs, dirs + [d], i) == Total(fs, dirs, i) + Count(Listed(fs, d), i)
    decreases |dirs|
  {
    hide Listed, DirOk, Count;
    if dirs == [] {
      assert dirs + [d] == [d] && [d][1..] == [];
    } else {
      assert (dirs + [d])[1..] == dirs[1..] + [d];
      TotalSnoc(fs, dirs[1..], d, i);
    }
  }

  lemma InsertedIn<T>(l: seq<T>, k: nat, x: T, y: T)
    requires k <= |l| && y in InsertAt(l, k, x)
    ensures y == x || y in l
  {}

  /** Old entries stay good, and the new one is. */
  lemma CreateEntriesGood(fs: Fs, fs': Fs, dirs: seq<nat>, dir: nat, blk: nat, link: nat, e: Entry, d: nat, x: Entry)
    requires Creates(fs, fs', dirs, dir, blk, link, e) && d in dirs
    requires DirOk(fs', d) && x in Listed(fs', d)
    ensures GoodEntry(fs', DirsAfter(dirs, link, e), x)
  {
    hide Owned, Listed, Compact, WithEntry, WithInode, Accounted, LinksCounted, DirOk, AsMap, InsertAt, EntryIndex, CanEnter;
    CreateKeeps(fs, fs', dirs, dir, blk, link, e);
    assert GoodDir(fs, d);
    if d == dir {
      InsertedIn(Listed(fs, dir), EntryIndex(fs, dir, e), e, x);
    } else {
      assert SameListing(fs, fs', d);
    }
    if x in Listed(fs, d) {
      assert GoodEntry(fs, dirs, x);
    } else {
      assert forall k :: 0 <= k < |dirs| ==> GoodDir(fs, dirs[k]);
    }
  }

  lemma SnocNoDup(s: seq<nat>, x: nat)
    requires NoDup(s) && x !in s
    ensures NoDup(s + [x])
  {}

  /** create_dir_entry, linking a new inode or one in use, keeps the whole volume sound and inserts
      one name into one directory. */
  lemma CreateKeepsSound(fs: Fs, fs': Fs, dirs: seq<nat>, dir: nat, blk: nat, link: nat, e: Entry)
    requires Creates(fs, fs', dirs, dir, blk, link, e)
    ensures Sound(fs', DirsAfter(dirs, link, e))
    ensures DirOk(fs, dir) && DirOk(fs', dir) && Names(fs', dir) == Names(fs, dir)[e.name := e]
    ensures forall d :: d in dirs && d != dir ==> SameListing(fs, fs', d)
  {
    hide Owned, Listed, Compact, WithEntry, Accounted, GoodEntry, AsMap, InsertAt, EntryIndex, Total, LinksCounted, AllTiled, UniqueNames, NoDup, Direct;
    CreateKeeps(fs, fs', dirs, dir, blk, link, e);
    CreateCounts(fs, fs', dirs, dir, blk, link, e);
    var dirs' := DirsAfter(dirs, link, e);
    forall d, x | d in dirs && DirOk(fs', d) && x in Listed(fs', d) ensures GoodEntry(fs', dirs', x) {
      CreateEntriesGood(fs, fs', dirs, dir, blk, link, e, d, x);
    }
    if link == 0 && e.kind == FT_DIR {
      assert dirs' == dirs + [e.inode];
      NewDirectory(WithEntry(fs, dir, blk, e), e.inode, e.kind);
      DirectoryJoins(fs', dirs, e.inode);
    }
  }

  /** A directory without entries joins the others. */
  lemma DirectoryJoins(fs: Fs, dirs: seq<nat>, d: nat)
    requires Accounted(fs) && Owned(fs) && NoDup(dirs) && d !in dirs && AllGood(fs, dirs) && GoodDir(fs, d) && Listed(fs, d) == []
    requires forall c, x :: c in dirs && DirOk(fs, c) && x in Listed(fs, c) ==> GoodEntry(fs, dirs + [d], x)
    requires AllDirsOk(fs, dirs) && LinksCounted(fs, dirs)
    ensures Sound(fs, dirs + [d])
  {
    hide Owned, Listed, Compact, Accounted, GoodEntry, DirOk;
    SnocNoDup(dirs, d);
    forall i | 1 <= i <= |fs.inodes| ensures AllDirsOk(fs, dirs + [d]) && fs.inodes[i - 1].links == Total(fs, dirs + [d], i) {
      TotalSnoc(fs, dirs, d, i);
    }
  }
}
