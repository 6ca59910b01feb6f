/** The rest of the tools keep the volume sound: unlinking and deleting, copying a file in, and
    making a directory out of three entries. */
module SoundTools {
  import opened Prelude
  import opened ResourceMap
  import opened Inodes
  import opened FileData
  import opened DirBlock
  import opened Directory
  import opened Volume
  import opened DirectoryTools
  import opened Restore
  import opened Soundness
  import opened Growth

  // ---------- unlinking ----------

  lemma {:induction false} ReleaseAllBalanced(m: Map, ns: seq<nat>, count: nat)
    requires Balanced(m, count) && count < U16 && NoDup(ns) && forall n :: n in ns ==> n in m.used
    ensures Balanced(ReleaseAll(m, ns), count)
    decreases |ns|
  {
    if ns == [] {
    } else {
      NoDupCons(ns);
      assert ns[0] in ns;
      ReleaseBalanced(m, ns[0], count);
      ReleaseAllBalanced(Release(m, ns[0]), ns[1..], count);
    }
  }

  /** An inode in use with a link left to give up. */
  ghost predicate Unlinkable(fs: Fs, num: nat) {
    num in fs.inodeMap.used && Owns(fs, num) && fs.inodes[num - 1].links > 0
  }

  lemma UnlinkStep(fs: Fs, num: nat, now: nat)
    requires Owned(fs) && Accounted(fs) && Unlinkable(fs, num)
    ensures AfterUnlink(fs, num, now).Some?
    ensures var fs1, last := AfterUnlink(fs, num, now).value, fs.inodes[num - 1].links == 1;
      && fs1.disk == fs.disk && |fs1.inodes| == |fs.inodes|
      && fs1.inodes[num - 1].ptr == fs.inodes[num - 1].ptr && fs1.inodes[num - 1].links == fs.inodes[num - 1].links - 1
      && (forall i :: 0 <= i < |fs.inodes| && i != num - 1 ==> fs1.inodes[i] == fs.inodes[i])
      && fs1.inodeMap.used == (if last then fs.inodeMap.used - {num} else fs.inodeMap.used)
      && fs1.blockMap.used == (if last then fs.blockMap.used - Elements(Order(fs, num)) else fs.blockMap.used)
      && Accounted(fs1)
  {
    hide Owned, NoDup, FreeOrder, PointersOk, ReleaseAll;
    ReleaseAllValue(fs.blockMap, Order(fs, num));
    if fs.inodes[num - 1].links == 1 {
      ReleaseAllBalanced(fs.blockMap, Order(fs, num), |fs.disk|);
      ReleaseBalanced(fs.inodeMap, num, |fs.inodes|);
    }
  }

  lemma UnlinkOwned(fs: Fs, num: nat, now: nat)
    requires Owned(fs) && Accounted(fs) && Unlinkable(fs, num)
    ensures AfterUnlink(fs, num, now).Some? && Owned(AfterUnlink(fs, num, now).value)
  {
    hide NoDup, FreeOrder, PointersOk, AfterUnlink, Accounted;
    UnlinkStep(fs, num, now);
    var fs1 := AfterUnlink(fs, num, now).value;
    forall i | i in fs1.inodeMap.used ensures SameOrder(fs, fs1, i) && forall n :: n in Order(fs, i) ==> n in fs1.blockMap.used {
      assert Owns(fs, i);
      PointersKeep(fs, fs1, i);
      if i != num {
        assert Apart(fs, i, num);
      }
    }
    OwnedStep(fs, fs1, num);
  }

  /** Directories other than the unlinked inode keep their listings. */
  lemma UnlinkListing(fs: Fs, num: nat, now: nat, d: nat)
    requires Owned(fs) && Accounted(fs) && Unlinkable(fs, num) && GoodDir(fs, d) && d != num
    ensures AfterUnlink(fs, num, now).Some?
    ensures SameListing(fs, AfterUnlink(fs, num, now).value, d) && GoodDir(AfterUnlink(fs, num, now).value, d)
  {
    hide NoDup, Direct, AfterUnlink, Accounted, Listing, Tiled, Owned, FreeOrder;
    UnlinkStep(fs, num, now);
  }

  // ---------- deleting ----------

  /** A name found in a sound volume, which delete_file_entry does not refuse. */
  ghost predicate Deletes(fs: Fs, dirs: seq<nat>, dir: nat, name: seq<Byte>, at: Place) {
    && Sound(fs, dirs) && dir in dirs && Found(fs, dir, name, at)
    && Deletable(fs, at.block, at.pos) && DeleteOutcome(fs, at.block, at.pos) == Ok
  }

  lemma FoundIsListed(fs: Fs, dir: nat, name: seq<Byte>, at: Place)
    requires Found(fs, dir, name, at)
    ensures EntryIn(fs, dir, name, at) in Listed(fs, dir)
  {
    hide Direct, AllTiled, UniqueNames, Listing, FindEntry, Index, EntryAt;
    EntryIsRemoved(fs, dir, name, at);
  }

  /** A listed inode is in use and has a link: the exit of unlink_inode for a missing link cannot
      happen in a sound volume. */
  lemma ListedIsUnlinkable(fs: Fs, dirs: seq<nat>, dir: nat, name: seq<Byte>, at: Place)
    requires Sound(fs, dirs) && dir in dirs && Found(fs, dir, name, at)
    ensures var e := EntryIn(fs, dir, name, at); Unlinkable(fs, e.inode) && (e.kind == FT_DIR <==> e.inode in dirs)
  {
    hide Direct, AllTiled, UniqueNames, Listing, FindEntry, EntryIn, Owns, Accounted, NoDup, Total, Listed;
    var e := EntryIn(fs, dir, name, at);
    FoundIsListed(fs, dir, name, at);
    assert GoodEntry(fs, dirs, e) && Owns(fs, e.inode);
    TotalPositive(fs, dirs, dir, e);
    OwnsLinked(fs, e.inode);
  }

  /** In a sound volume a name is deleted exactly if it is no directory's; a directory's is refused. */
  lemma FilesAreDeleted(fs: Fs, dirs: seq<nat>, dir: nat, name: seq<Byte>, at: Place)
    requires Sound(fs, dirs) && dir in dirs && Found(fs, dir, name, at)
    ensures Deletable(fs, at.block, at.pos)
    ensures DeleteOutcome(fs, at.block, at.pos) == if EntryIn(fs, dir, name, at).kind == FT_DIR then EIsDir else Ok
    ensures Deletes(fs, dirs, dir, name, at) <==> EntryIn(fs, dir, name, at).kind != FT_DIR
  {
    hide Direct, AllTiled, UniqueNames, Listing, Owned, Accounted, LinksCounted, DirsGood, AllDirsOk, PointersOk, OnChain, Tiled, FindEntry,
         EntryIn, EntryAt, Ino, Listed;
    ListedIsUnlinkable(fs, dirs, dir, name, at);
    OwnsLinked(fs, EntryIn(fs, dir, name, at).inode);
    PlaceIsDeletable(fs, dir, name, at);
  }

  /** What is deleted is in use, has a link, and is no directory. */
  lemma DeletedIsFile(fs: Fs, dirs: seq<nat>, dir: nat, name: seq<Byte>, at: Place)
    requires Deletes(fs, dirs, dir, name, at)
    ensures var e := EntryIn(fs, dir, name, at); Unlinkable(fs, e.inode) && e.inode !in dirs && e.kind != FT_DIR
  {
    hide Sound, Found, EntryIn, Deletable, DeleteOutcome, Unlinkable;
    ListedIsUnlinkable(fs, dirs, dir, name, at);
    FilesAreDeleted(fs, dirs, dir, name, at);
  }

  lemma OwnsLinked(fs: Fs, i: nat)
    requires Owns(fs, i)
    ensures Linked(fs, i)
  {}

  lemma PlaceIsDeletable(fs: Fs, dir: nat, name: seq<Byte>, at: Place)
    requires Found(fs, dir, name, at) && Linked(fs, EntryIn(fs, dir, name, at).inode)
    ensures Deletable(fs, at.block, at.pos) && at.block in Blocks(fs, dir)
    ensures EntryAt(fs.disk[at.block], at.pos) == EntryIn(fs, dir, name, at)
    ensures Ino(fs.disk[at.block], at.pos) == EntryIn(fs, dir, name, at).inode
  {
    hide Tiled, OnChain, DirBlock.Find, Direct, UniqueNames, NoDup, PointersOk, Listing, Live, Rank, Index, Listed;
    Directory.FindIsFirst(fs.disk, Blocks(fs, dir), name);
  }

  /** The delete, as an unlink followed by a change of the directory's bytes. */
  lemma DeleteStates(fs: Fs, dirs: seq<nat>, dir: nat, name: seq<Byte>, at: Place, now: nat)
    requires Deletes(fs, dirs, dir, name, at)
    ensures Deletable(fs, at.block, at.pos) && DeleteOutcome(fs, at.block, at.pos) == Ok
    ensures var num := EntryIn(fs, dir, name, at).inode; var fs2 := AfterDelete(fs, at.block, at.pos, now);
      && Linked(fs, num) && Unlinkable(fs, num) && num !in dirs && AfterUnlink(fs, num, now).Some?
      && var fs1 := AfterUnlink(fs, num, now).value;
      && fs2 == Fs(fs1.blockMap, fs1.inodeMap, fs1.inodes, fs2.disk)
      && fs2.disk == WithoutEntry(fs, dir, name, at).disk
      && |fs2.disk| == |fs.disk| && at.block in Blocks(fs, dir) && at.block < |fs.disk|
      && forall k :: 0 <= k < |fs.disk| && k != at.block ==> fs2.disk[k] == fs.disk[k]
  {
    hide Direct, AllTiled, UniqueNames, Listing, Owned, Accounted, NoDup, LinksCounted, PointersOk, FreeOrder, OnChain, Tiled, HideAt, GoodEntry,
         AfterUnlink, Listed, EntryIn, EntryAt, FindEntry, Ino, DirsGood, AllDirsOk;
    DeletedIsFile(fs, dirs, dir, name, at);
    OwnsLinked(fs, EntryIn(fs, dir, name, at).inode);
    PlaceIsDeletable(fs, dir, name, at);
    UnlinkStep(fs, EntryIn(fs, dir, name, at).inode, now);
  }

  /** The directory's bytes change; the map and the inodes stay. */
  lemma BytesEntered(fs1: Fs, fs2: Fs, dir: nat, n: nat)
    requires GoodDir(fs1, dir) && n in Blocks(fs1, dir) && |fs2.disk| == |fs1.disk| && n < |fs1.disk|
    requires fs2 == Fs(fs1.blockMap, fs1.inodeMap, fs1.inodes, fs2.disk)
    requires forall k :: 0 <= k < |fs1.disk| && k != n ==> fs2.disk[k] == fs1.disk[k]
    ensures Entered(fs1, fs2, dir, n)
  {}

  lemma SameBytes(fs: Fs, fs': Fs, dir: nat)
    requires DirOk(fs, dir) && |fs'.inodes| == |fs.inodes| && fs'.disk == fs.disk && Blocks(fs', dir) == Blocks(fs, dir)
    ensures SameListing(fs, fs', dir)
  {
    hide Direct, AllTiled, UniqueNames, Listing;
  }

  /** What the unlink of a delete keeps. */
  lemma DeleteUnlinks(fs: Fs, dirs: seq<nat>, dir: nat, name: seq<Byte>, at: Place, now: nat)
    requires Deletes(fs, dirs, dir, name, at)
    ensures Linked(fs, EntryIn(fs, dir, name, at).inode) && AfterUnlink(fs, EntryIn(fs, dir, name, at).inode, now).Some?
    ensures var fs1 := AfterUnlink(fs, EntryIn(fs, dir, name, at).inode, now).value;
      && fs1.disk == fs.disk && |fs1.inodes| == |fs.inodes| && Blocks(fs1, dir) == Blocks(fs, dir)
      && Accounted(fs1) && Owned(fs1) && AllGood(fs1, dirs)
      && forall d :: d in dirs ==> SameListing(fs, fs1, d)
  {
    hide Direct, AllTiled, UniqueNames, Listing, Owned, Accounted, NoDup, LinksCounted, OnChain, Tiled, GoodEntry, AfterUnlink,
         Listed, Unlinkable, EntryIn, Compact, SameListing, Found, AllDirsOk;
    DeletedIsFile(fs, dirs, dir, name, at);
    var num := EntryIn(fs, dir, name, at).inode;
    UnlinkableLinked(fs, num);
    UnlinkStep(fs, num, now);
    UnlinkOwned(fs, num, now);
    forall d | d in dirs ensures SameListing(fs, AfterUnlink(fs, num, now).value, d) && GoodDir(AfterUnlink(fs, num, now).value, d) {
      assert GoodDir(fs, d);
      UnlinkListing(fs, num, now, d);
    }
  }

  lemma UnlinkableLinked(fs: Fs, num: nat)
    requires Unlinkable(fs, num)
    ensures Linked(fs, num)
  {}

  /** What the steps of a delete keep. */
  lemma DeleteKeeps(fs: Fs, dirs: seq<nat>, dir: nat, name: seq<Byte>, at: Place, now: nat)
    requires Deletes(fs, dirs, dir, name, at)
    ensures Deletable(fs, at.block, at.pos) && DeleteOutcome(fs, at.block, at.pos) == Ok
    ensures var fs2 := AfterDelete(fs, at.block, at.pos, now);
      && Accounted(fs2) && Owned(fs2) && AllGood(fs2, dirs)
      && (forall d :: d in dirs && d != dir ==> SameListing(fs, fs2, d))
      && SameListing(WithoutEntry(fs, dir, name, at), fs2, dir)
  {
    hide Direct, AllTiled, UniqueNames, Listing, Owned, Accounted, NoDup, LinksCounted, OnChain, Tiled, HideAt, GoodEntry, AfterUnlink,
         Listed, Unlinkable, AfterDelete, EntryIn, Compact, DeleteOutcome, Deletable, AsMap, HiddenAt, FindEntry;
    DeleteStates(fs, dirs, dir, name, at, now);
    DeleteUnlinks(fs, dirs, dir, name, at, now);
    var fs1, fs2 := AfterUnlink(fs, EntryIn(fs, dir, name, at).inode, now).value, AfterDelete(fs, at.block, at.pos, now);
    assert GoodDir(fs1, dir);
    BytesEntered(fs1, fs2, dir, at.block);
    EntryOwned(fs1, fs2, dir, at.block);
    EntryAccounted(fs1, fs2, dir, at.block);
    forall d | d in dirs && d != dir ensures SameListing(fs, fs2, d) && GoodDir(fs2, d) {
      OtherListing(fs1, fs2, dir, at.block, d);
    }
    DeleteIsRemove(fs, dir, name, at);
    SameBytes(WithoutEntry(fs, dir, name, at), fs2, dir);
  }

  /** The name is no longer counted. */
  lemma DeleteTotals(fs: Fs, fs2: Fs, dirs: seq<nat>, dir: nat, k: nat, i: nat)
    requires NoDup(dirs) && dir in dirs && AllDirsOk(fs, dirs) && AllDirsOk(fs2, dirs)
    requires forall d :: d in dirs && d != dir ==> SameListing(fs, fs2, d)
    requires DirOk(fs, dir) && DirOk(fs2, dir) && k < |Listed(fs, dir)| && Listed(fs2, dir) == RemoveAt(Listed(fs, dir), k)
    ensures Total(fs2, dirs, i) + (if Listed(fs, dir)[k].inode == i then 1 else 0) == Total(fs, dirs, i)
  {
    hide RemoveAt, Listed, DirOk;
    TotalChange(fs, fs2, dirs, dir, i);
    CountRemove(Listed(fs, dir), k, i);
  }

  ghost predicate Removed(fs: Fs, fs2: Fs, dir: nat, k: nat) {
    k < |Listed(fs, dir)| && Listed(fs2, dir) == RemoveAt(Listed(fs, dir), k)
  }

  lemma DeleteLists(fs: Fs, dirs: seq<nat>, dir: nat, name: seq<Byte>, at: Place, now: nat) returns (k: nat)
    requires Deletes(fs, dirs, dir, name, at)
    ensures Deletable(fs, at.block, at.pos) && DeleteOutcome(fs, at.block, at.pos) == Ok
    ensures DirOk(AfterDelete(fs, at.block, at.pos, now), dir)
    ensures Removed(fs, AfterDelete(fs, at.block, at.pos, now), dir, k)
    ensures Listed(fs, dir)[k] == EntryIn(fs, dir, name, at)
  {
    hide Direct, AllTiled, UniqueNames, Owned, Accounted, NoDup, LinksCounted, OnChain, Tiled, HideAt, GoodEntry, Index,
         AfterDelete, EntryIn, Compact, DeleteOutcome, Deletable, AsMap, FindEntry, Sound;
    DeleteKeeps(fs, dirs, dir, name, at, now);
    EntryIsRemoved(fs, dir, name, at);
    k := Index(fs.disk, Blocks(fs, dir), at);
  }

  /** Link counts after a delete. */
  lemma DeleteCounts(fs: Fs, dirs: seq<nat>, dir: nat, name: seq<Byte>, at: Place, now: nat)
    requires Deletes(fs, dirs, dir, name, at)
    ensures Deletable(fs, at.block, at.pos) && DeleteOutcome(fs, at.block, at.pos) == Ok
    ensures var fs2 := AfterDelete(fs, at.block, at.pos, now); AllDirsOk(fs2, dirs) && LinksCounted(fs2, dirs)
  {
    hide Direct, AllTiled, UniqueNames, Listing, Owned, Accounted, NoDup, OnChain, Tiled, HideAt, GoodEntry, AfterUnlink,
         Listed, AfterDelete, EntryIn, Compact, DeleteOutcome, Deletable, AsMap, HiddenAt, FindEntry, DirOk, SameListing, GoodDir;
    var num := EntryIn(fs, dir, name, at).inode;
    DeleteStates(fs, dirs, dir, name, at, now);
    DeleteKeeps(fs, dirs, dir, name, at, now);
    UnlinkStep(fs, num, now);
    var fs2 := AfterDelete(fs, at.block, at.pos, now);
    GoodAreOk(fs2, dirs);
    var k := DeleteLists(fs, dirs, dir, name, at, now);
    forall i | 1 <= i <= |fs2.inodes| ensures fs2.inodes[i - 1].links == Total(fs2, dirs, i) {
      DeleteTotals(fs, fs2, dirs, dir, k, i);
    }
  }

  lemma RemovedIn<T>(l: seq<T>, k: nat, y: T)
    requires k < |l| && y in RemoveAt(l, k)
    ensures y in l
  {}

  /** The entries that are left name inodes that are still in use: an inode is given up only when
      its last name goes. */
  lemma DeleteEntriesGood(fs: Fs, dirs: seq<nat>, dir: nat, name: seq<Byte>, at: Place, now: nat, d: nat, x: Entry)
    requires Deletes(fs, dirs, dir, name, at) && d in dirs
    requires Deletable(fs, at.block, at.pos) && DeleteOutcome(fs, at.block, at.pos) == Ok
    requires var fs2 := AfterDelete(fs, at.block, at.pos, now); DirOk(fs2, d) && x in Listed(fs2, d)
    ensures GoodEntry(AfterDelete(fs, at.block, at.pos, now), dirs, x)
  {
    hide Direct, AllTiled, UniqueNames, Listing, Owned, Accounted, NoDup, OnChain, Tiled, HideAt, AfterUnlink,
         Listed, AfterDelete, EntryIn, Compact, DeleteOutcome, Deletable, AsMap, HiddenAt, FindEntry, DirOk, GoodDir, RemoveAt, Total;
    var num, fs2 := EntryIn(fs, dir, name, at).inode, AfterDelete(fs, at.block, at.pos, now);
    DeleteStates(fs, dirs, dir, name, at, now);
    DeleteKeeps(fs, dirs, dir, name, at, now);
    var k := DeleteLists(fs, dirs, dir, name, at, now);
    if d == dir {
      RemovedIn(Listed(fs, dir), k, x);
    } else {
      assert SameListing(fs, fs2, d);
    }
    assert GoodEntry(fs, dirs, x);
    UnlinkStep(fs, num, now);
    DeleteCounts(fs, dirs, dir, name, at, now);
    TotalPositive(fs2, dirs, d, x);
  }

  /** delete_file_entry keeps the whole volume sound and removes one name from one directory; it
      cannot meet the exit for an inode without links. */
  lemma DeleteKeepsSound(fs: Fs, dirs: seq<nat>, dir: nat, name: seq<Byte>, at: Place, now: nat)
    requires Deletes(fs, dirs, dir, name, at)
    ensures Deletable(fs, at.block, at.pos) && DeleteOutcome(fs, at.block, at.pos) == Ok
    ensures var fs2 := AfterDelete(fs, at.block, at.pos, now);
      && Sound(fs2, dirs) && DirOk(fs2, dir) && Names(fs2, dir) == Names(fs, dir) - {name}
      && forall d :: d in dirs && d != dir ==> SameListing(fs, fs2, d)
  {
    hide Direct, AllTiled, UniqueNames, Listing, Owned, Accounted, NoDup, OnChain, Tiled, HideAt, AfterUnlink, LinksCounted,
         Listed, AfterDelete, EntryIn, Compact, DeleteOutcome, Deletable, AsMap, HiddenAt, FindEntry, DirOk, GoodEntry, Total, SameListing;
    DeleteKeeps(fs, dirs, dir, name, at, now);
    DeleteCounts(fs, dirs, dir, name, at, now);
    var fs2 := AfterDelete(fs, at.block, at.pos, now);
    forall d, x | d in dirs && DirOk(fs2, d) && x in Listed(fs2, d) ensures GoodEntry(fs2, dirs, x) {
      DeleteEntriesGood(fs, dirs, dir, name, at, now, d, x);
    }
    DeleteIsRemove(fs, dir, name, at);
    SameNames(WithoutEntry(fs, dir, name, at), fs2, dir);
  }

  /** In a sound volume every name leads to an inode that can be followed and has a link. */
  lemma NamesAreLinked(fs: Fs, dirs: seq<nat>, dir: nat, name: seq<Byte>)
    requires Sound(fs, dirs) && dir in dirs && DirOk(fs, dir)
    ensures NameLinked(fs, dir, name)
    ensures name in Names(fs, dir) ==> fs.inodes[Names(fs, dir)[name].inode - 1].links != 0
  {
    hide Direct, AllTiled, UniqueNames, Listing, Owned, Accounted, LinksCounted, DirsGood, AsMap, FindEntry, PointersOk, EntryAt, NoDup, Owns;
    FindIsLookup(fs.disk, Blocks(fs, dir), name);
    if name in Names(fs, dir) {
      var at := FindEntry(fs.disk, Blocks(fs, dir), name).value;
      ListedIsUnlinkable(fs, dirs, dir, name, at);
      UnlinkableLinked(fs, EntryIn(fs, dir, name, at).inode);
    }
  }

  /** What the deletion of a name does to the map, and to the other directories. */
  ghost predicate Unnamed(fs: Fs, fs': Fs, dirs: seq<nat>, dir: nat, name: seq<Byte>)
    requires DirOk(fs, dir)
  {
    && DirOk(fs', dir) && Names(fs', dir) == Names(fs, dir) - {name}
    && forall d :: d in dirs && d != dir ==> SameListing(fs, fs', d)
  }

  lemma DeletedIsUnnamed(fs: Fs, dirs: seq<nat>, dir: nat, name: seq<Byte>, at: Place, now: nat)
    requires Sound(fs, dirs) && dir in dirs && DirOk(fs, dir) && FindEntry(fs.disk, Blocks(fs, dir), name) == Some(at)
    requires Deletable(fs, at.block, at.pos) && DeleteOutcome(fs, at.block, at.pos) == Ok
    ensures var fs2 := AfterDelete(fs, at.block, at.pos, now); Sound(fs2, dirs) && Unnamed(fs, fs2, dirs, dir, name)
  {
    hide Sound, DirOk, FindEntry, Deletable, DeleteOutcome, AfterDelete, SameListing, AsMap;
    DeleteKeepsSound(fs, dirs, dir, name, at, now);
  }

  /** delete_file_entry on any name in a sound volume: the volume stays sound. A name goes if and only
      if it is listed and no directory's; it is the only one to go. */
  method RemoveName(d: Disk, ghost dirs: seq<nat>, dir: nat, name: seq<Byte>, now: nat) returns (r: Outcome)
    requires d.Valid() && Sound(d.Value(), dirs) && dir in dirs
    modifies d.Repr()
    ensures d.Valid() && Sound(d.Value(), dirs) && DirOk(old(d.Value()), dir)
    ensures r == Exit <==> |name| > NAME_MAX
    ensures |name| <= NAME_MAX ==>
      var m := Names(old(d.Value()), dir);
      r == if name !in m then ENoEnt else if m[name].kind == FT_DIR then EIsDir else Ok
    ensures if r == Ok then Unnamed(old(d.Value()), d.Value(), dirs, dir, name) else d.Value() == old(d.Value())
  {
    hide Sound, DirOk, AsMap, NameLinked, Deletable, DeleteOutcome, AfterDelete, FindEntry, Unnamed, AllTiled, Direct;
    ghost var fs := d.Value();
    DirectoryIsOk(fs, dirs, dir);
    NamesAreLinked(fs, dirs, dir, name);
    r := DeleteEntry(d, dir, name, now);
    if r == Ok {
      DirectoryIsTiled(fs, dir);
      DeletedIsUnnamed(fs, dirs, dir, name, FindEntry(fs.disk, Blocks(fs, dir), name).value, now);
    }
  }

  lemma DirectoryIsOk(fs: Fs, dirs: seq<nat>, dir: nat)
    requires Sound(fs, dirs) && dir in dirs
    ensures DirOk(fs, dir) && 1 <= dir <= |fs.inodes|
  {
    hide Owned, Accounted, LinksCounted, AllDirsOk, NoDup;
    assert GoodDir(fs, dir);
  }

  lemma SameNames(fs: Fs, fs': Fs, dir: nat)
    requires SameListing(fs, fs', dir)
    ensures DirOk(fs', dir) && Names(fs', dir) == Names(fs, dir)
  {}

  // ---------- copying a file in ----------

  lemma {:induction false} ClaimAllBalanced(m: Map, ns: seq<nat>, count: nat)
    requires Balanced(m, count) && count < U16 && ClaimAll(m, ns).Some? && forall n :: n in ns ==> n in Numbers(count)
    ensures Balanced(ClaimAll(m, ns).value, count)
    decreases |ns|
  {
    if ns == [] {
    } else {
      assert ns[0] in ns;
      AcquireBalanced(m, ns[0], count);
      ClaimAllBalanced(Acquire(m, ns[0]), ns[1..], count);
    }
  }

  /** A source copied into an empty inode in use that is not a directory. */
  ghost predicate Copies(fs: Fs, fs': Fs, dirs: seq<nat>, num: nat, src: seq<Byte>) {
    && Sound(fs, dirs) && num in fs.inodeMap.used && num !in dirs
    && 1 <= num <= |fs.inodes| && Empty(fs.inodes[num - 1]) && Copied(fs, fs', num, src)
  }

  /** What a copy changes, finished or not, as far as the invariant can see: one inode takes free
      blocks, each once. */
  ghost predicate Takes(fs: Fs, fs': Fs, num: nat) {
    && |fs'.inodes| == |fs.inodes| && |fs'.disk| == |fs.disk| && fs'.inodeMap == fs.inodeMap
    && (forall k :: 0 <= k < |fs.inodes| && k != num - 1 ==> fs'.inodes[k] == fs.inodes[k])
    && 1 <= num <= |fs.inodes| && fs'.inodes[num - 1].links == fs.inodes[num - 1].links
    && fs.blockMap.used <= fs'.blockMap.used && Owns(fs', num)
    && (forall n :: n in Order(fs', num) ==> n !in fs.blockMap.used)
    && (forall n :: 0 <= n < |fs.disk| && n in fs.blockMap.used ==> fs'.disk[n] == fs.disk[n])
    && Accounted(fs')
  }

  lemma CopyStep(fs: Fs, fs': Fs, num: nat, src: seq<Byte>)
    requires Copied(fs, fs', num, src) && Accounted(fs)
    ensures Takes(fs, fs', num)
  {
    hide FreeOrder, ClaimOrder, NoDup, ReleaseAll, ClaimAll, Reads, PointersOk;
    var i := fs'.inodes[num - 1];
    ClaimAllValue(fs.blockMap, ClaimOrder(i, fs'.disk));
    SameBlocks(i, fs'.disk);
    assert forall n :: n in ClaimOrder(i, fs'.disk) ==> n in Numbers(|fs.disk|) by {
      OrderInRange(i, fs'.disk);
    }
    ClaimAllBalanced(fs.blockMap, ClaimOrder(i, fs'.disk), |fs.disk|);
  }

  /** The blocks a copy has taken so far are those its inode reaches. */
  lemma CopyingOrder(fs: Fs, fs': Fs, num: nat, src: seq<Byte>, ds: seq<nat>, ind: nat, es: seq<nat>)
    requires Copying(fs, fs', num, src, ds, ind, es)
    ensures 1 <= num <= |fs'.inodes| && PointersOk(fs'.inodes[num - 1], fs'.disk)
    ensures FreeOrder(fs'.inodes[num - 1], fs'.disk) == ds + if ind == 0 then [] else es + [ind]
  {
    hide ClaimAll, Stored, Direct, Entries, Counted;
    var i := fs'.inodes[num - 1];
    DirectIs(i, ds, ind, 0);
    assert ds[0..] == ds && es[0..] == es;
    assert forall n :: n in ds || (ind != 0 && (n in es || n == ind)) ==> n in Claimed(ds, ind, es);
    if ind != 0 {
      EntriesAre(fs'.disk[ind], es, 0);
    }
  }

  /** They were free, and are taken once each. */
  lemma CopyingOwns(fs: Fs, fs': Fs, num: nat, src: seq<Byte>, ds: seq<nat>, ind: nat, es: seq<nat>)
    requires Copying(fs, fs', num, src, ds, ind, es)
    ensures Owns(fs', num) && forall n :: n in Order(fs', num) ==> n !in fs.blockMap.used
    ensures fs'.blockMap.used == fs.blockMap.used + Elements(Claimed(ds, ind, es))
  {
    hide FreeOrder, NoDup, ClaimAll, PointersOk, Stored, Lists, Slots, Counted;
    var all := Claimed(ds, ind, es);
    ClaimAllValue(fs.blockMap, all);
    CopyingOrder(fs, fs', num, src, ds, ind, es);
    CopyOrder(ds, ind, es);
    assert forall n :: n in all ==> n in Elements(all);
  }

  lemma CopyingAccounted(fs: Fs, fs': Fs, num: nat, src: seq<Byte>, ds: seq<nat>, ind: nat, es: seq<nat>)
    requires Copying(fs, fs', num, src, ds, ind, es) && Accounted(fs)
    ensures Accounted(fs')
  {
    hide ClaimAll, Stored, Lists, Slots, Counted, Claimed, Balanced;
    ClaimAllBalanced(fs.blockMap, Claimed(ds, ind, es), |fs.disk|);
  }

  lemma CopyingStep(fs: Fs, fs': Fs, num: nat, src: seq<Byte>, ds: seq<nat>, ind: nat, es: seq<nat>)
    requires Copying(fs, fs', num, src, ds, ind, es) && Accounted(fs)
    ensures Takes(fs, fs', num)
  {
    hide Owns, Order, ClaimAll, Stored, Lists, Slots, Claimed, Accounted;
    CopyingOwns(fs, fs', num, src, ds, ind, es);
    CopyingAccounted(fs, fs', num, src, ds, ind, es);
    assert forall n :: n in Claimed(ds, ind, es) ==> n in Elements(Claimed(ds, ind, es));
    CopyingFree(fs, fs', num, src, ds, ind, es);
  }

  lemma CopyingFree(fs: Fs, fs': Fs, num: nat, src: seq<Byte>, ds: seq<nat>, ind: nat, es: seq<nat>)
    requires Copying(fs, fs', num, src, ds, ind, es)
    ensures forall n :: n in Claimed(ds, ind, es) ==> n !in fs.blockMap.used
  {
    hide ClaimAll, Stored, Lists, Slots, Claimed, Counted;
    ClaimAllValue(fs.blockMap, Claimed(ds, ind, es));
  }

  lemma CopyOwned(fs: Fs, fs': Fs, num: nat)
    requires Owned(fs) && num in fs.inodeMap.used && Takes(fs, fs', num)
    ensures Owned(fs')
  {
    hide Accounted, NoDup;
    forall i | i in fs'.inodeMap.used && i != num ensures SameOrder(fs, fs', i) {
      assert Owns(fs, i);
      KeepsInUse(fs, fs', i);
    }
    assert forall i :: i in fs.inodeMap.used ==> Owns(fs, i);
    OwnedStep(fs, fs', num);
  }

  /** An inode whose blocks are in use keeps them when only free blocks change. */
  lemma KeepsInUse(fs: Fs, fs': Fs, i: nat)
    requires Owns(fs, i) && |fs'.inodes| == |fs.inodes| && |fs'.disk| == |fs.disk| && fs'.inodes[i - 1] == fs.inodes[i - 1]
    requires forall n :: 0 <= n < |fs.disk| && n in fs.blockMap.used ==> fs'.disk[n] == fs.disk[n]
    ensures SameOrder(fs, fs', i)
  {
    hide Direct, Inodes.Entries, NoDup;
    var x := fs.inodes[i - 1];
    if HasIndirect(x) {
      assert x.ptr[DIRECT] in Order(fs, i);
    }
    PointersKeep(fs, fs', i);
  }

  lemma CopyListing(fs: Fs, fs': Fs, num: nat, d: nat)
    requires Owned(fs) && GoodDir(fs, d) && d != num && Takes(fs, fs', num)
    ensures SameListing(fs, fs', d) && GoodDir(fs', d)
  {
    hide Accounted, NoDup, Direct, Tiled, Listing, FreeOrder, UniqueNames;
    assert Owns(fs, d);
    DirectoryOrder(fs, d);
    ListingSame(fs.disk, fs'.disk, Blocks(fs, d));
  }

  /** A file that takes free blocks keeps the whole volume sound and every directory as it was. */
  lemma TakingKeepsSound(fs: Fs, fs': Fs, dirs: seq<nat>, num: nat)
    requires Sound(fs, dirs) && num in fs.inodeMap.used && num !in dirs && Takes(fs, fs', num)
    ensures Sound(fs', dirs) && forall d :: d in dirs ==> SameListing(fs, fs', d)
  {
    hide Accounted, Owned, NoDup, Listed, DirOk, Compact, Owns, Order;
    CopyOwned(fs, fs', num);
    forall d | d in dirs ensures SameListing(fs, fs', d) && GoodDir(fs', d) {
      assert GoodDir(fs, d);
      CopyListing(fs, fs', num, d);
    }
    forall d, x | d in dirs && x in Listed(fs', d) ensures GoodEntry(fs', dirs, x) {
      assert SameListing(fs, fs', d);
      assert GoodEntry(fs, dirs, x);
    }
    assert AllGood(fs', dirs);
    GoodAreOk(fs', dirs);
    forall i | 1 <= i <= |fs'.inodes| ensures fs'.inodes[i - 1].links == Total(fs', dirs, i) {
      TotalSame(fs, fs', dirs, i);
    }
  }

  /** copy_sourcefile_data keeps the whole volume sound and every directory as it was. */
  lemma CopyKeepsSound(fs: Fs, fs': Fs, dirs: seq<nat>, num: nat, src: seq<Byte>)
    requires Copies(fs, fs', dirs, num, src)
    ensures Sound(fs', dirs) && forall d :: d in dirs ==> SameListing(fs, fs', d)
  {
    hide Copied, Sound, SameListing, Takes, Empty;
    SoundIsAccounted(fs, dirs);
    CopyStep(fs, fs', num, src);
    TakingKeepsSound(fs, fs', dirs, num);
  }

  /** So does one that exits because the disk is full, however far it has come. */
  lemma StoppedCopyKeepsSound(fs: Fs, fs': Fs, dirs: seq<nat>, num: nat, src: seq<Byte>, ds: seq<nat>, ind: nat, es: seq<nat>)
    requires Sound(fs, dirs) && num in fs.inodeMap.used && num !in dirs && Copying(fs, fs', num, src, ds, ind, es)
    ensures Sound(fs', dirs) && forall d :: d in dirs ==> SameListing(fs, fs', d)
  {
    hide Copying, Sound, SameListing, Takes;
    SoundIsAccounted(fs, dirs);
    CopyingStep(fs, fs', num, src, ds, ind, es);
    TakingKeepsSound(fs, fs', dirs, num);
  }

  lemma SoundIsAccounted(fs: Fs, dirs: seq<nat>)
    requires Sound(fs, dirs)
    ensures Accounted(fs)
  {}

  // ---------- making a directory ----------

  lemma InUse(fs: Fs, dirs: seq<nat>, dir: nat)
    requires Sound(fs, dirs) && dir in dirs
    ensures DirOk(fs, dir) && Compact(fs.inodes[dir - 1]) && forall n :: n in Blocks(fs, dir) ==> n in fs.blockMap.used
  {
    hide FreeOrder, NoDup, Direct, LinksCounted, Listing, AllTiled, UniqueNames;
    assert GoodDir(fs, dir) && Owns(fs, dir);
    DirectoryOrder(fs, dir);
  }

  /** The name under which a directory lists itself. */
  function Self(ino: nat): Entry {
    Entry([DOT], ino, FT_DIR)
  }

  /** The name under which a directory lists its parent. */
  function Parent(dir: nat): Entry {
    Entry([DOT, DOT], dir, FT_DIR)
  }

  /** A directory just created, in a sound volume that lists it: it has no names yet. */
  lemma FreshDirectory(fs: Fs, fs': Fs, dirs: seq<nat>, dir: nat, blk: nat, e: Entry)
    requires Creates(fs, fs', dirs, dir, blk, 0, e) && e.kind == FT_DIR
    ensures e.inode !in dirs && Sound(fs', dirs + [e.inode])
    ensures DirOk(fs', e.inode) && Names(fs', e.inode) == map[] && Blocks(fs', e.inode) == []
    ensures |fs'.inodes| == |fs.inodes| && fs'.inodes[e.inode - 1].links == 1
    ensures 1 <= dir <= |fs.inodes| && fs'.inodes[dir - 1].links == fs.inodes[dir - 1].links
  {
    hide Owned, Accounted, LinksCounted, WithEntry, Compact, AsMap, Direct, DirOk, Listing;
    CreateKeepsSound(fs, fs', dirs, dir, blk, 0, e);
    NewDirectory(WithEntry(fs, dir, blk, e), e.inode, e.kind);
    assert GoodDir(fs, dir);
    CreateLinks(fs, fs', dir, blk, 0, e, e.inode);
    CreateLinks(fs, fs', dir, blk, 0, e, dir);
    NoNames();
  }

  lemma NoNames()
    ensures AsMap([]) == map[]
  {}

  lemma CreatesGood(fs: Fs, fs': Fs, dirs: seq<nat>, dir: nat, blk: nat, link: nat, e: Entry)
    requires Creates(fs, fs', dirs, dir, blk, link, e)
    ensures Created(fs, fs', dir, blk, link, e, |fs.disk|) && GoodDir(fs, dir) && |fs'.inodes| == |fs.inodes|
    ensures link != 0 ==> 1 <= link <= |fs.inodes| && link in fs.inodeMap.used && fs.inodes[link - 1].links + 1 < U16
  {
    hide Owned, Accounted, LinksCounted, WithEntry, GoodDir, AllDirsOk, CanEnter, GoodEntry, NoDup, Listed, DirOk;
    assert GoodDir(fs, dir);
  }

  /** One more name changes no other link count. */
  lemma NamedLinks(fs: Fs, fs': Fs, dirs: seq<nat>, dir: nat, blk: nat, e: Entry)
    requires Creates(fs, fs', dirs, dir, blk, e.inode, e) && e.inode != 0
    ensures |fs'.inodes| == |fs.inodes|
    ensures forall i :: 0 <= i < |fs.inodes| && i != e.inode - 1 ==> fs'.inodes[i].links == fs.inodes[i].links
  {
    hide Creates, Created, GoodDir;
    CreatesGood(fs, fs', dirs, dir, blk, e.inode, e);
    forall i | 0 <= i < |fs.inodes| && i != e.inode - 1 ensures fs'.inodes[i].links == fs.inodes[i].links {
      CreateLinks(fs, fs', dir, blk, e.inode, e, i + 1);
    }
  }

  /** One more name in a directory that is already there. */
  lemma NamedAgain(fs: Fs, fs': Fs, dirs: seq<nat>, dir: nat, blk: nat, e: Entry)
    requires Creates(fs, fs', dirs, dir, blk, e.inode, e) && e.inode != 0
    ensures Sound(fs', dirs) && DirOk(fs, dir) && DirOk(fs', dir) && Names(fs', dir) == Names(fs, dir)[e.name := e]
    ensures forall d :: d in dirs && d != dir ==> SameListing(fs, fs', d)
    ensures |fs'.inodes| == |fs.inodes|
    ensures forall i :: 0 <= i < |fs.inodes| && i != e.inode - 1 ==> fs'.inodes[i].links == fs.inodes[i].links
  {
    hide Creates, Sound, SameListing, DirOk, AsMap, Listed;
    CreateKeepsSound(fs, fs', dirs, dir, blk, e.inode, e);
    NamedLinks(fs, fs', dirs, dir, blk, e);
    LinkedStay(dirs, e);
  }

  lemma LinkedStay(dirs: seq<nat>, e: Entry)
    requires e.inode != 0
    ensures DirsAfter(dirs, e.inode, e) == dirs
  {}

  /** The new directory lists itself and its parent, the parent lists it, and all others list what
      they did. */
  ghost predicate Made(fs: Fs, fs': Fs, dirs: seq<nat>, dir: nat, name: seq<Byte>, ino: nat) {
    && ino !in dirs && Sound(fs', dirs + [ino])
    && DirOk(fs, dir) && DirOk(fs', dir) && DirOk(fs', ino)
    && Names(fs', dir) == Names(fs, dir)[name := Entry(name, ino, FT_DIR)]
    && Names(fs', ino) == map[[DOT] := Self(ino), [DOT, DOT] := Parent(dir)]
    && forall d :: d in dirs && d != dir ==> SameListing(fs, fs', d)
  }

  /** The three creations of mkdir. */
  lemma MakesDirectory(fs: Fs, fs1: Fs, fs2: Fs, fs3: Fs, dirs: seq<nat>, dir: nat, name: seq<Byte>, ino: nat, b1: nat, b2: nat, b3: nat)
    requires Creates(fs, fs1, dirs, dir, b1, 0, Entry(name, ino, FT_DIR))
    requires Creates(fs1, fs2, dirs + [ino], ino, b2, ino, Self(ino))
    requires Creates(fs2, fs3, dirs + [ino], ino, b3, dir, Parent(dir))
    requires ino != 0 && dir != 0
    ensures Made(fs, fs3, dirs, dir, name, ino)
  {
    hide Creates, Sound, SameListing, DirOk, AsMap;
    var e := Entry(name, ino, FT_DIR);
    CreatesNeeds(fs, fs1, dirs, dir, b1, 0, e);
    CreateKeepsSound(fs, fs1, dirs, dir, b1, 0, e);
    FreshDirectory(fs, fs1, dirs, dir, b1, e);
    NamedAgain(fs1, fs2, dirs + [ino], ino, b2, Self(ino));
    NamedAgain(fs2, fs3, dirs + [ino], ino, b3, Parent(dir));
    forall d | d in dirs ensures SameListing(fs1, fs3, d) {
      assert d in dirs + [ino] && d != ino;
      SameThrough(fs1, fs2, fs3, d);
    }
    forall d | d in dirs && d != dir ensures SameListing(fs, fs3, d) {
      SameThrough(fs, fs1, fs3, d);
    }
    SameNames(fs1, fs3, dir);
  }

  lemma CreatesNeeds(fs: Fs, fs': Fs, dirs: seq<nat>, dir: nat, blk: nat, link: nat, e: Entry)
    requires Creates(fs, fs', dirs, dir, blk, link, e)
    ensures dir in dirs
  {}

  lemma SameThrough(fs: Fs, fs1: Fs, fs2: Fs, d: nat)
    requires SameListing(fs, fs1, d) && SameListing(fs1, fs2, d)
    ensures SameListing(fs, fs2, d)
  {}

  lemma CreationInSound(fs: Fs, fs': Fs, dirs: seq<nat>, dir: nat, blk: nat, link: nat, e: Entry, blocks: nat)
    requires Sound(fs, dirs) && dir in dirs && Linkable(fs, dirs, link, e.kind) && Created(fs, fs', dir, blk, link, e, blocks)
    requires blocks == |fs.disk|
    ensures Creates(fs, fs', dirs, dir, blk, link, e) && 1 <= e.inode <= |fs.inodes| && (link != 0 ==> e.inode == link)
  {
    hide Sound, CanEnter;
  }

  /** create_dir_entry in a sound volume. */
  method EnterName(d: Disk, ghost dirs: seq<nat>, dir: nat, link: nat, name: seq<Byte>, kind: Byte)
    returns (r: Outcome, ino: nat, ghost blk: nat)
    requires d.Valid() && Sound(d.Value(), dirs) && dir in dirs && Linkable(d.Value(), dirs, link, kind)
    modifies d.Repr()
    ensures d.Valid() && DirOk(old(d.Value()), dir)
    ensures r == CreateOutcome(old(d.Value()), dir, link, name) && (r == Ok || r == EExist || r == Exit)
    ensures r == EExist || (r == Exit && link != 0) ==> d.Value() == old(d.Value())
    ensures r == Exit ==> Exited(old(d.Value()), d.Value(), dir, name, blk)
    ensures r == Ok ==> Creates(old(d.Value()), d.Value(), dirs, dir, blk, link, Entry(name, ino, kind))
    ensures r == Ok ==> 1 <= ino <= |d.Value().inodes| == |old(d.Value()).inodes| && (link != 0 ==> ino == link)
  {
    hide DirOk, Sound, Created, Compact, AsMap, Direct, NoRoom;
    ghost var fs := d.Value();
    InUse(fs, dirs, dir);
    InRange(fs, dir);
    r, ino, blk := CreateEntry(d, dir, link, name, kind);
    if r == Exit && link != 0 {
      LinkExits(fs, dir, link, name);
    }
    if r == Ok {
      CreationInSound(fs, d.Value(), dirs, dir, blk, link, Entry(name, ino, kind), d.disk.Length);
    }
  }

  lemma InRange(fs: Fs, dir: nat)
    requires DirOk(fs, dir)
    ensures 1 <= dir <= |fs.inodes|
  {}

  lemma DirectoryInUse(fs: Fs, dirs: seq<nat>, d: nat)
    requires Sound(fs, dirs) && d in dirs
    ensures 1 <= d <= |fs.inodes| && d in fs.inodeMap.used
  {
    hide Owned, Accounted, LinksCounted, AllDirsOk, NoDup;
    assert GoodDir(fs, d);
  }

  /** With an inode to link there is nothing to exit for once the entry has its room. */
  lemma LinkExits(fs: Fs, dir: nat, link: nat, name: seq<Byte>)
    requires DirOk(fs, dir) && link != 0 && CreateOutcome(fs, dir, link, name) == Exit
    ensures |name| > NAME_MAX || NoRoom(fs, dir, Need(name), |fs.disk|)
  {}

  /** The first name of a directory without blocks needs a free block, and nothing else. */
  lemma FirstName(fs: Fs, dir: nat, link: nat, name: seq<Byte>)
    requires DirOk(fs, dir) && Blocks(fs, dir) == [] && Names(fs, dir) == map[] && link != 0 && |name| <= NAME_MAX
    ensures CreateOutcome(fs, dir, link, name) == if fs.blockMap.used == Numbers(|fs.disk|) then Exit else Ok
  {}

  /** The second name shares the block of the first. */
  lemma SecondName(fs1: Fs, fs2: Fs, dirs: seq<nat>, dir: nat, blk: nat, link: nat, e: Entry, other: nat, name: seq<Byte>)
    requires Creates(fs1, fs2, dirs, dir, blk, link, e) && Blocks(fs1, dir) == [] && link != 0
    requires DirOk(fs2, dir) && name !in Names(fs2, dir) && |name| <= NAME_MAX && other != 0
    ensures CreateOutcome(fs2, dir, other, name) == Ok
    ensures Blocks(fs2, dir) == [blk] && SpotIn(fs2, dir, Need(name)).Some?
  {
    hide FirstEntry, Tiled, Live, FirstFit, Sound, AsMap, Linkable, Listing, LeastFree, Direct, OneMoreBlock;
    BlocksAfterEntry(fs1, dir, blk, e);
    OneNameBlock(e, name);
    assert SpotIn(fs1, dir, Need(e.name)).None?;
    assert Blocks(fs2, dir) == [blk];
    assert Spot(fs2.disk, [blk], Need(name)) == Some(Place(blk, 0));
  }

  /** An entry put where there was room takes no block. */
  lemma EntryShares(fs: Fs, fs': Fs, dirs: seq<nat>, dir: nat, blk: nat, link: nat, e: Entry)
    requires Creates(fs, fs', dirs, dir, blk, link, e) && link != 0 && DirOk(fs, dir) && SpotIn(fs, dir, Need(e.name)).Some?
    ensures 1 <= dir <= |fs.inodes| == |fs'.inodes| && Blocks(fs', dir) == Blocks(fs, dir)
  {
    hide Sound, AsMap, Linkable, LeastFree, Direct, OneMoreBlock, AllTiled, UniqueNames, PutAt, Spot, Compact;
    EntryInodes(fs, dir, blk, e);
  }

  /** The entries for the directory itself and for its parent: the first takes a block, the second
      shares it. */
  method NameSelfAndParent(d: Disk, ghost dirs: seq<nat>, dir: nat, ino: nat)
    returns (r: Outcome, ghost fs2: Fs, ghost b2: nat, ghost b3: nat)
    requires d.Valid() && Sound(d.Value(), dirs) && ino in dirs && dir in dirs && dir != ino
    requires 1 <= ino <= |d.Value().inodes| && d.Value().inodes[ino - 1].links == 1
    requires 1 <= dir <= |d.Value().inodes| && d.Value().inodes[dir - 1].links + 1 < U16
    requires DirOk(d.Value(), ino) && Names(d.Value(), ino) == map[] && Blocks(d.Value(), ino) == []
    modifies d.Repr()
    ensures d.Valid() && r == if old(d.Value()).blockMap.used == Numbers(|old(d.Value()).disk|) then Exit else Ok
    ensures r == Exit ==> d.Value() == old(d.Value())
    ensures r == Ok ==> Creates(old(d.Value()), fs2, dirs, ino, b2, ino, Self(ino))
    ensures r == Ok ==> Creates(fs2, d.Value(), dirs, ino, b3, dir, Parent(dir))
    ensures r == Ok ==> ino <= |d.Value().inodes| && |Blocks(d.Value(), ino)| == 1
  {
    hide DirOk, Sound, Creates, Compact, AsMap, SameListing, CreateOutcome, Direct, Exited, SpotIn;
    ghost var fs1 := d.Value();
    b3 := 0;
    DirectoryInUse(fs1, dirs, ino);
    FirstName(fs1, ino, ino, [DOT]);
    var again;
    r, again, b2 := EnterName(d, dirs, ino, ino, [DOT], FT_DIR);
    fs2 := d.Value();
    if r != Ok {
      return;
    }
    NamedAgain(fs1, fs2, dirs, ino, b2, Self(ino));
    DirectoryInUse(fs2, dirs, dir);
    SecondName(fs1, fs2, dirs, ino, b2, ino, Self(ino), dir, [DOT, DOT]);
    r, again, b3 := EnterName(d, dirs, ino, dir, [DOT, DOT], FT_DIR);
    EntryShares(fs2, d.Value(), dirs, ino, b3, dir, Parent(dir));
  }

  /** A new directory that did not get its two names: the disk was full. */
  ghost predicate Bare(fs: Fs, fs': Fs, dirs: seq<nat>, dir: nat, name: seq<Byte>, ino: nat) {
    && ino !in dirs && Sound(fs', dirs + [ino]) && fs'.blockMap.used == Numbers(|fs'.disk|)
    && DirOk(fs, dir) && DirOk(fs', dir) && DirOk(fs', ino)
    && Names(fs', dir) == Names(fs, dir)[name := Entry(name, ino, FT_DIR)] && Names(fs', ino) == map[]
  }

  lemma BareDirectory(fs: Fs, fs1: Fs, dirs: seq<nat>, dir: nat, blk: nat, e: Entry)
    requires Creates(fs, fs1, dirs, dir, blk, 0, e) && e.kind == FT_DIR && fs1.blockMap.used == Numbers(|fs1.disk|)
    ensures Bare(fs, fs1, dirs, dir, e.name, e.inode)
  {
    hide Creates, Sound, SameListing, DirOk, AsMap, Numbers;
    FreshDirectory(fs, fs1, dirs, dir, blk, e);
    CreateKeepsSound(fs, fs1, dirs, dir, blk, 0, e);
  }

  /** The blocks in use once the new directory is listed in its parent. */
  ghost function BlocksThen(fs: Fs, dir: nat, name: seq<Byte>): nat
    requires DirOk(fs, dir)
  {
    |fs.blockMap.used| + if SpotIn(fs, dir, Need(name)).Some? then 0 else 1
  }

  /** How mkdir ends: as its first creation does, unless that takes the last block or finds none
      free any more. */
  ghost function MkdirOutcome(fs: Fs, dir: nat, name: seq<Byte>): Outcome
    requires DirOk(fs, dir)
  {
    var first := CreateOutcome(fs, dir, 0, name);
    if first == Ok && BlocksThen(fs, dir, name) == |fs.disk| then Exit else first
  }

  /** mkdir leaves every directory with the counts of its blocks, the new one too. */
  lemma MkdirGrows(fs: Fs, fs1: Fs, fs2: Fs, fs3: Fs, dirs: seq<nat>, dir: nat, name: seq<Byte>, ino: nat, b1: nat, b2: nat, b3: nat)
    requires Creates(fs, fs1, dirs, dir, b1, 0, Entry(name, ino, FT_DIR))
    requires Creates(fs1, fs2, dirs + [ino], ino, b2, ino, Self(ino))
    requires Creates(fs2, fs3, dirs + [ino], ino, b3, dir, Parent(dir))
    requires ino != 0 && dir != 0
    ensures Grown(fs3, ino) && (AllGrown(fs, dirs) ==> AllGrown(fs3, dirs + [ino]))
  {
    hide Sound, Linkable, Created, AllGrown, Grown;
    NamedGrows(fs1, fs2, fs3, dirs + [ino], dir, ino, b2, b3);
    NewGrows(fs, fs1, dir, b1, Entry(name, ino, FT_DIR));
    NamedGrows(fs1, fs2, fs3, [ino], dir, ino, b2, b3);
    OneGrown(fs3, ino);
    if AllGrown(fs, dirs) {
      CreateGrows(fs, fs1, dirs, dir, b1, 0, Entry(name, ino, FT_DIR));
    }
  }

  lemma OneGrown(fs: Fs, d: nat)
    ensures AllGrown(fs, [d]) ==> Grown(fs, d)
  {
    hide Grown;
    assert d in [d];
  }

  lemma NewGrows(fs: Fs, fs1: Fs, dir: nat, blk: nat, e: Entry)
    requires Created(fs, fs1, dir, blk, 0, e, |fs.disk|) && e.kind == FT_DIR
    ensures AllGrown(fs1, [e.inode])
  {
    hide Created;
    CreateGrows(fs, fs1, [], dir, blk, 0, e);
    assert DirsAfter([], 0, e) == [e.inode];
  }

  lemma NamedGrows(fs1: Fs, fs2: Fs, fs3: Fs, ds: seq<nat>, dir: nat, ino: nat, b2: nat, b3: nat)
    requires Created(fs1, fs2, ino, b2, ino, Self(ino), |fs1.disk|) && Created(fs2, fs3, ino, b3, dir, Parent(dir), |fs2.disk|)
    requires ino != 0 && dir != 0
    ensures AllGrown(fs1, ds) ==> AllGrown(fs3, ds)
  {
    hide Created, AllGrown;
    if AllGrown(fs1, ds) {
      CreateGrows(fs1, fs2, ds, ino, b2, ino, Self(ino));
      LinkedStay(ds, Self(ino));
      CreateGrows(fs2, fs3, ds, ino, b3, dir, Parent(dir));
      LinkedStay(ds, Parent(dir));
    }
  }

  lemma AllUsed(used: set<nat>, count: nat)
    requires used <= Numbers(count)
    ensures |used| == count <==> used == Numbers(count)
  {
    NumbersSize(count);
    SubsetSize(used, Numbers(count));
  }

  /** Whether a block is left for the new directory can be read off before the first creation. */
  lemma NoBlockLeft(fs: Fs, fs1: Fs, dirs: seq<nat>, dir: nat, blk: nat, e: Entry)
    requires Creates(fs, fs1, dirs, dir, blk, 0, e)
    ensures DirOk(fs, dir)
    ensures fs1.blockMap.used == Numbers(|fs1.disk|) <==> BlocksThen(fs, dir, e.name) == |fs.disk|
  {
    hide Numbers, AllTiled, Direct, UniqueNames, Owned, LinksCounted, DirsGood, AsMap, FirstEntry, PutAt, Compact, Spot;
    CreateKeeps(fs, fs1, dirs, dir, blk, 0, e);
    AllUsed(fs1.blockMap.used, |fs1.disk|);
  }

  lemma FewerGrown(fs: Fs, dirs: seq<nat>, ino: nat)
    ensures AllGrown(fs, dirs + [ino]) ==> AllGrown(fs, dirs)
  {
    hide Grown;
    assert forall d :: d in dirs ==> d in dirs + [ino];
  }

  /** However the first creation ends. */
  lemma EntryGrowsAnyway(fs: Fs, fs1: Fs, dirs: seq<nat>, dir: nat, blk: nat, name: seq<Byte>, ino: nat, r: Outcome)
    requires DirOk(fs, dir) && dir in dirs && r == CreateOutcome(fs, dir, 0, name) && (r == Ok || r == EExist || r == Exit)
    requires r == EExist ==> fs1 == fs
    requires r == Exit ==> Exited(fs, fs1, dir, name, blk)
    requires r == Ok ==> Creates(fs, fs1, dirs, dir, blk, 0, Entry(name, ino, FT_DIR))
    ensures AllGrown(fs, dirs) ==> AllGrown(fs1, dirs)
  {
    hide DirOk, Sound, Linkable, Created, AllGrown, Exited, CreateOutcome;
    if AllGrown(fs, dirs) {
      if r == Ok {
        CreateGrows(fs, fs1, dirs, dir, blk, 0, Entry(name, ino, FT_DIR));
        FewerGrown(fs1, dirs, ino);
      } else if r == Exit {
        ExitGrows(fs, fs1, dirs, dir, 0, name, blk);
      }
    }
  }

  /** mkdir, once its parent directory has been found. The exit comes in the first creation, or
      before the second, for want of a block; then a directory without names is left. */
  method MakeDirectory(d: Disk, ghost dirs: seq<nat>, dir: nat, name: seq<Byte>)
    returns (r: Outcome, ino: nat, ghost blk: nat)
    requires d.Valid() && Sound(d.Value(), dirs) && dir in dirs
    requires 1 <= dir <= |d.Value().inodes| && d.Value().inodes[dir - 1].links + 1 < U16
    modifies d.Repr()
    ensures d.Valid() && DirOk(old(d.Value()), dir) && r == MkdirOutcome(old(d.Value()), dir, name)
    ensures r == EExist ==> d.Value() == old(d.Value())
    ensures r == Exit ==>
      if CreateOutcome(old(d.Value()), dir, 0, name) == Exit then Exited(old(d.Value()), d.Value(), dir, name, blk)
      else Bare(old(d.Value()), d.Value(), dirs, dir, name, ino)
    ensures r == Ok ==> Made(old(d.Value()), d.Value(), dirs, dir, name, ino)
    ensures r == Ok ==> Grown(d.Value(), ino) && |Blocks(d.Value(), ino)| == 1
    ensures AllGrown(old(d.Value()), dirs) ==> AllGrown(d.Value(), dirs)
  {
    hide AllGrown, Grown, DirOk, Sound, Creates, Compact, AsMap, SameListing, CreateOutcome, Made, Bare, Exited, Self, Parent, Disk.Valid, Disk.Value, Direct, BlocksThen;
    ghost var fs := d.Value();
    ghost var b2, b3, fs2;
    r, ino, blk := EnterName(d, dirs, dir, 0, name, FT_DIR);
    EntryGrowsAnyway(fs, d.Value(), dirs, dir, blk, name, ino, r);
    if r != Ok {
      return;
    }
    ghost var fs1 := d.Value();
    FreshDirectory(fs, fs1, dirs, dir, blk, Entry(name, ino, FT_DIR));
    NoBlockLeft(fs, fs1, dirs, dir, blk, Entry(name, ino, FT_DIR));
    r, fs2, b2, b3 := NameSelfAndParent(d, dirs + [ino], dir, ino);
    if r == Ok {
      MakesDirectory(fs, fs1, fs2, d.Value(), dirs, dir, name, ino, blk, b2, b3);
      MkdirGrows(fs, fs1, fs2, d.Value(), dirs, dir, name, ino, blk, b2, b3);
      FewerGrown(d.Value(), dirs, ino);
    } else {
      BareDirectory(fs, fs1, dirs, dir, blk, Entry(name, ino, FT_DIR));
    }
  }

  // ---------- a volume to start from ----------

  /** Nothing is in use but an empty root directory without names, and the block number that is
      padding. */
  ghost predicate Unused(fs: Fs, root: nat) {
    && 1 <= root <= |fs.inodes| < U16 && 1 <= |fs.disk| < U16
    && fs.blockMap == Map({|fs.disk|}, |fs.disk| - 1, |fs.disk| - 1)
    && fs.inodeMap == Map({root}, |fs.inodes| - 1, |fs.inodes| - 1)
    && forall i :: 0 <= i < |fs.inodes| ==> fs.inodes[i] == BlankInode(FT_DIR)
  }

  lemma BlankRoot(fs: Fs, root: nat)
    requires Unused(fs, root)
    ensures Owns(fs, root) && GoodDir(fs, root) && Listed(fs, root) == []
    ensures forall i :: 0 <= i < |fs.inodes| ==> fs.inodes[i].links == 0
  {
    assert fs.inodes[root - 1] == BlankInode(FT_DIR);
    assert Direct(fs.inodes[root - 1].ptr, 0) == [];
  }

  lemma UnusedIsAccounted(fs: Fs, root: nat)
    requires Unused(fs, root)
    ensures Accounted(fs)
  {
    hide BlankInode;
    assert |fs.blockMap.used| == 1 && |fs.inodeMap.used| == 1;
  }

  /** A volume to start from is sound. */
  lemma EmptyVolumeIsSound(fs: Fs, root: nat)
    requires Unused(fs, root)
    ensures Sound(fs, [root])
  {
    hide FreeOrder, Accounted, Total, Listed, DirOk, BlankInode, Compact, PointersOk, NoDup;
    BlankRoot(fs, root);
    UnusedIsAccounted(fs, root);
    OneIsNoDup(root);
    assert forall d :: d in [root] <==> d == root;
    forall i | 1 <= i <= |fs.inodes| ensures Total(fs, [root], i) == 0 {
      EmptyTotal(fs, root, i);
    }
  }

  lemma OneIsNoDup(x: nat)
    ensures NoDup([x])
  {}

  lemma EmptyTotal(fs: Fs, root: nat, i: nat)
    requires AllDirsOk(fs, [root]) && Listed(fs, root) == []
    ensures Total(fs, [root], i) == 0
  {
    assert [root][1..] == [];
  }

  /** A bitmap with one number in use. */
  method OneTaken(count: nat, num: nat) returns (bm: Bitmap)
    requires 1 <= num <= count < U16
    ensures bm.Valid() && fresh(bm) && fresh(bm.bytes) && bm.count == count
    ensures bm.Value() == Map({num}, count - 1, count - 1)
  {
    bm := new Bitmap(count);
    bm.Take(num);
    OneLess(count, U32);
    OneLess(count, U16);
  }

  /** Such a volume exists as a mounted image that every tool accepts. */
  method BlankDisk(blocks: nat, inodes: nat, root: nat) returns (d: Disk)
    requires 1 <= blocks < U16 && 1 <= root <= inodes < U16
    ensures d.Valid() && fresh(d) && fresh(d.Repr())
    ensures Unused(d.Value(), root) && Sound(d.Value(), [root])
    ensures d.disk.Length == blocks && d.inodes.Length == inodes
  {
    hide Sound, BlankInode, ZeroBlock;
    var blockMap := OneTaken(blocks, blocks);
    var inodeMap := OneTaken(inodes, root);
    var table := new Inode[inodes](i => BlankInode(FT_DIR));
    var image := new Block[blocks](i => ZeroBlock());
    d := new Disk(blockMap, inodeMap, table, image);
    EmptyVolumeIsSound(d.Value(), root);
  }

  lemma OneLess(x: nat, modulus: nat)
    requires 0 < x < modulus
    ensures Dec(x, modulus) == x - 1
  {
    ModUnique(x + modulus - 1, modulus, 1, x - 1);
  }
}
