/** Volumes as the tools find them: the root directory is inode 2, lists itself and its parent, and
    has one block, whose records are known. */
module RootVolumes {
  import opened Prelude
  import opened ResourceMap
  import opened Inodes
  import opened DirBlock
  import opened Directory
  import opened Records
  import opened Volume
  import opened DirectoryTools
  import opened Soundness
  import opened SoundTools
  import opened Growth
  import opened Tidiness

  const ROOT := 2

  /** The root has block 1, which consists of these records. */
  ghost predicate Root(fs: Fs, rs: seq<Rec>) {
    |fs.inodes| >= ROOT && |fs.disk| >= 2 && Blocks(fs, ROOT) == [1] && Chain(fs.disk[1], 0, rs)
  }

  lemma RootListed(fs: Fs, rs: seq<Rec>)
    requires Root(fs, rs)
    ensures AllTiled(fs.disk, [1]) && Listed(fs, ROOT) == EntriesOf(rs)
  {
    hide Direct, Chain;
    ChainTiles(fs.disk[1], 0, rs);
    OneBlock(fs.disk, 1);
  }

  lemma OneBlock(disk: seq<Block>, n: nat)
    requires n < |disk| && Tiled(disk[n], 0)
    ensures AllTiled(disk, [n]) && Listing(disk, [n]) == Live(disk[n], 0)
  {
    hide Tiled, Live;
    assert [n][1..] == [] && Listing(disk, []) == [];
  }

  lemma RootFound(fs: Fs, rs: seq<Rec>, name: seq<Byte>)
    requires Root(fs, rs) && DirOk(fs, ROOT)
    ensures match NamedAt(rs, name)
      case None => FindEntry(fs.disk, Blocks(fs, ROOT), name) == None && name !in Names(fs, ROOT)
      case Some(k) => k < |rs| && FindEntry(fs.disk, Blocks(fs, ROOT), name) == Some(Place(1, StartOf(0, rs, k)))
  {
    hide Direct, Chain, AsMap, UniqueNames, DirBlock.Find, Tiled, Listing;
    ChainNamed(fs.disk[1], 0, rs, name);
    assert [1][1..] == [];
    FindIsLookup(fs.disk, Blocks(fs, ROOT), name);
  }

  lemma RootSpot(fs: Fs, rs: seq<Rec>, need: nat)
    requires Root(fs, rs) && DirOk(fs, ROOT)
    ensures match RoomAt(rs, need)
      case None => SpotIn(fs, ROOT, need) == None
      case Some(k) => k < |rs| && SpotIn(fs, ROOT, need) == Some(Place(1, StartOf(0, rs, k)))
  {
    hide Direct, Chain, UniqueNames, FirstFit, Tiled, Listing;
    ChainRoom(fs.disk[1], 0, rs, need);
    assert [1][1..] == [];
  }

  /** A new name for which there is room, or else a block. */
  lemma RootOutcome(fs: Fs, rs: seq<Rec>, link: nat, name: seq<Byte>)
    requires Root(fs, rs) && DirOk(fs, ROOT) && |name| <= NAME_MAX && NamedAt(rs, name).None?
    requires RoomAt(rs, Need(name)).Some? || fs.blockMap.used != Numbers(|fs.disk|)
    ensures CreateOutcome(fs, ROOT, link, name) == if link == 0 && fs.inodeMap.used == Numbers(|fs.inodes|) then Exit else Ok
  {
    hide Direct, Chain, DirOk, AsMap, RoomAt, NamedAt, Names, SpotIn, Numbers, FindEntry;
    RootFound(fs, rs, name);
    RootSpot(fs, rs, Need(name));
    RootBlocks(fs, rs);
  }

  lemma RootBlocks(fs: Fs, rs: seq<Rec>)
    requires Root(fs, rs)
    ensures |Blocks(fs, ROOT)| == 1
  {}

  /** Where the new entry comes to lie, and what stays. */
  lemma RootJoins(fs: Fs, fs': Fs, dirs: seq<nat>, blk: nat, link: nat, e: Entry, rs: seq<Rec>, k: nat)
    requires Creates(fs, fs', dirs, ROOT, blk, link, e) && Root(fs, rs) && RoomAt(rs, Need(e.name)) == Some(k)
    ensures k < |rs| && Storable(e) && RecordOk(fs.disk[1], StartOf(0, rs, k)) && Fits(fs.disk[1], StartOf(0, rs, k), Need(e.name))
    ensures Used(rs[k]) <= rs[k].len && Root(fs', Joined(rs, k, e)) && fs'.disk[1] == AddAt(fs.disk[1], StartOf(0, rs, k), e)
    ensures fs'.blockMap == fs.blockMap && |fs'.disk| == |fs.disk| && |fs'.inodes| == |fs.inodes|
    ensures link != 0 ==> fs'.inodeMap == fs.inodeMap
  {
    hide Sound, Direct, Chain, DirOk, Compact, AddAt, Joined, AsMap, Linkable, Names, RoomAt, Numbers, Need;
    RootSpot(fs, rs, Need(e.name));
    RoomIsFirst(rs, Need(e.name));
    ChainJoins(fs.disk[1], rs, k, e);
    CreatesGood(fs, fs', dirs, ROOT, blk, link, e);
    assert fs'.inodes[ROOT - 1].ptr == fs.inodes[ROOT - 1].ptr;
  }

  /** A new regular file takes an inode that was free; nothing else about the inodes changes. */
  lemma NewFile(fs: Fs, fs': Fs, dirs: seq<nat>, blk: nat, e: Entry)
    requires Creates(fs, fs', dirs, ROOT, blk, 0, e) && SpotIn(fs, ROOT, Need(e.name)).Some?
    ensures 1 <= e.inode <= |fs.inodes| == |fs'.inodes| && e.inode !in fs.inodeMap.used
    ensures fs'.inodeMap.used == fs.inodeMap.used + {e.inode}
    ensures fs'.inodes[e.inode - 1] == OneMoreLink(BlankInode(e.kind))
    ensures forall i :: 0 <= i < |fs.inodes| && i != e.inode - 1 ==> fs'.inodes[i] == fs.inodes[i]
  {
    hide Sound, Direct, DirOk, Compact, AddAt, AsMap, Names, Need, OneMoreLink, BlankInode, PutAt, Spot;
  }

  /** cp's new entry in the root, where there is room for it. */
  method FileInRoot(d: Disk, name: seq<Byte>, ghost rs: seq<Rec>, ghost k: nat) returns (ino: nat)
    requires d.Valid() && Sound(d.Value(), [ROOT]) && Root(d.Value(), rs) && d.Value().inodeMap.used != Numbers(|d.Value().inodes|)
    requires |name| <= NAME_MAX && NamedAt(rs, name).None? && RoomAt(rs, Need(name)) == Some(k)
    modifies d.Repr()
    ensures d.Valid() && Sound(d.Value(), [ROOT])
    ensures var fs, fs', e := old(d.Value()), d.Value(), Entry(name, ino, FT_REG_FILE);
      && k < |rs| && Used(rs[k]) <= rs[k].len && Root(fs', Joined(rs, k, e))
      && Storable(e) && RecordOk(fs.disk[1], StartOf(0, rs, k)) && Fits(fs.disk[1], StartOf(0, rs, k), Need(e.name))
      && fs'.disk[1] == AddAt(fs.disk[1], StartOf(0, rs, k), e)
      && fs'.blockMap == fs.blockMap && |fs'.disk| == |fs.disk| && |fs'.inodes| == |fs.inodes|
      && 1 <= ino <= |fs.inodes| && ino !in fs.inodeMap.used && fs'.inodeMap.used == fs.inodeMap.used + {ino}
      && fs'.inodes[ino - 1] == OneMoreLink(BlankInode(FT_REG_FILE))
      && forall i :: 0 <= i < |fs.inodes| && i != ino - 1 ==> fs'.inodes[i] == fs.inodes[i]
  {
    hide Sound, Root, DirOk, Creates, Exited, AddAt, Joined, NamedAt, RoomAt, OneMoreLink, BlankInode, Names, AsMap, Need, Linkable, CreateOutcome;
    ghost var fs := d.Value();
    var r;
    ghost var blk;
    InUse(fs, [ROOT], ROOT);
    RootOutcome(fs, rs, 0, name);
    NoLink(fs, [ROOT]);
    r, ino, blk := EnterName(d, [ROOT], ROOT, 0, name, FT_REG_FILE);
    ghost var e := Entry(name, ino, FT_REG_FILE);
    RootSpot(fs, rs, Need(name));
    RootJoins(fs, d.Value(), [ROOT], blk, 0, e, rs, k);
    NewFile(fs, d.Value(), [ROOT], blk, e);
    CreateKeepsSound(fs, d.Value(), [ROOT], ROOT, blk, 0, e);
  }

  lemma NoLink(fs: Fs, dirs: seq<nat>)
    ensures Linkable(fs, dirs, 0, FT_REG_FILE)
  {}

  lemma FirstIsLeast(m: Map, num: nat, count: nat)
    requires LeastFree(m, num, count) && 1 !in m.used
    ensures num == 1
  {
    var below := Numbers(num - 1);
    assert 1 in below <==> num > 1;
  }

  /** The root's first name takes a block, the first there is. */
  lemma RootBegins(fs: Fs, fs': Fs, blk: nat)
    requires Unused(fs, ROOT) && |fs.disk| >= 2 && Creates(fs, fs', [ROOT], ROOT, blk, ROOT, Self(ROOT))
    ensures Root(fs', [Rec(Self(ROOT), BLOCK_SIZE)]) && fs'.disk[1] == FirstEntry(Self(ROOT))
    ensures fs'.blockMap.used == {1, |fs.disk|} && fs'.inodeMap.used == {ROOT} && fs'.inodes[ROOT - 1].links == 1
    ensures |fs'.disk| == |fs.disk| && |fs'.inodes| == |fs.inodes|
  {
    hide Sound, Chain, FirstEntry, AsMap, Compact, Linkable;
    BlankRoot(fs, ROOT);
    assert Direct(fs.inodes[ROOT - 1].ptr, 0) == [];
    BlocksAfterEntry(fs, ROOT, blk, Self(ROOT));
    ChainFirst(Self(ROOT));
    FirstIsLeast(fs.blockMap, blk, |fs.disk|);
  }

  /** The root as mke2fs leaves it: "." and "..", both itself, in block 1. */
  function RootRecords(): seq<Rec> {
    [Rec(Self(ROOT), 12), Rec(Parent(ROOT), 1012)]
  }

  lemma RootGoesOn()
    ensures RoomAt([Rec(Self(ROOT), BLOCK_SIZE)], Need(Parent(ROOT).name)) == Some(0)
    ensures NamedAt([Rec(Self(ROOT), BLOCK_SIZE)], Parent(ROOT).name).None?
    ensures Used(Rec(Self(ROOT), BLOCK_SIZE)) == 12
    ensures Joined([Rec(Self(ROOT), BLOCK_SIZE)], 0, Parent(ROOT)) == RootRecords()
    ensures StartOf(0, [Rec(Self(ROOT), BLOCK_SIZE)], 0) == 0
  {}

  lemma RootLinkable(fs: Fs)
    requires Sound(fs, [ROOT]) && |fs.inodes| >= ROOT && fs.inodes[ROOT - 1].links + 1 < U16
    ensures Linkable(fs, [ROOT], ROOT, FT_DIR)
  {
    DirectoryInUse(fs, [ROOT], ROOT);
  }

  /** From b on there are zeros. */
  predicate ZeroFrom(b: Block, z: nat) {
    forall i :: z <= i < BLOCK_SIZE ==> b[i] == 0
  }

  lemma AddedZero(b: Block, q: nat, e: Entry, z: nat)
    requires RecordOk(b, q) && Ino(b, q) != 0 && Storable(e) && Fits(b, q, Need(e.name)) && ZeroFrom(b, z)
    requires z >= q + 6 && z >= q + Actual(b, q) + HEADER + |e.name|
    ensures ZeroFrom(AddAt(b, q, e), z)
  {
    hide Ino, RecLen, NameLen, EntryAt, WriteEntry, PutRecLen, Actual;
    var a := Actual(b, q);
    PutRecLenElsewhere(b, q, a);
    EntryWritten(PutRecLen(b, q, a), q + a, e, RecLen(b, q) - a);
  }

  lemma SelfZero()
    ensures Storable(Self(ROOT)) && ZeroFrom(FirstEntry(Self(ROOT)), 9)
  {}

  lemma RootUnused(fs: Fs)
    requires Unused(fs, ROOT) && |fs.disk| >= 2 && Sound(fs, [ROOT])
    ensures |fs.inodes| >= ROOT && fs.inodes[ROOT - 1].links == 0 && DirOk(fs, ROOT)
    ensures CreateOutcome(fs, ROOT, ROOT, [DOT]) == Ok
    ensures fs.inodeMap.used == {ROOT}
  {
    hide Sound, CreateOutcome;
    BlankRoot(fs, ROOT);
    assert Direct(fs.inodes[ROOT - 1].ptr, 0) == [];
    NoNames();
    FirstName(fs, ROOT, ROOT, [DOT]);
    assert 1 in Numbers(|fs.disk|) && 1 !in fs.blockMap.used;
  }

  /** Bytes of the block after "..". */
  lemma ParentZero(b: Block)
    requires b == FirstEntry(Self(ROOT))
    ensures Storable(Parent(ROOT)) && RecordOk(b, 0) && Fits(b, 0, Need(Parent(ROOT).name)) ==> ZeroFrom(AddAt(b, 0, Parent(ROOT)), 22)
  {
    hide WriteEntry;
    SelfZero();
    EntryWritten(ZeroBlock(), 0, Self(ROOT), BLOCK_SIZE);
    if Storable(Parent(ROOT)) && RecordOk(b, 0) && Fits(b, 0, Need(Parent(ROOT).name)) {
      AddedZero(b, 0, Parent(ROOT), 22);
    }
  }

  /** A formatted volume. */
  method FormattedRoot(blocks: nat, inodes: nat) returns (d: Disk)
    requires 2 <= blocks < U16 && ROOT <= inodes < U16
    ensures d.Valid() && fresh(d) && fresh(d.Repr())
    ensures Sound(d.Value(), [ROOT]) && Root(d.Value(), RootRecords()) && ZeroFrom(d.Value().disk[1], 22)
    ensures |d.Value().disk| == blocks && |d.Value().inodes| == inodes
    ensures d.Value().blockMap.used == {1, blocks} && d.Value().inodeMap.used == {ROOT}
    ensures Tidy(d.Value(), [ROOT]) && AllGrown(d.Value(), [ROOT])
  {
    hide Tidy, AllGrown, Sound, Root, DirOk, Creates, Exited, AddAt, Joined, OneMoreLink, BlankInode, AsMap, Need, Linkable, CreateOutcome, Unused, Compact,
         FirstEntry, RootRecords, ZeroFrom, RoomAt, NamedAt, Names, SpotIn, Direct;
    d := BlankDisk(blocks, inodes, ROOT);
    ghost var fs := d.Value();
    RootUnused(fs);
    RootLinkable(fs);
    SelfZero();
    var r, ino;
    ghost var blk;
    r, ino, blk := EnterName(d, [ROOT], ROOT, ROOT, [DOT], FT_DIR);
    ghost var fs1 := d.Value();
    RootBegins(fs, fs1, blk);
    NamedAgain(fs, fs1, [ROOT], ROOT, blk, Self(ROOT));
    EmptyVolumeIsTidy(fs, ROOT);
    DirectoryNamedAgain(fs, fs1, [ROOT], ROOT, blk, Self(ROOT));
    RootLinkable(fs1);
    RootGoesOn();
    RootOutcome(fs1, [Rec(Self(ROOT), BLOCK_SIZE)], ROOT, [DOT, DOT]);
    r, ino, blk := EnterName(d, [ROOT], ROOT, ROOT, [DOT, DOT], FT_DIR);
    RootJoins(fs1, d.Value(), [ROOT], blk, ROOT, Parent(ROOT), [Rec(Self(ROOT), BLOCK_SIZE)], 0);
    ParentZero(fs1.disk[1]);
    NamedAgain(fs1, d.Value(), [ROOT], ROOT, blk, Parent(ROOT));
    DirectoryNamedAgain(fs1, d.Value(), [ROOT], ROOT, blk, Parent(ROOT));
    TidyIsGrown(d.Value(), [ROOT]);
  }

  lemma TidyIsGrown(fs: Fs, dirs: seq<nat>)
    requires Tidy(fs, dirs)
    ensures AllGrown(fs, dirs)
  {}

  // ---------- deleting from the root ----------

  lemma RootDeletes(fs: Fs, rs: seq<Rec>, name: seq<Byte>, k: nat)
    requires Sound(fs, [ROOT]) && Root(fs, rs) && NamedAt(rs, name) == Some(k)
    requires k < |rs| && rs[k].e.kind != FT_DIR
    ensures Deletes(fs, [ROOT], ROOT, name, Place(1, StartOf(0, rs, k)))
    ensures EntryIn(fs, ROOT, name, Place(1, StartOf(0, rs, k))) == rs[k].e
  {
    hide Sound, Direct, Chain, DirOk, FindEntry, NamedAt, UniqueNames, Head, RecLen, EntryAt, Ino, Deletes, Deletable, DeleteOutcome;
    InUse(fs, [ROOT], ROOT);
    RootFound(fs, rs, name);
    ChainFrom(fs.disk[1], 0, rs, k);
    ChainHead(fs.disk[1], StartOf(0, rs, k), rs[k..]);
    FilesAreDeleted(fs, [ROOT], ROOT, name, Place(1, StartOf(0, rs, k)));
  }

  /** The root's records after a deletion from it. */
  lemma RootSwallows(fs: Fs, rs: seq<Rec>, name: seq<Byte>, k: nat, now: nat)
    requires Sound(fs, [ROOT]) && Root(fs, rs) && NamedAt(rs, name) == Some(k) && 0 < k < |rs| && rs[k].e.kind != FT_DIR
    ensures Deletable(fs, 1, StartOf(0, rs, k)) && DeleteOutcome(fs, 1, StartOf(0, rs, k)) == Ok && StartOf(0, rs, k) > 0
    ensures var fs' := AfterDelete(fs, 1, StartOf(0, rs, k), now);
      && Sound(fs', [ROOT]) && Root(fs', Swallowed(rs, k)) && fs'.disk[1] == HideAt(fs.disk[1], StartOf(0, rs, k))
      && |fs'.inodes| == |fs.inodes| && fs'.inodeMap.used <= fs.inodeMap.used
      && 1 <= rs[k].e.inode <= |fs.inodes|
      && forall i :: 0 <= i < |fs.inodes| && i != rs[k].e.inode - 1 ==> fs'.inodes[i] == fs.inodes[i]
  {
    hide Sound, Direct, Chain, DirOk, NamedAt, Deletes, Swallowed, HideAt, AfterUnlink, EntryIn, Names, SameListing, Found, WithoutEntry, Unlinkable;
    var q := StartOf(0, rs, k);
    RootDeletes(fs, rs, name, k);
    DeleteKeepsSound(fs, [ROOT], ROOT, name, Place(1, q), now);
    DeleteInodes(fs, [ROOT], ROOT, name, Place(1, q), now);
    ChainSwallows(fs.disk[1], rs, k);
    assert Blocks(AfterDelete(fs, 1, q, now), ROOT) == Blocks(fs, ROOT);
  }

  lemma DeleteInodes(fs: Fs, dirs: seq<nat>, dir: nat, name: seq<Byte>, at: Place, now: nat)
    requires Deletes(fs, dirs, dir, name, at)
    ensures Deletable(fs, at.block, at.pos) && DeleteOutcome(fs, at.block, at.pos) == Ok
    ensures var fs', num := AfterDelete(fs, at.block, at.pos, now), EntryIn(fs, dir, name, at).inode;
      && |fs'.inodes| == |fs.inodes| && fs'.inodeMap.used <= fs.inodeMap.used && 1 <= num <= |fs.inodes|
      && (forall i :: 0 <= i < |fs.inodes| && i != num - 1 ==> fs'.inodes[i] == fs.inodes[i])
      && fs'.inodes[num - 1].ptr == fs.inodes[num - 1].ptr
      && (fs'.disk == fs.disk[at.block := HideAt(fs.disk[at.block], at.pos)])
  {
    hide Direct, AllTiled, UniqueNames, Listing, Owned, Accounted, LinksCounted, DirsGood, AllDirsOk, FindEntry, EntryIn, PointersOk, HideAt,
         AfterUnlink, Unlinkable, OnChain, Tiled, DeleteOutcome, Listed;
    DeleteStates(fs, dirs, dir, name, at, now);
    UnlinkStep(fs, EntryIn(fs, dir, name, at).inode, now);
  }

  /** rm of a name in the root. */
  method RemoveFromRoot(d: Disk, name: seq<Byte>, now: nat, ghost rs: seq<Rec>, ghost k: nat) returns (r: Outcome)
    requires d.Valid() && Sound(d.Value(), [ROOT]) && Root(d.Value(), rs) && NamedAt(rs, name) == Some(k)
    requires 0 < k < |rs| && rs[k].e.kind != FT_DIR && |name| <= NAME_MAX
    modifies d.Repr()
    ensures r == Ok && d.Valid() && Sound(d.Value(), [ROOT])
    ensures var fs, q := old(d.Value()), StartOf(0, rs, k);
      && Deletable(fs, 1, q) && DeleteOutcome(fs, 1, q) == Ok && d.Value() == AfterDelete(fs, 1, q, now)
      && q > 0 && Root(d.Value(), Swallowed(rs, k)) && d.Value().disk[1] == HideAt(fs.disk[1], q)
      && |d.Value().inodes| == |fs.inodes| && d.Value().inodeMap.used <= fs.inodeMap.used && 1 <= rs[k].e.inode <= |fs.inodes|
      && forall i :: 0 <= i < |fs.inodes| && i != rs[k].e.inode - 1 ==> d.Value().inodes[i] == fs.inodes[i]
  {
    hide Sound, Root, DirOk, Deletes, NamedAt, Swallowed, HideAt, AfterDelete, DeleteOutcome, Deletable, NameLinked, FindEntry, EntryIn;
    ghost var fs := d.Value();
    InUse(fs, [ROOT], ROOT);
    RootFound(fs, rs, name);
    RootDeletes(fs, rs, name, k);
    NamesAreLinked(fs, [ROOT], ROOT, name);
    RootSwallows(fs, rs, name, k, now);
    r := DeleteEntry(d, ROOT, name, now);
  }
}
