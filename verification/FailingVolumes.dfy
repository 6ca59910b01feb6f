/** Volumes on which the tools do not do what they are for. Each but the last is made by the tools
    themselves, from a formatted one. */
module FailingVolumes {
  import opened Prelude
  import opened ResourceMap
  import opened Inodes
  import opened DirBlock
  import opened Directory
  import opened Records
  import opened Volume
  import opened DirectoryTools
  import opened Restore
  import opened Unhiding
  import opened Soundness
  import opened SoundTools
  import opened SoundRestore
  import opened Exits
  import opened RootVolumes
  import opened RoundTrip

  const A: seq<Byte> := [0x61]
  const B: seq<Byte> := [0x62]
  const C: seq<Byte> := [0x63]
  const D: seq<Byte> := [0x64]
  const T: seq<Byte> := [0x74]

  function File(name: seq<Byte>, inode: nat): Entry {
    Entry(name, inode, FT_REG_FILE)
  }

  // ---------- the exit in the middle of a split ----------

  /** Slack of zeros does not read as a record. */
  lemma ZeroSlack(b: Block, rs: seq<Rec>, k: nat, need: nat)
    requires Chain(b, 0, rs) && k < |rs| && need >= HEADER && need + Used(rs[k]) <= rs[k].len
    requires StartOf(0, rs, k) <= BLOCK_SIZE && ZeroFrom(b, StartOf(0, rs, k) + Used(rs[k]))
    ensures var q := StartOf(0, rs, k); RecordOk(b, q) && Ino(b, q) != 0 && !Tiled(b, q + Actual(b, q))
  {
    hide Ino, Head, EntryAt, Chain, Actual, Used;
    var q := StartOf(0, rs, k);
    ChainFrom(b, 0, rs, k);
    ChainHead(b, q, rs[k..]);
    assert RecLen(b, q + Actual(b, q)) == 0;
  }

  lemma {:induction false} SplitOverZeros(fs: Fs, rs: seq<Rec>, k: nat, name: seq<Byte>)
    requires Root(fs, rs) && DirOk(fs, ROOT) && |name| <= NAME_MAX && RoomAt(rs, Need(name)) == Some(k)
    requires k < |rs| && ZeroFrom(fs.disk[1], StartOf(0, rs, k) + Used(rs[k]))
    ensures !CleanExit(fs, ROOT, name)
  {
    hide Direct, DirOk, RoomAt, UniqueNames, Head, Listing, RestListing, Tiled, Chain, Ino, Actual, RecLen, StartOf, SpotIn, OnChain, ZeroFrom, RecordOk, Blocks;
    RootSpot(fs, rs, Need(name));
    RoomIsFirst(rs, Need(name));
    RootChain(fs, rs, k);
    ZeroSlack(fs.disk[1], rs, k, Need(name));
  }

  lemma RootChain(fs: Fs, rs: seq<Rec>, k: nat)
    requires Root(fs, rs) && k <= |rs|
    ensures |fs.disk| >= 2 && Chain(fs.disk[1], 0, rs) && StartOf(0, rs, k) <= BLOCK_SIZE
  {
    hide Chain, StartOf, Direct;
    ChainFrom(fs.disk[1], 0, rs, k);
  }

  /** Three records, the last with the slack. */
  lemma ThreeRecords(e: Entry, name: seq<Byte>)
    requires |e.name| <= NAME_MAX && e.name != name && name != [DOT] && name != [DOT, DOT]
    ensures var rs := [Rec(Self(ROOT), 12), Rec(Parent(ROOT), 12), Rec(e, 1000)];
      && NamedAt(rs, name).None? && StartOf(0, rs, 2) == 24
      && RoomAt(rs, Need(name)) == if Need(name) + Need(e.name) <= 1000 then Some(2) else None
  {
    hide NamedAt, RoomAt, StartOf, Padded;
    var rs := [Rec(Self(ROOT), 12), Rec(Parent(ROOT), 12), Rec(e, 1000)];
    NamedIsFirst(rs, name);
    RoomIsFirst(rs, Need(name));
    ThreeStarts(rs);
    assert Used(rs[0]) == 12 && Used(rs[1]) == 12 && Used(rs[2]) == Need(e.name);
  }

  lemma ThreeStarts(rs: seq<Rec>)
    requires |rs| >= 2
    ensures StartOf(0, rs, 0) == 0 && StartOf(0, rs, 1) == rs[0].len && StartOf(0, rs, 2) == rs[0].len + rs[1].len
  {
    StartNext(0, rs, 1);
    StartNext(0, rs, 2);
  }

  /** A first file in the root. */
  lemma RootTakes(e: Entry)
    requires |e.name| <= NAME_MAX && e.name != [DOT] && e.name != [DOT, DOT]
    ensures var rs := RootRecords();
      && RoomAt(rs, Need(e.name)) == Some(1) && NamedAt(rs, e.name).None? && StartOf(0, rs, 1) == 12 && Used(rs[1]) == 12
      && Joined(rs, 1, e) == [Rec(Self(ROOT), 12), Rec(Parent(ROOT), 12), Rec(e, 1000)]
  {
    hide NamedAt, RoomAt, StartOf, Padded;
    var rs := RootRecords();
    NamedIsFirst(rs, e.name);
    RoomIsFirst(rs, Need(e.name));
    ThreeStarts(rs);
    assert Used(rs[0]) == 12 && Used(rs[1]) == 12;
  }

  lemma OneFile(ino: nat)
    ensures var rs := RootRecords();
      && RoomAt(rs, Need(A)) == Some(1) && NamedAt(rs, A).None? && StartOf(0, rs, 1) == 12 && Used(rs[1]) == 12
      && var rs' := Joined(rs, 1, File(A, ino));
      && |rs'| == 3 && RoomAt(rs', Need(B)) == Some(2) && NamedAt(rs', B).None? && StartOf(0, rs', 2) == 24 && Used(rs'[2]) == 12
  {
    hide RootRecords, Joined, RoomAt, NamedAt, StartOf;
    assert A[0] != B[0];
    RootTakes(File(A, ino));
    ThreeRecords(File(A, ino), B);
  }

  /** The root's only file has taken the last inode; then one more name is asked for. */
  method SplitBreaks() returns (d: Disk, r: Outcome)
    ensures r == Exit && d.Valid() && !DirOk(d.Value(), ROOT)
  {
    hide DirOk, Sound, Exited, AsMap, Creates, Root, RootRecords, Joined, AddAt, NamedAt, RoomAt, ZeroFrom, CreateOutcome, CleanExit, OneMoreLink,
         BlankInode, Linkable, Chain, RecordOk, Fits, StartOf, Used, Need, Compact, Disk.Valid, Disk.Value;
    d := FormattedRoot(8, 2);
    ghost var fs0 := d.Value();
    OneFile(1);
    TwoNumbers();
    var ino := FileInRoot(d, A, RootRecords(), 1);
    ghost var fs := d.Value();
    ghost var rs := Joined(RootRecords(), 1, File(A, ino));
    OneFile(ino);
    RootChain(fs0, RootRecords(), 1);
    AfterParent(fs0.disk[1], ino);
    InUse(fs, [ROOT], ROOT);
    InRange(fs, ROOT);
    RootOutcome(fs, rs, 0, B);
    NoLink(fs, [ROOT]);
    SplitOverZeros(fs, rs, 2, B);
    ghost var blk;
    r, ino, blk := EnterName(d, [ROOT], ROOT, 0, B, FT_REG_FILE);
    ExitKeepsDirectoryExactly(fs, d.Value(), ROOT, 0, B, blk);
  }

  lemma TwoNumbers()
    ensures {ROOT} != Numbers(2) && forall i: nat :: 1 <= i <= 2 && i != ROOT ==> {ROOT} + {i} == Numbers(2)
  {
    assert 1 in Numbers(2);
  }

  /** Behind a one-letter name that has joined "..", zeros go on. */
  lemma AfterParent(b: Block, ino: nat)
    requires Chain(b, 0, RootRecords()) && ZeroFrom(b, 22) && RecordOk(b, 12)
    requires Storable(File(A, ino)) && Fits(b, 12, Need(A))
    ensures ZeroFrom(AddAt(b, 12, File(A, ino)), 36)
  {
    hide Ino, RecLen, Head, EntryAt, NameLen, AddAt, Actual;
    ThreeStarts(RootRecords());
    ChainFrom(b, 0, RootRecords(), 1);
    ChainHead(b, 12, RootRecords()[1..]);
    AddedZero(b, 12, File(A, ino), 33);
  }

  // ---------- mkdir on a full disk ----------

  lemma {:induction false} RootLinks(fs: Fs)
    requires Sound(fs, [ROOT]) && Root(fs, RootRecords())
    ensures fs.inodes[ROOT - 1].links == 2
  {
    hide Owned, Accounted, DirsGood, Listed, DirOk, Direct, Chain, AllDirsOk;
    RootListed(fs, RootRecords());
    var l := EntriesOf(RootRecords());
    assert RootRecords()[1..] == [Rec(Parent(ROOT), 1012)] && RootRecords()[1..][1..] == [];
    assert EntriesOf(RootRecords()[1..]) == [Parent(ROOT)];
    assert l == [Self(ROOT), Parent(ROOT)] && l[1..] == [Parent(ROOT)] && l[1..][1..] == [];
    assert Count(l[1..], ROOT) == 1;
    assert [ROOT][1..] == [];
    assert Total(fs, [ROOT], ROOT) == Count(l, ROOT);
  }

  /** A formatted volume of one block: mkdir lists the new directory and has no block for its names. */
  method MkdirBreaks() returns (d: Disk, r: Outcome, ino: nat)
    ensures r == Exit && d.Valid() && Sound(d.Value(), [ROOT, ino])
    ensures DirOk(d.Value(), ROOT) && A in Names(d.Value(), ROOT) && Names(d.Value(), ROOT)[A] == Entry(A, ino, FT_DIR)
    ensures DirOk(d.Value(), ino) && Names(d.Value(), ino) == map[]
  {
    hide DirOk, Sound, Exited, Made, Root, RootRecords, NamedAt, RoomAt, ZeroFrom, CreateOutcome, SpotIn, Names, Disk.Valid, Disk.Value;
    d := FormattedRoot(2, 3);
    ghost var fs := d.Value();
    InUse(fs, [ROOT], ROOT);
    InRange(fs, ROOT);
    RootLinks(fs);
    RootTakes(Entry(A, 1, FT_DIR));
    RootSpot(fs, RootRecords(), Need(A));
    SomeFree(fs);
    RootOutcome(fs, RootRecords(), 0, A);
    FullDisk(fs.blockMap.used);
    ghost var blk;
    r, ino, blk := MakeDirectory(d, [ROOT], ROOT, A);
    assert [ROOT] + [ino] == [ROOT, ino];
  }

  lemma SomeFree(fs: Fs)
    requires |fs.inodes| == 3 && fs.inodeMap.used == {ROOT}
    ensures fs.inodeMap.used != Numbers(|fs.inodes|)
  {
    assert 1 in Numbers(3);
  }

  lemma FullDisk(used: set<nat>)
    requires used == {1, 2}
    ensures |used| == 2
  {}

  // ---------- a root with no room left ----------

  /** A name as long as names can be. */
  function Long(x: Byte): (name: seq<Byte>)
    ensures |name| == NAME_MAX && forall i :: 0 <= i < NAME_MAX ==> name[i] == x
  {
    seq(NAME_MAX, i => x)
  }

  lemma LongNames(x: Byte)
    ensures Need(Long(x)) == 264 && Long(x) != [DOT] && Long(x) != [DOT, DOT]
    ensures forall y: Byte :: y != x ==> Long(y) != Long(x)
  {
    forall y: Byte | y != x ensures Long(y) != Long(x) {
      assert Long(y)[0] == y && Long(x)[0] == x;
    }
  }

  function Three(i: nat): seq<Rec> {
    [Rec(Self(ROOT), 12), Rec(Parent(ROOT), 12), Rec(File(Long(0x61), i), 1000)]
  }

  function Four(i: nat, j: nat): seq<Rec> {
    [Rec(Self(ROOT), 12), Rec(Parent(ROOT), 12), Rec(File(Long(0x61), i), 264), Rec(File(Long(0x62), j), 736)]
  }

  function Five(i: nat, j: nat, k: nat): seq<Rec> {
    [Rec(Self(ROOT), 12), Rec(Parent(ROOT), 12), Rec(File(Long(0x61), i), 264), Rec(File(Long(0x62), j), 264), Rec(File(Long(0x63), k), 472)]
  }

  lemma SecondFits(i: nat, j: nat)
    ensures RoomAt(Three(i), Need(Long(0x62))) == Some(2) && NamedAt(Three(i), Long(0x62)).None? && Used(Three(i)[2]) == 264
    ensures Joined(Three(i), 2, File(Long(0x62), j)) == Four(i, j)
  {
    hide NamedAt, RoomAt, Long;
    LongNames(0x61);
    LongNames(0x62);
    NamedIsFirst(Three(i), Long(0x62));
    RoomIsFirst(Three(i), Need(Long(0x62)));
    assert Used(Three(i)[0]) == 12 && Used(Three(i)[1]) == 12 && Used(Three(i)[2]) == 264;
  }

  lemma ThirdFits(i: nat, j: nat, k: nat)
    ensures RoomAt(Four(i, j), Need(Long(0x63))) == Some(3) && NamedAt(Four(i, j), Long(0x63)).None? && Used(Four(i, j)[3]) == 264
    ensures Joined(Four(i, j), 3, File(Long(0x63), k)) == Five(i, j, k)
  {
    hide NamedAt, RoomAt, Long;
    LongNames(0x61);
    LongNames(0x62);
    LongNames(0x63);
    NamedIsFirst(Four(i, j), Long(0x63));
    RoomIsFirst(Four(i, j), Need(Long(0x63)));
    assert Used(Four(i, j)[0]) == 12 && Used(Four(i, j)[1]) == 12 && Used(Four(i, j)[2]) == 264 && Used(Four(i, j)[3]) == 264;
  }

  lemma FourthDoesNot(i: nat, j: nat, k: nat)
    ensures RoomAt(Five(i, j, k), Need(Long(0x64))).None? && NamedAt(Five(i, j, k), Long(0x64)).None?
  {
    hide NamedAt, RoomAt, Long;
    LongNames(0x61);
    LongNames(0x62);
    LongNames(0x63);
    LongNames(0x64);
    NamedIsFirst(Five(i, j, k), Long(0x64));
    RoomIsFirst(Five(i, j, k), Need(Long(0x64)));
    assert Used(Five(i, j, k)[0]) == 12 && Used(Five(i, j, k)[1]) == 12 && Used(Five(i, j, k)[2]) == 264;
    assert Used(Five(i, j, k)[3]) == 264 && Used(Five(i, j, k)[4]) == 264;
  }

  lemma NotAll(used: set<nat>, count: nat)
    requires |used| < count
    ensures used != Numbers(count)
  {
    NumbersSize(count);
  }

  /** Three files with the longest names: the root's block has no room for a fourth. */
  method FilledRoot(inodes: nat) returns (d: Disk, ghost rs: seq<Rec>)
    requires 4 <= inodes < U16
    ensures d.Valid() && fresh(d) && fresh(d.Repr()) && Sound(d.Value(), [ROOT]) && Root(d.Value(), rs)
    ensures RoomAt(rs, Need(Long(0x64))).None? && NamedAt(rs, Long(0x64)).None?
    ensures |d.Value().disk| == 8 && |d.Value().inodes| == inodes
    ensures d.Value().blockMap.used == {1, 8} && |d.Value().inodeMap.used| == 4
  {
    hide Sound, Root, RootRecords, Joined, AddAt, NamedAt, RoomAt, ZeroFrom, OneMoreLink, BlankInode, Chain, RecordOk, Fits, StartOf, Used, Need,
         Disk.Valid, Disk.Value, Three, Four, Five, Long, Numbers;
    d := FormattedRoot(8, inodes);
    NotAll(d.Value().inodeMap.used, inodes);
    LongNames(0x61);
    RootTakes(File(Long(0x61), 1));
    var i := FileInRoot(d, Long(0x61), RootRecords(), 1);
    RootTakes(File(Long(0x61), i));
    ThreeIs(i);
    NotAll(d.Value().inodeMap.used, inodes);
    SecondFits(i, 1);
    var j := FileInRoot(d, Long(0x62), Three(i), 2);
    SecondFits(i, j);
    NotAll(d.Value().inodeMap.used, inodes);
    ThirdFits(i, j, 1);
    var k := FileInRoot(d, Long(0x63), Four(i, j), 3);
    ThirdFits(i, j, k);
    FourthDoesNot(i, j, k);
    rs := Five(i, j, k);
  }

  lemma ThreeIs(i: nat)
    ensures Three(i) == [Rec(Self(ROOT), 12), Rec(Parent(ROOT), 12), Rec(File(Long(0x61), i), 1000)]
  {}

  // ---------- the exit behind a new block ----------

  /** No room, a free block, and no free inode: the fourth name leaves a block of zeros. */
  method NewBlockBreaks() returns (d: Disk, r: Outcome)
    ensures r == Exit && d.Valid() && !DirOk(d.Value(), ROOT)
  {
    hide DirOk, Sound, Exited, Creates, Root, NamedAt, RoomAt, CreateOutcome, CleanExit, Linkable, Compact, Need, Long, Disk.Valid, Disk.Value,
         Numbers, SpotIn, StartOf, Direct;
    ghost var rs;
    d, rs := FilledRoot(4);
    ghost var fs := d.Value();
    InUse(fs, [ROOT], ROOT);
    InRange(fs, ROOT);
    NoLink(fs, [ROOT]);
    InodesAllUsed(fs);
    NotAll(fs.blockMap.used, 8);
    RootOutcome(fs, rs, 0, Long(0x64));
    RootSpot(fs, rs, Need(Long(0x64)));
    ghost var blk;
    var ino;
    r, ino, blk := EnterName(d, [ROOT], ROOT, 0, Long(0x64), FT_REG_FILE);
    ExitKeepsDirectoryExactly(fs, d.Value(), ROOT, 0, Long(0x64), blk);
    NoSpotIsUnclean(fs, rs, Long(0x64));
  }

  lemma InodesAllUsed(fs: Fs)
    requires Sound(fs, [ROOT]) && |fs.inodeMap.used| == |fs.inodes|
    ensures fs.inodeMap.used == Numbers(|fs.inodes|)
  {
    hide Owned, DirsGood, LinksCounted, AllDirsOk;
    AllUsed(fs.inodeMap.used, |fs.inodes|);
  }

  lemma NoSpotIsUnclean(fs: Fs, rs: seq<Rec>, name: seq<Byte>)
    requires Root(fs, rs) && DirOk(fs, ROOT) && |name| <= NAME_MAX && SpotIn(fs, ROOT, Need(name)).None?
    requires fs.blockMap.used != Numbers(|fs.disk|)
    ensures !CleanExit(fs, ROOT, name)
  {
    hide DirOk, SpotIn, Direct, Chain, Need, Numbers;
  }

  // ---------- the first entry of a block ----------

  lemma NewIsFound(disk: seq<Block>, blk: nat, e: Entry)
    requires 1 < |disk| && blk < |disk| && Tiled(disk[1], 0) && DirBlock.Find(disk[1], 0, e.name).None?
    requires Storable(e) && disk[blk] == FirstEntry(e)
    ensures AllTiled(disk, [1, blk]) && FindEntry(disk, [1, blk], e.name) == Some(Place(blk, 0))
    ensures RecordOk(disk[blk], 0) && EntryAt(disk[blk], 0) == e
  {
    hide Tiled, WriteEntry;
    FirstEntryAlone(e);
    EntryWritten(ZeroBlock(), 0, e, BLOCK_SIZE);
    FirstMatches(disk[blk], e.name);
    assert [1, blk][1..] == [blk];
  }

  lemma FirstMatches(b: Block, name: seq<Byte>)
    requires Tiled(b, 0) && RecordOk(b, 0) && Ino(b, 0) != 0 && EntryAt(b, 0).name == name
    ensures DirBlock.Find(b, 0, name) == Some(0)
  {}

  /** The new name's block is the root's second. */
  lemma SecondBlock(fs: Fs, fs': Fs, rs: seq<Rec>, blk: nat, e: Entry)
    requires Creates(fs, fs', [ROOT], ROOT, blk, 0, e) && Root(fs, rs) && SpotIn(fs, ROOT, Need(e.name)).None?
    ensures |fs'.inodes| == |fs.inodes| && Blocks(fs', ROOT) == [1, blk] && |fs'.disk| == |fs.disk| && 0 < blk < |fs.disk| && Storable(e)
    ensures fs'.disk[blk] == FirstEntry(e) && fs'.disk[1] == fs.disk[1] && DirOk(fs, ROOT) && e.name !in Names(fs, ROOT)
    ensures 1 <= e.inode <= |fs.inodes| && fs'.inodes[e.inode - 1] == OneMoreLink(BlankInode(e.kind))
  {
    hide Sound, Chain, FirstEntry, DirOk, AsMap, Compact, Linkable, Direct, Names;
    CreatesGood(fs, fs', [ROOT], ROOT, blk, 0, e);
    BlocksAfterEntry(fs, ROOT, blk, e);
    assert fs'.inodes[ROOT - 1].ptr == WithEntry(fs, ROOT, blk, e).inodes[ROOT - 1].ptr;
    assert [1] + [blk] == [1, blk];
  }

  /** A name in a block of its own. */
  lemma OwnBlock(fs: Fs, fs': Fs, rs: seq<Rec>, blk: nat, e: Entry)
    requires Creates(fs, fs', [ROOT], ROOT, blk, 0, e) && Root(fs, rs) && RoomAt(rs, Need(e.name)).None? && e.kind != FT_DIR
    ensures Sound(fs', [ROOT]) && DirOk(fs', ROOT)
    ensures Found(fs', ROOT, e.name, Place(blk, 0)) && EntryIn(fs', ROOT, e.name, Place(blk, 0)) == e
    ensures 1 <= e.inode <= |fs'.inodes| && fs'.inodes[e.inode - 1] == OneMoreLink(BlankInode(e.kind))
  {
    hide Sound, Direct, Chain, FirstEntry, DirOk, Tiled, Live, DirBlock.Find, AsMap, Listing, UniqueNames, Compact, RoomAt, FindEntry,
         Creates, RecordOk, EntryAt, OneMoreLink, BlankInode, SpotIn;
    CreateKeepsSound(fs, fs', [ROOT], ROOT, blk, 0, e);
    CreatesOk(fs, fs', [ROOT], ROOT, blk, 0, e);
    RootSpot(fs, rs, Need(e.name));
    SecondBlock(fs, fs', rs, blk, e);
    NotNamed(fs, rs, e.name);
    NewIsFound(fs'.disk, blk, e);
  }

  lemma CreatesOk(fs: Fs, fs': Fs, dirs: seq<nat>, dir: nat, blk: nat, link: nat, e: Entry)
    requires Creates(fs, fs', dirs, dir, blk, link, e)
    ensures DirOk(fs, dir) && Storable(e) && |fs.disk| == |fs'.disk|
  {
    hide Sound, DirOk, Compact, AsMap;
  }

  lemma NotNamed(fs: Fs, rs: seq<Rec>, name: seq<Byte>)
    requires Root(fs, rs) && DirOk(fs, ROOT) && name !in Names(fs, ROOT)
    ensures Tiled(fs.disk[1], 0) && DirBlock.Find(fs.disk[1], 0, name).None?
  {
    hide Direct, Chain, DirBlock.Find, Tiled, AsMap, Listing, UniqueNames;
    RootListed(fs, rs);
    FindIsLookup(fs.disk, [1], name);
  }

  lemma FreshIsOnce(fs: Fs, dir: nat, name: seq<Byte>, at: Place)
    requires Erasable(fs, dir, name, at)
    requires fs.inodes[EntryIn(fs, dir, name, at).inode - 1] == OneMoreLink(BlankInode(FT_REG_FILE))
    ensures Once(fs, dir, name, at)
  {
    hide Erasable, EntryIn;
    ModUnique(1, U16, 0, 1);
  }

  /** The fourth name has a block of its own. Removed at once, with one link and no deletion time,
      it does not come back. */
  method EarlierEntryIsLost(now: nat) returns (d: Disk, r: Outcome, ghost fs: Fs, ghost blk: nat)
    ensures r == Ok && d.Valid() && Deletes(fs, [ROOT], ROOT, Long(0x64), Place(blk, 0))
    ensures Erasable(fs, ROOT, Long(0x64), Place(blk, 0)) && Once(fs, ROOT, Long(0x64), Place(blk, 0))
    ensures Deletable(fs, blk, 0) && DeleteOutcome(fs, blk, 0) == Ok && d.Value() == AfterDelete(fs, blk, 0, now)
    ensures !Undone(fs, d.Value(), ROOT, Long(0x64))
  {
    hide DirOk, Sound, Exited, Creates, Root, NamedAt, RoomAt, CreateOutcome, Linkable, Compact, Need, Long, Disk.Valid, Numbers,
         SpotIn, StartOf, Direct, Deletes, Erasable, Once, Deletable, DeleteOutcome, AfterDelete, Undone, WalkFinds, Found, EntryIn, OneMoreLink,
         BlankInode, NameLinked;
    ghost var rs;
    d, rs := FilledRoot(8);
    ghost var fs0 := d.Value();
    InUse(fs0, [ROOT], ROOT);
    InRange(fs0, ROOT);
    NoLink(fs0, [ROOT]);
    NotAll(fs0.inodeMap.used, 8);
    NotAll(fs0.blockMap.used, 8);
    RootOutcome(fs0, rs, 0, Long(0x64));
    var ino;
    r, ino, blk := EnterName(d, [ROOT], ROOT, 0, Long(0x64), FT_REG_FILE);
    fs := d.Value();
    ghost var at := Place(blk, 0);
    OwnBlock(fs0, fs, rs, blk, File(Long(0x64), ino));
    FoundDeletes(fs, Long(0x64), at);
    NamesAreLinked(fs, [ROOT], ROOT, Long(0x64));
    SoundRestoreUndoesDelete(fs, [ROOT], ROOT, Long(0x64), at, now);
    FreshIsOnce(fs, ROOT, Long(0x64), at);
    FirstIsNotWalked(fs, ROOT, Long(0x64), at);
    FoundIs(fs, Long(0x64), at);
    r := DeleteEntry(d, ROOT, Long(0x64), now);
  }

  lemma FoundDeletes(fs: Fs, name: seq<Byte>, at: Place)
    requires Sound(fs, [ROOT]) && Found(fs, ROOT, name, at) && EntryIn(fs, ROOT, name, at).kind != FT_DIR
    ensures Deletes(fs, [ROOT], ROOT, name, at)
  {
    hide Sound, Found, EntryIn, Deletes, Deletable, DeleteOutcome;
    FilesAreDeleted(fs, [ROOT], ROOT, name, at);
  }

  lemma FoundIs(fs: Fs, name: seq<Byte>, at: Place)
    requires Found(fs, ROOT, name, at)
    ensures DirOk(fs, ROOT) && FindEntry(fs.disk, Blocks(fs, ROOT), name) == Some(at)
  {}

  lemma FirstIsNotWalked(fs: Fs, dir: nat, name: seq<Byte>, at: Place)
    requires Deletable(fs, at.block, at.pos) && 1 <= dir <= |fs.inodes| && at.pos == 0
    ensures !WalkFinds(fs, dir, name, at)
  {
    hide Deletable;
  }

  // ---------- an entry behind a short gap ----------

  const Old: seq<Byte> := [0x61, 0x62, 0x63, 0x64, 0x6c, 0x65, 0x66, 0x74]

  /** An entry added behind the name at q changes a length and the bytes it is written to. */
  lemma AddedBytes(b: Block, q: nat, e: Entry)
    requires RecordOk(b, q) && Ino(b, q) != 0 && Storable(e) && Fits(b, q, Need(e.name))
    ensures var b', at := AddAt(b, q, e), q + Actual(b, q);
      && at + HEADER + |e.name| <= BLOCK_SIZE
      && (forall i :: 0 <= i < BLOCK_SIZE && i != q + 4 && i != q + 5 && !(at <= i < at + HEADER + |e.name|) ==> b'[i] == b[i])
      && forall i :: 0 <= i < |e.name| ==> b'[at + HEADER + i] == e.name[i]
  {
    hide Ino, RecLen, NameLen, WriteEntry, PutRecLen, Actual;
    var at := q + Actual(b, q);
    PutRecLenElsewhere(b, q, Actual(b, q));
    EntryWritten(PutRecLen(b, q, Actual(b, q)), at, e, RecLen(b, q) - Actual(b, q));
    NameBytes(AddAt(b, q, e), at, e);
  }

  lemma NameBytes(b: Block, p: nat, e: Entry)
    requires p + HEADER <= BLOCK_SIZE && p + HEADER + NameLen(b, p) <= BLOCK_SIZE && EntryAt(b, p) == e
    ensures p + HEADER + |e.name| <= BLOCK_SIZE && forall i :: 0 <= i < |e.name| ==> b[p + HEADER + i] == e.name[i]
  {
    hide Ino;
    assert e.name == b[p + HEADER..p + HEADER + NameLen(b, p)];
  }

  /** A byte of the old name is still there, and nothing has been written behind "t". */
  predicate Left(b: Block) {
    b[36] == 0x6c && ZeroFrom(b, 49)
  }

  function WithOld(i: nat): seq<Rec> {
    [Rec(Self(ROOT), 12), Rec(Parent(ROOT), 12), Rec(File(Old, i), 1000)]
  }

  function WithBoth(i: nat, j: nat): seq<Rec> {
    [Rec(Self(ROOT), 12), Rec(Parent(ROOT), 12), Rec(File(Old, i), 16), Rec(File(T, j), 984)]
  }

  function WithT(j: nat): seq<Rec> {
    [Rec(Self(ROOT), 12), Rec(Parent(ROOT), 28), Rec(File(T, j), 984)]
  }

  function WithGap(k: nat, j: nat): seq<Rec> {
    [Rec(Self(ROOT), 12), Rec(Parent(ROOT), 12), Rec(File(C, k), 16), Rec(File(T, j), 984)]
  }

  function WithoutT(k: nat): seq<Rec> {
    [Rec(Self(ROOT), 12), Rec(Parent(ROOT), 12), Rec(File(C, k), 1000)]
  }

  /** Room, names and places on the way. */
  lemma OldThenT(i: nat, j: nat)
    ensures Joined(RootRecords(), 1, File(Old, i)) == WithOld(i) && Used(WithOld(i)[2]) == 16
    ensures RoomAt(WithOld(i), Need(T)) == Some(2) && NamedAt(WithOld(i), T).None? && StartOf(0, WithOld(i), 2) == 24
    ensures Joined(WithOld(i), 2, File(T, j)) == WithBoth(i, j)
  {
    hide NamedAt, RoomAt, StartOf;
    assert |Old| == 8 && |T| == 1;
    RootTakes(File(Old, i));
    ThreeRecords(File(Old, i), T);
  }

  lemma WithoutOld(i: nat, j: nat)
    ensures NamedAt(WithBoth(i, j), Old) == Some(2) && StartOf(0, WithBoth(i, j), 2) == 24
    ensures Swallowed(WithBoth(i, j), 2) == WithT(j)
  {
    hide NamedAt, StartOf;
    assert Old != [DOT] && Old != [DOT, DOT] && Old != T;
    NamedIsFirst(WithBoth(i, j), Old);
    assert WithBoth(i, j)[2].e.name == Old;
    ThreeStarts(WithBoth(i, j));
  }

  lemma ThenC(k: nat, j: nat)
    ensures RoomAt(WithT(j), Need(C)) == Some(1) && NamedAt(WithT(j), C).None? && StartOf(0, WithT(j), 1) == 12 && Used(WithT(j)[1]) == 12
    ensures Joined(WithT(j), 1, File(C, k)) == WithGap(k, j)
  {
    hide NamedAt, RoomAt, StartOf;
    assert C != [DOT] && C != [DOT, DOT] && C != T;
    NamedIsFirst(WithT(j), C);
    RoomIsFirst(WithT(j), Need(C));
    ThreeStarts(WithT(j));
    assert Used(WithT(j)[0]) == 12 && Used(WithT(j)[1]) == 12;
  }

  lemma ThenNotT(k: nat, j: nat)
    ensures NamedAt(WithGap(k, j), T) == Some(3) && StartOf(0, WithGap(k, j), 3) == 40 && StartOf(0, WithGap(k, j), 2) == 24
    ensures Swallowed(WithGap(k, j), 3) == WithoutT(k)
  {
    hide NamedAt, StartOf;
    assert T != [DOT] && T != [DOT, DOT] && T != C;
    NamedIsFirst(WithGap(k, j), T);
    assert WithGap(k, j)[3].e.name == T;
    ThreeStarts(WithGap(k, j));
    StartNext(0, WithGap(k, j), 3);
  }

  /** Each step leaves the byte of the old name and the zeros behind "t". */
  lemma LeftFirst(b: Block, i: nat)
    requires Chain(b, 0, RootRecords()) && ZeroFrom(b, 22) && Storable(File(Old, i)) && RecordOk(b, 12) && Fits(b, 12, Need(Old))
    ensures Left(AddAt(b, 12, File(Old, i)))
  {
    hide Ino, RecLen, Head, EntryAt, NameLen, AddAt, Actual, Chain, Fits, Padded;
    ThreeStarts(RootRecords());
    ChainFrom(b, 0, RootRecords(), 1);
    ChainHead(b, 12, RootRecords()[1..]);
    ParentUsed();
    AddedBytes(b, 12, File(Old, i));
    AddedZero(b, 12, File(Old, i), 49);
    assert Old[4] == 0x6c;
  }

  lemma ParentUsed()
    ensures Used(RootRecords()[1]) == 12 && Need(C) == 12 && Need(T) == 12 && Need(Old) == 16
  {}

  lemma LeftAdded(b: Block, rs: seq<Rec>, q: nat, m: nat, e: Entry)
    requires Left(b) && Chain(b, 0, rs) && m < |rs| && StartOf(0, rs, m) == q && Storable(e) && RecordOk(b, q) && Fits(b, q, Need(e.name))
    requires |e.name| == 1 && ((q == 12 && Used(rs[m]) == 12) || (q == 24 && Used(rs[m]) == 16))
    ensures Left(AddAt(b, q, e))
  {
    hide Ino, RecLen, Head, EntryAt, NameLen, AddAt, Actual, Chain, Fits, Need, StartOf;
    ChainFrom(b, 0, rs, m);
    ChainHead(b, q, rs[m..]);
    AddedBytes(b, q, e);
    AddedZero(b, q, e, 49);
  }

  lemma LeftHidden(b: Block, rs: seq<Rec>, m: nat)
    requires Left(b) && Chain(b, 0, rs) && 0 < m < |rs| && StartOf(0, rs, m - 1) <= 24
    ensures Tiled(b, 0) && OnChain(b, 0, StartOf(0, rs, m)) && RecordOk(b, StartOf(0, rs, m))
    ensures Left(HideAt(b, StartOf(0, rs, m)))
  {
    hide Ino, RecLen, Head, EntryAt, NameLen, HideAt, Actual, Chain, Tiled, OnChain, StartOf, Before;
    var q := StartOf(0, rs, m);
    ChainBefore(b, rs, m);
    ChainFrom(b, 0, rs, m);
    ChainHead(b, q, rs[m..]);
    HideChanges(b, q);
  }

  lemma SmallIno(b: Block, p: nat)
    requires p + HEADER <= BLOCK_SIZE && Ino(b, p) < 0x10000
    ensures b[p + 2] == 0
  {}

  lemma WordAt(b: Block, p: nat)
    requires p + 4 <= BLOCK_SIZE && (b[p] != 0 || b[p + 1] != 0)
    ensures U32At(b, p) != 0
  {}

  /** The four bytes of slack behind "c" still hold the old name, and hide the record of "t". */
  lemma GapIsShort(b: Block, k: nat, j: nat)
    requires Chain(b, 0, WithGap(k, j)) && Left(b) && j < 0x10000
    ensures Tiled(b, 0) && OnChain(b, 0, 40) && RecordOk(b, 40) && Ino(b, 40) == j && RecLen(b, 40) == 984
    ensures Before(b, 0, 40) == 24 && ShortGap(b, 40, T)
  {
    hide Ino, RecLen, Head, EntryAt, NameLen, Actual, Chain, Tiled, OnChain, StartOf, Before, NamedAt;
    var rs := WithGap(k, j);
    ThenNotT(k, j);
    ParentUsed();
    ChainBefore(b, rs, 3);
    ChainFrom(b, 0, rs, 3);
    ChainHead(b, 40, rs[3..]);
    ChainFrom(b, 0, rs, 2);
    ChainHead(b, 24, rs[2..]);
    InoOf(b, 40, File(T, j));
    SmallIno(b, 40);
    WordAt(b, 36);
    QuietStart(b, rs, T);
  }

  lemma InoOf(b: Block, p: nat, e: Entry)
    requires p + HEADER <= BLOCK_SIZE && p + HEADER + NameLen(b, p) <= BLOCK_SIZE && EntryAt(b, p) == e
    ensures Ino(b, p) == e.inode
  {}

  /** "." and ".." have no slack. */
  lemma QuietStart(b: Block, rs: seq<Rec>, name: seq<Byte>)
    requires Chain(b, 0, rs) && |rs| >= 3 && rs[0] == Rec(Self(ROOT), 12) && rs[1] == Rec(Parent(ROOT), 12)
    ensures Tiled(b, 0) && QuietTo(b, 0, 24, name, false)
  {
    hide Ino, RecLen, Head, EntryAt, NameLen, Actual, Chain, Tiled, OnChain, StartOf;
    ChainTiles(b, 0, rs);
    ChainHead(b, 0, rs);
    ChainTiles(b, 12, rs[1..]);
    ChainHead(b, 12, rs[1..]);
    ChainTiles(b, 24, rs[1..][1..]);
    assert Used(rs[0]) == 12 && Used(rs[1]) == 12;
    assert QuietTo(b, 24, 24, name, false);
    assert QuietTo(b, 12, 24, name, false);
  }

  /** The bytes that the scan meets behind "c" once "t" has been removed. */
  ghost predicate GapBytes(b: Block) {
    U32At(b, 36) != 0 && b[42] == 0 && U32At(b, 44) != 0 && b[50] == 0 && forall i :: 52 <= i < 60 ==> b[i] == 0
  }

  lemma GapAfter(b: Block, k: nat, j: nat)
    requires Chain(b, 0, WithGap(k, j)) && Left(b) && j < 0x10000
    requires Tiled(b, 0) && OnChain(b, 0, 40) && RecordOk(b, 40) && Ino(b, 40) != 0
    ensures Chain(HideAt(b, 40), 0, WithoutT(k)) && GapBytes(HideAt(b, 40))
  {
    hide Ino, RecLen, Head, EntryAt, NameLen, Actual, Chain, Tiled, OnChain, StartOf, Before, HideAt, NamedAt;
    GapIsShort(b, k, j);
    ThenNotT(k, j);
    ChainSwallows(b, WithGap(k, j), 3);
    HideChanges(b, 40);
    SmallIno(b, 40);
    LengthBytes(b, 40);
    WordAt(HideAt(b, 40), 36);
    WordAt(HideAt(b, 40), 44);
  }

  lemma LengthBytes(b: Block, p: nat)
    requires p + HEADER <= BLOCK_SIZE && RecLen(b, p) != 0
    ensures b[p + 4] != 0 || b[p + 5] != 0
  {}

  /** The walk steps over the record, into its middle, and on into zeros. */
  lemma GapWalk(disk: seq<Block>, n: nat)
    requires n < |disk| && GapBytes(disk[n])
    ensures WalkGap(disk, BLOCK_SIZE * n + 36, BLOCK_SIZE * n + BLOCK_SIZE, T) == Passed(BLOCK_SIZE * n + BLOCK_SIZE)
  {
    hide Peek, U32At;
    PeekHeader(disk, n, 36);
    NameNotEmpty(disk, BLOCK_SIZE * n + 36, T);
    PeekHeader(disk, n, 44);
    NameNotEmpty(disk, BLOCK_SIZE * n + 44, T);
    PeekHeader(disk, n, 52);
    ZeroWord(disk[n], 52);
    WalkThree(disk, BLOCK_SIZE * n + 36, BLOCK_SIZE * n + BLOCK_SIZE);
  }

  lemma ZeroWord(b: Block, p: nat)
    requires p + HEADER <= BLOCK_SIZE && forall i :: p <= i < p + HEADER ==> b[i] == 0
    ensures Ino(b, p) == 0 && RecLen(b, p) == 0 && NameLen(b, p) == 0
  {}

  lemma WalkThree(disk: seq<Block>, p: nat, end: nat)
    requires p + 16 < end && PeekIno(disk, p) != 0 && PeekNameLen(disk, p) == 0 && !NameAt(disk, p, T)
    requires PeekIno(disk, p + 8) != 0 && PeekNameLen(disk, p + 8) == 0 && !NameAt(disk, p + 8, T)
    requires PeekIno(disk, p + 16) == 0 && PeekNameLen(disk, p + 16) == 0 && PeekRecLen(disk, p + 16) == 0
    ensures WalkGap(disk, p, end, T) == Passed(end)
  {
    hide PeekIno, PeekNameLen, PeekRecLen, NameAt;
    assert WalkGap(disk, p + 16, end, T) == Passed(end);
    assert WalkGap(disk, p + 8, end, T) == Passed(end);
  }

  lemma LostScan(disk: seq<Block>, n: nat, k: nat)
    requires n < |disk| && Chain(disk[n], 0, WithoutT(k)) && GapBytes(disk[n])
    ensures ScanFrom(disk, n, T) == None
  {
    hide Peek, PeekIno, PeekRecLen, PeekNameLen, PeekActual, Ino, RecLen, Head, EntryAt, NameLen, Actual, Chain, Tiled, OnChain, WalkGap, QuietTo,
         StartOf, GapBytes;
    var b, rs := disk[n], WithoutT(k);
    QuietStart(b, rs, T);
    QuietIsScanned(disk, n, 0, 24, T, false);
    ThreeStarts(rs);
    ChainFrom(b, 0, rs, 2);
    ChainHead(b, 24, rs[2..]);
    ParentUsed();
    PeekHeader(disk, n, 24);
    GapWalk(disk, n);
  }

  lemma ListedInUse(fs: Fs, rs: seq<Rec>, e: Entry)
    requires Sound(fs, [ROOT]) && Root(fs, rs) && e in EntriesOf(rs)
    ensures e.inode in fs.inodeMap.used
  {
    hide Owned, Accounted, LinksCounted, Root, EntriesOf, Listed, GoodDir, AllDirsOk;
    RootListed(fs, rs);
    assert GoodEntry(fs, [ROOT], e);
  }

  lemma TIsListed(j: nat)
    ensures File(T, j) in EntriesOf(WithT(j))
  {
    var rs := WithT(j);
    assert EntriesOf(rs[1..][1..])[0] == File(T, j);
    assert EntriesOf(rs[1..])[1] == File(T, j);
    assert EntriesOf(rs)[2] == File(T, j);
  }

  lemma StillFree(used: set<nat>, used': set<nat>, count: nat)
    requires used' <= used && |used| < count
    ensures used' != Numbers(count)
  {
    SubsetSize(used', used);
    NotAll(used', count);
  }

  /** A longer name, "t" behind it, the longer name removed, and "c" in its place. */
  method GapVolume(now: nat) returns (d: Disk, ghost k: nat, ghost j: nat)
    ensures d.Valid() && fresh(d) && fresh(d.Repr()) && Sound(d.Value(), [ROOT]) && Root(d.Value(), WithGap(k, j)) && Left(d.Value().disk[1])
    ensures 1 <= j <= |d.Value().inodes| == 8 && d.Value().inodes[j - 1] == OneMoreLink(BlankInode(FT_REG_FILE))
  {
    hide DirOk, Sound, Root, Joined, AddAt, NamedAt, RoomAt, ZeroFrom, OneMoreLink, BlankInode, Chain, RecordOk, Fits, StartOf, Used, Need, Swallowed,
         Disk.Valid, Disk.Value, Numbers, RootRecords, WithOld, WithBoth, WithT, WithGap, Left, Deletable, DeleteOutcome, AfterDelete, HideAt,
         Tiled, OnChain, EntriesOf;
    d := FormattedRoot(8, 8);
    ghost var fs0 := d.Value();
    NotAll(fs0.inodeMap.used, 8);
    RootTakes(File(Old, 1));
    var i := FileInRoot(d, Old, RootRecords(), 1);
    ghost var fs1 := d.Value();
    RootTakes(File(Old, i));
    RootChain(fs0, RootRecords(), 1);
    LeftFirst(fs0.disk[1], i);
    OldThenT(i, 1);
    NotAll(fs1.inodeMap.used, 8);
    var t := FileInRoot(d, T, WithOld(i), 2);
    j := t;
    ghost var fs2 := d.Value();
    OldThenT(i, j);
    RootChain(fs1, WithOld(i), 2);
    ParentUsed();
    LeftAdded(fs1.disk[1], WithOld(i), 24, 2, File(T, j));
    WithoutOld(i, j);
    BothAre(i, j);
    var r := RemoveFromRoot(d, Old, now, WithBoth(i, j), 2);
    ghost var fs3 := d.Value();
    RootChain(fs2, WithBoth(i, j), 2);
    LeftHidden(fs2.disk[1], WithBoth(i, j), 2);
    StillFree(fs2.inodeMap.used, fs3.inodeMap.used, 8);
    TIsListed(j);
    ListedInUse(fs3, WithT(j), File(T, j));
    ThenC(1, j);
    var c := FileInRoot(d, C, WithT(j), 1);
    k := c;
    ThenC(k, j);
    RootChain(fs3, WithT(j), 1);
    LeftAdded(fs3.disk[1], WithT(j), 12, 1, File(C, k));
  }

  lemma BothAre(i: nat, j: nat)
    ensures |WithBoth(i, j)| == 4 && WithBoth(i, j)[2].e == File(Old, i) && StartOf(0, WithBoth(i, j), 1) <= 24 && |WithT(j)| == 3
  {
    ThreeStarts(WithBoth(i, j));
  }

  lemma GapAre(k: nat, j: nat)
    ensures |WithGap(k, j)| == 4 && WithGap(k, j)[3].e == File(T, j)
  {}

  /** Neither the walk before the delete nor the scan after it gets to the record. */
  lemma LaterIsLost(fs: Fs, k: nat, j: nat, now: nat)
    requires Sound(fs, [ROOT]) && Root(fs, WithGap(k, j)) && Left(fs.disk[1])
    requires 1 <= j <= |fs.inodes| == 8 && fs.inodes[j - 1] == OneMoreLink(BlankInode(FT_REG_FILE))
    ensures Deletes(fs, [ROOT], ROOT, T, Place(1, 40)) && Erasable(fs, ROOT, T, Place(1, 40)) && Once(fs, ROOT, T, Place(1, 40))
    ensures Deletable(fs, 1, 40) && DeleteOutcome(fs, 1, 40) == Ok
    ensures var fs' := AfterDelete(fs, 1, 40, now);
      && !Undone(fs, fs', ROOT, T)
      && DirOk(fs', ROOT) && StaleLinked(fs', ROOT, T) && AfterRestore(fs', ROOT, T) == Failed(ENoEnt)
  {
    hide DirOk, Sound, NamedAt, OneMoreLink, BlankInode, Chain, StartOf, Swallowed, WithGap, WithoutT, Left, Deletes, Erasable, Once, DeleteOutcome,
         AfterDelete, Undone, WalkFinds, EntryIn, HideAt, Tiled, OnChain, Direct, AfterReclaim, Ino, RecLen, ShortGap, RecordOk, Before, GapBytes,
         FindEntry, PointersOk;
    ThenNotT(k, j);
    GapAre(k, j);
    RootDeletes(fs, WithGap(k, j), T, 3);
    SoundRestoreUndoesDelete(fs, [ROOT], ROOT, T, Place(1, 40), now);
    FreshIsOnce(fs, ROOT, T, Place(1, 40));
    GapIsShort(fs.disk[1], k, j);
    ShortGapIsLost(fs, ROOT, T, Place(1, 40));
    RootSwallows(fs, WithGap(k, j), T, 3, now);
    GapAfter(fs.disk[1], k, j);
    NothingFound(AfterDelete(fs, 1, 40, now), k);
  }

  lemma NothingFound(fs: Fs, k: nat)
    requires Sound(fs, [ROOT]) && Root(fs, WithoutT(k)) && GapBytes(fs.disk[1])
    ensures DirOk(fs, ROOT) && StaleLinked(fs, ROOT, T) && AfterRestore(fs, ROOT, T) == Failed(ENoEnt)
  {
    hide DirOk, Sound, NamedAt, Chain, WithoutT, GapBytes, ScanFrom, Direct, Names, FindEntry;
    InUse(fs, [ROOT], ROOT);
    NotNamedT(k);
    RootFound(fs, WithoutT(k), T);
    LostScan(fs.disk, 1, k);
    assert [1][1..] == [];
    assert Scan(fs.disk, [1], T) == None;
  }

  lemma NotNamedT(k: nat)
    ensures NamedAt(WithoutT(k), T).None?
  {
    hide NamedAt;
    assert T != [DOT] && T != [DOT, DOT] && T != C;
    NamedIsFirst(WithoutT(k), T);
  }

  /** "t" with one link, no deletion time, and not first in its block: rm, then restore answers
      ENOENT. The tools have made the gap themselves: they listed a longer name before "t", removed
      it, and listed "c" in its place. */
  method LaterEntryIsLost(now: nat) returns (d: Disk, r: Outcome, ghost fs: Fs)
    ensures d.Valid() && Deletes(fs, [ROOT], ROOT, T, Place(1, 40))
    ensures Erasable(fs, ROOT, T, Place(1, 40)) && Once(fs, ROOT, T, Place(1, 40))
    ensures Deletable(fs, 1, 40) && DeleteOutcome(fs, 1, 40) == Ok
    ensures !Undone(fs, AfterDelete(fs, 1, 40, now), ROOT, T)
    ensures r == ENoEnt && d.Value() == AfterDelete(fs, 1, 40, now)
  {
    hide DirOk, Sound, Root, Joined, AddAt, NamedAt, RoomAt, ZeroFrom, OneMoreLink, BlankInode, Chain, RecordOk, Fits, StartOf, Used, Need, Swallowed,
         Disk.Valid, Disk.Value, Numbers, RootRecords, WithOld, WithBoth, WithT, WithGap, WithoutT, Left, Deletes, Erasable, Once, Deletable,
         DeleteOutcome, AfterDelete, Undone, WalkFinds, EntryIn, HideAt, Tiled, OnChain, AfterRestore, StaleLinked;
    ghost var k, j;
    d, k, j := GapVolume(now);
    fs := d.Value();
    LaterIsLost(fs, k, j, now);
    ThenNotT(k, j);
    GapAre(k, j);
    r := RemoveFromRoot(d, T, now, WithGap(k, j), 3);
    r := RestoreFile(d, ROOT, T);
  }

  // ---------- a stale record that does not fit ----------

  const X: seq<Byte> := [0x78, 0x78, 0x78, 0x78, 3]

  /** In the slack of "c", which is 12 bytes, a stale record says that its name has five: the last of
      them is the first byte of the record of "d". */
  function MisfitBlock(): Block {
    Splice(ZeroBlock(), 0,
           [2, 0, 0, 0, 12, 0, 1, 2, 0x2e, 0, 0, 0] + [2, 0, 0, 0, 12, 0, 2, 2, 0x2e, 0x2e, 0, 0]
           + [1, 0, 0, 0, 24, 0, 1, 1, 0x63, 0, 0, 0] + [4, 0, 0, 0, 12, 0, 5, 1, 0x78, 0x78, 0x78, 0x78]
           + [3, 0, 0, 0, 0xD0, 0x03, 1, 1, 0x64])
  }

  function MisfitRecords(): seq<Rec> {
    [Rec(Self(ROOT), 12), Rec(Parent(ROOT), 12), Rec(File(C, 1), 24), Rec(File(D, 3), 976)]
  }

  /** The header of a record, byte by byte. */
  predicate HeaderIs(b: Block, p: nat, ino: Byte, low: Byte, high: Byte, len: Byte, kind: Byte)
    requires p + HEADER <= BLOCK_SIZE
  {
    && b[p] == ino && b[p + 1] == 0 && b[p + 2] == 0 && b[p + 3] == 0
    && b[p + 4] == low && b[p + 5] == high && b[p + 6] == len && b[p + 7] == kind
  }

  lemma HeaderRead(b: Block, p: nat, ino: Byte, low: Byte, high: Byte, len: Byte, kind: Byte, name: seq<Byte>)
    requires p + HEADER + |name| <= BLOCK_SIZE && HeaderIs(b, p, ino, low, high, len, kind) && 0 < ino && |name| == len
    requires 12 <= low + 0x100 * high <= BLOCK_SIZE - p && low % 4 == 0 && len <= 4
    requires forall i :: 0 <= i < |name| ==> b[p + HEADER + i] == name[i]
    ensures RecordOk(b, p) && RecLen(b, p) == low + 0x100 * high && Head(b, p) == [Entry(name, ino, kind)]
  {
    assert b[p + HEADER..p + HEADER + |name|] == name;
  }

  lemma DotBytes()
    ensures var b := MisfitBlock(); HeaderIs(b, 0, 2, 12, 0, 1, 2) && b[8] == 0x2e
  {}

  lemma DotDotBytes()
    ensures var b := MisfitBlock(); HeaderIs(b, 12, 2, 12, 0, 2, 2) && b[20] == 0x2e && b[21] == 0x2e
  {}

  lemma CBytes()
    ensures var b := MisfitBlock(); HeaderIs(b, 24, 1, 24, 0, 1, 1) && b[32] == 0x63
  {}

  lemma StaleBytes()
    ensures var b := MisfitBlock();
      HeaderIs(b, 36, 4, 12, 0, 5, 1) && b[44] == 0x78 && b[45] == 0x78 && b[46] == 0x78 && b[47] == 0x78
  {}

  lemma DBytes()
    ensures var b := MisfitBlock(); HeaderIs(b, 48, 3, 0xD0, 0x03, 1, 1) && b[56] == 0x64
  {}

  lemma MisfitChain()
    ensures Chain(MisfitBlock(), 0, MisfitRecords())
  {
    hide MisfitBlock, RecordOk, RecLen, Head, HeaderIs;
    var b := MisfitBlock();
    DotBytes();
    DotDotBytes();
    CBytes();
    DBytes();
    HeaderRead(b, 0, 2, 12, 0, 1, 2, [DOT]);
    HeaderRead(b, 12, 2, 12, 0, 2, 2, [DOT, DOT]);
    HeaderRead(b, 24, 1, 24, 0, 1, 1, C);
    HeaderRead(b, 48, 3, 0xD0, 0x03, 1, 1, D);
    MisfitCons(b);
  }

  lemma MisfitCons(b: Block)
    requires RecordOk(b, 0) && RecLen(b, 0) == 12 && Head(b, 0) == [Self(ROOT)]
    requires RecordOk(b, 12) && RecLen(b, 12) == 12 && Head(b, 12) == [Parent(ROOT)]
    requires RecordOk(b, 24) && RecLen(b, 24) == 24 && Head(b, 24) == [File(C, 1)]
    requires RecordOk(b, 48) && RecLen(b, 48) == 976 && Head(b, 48) == [File(D, 3)]
    ensures Chain(b, 0, MisfitRecords())
  {
    hide RecordOk, RecLen, Head, Chain;
    EmptyChain(b);
    ChainCons(b, 48, Rec(File(D, 3), 976), []);
    ChainCons(b, 24, Rec(File(C, 1), 24), [Rec(File(D, 3), 976)] + []);
    ChainCons(b, 12, Rec(Parent(ROOT), 12), [Rec(File(C, 1), 24)] + ([Rec(File(D, 3), 976)] + []));
    ChainCons(b, 0, Rec(Self(ROOT), 12), [Rec(Parent(ROOT), 12)] + ([Rec(File(C, 1), 24)] + ([Rec(File(D, 3), 976)] + [])));
    assert MisfitRecords() ==
      [Rec(Self(ROOT), 12)] + ([Rec(Parent(ROOT), 12)] + ([Rec(File(C, 1), 24)] + ([Rec(File(D, 3), 976)] + [])));
  }

  lemma EmptyChain(b: Block)
    ensures Chain(b, BLOCK_SIZE, [])
  {}

  function RootInode(): Inode {
    InodeRecord(S_IFDIR, BLOCK_SIZE, 2, SECTORS_PER_BLOCK, 0, [1] + seq(SLOTS - 1, i => 0))
  }

  function FileInode(): Inode {
    InodeRecord(S_IFREG, 0, 1, 0, 0, seq(SLOTS, i => 0))
  }

  /** Four inodes and eight blocks: the root in block 1, two empty files, and a free inode, which is
      the one the stale record names. */
  function MisfitVolume(free: Inode): Fs {
    Fs(Map({1, 8}, 6, 6), Map({1, 2, 3}, 1, 1), [FileInode(), RootInode(), FileInode(), free],
       [ZeroBlock(), MisfitBlock(), ZeroBlock(), ZeroBlock(), ZeroBlock(), ZeroBlock(), ZeroBlock(), ZeroBlock()])
  }

  lemma RootReaches()
    ensures Direct(RootInode().ptr, 0) == [1] && Compact(RootInode()) && !HasIndirect(RootInode())
  {
    assert Direct(RootInode().ptr, 1) == [];
  }

  lemma FileReaches()
    ensures Direct(FileInode().ptr, 0) == [] && !HasIndirect(FileInode())
    ensures Direct(BlankInode(FT_REG_FILE).ptr, 0) == [] && !HasIndirect(BlankInode(FT_REG_FILE))
  {}

  lemma MisfitIsRoot(free: Inode)
    ensures Root(MisfitVolume(free), MisfitRecords())
  {
    hide Direct, RootInode, FileInode, BlankInode, ZeroBlock, MisfitBlock, Chain;
    RootReaches();
    MisfitChain();
  }

  function MisfitEntries(): seq<Entry> {
    [Self(ROOT), Parent(ROOT), File(C, 1), File(D, 3)]
  }

  lemma MisfitListed(free: Inode)
    ensures DirOk(MisfitVolume(free), ROOT) && Listed(MisfitVolume(free), ROOT) == MisfitEntries()
  {
    hide Direct, RootInode, FileInode, BlankInode, ZeroBlock, MisfitBlock, Chain, Root, Tiled, Listing;
    MisfitIsRoot(free);
    RootListed(MisfitVolume(free), MisfitRecords());
    MisfitEntriesAre();
    RootIsOne(MisfitVolume(free), MisfitRecords());
    NamesDiffer();
  }

  lemma RootIsOne(fs: Fs, rs: seq<Rec>)
    requires Root(fs, rs)
    ensures |fs.inodes| >= ROOT && Blocks(fs, ROOT) == [1] && NoDup(Blocks(fs, ROOT))
  {}

  lemma NamesDiffer()
    ensures UniqueNames(MisfitEntries())
  {
    assert [DOT] != [DOT, DOT] && [DOT] != C && [DOT] != D && C != D;
  }

  lemma MisfitEntriesAre()
    ensures EntriesOf(MisfitRecords()) == MisfitEntries()
  {
    var rs := MisfitRecords();
    assert rs[1..] == [Rec(Parent(ROOT), 12), Rec(File(C, 1), 24), Rec(File(D, 3), 976)];
    assert rs[1..][1..] == [Rec(File(C, 1), 24), Rec(File(D, 3), 976)];
    assert rs[1..][1..][1..] == [Rec(File(D, 3), 976)] && rs[1..][1..][1..][1..] == [];
    assert EntriesOf(rs[1..][1..][1..]) == [File(D, 3)];
    assert EntriesOf(rs[1..][1..]) == [File(C, 1), File(D, 3)];
    assert EntriesOf(rs[1..]) == [Parent(ROOT), File(C, 1), File(D, 3)];
  }

  lemma MisfitCounted(i: nat)
    ensures Count(MisfitEntries(), i) == if i == 2 then 2 else if i == 1 || i == 3 then 1 else 0
  {
    var l := MisfitEntries();
    assert l[1..] == [Parent(ROOT), File(C, 1), File(D, 3)] && l[1..][1..] == [File(C, 1), File(D, 3)];
    assert l[1..][1..][1..] == [File(D, 3)] && l[1..][1..][1..][1..] == [];
    assert Count(l[1..][1..][1..], i) == if i == 3 then 1 else 0;
    assert Count(l[1..][1..], i) == if i == 1 || i == 3 then 1 else 0;
    assert Count(l[1..], i) == if i == 1 || i == 2 || i == 3 then 1 else 0;
  }

  lemma MisfitOrders(free: Inode)
    ensures var fs := MisfitVolume(free);
      Linked(fs, 1) && Order(fs, 1) == [] && Linked(fs, 2) && Order(fs, 2) == [1] && Linked(fs, 3) && Order(fs, 3) == []
  {
    hide Direct, RootInode, FileInode, BlankInode, ZeroBlock, MisfitBlock;
    RootReaches();
    FileReaches();
  }

  lemma MisfitOwned(free: Inode)
    ensures Owned(MisfitVolume(free))
  {
    hide FreeOrder, PointersOk, RootInode, FileInode, BlankInode, ZeroBlock, MisfitBlock;
    var fs := MisfitVolume(free);
    MisfitOrders(free);
    assert Owns(fs, 1) && Owns(fs, 2) && Owns(fs, 3);
  }

  lemma MisfitAccounted(free: Inode)
    ensures Accounted(MisfitVolume(free))
  {
    hide RootInode, FileInode, BlankInode, ZeroBlock, MisfitBlock;
    var fs := MisfitVolume(free);
    assert |fs.blockMap.used| == 2 && |fs.inodeMap.used| == 3;
  }

  lemma MisfitSound(free: Inode)
    requires free.links == 0
    ensures Sound(MisfitVolume(free), [ROOT])
  {
    hide Owned, Accounted, Listed, DirOk, Compact, MisfitBlock, RootInode, FileInode, Count, MisfitEntries;
    var fs := MisfitVolume(free);
    MisfitListed(free);
    MisfitOwned(free);
    MisfitAccounted(free);
    RootReaches();
    OneIsNoDup(ROOT);
    assert forall d :: d in [ROOT] <==> d == ROOT;
    MisfitGood(free);
    forall i | 1 <= i <= 4 ensures fs.inodes[i - 1].links == Total(fs, [ROOT], i) {
      MisfitCounted(i);
      OneTotal(fs, i);
      MisfitLinks(free, i);
    }
  }

  lemma OneTotal(fs: Fs, i: nat)
    requires AllDirsOk(fs, [ROOT])
    ensures Total(fs, [ROOT], i) == Count(Listed(fs, ROOT), i)
  {
    hide Listed, DirOk, Count;
    assert [ROOT][1..] == [];
  }

  lemma MisfitLinks(free: Inode, i: nat)
    requires 1 <= i <= 4 && free.links == 0
    ensures MisfitVolume(free).inodes[i - 1].links == if i == 2 then 2 else if i == 1 || i == 3 then 1 else 0
  {}

  lemma MisfitGood(free: Inode)
    ensures forall e :: e in MisfitEntries() ==> GoodEntry(MisfitVolume(free), [ROOT], e)
  {
    hide MisfitBlock, RootInode, FileInode, BlankInode, ZeroBlock;
  }

  /** The scan for the five-byte name ends at the stale record, with the record of "c" before it. */
  lemma MisfitScanned(free: Inode)
    ensures var disk := MisfitVolume(free).disk;
      Scan(disk, [1], X) == Some(Stale(1060, 1048)) && PeekIno(disk, 1060) == 4 && Peek(disk, 1067) == FT_REG_FILE
      && PeekRecLen(disk, 1048) == 24
  {
    hide Peek, PeekIno, PeekRecLen, PeekNameLen, PeekActual, Ino, RecLen, Head, EntryAt, NameLen, Actual, Chain, Tiled, OnChain, QuietTo,
         StartOf, MisfitBlock, RootInode, FileInode, BlankInode, ZeroBlock, NameAt, HeaderIs;
    var disk, b := MisfitVolume(free).disk, MisfitBlock();
    assert disk[1] == b;
    MisfitChain();
    QuietStart(b, MisfitRecords(), X);
    QuietIsScanned(disk, 1, 0, 24, X, false);
    ThreeStarts(MisfitRecords());
    ChainFrom(b, 0, MisfitRecords(), 2);
    ChainHead(b, 24, MisfitRecords()[2..]);
    ParentUsed();
    PeekHeader(disk, 1, 24);
    StaleIs();
    PeekHeader(disk, 1, 36);
    NameAtIs(disk, 1, 36, X);
    assert [1][1..] == [];
    HitAtOnce(disk, BLOCK_SIZE * 1 + 36, BLOCK_SIZE * 1 + 48);
  }

  lemma StaleIs()
    ensures var b := MisfitBlock(); Ino(b, 36) == 4 && NameLen(b, 36) == 5 && b[43] == FT_REG_FILE && b[44..49] == X
  {
    hide MisfitBlock;
    StaleBytes();
    DBytes();
  }

  lemma HitAtOnce(disk: seq<Block>, p: nat, end: nat)
    requires p < end && PeekIno(disk, p) != 0 && NameAt(disk, p, X)
    ensures WalkGap(disk, p, end, X) == Hit(p)
  {}

  /** Up to the reclaim a restore under the five-byte name comes through. */
  lemma MisfitFound(free: Inode)
    ensures var fs := MisfitVolume(free);
      && DirOk(fs, ROOT) && Scan(fs.disk, Blocks(fs, ROOT), X) == Some(Stale(1060, 1048)) && StaleOf(fs, ROOT, X) == Stale(1060, 1048)
      && FindEntry(fs.disk, Blocks(fs, ROOT), X).None? && PeekIno(fs.disk, 1060) == 4 && Peek(fs.disk, 1067) == FT_REG_FILE
  {
    hide MisfitBlock, RootInode, FileInode, ZeroBlock, PeekIno, PeekRecLen, Peek, Scan, Direct, Tiled, Live, UniqueNames, Listing, FindEntry,
         AsMap, Chain, Root, NamedAt, Listed, DirOk, Names, MisfitEntries, Blocks;
    var fs := MisfitVolume(free);
    MisfitScanned(free);
    MisfitIsRoot(free);
    MisfitListed(free);
    RootIsOne(fs, MisfitRecords());
    NotX();
    RootFound(fs, MisfitRecords(), X);
  }

  lemma NotX()
    ensures NamedAt(MisfitRecords(), X).None?
  {
    hide NamedAt;
    assert |X| == 5;
    NamedIsFirst(MisfitRecords(), X);
  }

  lemma RestoreGoesOn(fs: Fs, at: Stale)
    requires DirOk(fs, ROOT) && FindEntry(fs.disk, Blocks(fs, ROOT), X).None? && Scan(fs.disk, Blocks(fs, ROOT), X) == Some(at)
    requires Peek(fs.disk, at.entry + 7) == FT_REG_FILE && Linked(fs, PeekIno(fs.disk, at.entry))
    ensures StaleLinked(fs, ROOT, X)
    ensures AfterReclaim(fs, PeekIno(fs.disk, at.entry)).Restored? ==> AfterRestore(fs, ROOT, X).Recovered?
    ensures AfterReclaim(fs, PeekIno(fs.disk, at.entry)).Clash? ==> AfterRestore(fs, ROOT, X).Abandoned?
  {
    hide DirOk, FindEntry, Scan, Peek, PeekIno, AfterReclaim, PointersOk, Unhidden, Direct;
    assert |X| <= NAME_MAX;
  }

  function FreeInode(): Inode {
    BlankInode(FT_REG_FILE)
  }

  /** Inode 4 is free and reaches nothing. */
  lemma FreeIsReclaimed(fs: Fs)
    requires fs == MisfitVolume(FreeInode())
    ensures Linked(fs, 4) && AfterReclaim(fs, 4).Restored?
  {
    hide MisfitBlock, RootInode, FileInode, ZeroBlock, BlankInode;
    FileReaches();
  }

  /** In this sound volume a restore succeeds and leaves a volume that is not sound. The tools alone
      do not write such a stale record. */
  lemma MisfitBreaks()
    ensures var fs := MisfitVolume(FreeInode());
      && Sound(fs, [ROOT]) && DirOk(fs, ROOT) && StaleLinked(fs, ROOT, X) && !RestoreFits(fs, ROOT, X)
      && AfterRestore(fs, ROOT, X).Recovered? && !Sound(AfterRestore(fs, ROOT, X).fs, [ROOT])
  {
    hide MisfitVolume, PeekRecLen, Sound, DirOk, StaleLinked, AfterRestore, StaleOf, Scan, FindEntry, AfterReclaim, PeekIno, Peek, Linked;
    var fs := MisfitVolume(FreeInode());
    MisfitScanned(FreeInode());
    MisfitFound(FreeInode());
    FreeIsReclaimed(fs);
    RestoreGoesOn(fs, Stale(1060, 1048));
    MisfitSound(FreeInode());
    RestoreKeepsSoundExactly(fs, AfterRestore(fs, ROOT, X).fs, [ROOT], ROOT, X);
  }

  // ---------- a block that is reached twice ----------

  /** A free inode that names block 5 in two slots. */
  function DoubledInode(): Inode {
    InodeRecord(S_IFREG, 2 * BLOCK_SIZE, 0, 2 * SECTORS_PER_BLOCK, 1, [5, 5] + seq(SLOTS - 2, i => 0))
  }

  lemma DoubledReaches()
    ensures Direct(DoubledInode().ptr, 0) == [5, 5] && !HasIndirect(DoubledInode())
  {
    assert Direct(DoubledInode().ptr, 2) == [];
    assert Direct(DoubledInode().ptr, 1) == [5];
  }

  lemma DoubledClashes(fs: Fs)
    requires fs == MisfitVolume(DoubledInode())
    ensures Linked(fs, 4) && AfterReclaim(fs, 4).Clash?
  {
    hide MisfitBlock, RootInode, FileInode, ZeroBlock, DoubledInode, Direct, ClaimAll;
    DoubledReaches();
    assert fs.inodes[3] == DoubledInode();
    assert ClaimOrder(fs.inodes[3], fs.disk) == [5, 5];
    ClashExactly(fs, 4);
    assert [5, 5][0] == [5, 5][1];
  }

  /** In this sound volume a restore exits in the middle and leaves an inode without a name. */
  lemma ClashBreaks()
    ensures var fs := MisfitVolume(DoubledInode());
      && Sound(fs, [ROOT]) && DirOk(fs, ROOT) && StaleLinked(fs, ROOT, X)
      && AfterRestore(fs, ROOT, X).Abandoned? && !Sound(AfterRestore(fs, ROOT, X).fs, [ROOT])
  {
    hide MisfitVolume, Sound, DirOk, StaleLinked, AfterRestore, StaleOf, Scan, FindEntry, AfterReclaim, PeekIno, Peek, Linked;
    var fs := MisfitVolume(DoubledInode());
    MisfitFound(DoubledInode());
    DoubledClashes(fs);
    RestoreGoesOn(fs, Stale(1060, 1048));
    MisfitSound(DoubledInode());
    AbandonedIsUnsound(fs, AfterRestore(fs, ROOT, X).fs, [ROOT], ROOT, X);
  }
}
