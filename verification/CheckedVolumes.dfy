/** The tools and the checker agree: in a volume as the tools leave it the checker finds nothing to
    repair. */
module CheckedVolumes {
  import opened Prelude
  import opened ResourceMap
  import opened Inodes
  import opened DirBlock
  import opened Directory
  import opened Volume
  import opened DirectoryTools
  import opened Soundness
  import opened SoundTools
  import opened Growth
  import opened Records
  import opened RootVolumes
  import opened Frames
  import opened Tidiness
  import Checker
  import CheckerEffect

  // ---------- what the checker looks at is reached ----------

  lemma {:induction false} DirectAt(ptr: seq<nat>, k: nat, j: nat)
    requires |ptr| == SLOTS && k <= DIRECT && j < |Direct(ptr, k)|
    ensures k + j < DIRECT && Direct(ptr, k)[j] == ptr[k + j]
    decreases DIRECT - k
  {
    if j == 0 {
    } else {
      DirectAt(ptr, k + 1, j - 1);
    }
  }

  lemma {:induction false} EntriesAt(b: Block, k: nat, j: nat)
    requires k <= PTRS && j < |Inodes.Entries(b, k)|
    ensures k + j < PTRS && Inodes.Entries(b, k)[j] == U32At(b, 4 * (k + j))
    decreases PTRS - k
  {
    hide U32At;
    if j == 0 {
    } else {
      EntriesAt(b, k + 1, j - 1);
    }
  }

  lemma DirectHas(i: Inode, n: nat)
    requires n != 0 && n in i.ptr[..DIRECT] && forall k :: |Direct(i.ptr, 0)| <= k < DIRECT ==> i.ptr[k] == 0
    ensures n in Direct(i.ptr, 0)
  {
    hide Direct;
    var k :| 0 <= k < DIRECT && i.ptr[..DIRECT][k] == n;
    assert i.ptr[k] == n;
    DirectAt(i.ptr, 0, k);
  }

  lemma WordsHas(b: Block, n: nat)
    requires n != 0 && n in Checker.Words(b) && forall k :: |Inodes.Entries(b, 0)| <= k < PTRS ==> U32At(b, 4 * k) == 0
    ensures n in Inodes.Entries(b, 0)
  {
    hide Inodes.Entries, U32At;
    var k :| 0 <= k < PTRS - 1 && Checker.Words(b)[k] == n;
    EntriesAt(b, 0, k);
  }

  /** Where no pointer follows a 0, every block that the checker looks at is reached by the tools. */
  lemma TrimmedIsReached(i: Inode, disk: seq<Block>, n: nat)
    requires PointersOk(i, disk) && Trimmed(i, disk) && i.ptr[DIRECT] < |disk| && n in Checker.Reached(i, disk)
    ensures n in FreeOrder(i, disk)
  {
    hide Direct, Inodes.Entries, U32At, Checker.Words, Checker.Nonzero, PointersOk;
    if n in Checker.Nonzero(i.ptr[..DIRECT]) {
      DirectHas(i, n);
    } else {
      assert i.ptr[DIRECT] != 0;
      ShortIsDirect(i);
      if n != i.ptr[DIRECT] {
        WordsHas(disk[i.ptr[DIRECT]], n);
      }
    }
  }

  lemma ShortIsDirect(i: Inode)
    requires |Direct(i.ptr, 0)| < DIRECT ==> i.ptr[DIRECT] == 0
    requires i.ptr[DIRECT] != 0
    ensures HasIndirect(i)
  {
    hide Direct;
    DirectStops(i.ptr, 0);
  }

  // ---------- every visited record is a listed entry ----------

  /** The record at c is one of directory d's entries. */
  ghost predicate ListedAt(fs: Fs, d: nat, c: Place) {
    && c.block < |fs.disk| && RecordOk(fs.disk[c.block], c.pos) && Ino(fs.disk[c.block], c.pos) != 0
    && EntryAt(fs.disk[c.block], c.pos) in Listed(fs, d)
  }

  lemma {:induction false} ChildIsListed(disk: seq<Block>, bs: seq<nat>, c: Place)
    requires AllTiled(disk, bs) && c in Checker.Children(disk, bs)
    ensures c.block < |disk| && RecordOk(disk[c.block], c.pos) && Ino(disk[c.block], c.pos) != 0
    ensures EntryAt(disk[c.block], c.pos) in Listing(disk, bs)
    decreases |bs|
  {
    hide Tiled, Live, Ino, RecLen, NameLen, EntryAt, Checker.Records;
    var n := bs[0];
    if c in Checker.Records(disk[n], n, 0) {
      var k :| 0 <= k < |Checker.Records(disk[n], n, 0)| && Checker.Records(disk[n], n, 0)[k] == c;
      Checker.RecordsAreListed(disk[n], n, 0);
      assert Live(disk[n], 0)[k] in Live(disk[n], 0);
    } else {
      ChildIsListed(disk, bs[1..], c);
    }
  }

  /** A listed record is consistent. */
  lemma ListedIsClean(fs: Fs, dirs: seq<nat>, d: nat, c: Place)
    requires Tidy(fs, dirs) && d in dirs && Checker.Readable(fs, c) && ListedAt(fs, d, c)
    ensures Checker.Clean(fs, c)
  {
    hide Tiled, OnChain, Ino, RecLen, Listed, DirOk, Accounted, LinksCounted, FreeOrder, PointersOk, Trimmed, Checker.Reached, Compact, NoDup,
         Checker.ExpectedType, AllDirsOk;
    var e := EntryAt(fs.disk[c.block], c.pos);
    assert GoodEntry(fs, dirs, e) && Typed(fs, e);
    assert InodeTidy(fs, e.inode) && Owns(fs, e.inode);
    forall n | n in Checker.ReachedFrom(fs, c) ensures n in fs.blockMap.used {
      TrimmedIsReached(fs.inodes[e.inode - 1], fs.disk, n);
    }
  }

  /** It is followed only into another of the directories. */
  lemma FollowedIsDirectory(fs: Fs, dirs: seq<nat>, d: nat, c: Place, isRoot: bool)
    requires Tidy(fs, dirs) && d in dirs && Checker.Readable(fs, c) && ListedAt(fs, d, c) && Checker.Descends(fs, c, isRoot)
    ensures Checker.InoOf(fs, c) in dirs
  {
    hide Tiled, OnChain, Ino, RecLen, Listed, DirOk, Accounted, LinksCounted, Owned, Compact, NoDup, Checker.ExpectedType, AllDirsOk, InodesTidy,
         AllGrown;
    var e := EntryAt(fs.disk[c.block], c.pos);
    assert GoodEntry(fs, dirs, e) && Typed(fs, e);
  }

  lemma ChildrenAreListed(fs: Fs, d: nat, c: Place)
    requires 1 <= d <= |fs.inodes| && AllTiled(fs.disk, Blocks(fs, d)) && c in Checker.Children(fs.disk, Blocks(fs, d))
    ensures ListedAt(fs, d, c)
  {
    hide AllTiled, Direct, Listing, Ino, EntryAt, Checker.Children;
    ChildIsListed(fs.disk, Blocks(fs, d), c);
  }

  lemma {:induction false} VisitIsClean(fs: Fs, dirs: seq<nat>, d: nat, c: Place, isRoot: bool, depth: nat)
    requires Tidy(fs, dirs) && d in dirs && Checker.Tree(fs, c, isRoot, depth) && ListedAt(fs, d, c)
    ensures Checker.AllReadable(fs, Checker.Visit(fs, c, isRoot, depth)) && Checker.AllClean(fs, Checker.Visit(fs, c, isRoot, depth))
    decreases depth, 0
  {
    hide Tidy, Checker.Readable, ListedAt, Checker.Clean, Checker.Descends, Checker.Children, Direct, Checker.InodeOf, AllTiled;
    Checker.VisitReadable(fs, c, isRoot, depth);
    ListedIsClean(fs, dirs, d, c);
    if Checker.Descends(fs, c, isRoot) {
      FollowedIsDirectory(fs, dirs, d, c, isRoot);
      FollowedBlocks(fs, c);
      var num, cs := Checker.InoOf(fs, c), Checker.Children(fs.disk, Direct(Checker.InodeOf(fs, c).ptr, 0));
      forall x | x in cs ensures ListedAt(fs, num, x) {
        ChildrenAreListed(fs, num, x);
      }
      VisitAllIsClean(fs, dirs, num, cs, depth - 1);
    }
  }

  lemma FollowedBlocks(fs: Fs, c: Place)
    requires Checker.Readable(fs, c)
    ensures 1 <= Checker.InoOf(fs, c) <= |fs.inodes| && Blocks(fs, Checker.InoOf(fs, c)) == Direct(Checker.InodeOf(fs, c).ptr, 0)
  {
    hide Direct, Tiled, OnChain, Ino;
  }

  lemma {:induction false} VisitAllIsClean(fs: Fs, dirs: seq<nat>, d: nat, cs: seq<Place>, depth: nat)
    requires Tidy(fs, dirs) && d in dirs && forall c :: c in cs ==> Checker.Tree(fs, c, false, depth) && ListedAt(fs, d, c)
    ensures Checker.AllReadable(fs, Checker.VisitAll(fs, cs, depth)) && Checker.AllClean(fs, Checker.VisitAll(fs, cs, depth))
    decreases depth, 1, |cs|
  {
    hide Tidy, Checker.Readable, ListedAt, Checker.Clean, Checker.Tree, Checker.Visit;
    if cs == [] {
    } else {
      assert cs[0] in cs;
      VisitIsClean(fs, dirs, d, cs[0], false, depth);
      VisitAllIsClean(fs, dirs, d, cs[1..], depth);
    }
  }

  // ---------- a whole run ----------

  /** The first record of the root directory is one of its entries. */
  lemma RootIsListed(fs: Fs, dirs: seq<nat>)
    requires Sound(fs, dirs) && ROOT in dirs && ROOT <= |fs.inodes| && Blocks(fs, ROOT) != []
    requires Checker.Readable(fs, Checker.RootEntry(fs))
    ensures ListedAt(fs, ROOT, Checker.RootEntry(fs))
  {
    hide Sound, UniqueNames, NoDup, Ino, RecLen, EntryAt, Tiled;
    DirectoryIsOk(fs, dirs, ROOT);
    var bs, c := Blocks(fs, ROOT), Checker.RootEntry(fs);
    assert bs[0] == c.block;
    FirstIsChild(fs.disk, bs, c);
    ChildrenAreListed(fs, ROOT, c);
  }

  lemma FirstIsChild(disk: seq<Block>, bs: seq<nat>, c: Place)
    requires AllTiled(disk, bs) && bs != [] && bs[0] == c.block && c.pos == 0
    requires c.block < |disk| && RecordOk(disk[c.block], 0) && Ino(disk[c.block], 0) != 0
    ensures c in Checker.Children(disk, bs)
  {
    hide Ino, RecLen, Checker.Records;
    Checker.RecordsStep(disk[c.block], c.block, 0);
    assert Checker.Records(disk[c.block], c.block, 0)[0] == c;
    assert Checker.Children(disk, bs)[0] == c;
  }

  lemma TidyIsStarted(fs: Fs, dirs: seq<nat>)
    requires Tidy(fs, dirs) && ROOT in dirs && Checker.MapsFit(fs) && fs.inodes[1].mode < U16
    ensures Checker.Started(fs) == fs && Checker.RootFixed(fs) == fs && Checker.CountersOff(fs) == 0
    ensures fs.inodes[1].mode / 0x1000 == S_IFDIR / 0x1000
  {
    hide DirOk, Owned, LinksCounted, AllGrown, InodesTidy, Listed, Numbers, DirsGood, AllDirsOk, Checker.RootFixed, Checker.CountersOff, Checker.Started;
    assert IsDir(fs, ROOT);
    Checker.StartedAlready(fs);
  }

  /** In a tidy volume with a root the checker finds nothing, and changes nothing. */
  lemma CheckerFindsNothing(fs: Fs, dirs: seq<nat>, depth: nat)
    requires Tidy(fs, dirs) && ROOT in dirs && ROOT <= |fs.inodes| && Blocks(fs, ROOT) != []
    requires Checker.Checkable(fs, depth)
    ensures Checker.Reported(fs, depth) == 0 && Checker.Checked(fs, depth) == fs
  {
    hide Tidy, Checker.Tree, Checker.Visit, Checker.AllReadable, Checker.AllApart, Checker.PointersInRange, Checker.RepairAll, Checker.AllClean,
         Direct, Checker.Started, Checker.MapsFit, Checker.CountersOff, Checker.RootFixed;
    TidyIsStarted(fs, dirs);
    var at := Checker.RootEntry(fs);
    TreeRoot(fs, at, depth);
    TidyIsSound(fs, dirs);
    RootIsListed(fs, dirs);
    VisitIsClean(fs, dirs, ROOT, at, true, depth);
    Checker.NothingToRepair(fs, Checker.Visit(fs, at, true, depth));
  }

  lemma TidyIsSound(fs: Fs, dirs: seq<nat>)
    requires Tidy(fs, dirs)
    ensures Sound(fs, dirs)
  {}

  lemma TreeRoot(fs: Fs, at: Place, depth: nat)
    requires Checker.Tree(fs, at, true, depth)
    ensures Checker.Readable(fs, at)
  {
    hide Checker.Readable;
  }

  /** ext2_checker on a volume that the tools have left. */
  method CheckTidy(d: Disk, ghost dirs: seq<nat>, ghost depth: nat) returns (fixed: nat)
    requires d.Valid() && Tidy(d.Value(), dirs) && ROOT in dirs && ROOT <= |d.Value().inodes|
    requires Blocks(d.Value(), ROOT) != [] && Checker.Checkable(d.Value(), depth)
    modifies d.Repr()
    ensures d.Valid() && fixed == 0 && d.Value() == old(d.Value())
  {
    hide Tidy, Checker.Checkable, Checker.Checked, Checker.Reported, Direct;
    CheckerFindsNothing(d.Value(), dirs, depth);
    fixed := Checker.Check(d, depth);
  }

  // ---------- repairs in a sound volume ----------

  /** The inodes in use whose mode is a directory's are the directories. */
  ghost predicate ModesTell(fs: Fs, dirs: seq<nat>) {
    forall i :: i in fs.inodeMap.used ==> (IsDir(fs, i) <==> i in dirs)
  }

  /** The record lies in a block of a directory. */
  ghost predicate InDirectory(fs: Fs, dirs: seq<nat>, c: Place) {
    exists d :: d in dirs && 1 <= d <= |fs.inodes| && c.block in Blocks(fs, d)
  }

  lemma FollowedByMode(fs: Fs, dirs: seq<nat>, d: nat, c: Place, isRoot: bool)
    requires Sound(fs, dirs) && ModesTell(fs, dirs) && d in dirs && Checker.Readable(fs, c) && ListedAt(fs, d, c) && Checker.Descends(fs, c, isRoot)
    ensures Checker.InoOf(fs, c) in dirs
  {
    hide Tiled, OnChain, Ino, RecLen, Listed, DirOk, Accounted, LinksCounted, Owned, Compact, NoDup, Checker.ExpectedType, AllDirsOk;
    var e := EntryAt(fs.disk[c.block], c.pos);
    assert GoodEntry(fs, dirs, e);
  }

  lemma {:induction false} ChildIn(disk: seq<Block>, bs: seq<nat>, c: Place)
    requires AllTiled(disk, bs) && c in Checker.Children(disk, bs)
    ensures c.block in bs
    decreases |bs|
  {
    hide Tiled, Checker.Records;
    var n := bs[0];
    if c in Checker.Records(disk[n], n, 0) {
      Checker.RecordsAreListed(disk[n], n, 0);
    } else {
      ChildIn(disk, bs[1..], c);
    }
  }

  lemma {:induction false} VisitStaysIn(fs: Fs, dirs: seq<nat>, d: nat, c: Place, isRoot: bool, depth: nat)
    requires Sound(fs, dirs) && ModesTell(fs, dirs) && d in dirs && Checker.Tree(fs, c, isRoot, depth) && ListedAt(fs, d, c)
    requires InDirectory(fs, dirs, c)
    ensures forall x :: x in Checker.Visit(fs, c, isRoot, depth) ==> InDirectory(fs, dirs, x)
    decreases depth, 0
  {
    hide Sound, ModesTell, Checker.Readable, ListedAt, Checker.Descends, Checker.Children, Direct, Checker.InodeOf, AllTiled, InDirectory;
    if Checker.Descends(fs, c, isRoot) {
      FollowedByMode(fs, dirs, d, c, isRoot);
      FollowedBlocks(fs, c);
      var num, cs := Checker.InoOf(fs, c), Checker.Children(fs.disk, Direct(Checker.InodeOf(fs, c).ptr, 0));
      forall x | x in cs ensures ListedAt(fs, num, x) && InDirectory(fs, dirs, x) {
        ChildrenAreListed(fs, num, x);
        ChildIn(fs.disk, Blocks(fs, num), x);
        InOne(fs, dirs, num, x);
      }
      VisitAllStaysIn(fs, dirs, num, cs, depth - 1);
    }
  }

  lemma InOne(fs: Fs, dirs: seq<nat>, d: nat, c: Place)
    requires d in dirs && 1 <= d <= |fs.inodes| && c.block in Blocks(fs, d)
    ensures InDirectory(fs, dirs, c)
  {
    hide Direct;
  }

  lemma {:induction false} VisitAllStaysIn(fs: Fs, dirs: seq<nat>, d: nat, cs: seq<Place>, depth: nat)
    requires Sound(fs, dirs) && ModesTell(fs, dirs) && d in dirs
    requires forall c :: c in cs ==> Checker.Tree(fs, c, false, depth) && ListedAt(fs, d, c) && InDirectory(fs, dirs, c)
    ensures forall x :: x in Checker.VisitAll(fs, cs, depth) ==> InDirectory(fs, dirs, x)
    decreases depth, 1, |cs|
  {
    hide Sound, ModesTell, ListedAt, Checker.Tree, Checker.Visit, InDirectory;
    if cs == [] {
    } else {
      assert cs[0] in cs;
      VisitStaysIn(fs, dirs, d, cs[0], false, depth);
      VisitAllStaysIn(fs, dirs, d, cs[1..], depth);
    }
  }

  lemma SoundIsStarted(fs: Fs, dirs: seq<nat>)
    requires Sound(fs, dirs) && ModesTell(fs, dirs) && ROOT in dirs && Checker.MapsFit(fs) && fs.inodes[1].mode < U16
    ensures Checker.Started(fs) == fs
  {
    hide DirOk, Owned, LinksCounted, Listed, Numbers, AllDirsOk, Checker.RootFixed, Checker.CountersOff, Checker.Started, Compact, NoDup;
    assert GoodDir(fs, ROOT) && IsDir(fs, ROOT);
    Checker.StartedAlready(fs);
  }

  lemma VisitedInDirectories(fs: Fs, dirs: seq<nat>, depth: nat)
    requires Sound(fs, dirs) && ModesTell(fs, dirs) && ROOT in dirs && ROOT <= |fs.inodes| && Blocks(fs, ROOT) != []
    requires Checker.Checkable(fs, depth)
    ensures Checker.Started(fs) == fs
    ensures forall x :: x in Checker.Visited(fs, depth) ==> InDirectory(fs, dirs, x)
  {
    hide Sound, ModesTell, Checker.Tree, Checker.Visit, Checker.AllReadable, Checker.AllApart, Checker.PointersInRange, Checker.Started,
         Checker.MapsFit, Direct, InDirectory;
    SoundIsStarted(fs, dirs);
    var at := Checker.RootEntry(fs);
    TreeRoot(fs, at, depth);
    RootIsListed(fs, dirs);
    RootBlockIs(fs);
    InOne(fs, dirs, ROOT, at);
    VisitStaysIn(fs, dirs, ROOT, at, true, depth);
  }

  lemma RootBlockIs(fs: Fs)
    requires ROOT <= |fs.inodes| && Blocks(fs, ROOT) != []
    ensures Checker.RootEntry(fs).block in Blocks(fs, ROOT)
  {
    assert Blocks(fs, ROOT)[0] == fs.inodes[1].ptr[0];
  }

  /** In a sound volume, whatever types and deletion times it has to repair, the checker leaves every
      file as it was: mode, size, pointers and all bytes. */
  lemma CheckerKeepsFiles(fs: Fs, dirs: seq<nat>, depth: nat, i: nat)
    requires Sound(fs, dirs) && ModesTell(fs, dirs) && ROOT in dirs && ROOT <= |fs.inodes| && Blocks(fs, ROOT) != []
    requires Checker.Checkable(fs, depth) && i in fs.inodeMap.used && i !in dirs
    ensures SameFile(fs, Checker.Checked(fs, depth), i)
  {
    hide ModesTell, Checker.Checkable, Checker.Checked, Checker.Visited, Checker.Started, Direct, Accounted, LinksCounted, AllDirsOk,
         FreeOrder, PointersOk, NoDup, Listed, DirOk, Compact, CheckerEffect.Seen;
    VisitedInDirectories(fs, dirs, depth);
    assert Owns(fs, i);
    InRangeBlocks(fs, i);
    CheckerEffect.CheckedInodes(fs, depth, i - 1);
    CheckerEffect.CheckedSize(fs, depth);
    forall n | n in Order(fs, i) ensures Checker.Checked(fs, depth).disk[n] == fs.disk[n] {
      forall c | c in Checker.Visited(fs, depth) ensures c.block != n {
        assert InDirectory(fs, dirs, c);
        var d :| d in dirs && 1 <= d <= |fs.inodes| && c.block in Blocks(fs, d);
        assert GoodDir(fs, d);
        NotAmong(fs, d, i, c.block);
      }
      CheckerEffect.UnvisitedStays(fs, depth, n);
    }
  }

  // ---------- a formatted volume ----------

  /** Where the two records of a formatted root lie. */
  function RootPlaces(): seq<Place> {
    [Place(1, 0), Place(1, 12)]
  }

  ghost predicate Formatted(fs: Fs) {
    && Tidy(fs, [ROOT]) && Root(fs, RootRecords()) && Compact(fs.inodes[ROOT - 1])
    && MapsSmall(fs)
  }

  ghost predicate MapsSmall(fs: Fs) {
    && fs.blockMap.used <= Numbers(|fs.disk|) && fs.inodeMap.used <= Numbers(|fs.inodes|)
    && |fs.disk| < U16 && ROOT <= |fs.inodes| < U16
  }

  lemma FormattedParts(fs: Fs)
    requires Tidy(fs, [ROOT]) && Root(fs, RootRecords())
    ensures Formatted(fs)
  {
    hide DirOk, Owned, LinksCounted, AllGrown, InodesTidy, Listed, Numbers, EntriesTyped, Direct, AllDirsOk, Compact, RootRecords, Chain, NoDup;
    assert GoodDir(fs, ROOT);
  }

  /** The two records, both of the root's inode, under names that begin with a dot. */
  lemma RootHeaders(b: Block)
    requires Chain(b, 0, RootRecords())
    ensures Tiled(b, 0) && RecordOk(b, 0) && RecordOk(b, 12) && OnChain(b, 0, 0) && OnChain(b, 0, 12)
    ensures Ino(b, 0) == ROOT == Ino(b, 12) && NameLen(b, 0) >= 1 && NameLen(b, 12) >= 1
    ensures b[HEADER] == DOT && b[12 + HEADER] == DOT
    ensures Checker.Records(b, 1, 0) == RootPlaces()
  {
    hide Tiled, OnChain, Ino, RecLen, NameLen;
    var rs := RootRecords();
    assert rs[1..] == [Rec(Parent(ROOT), 1012)] && rs[1..][1..] == [];
    ChainFrom(b, 0, rs, 0);
    ChainFrom(b, 0, rs, 1);
    ChainHead(b, 0, rs);
    ChainHead(b, 12, rs[1..]);
    ChainTiles(b, 12, rs[1..]);
    ChainTiles(b, BLOCK_SIZE, []);
    HeaderOf(b, 0);
    HeaderOf(b, 12);
    Checker.RecordsStep(b, 1, 0);
    Checker.RecordsStep(b, 1, 12);
    Checker.RecordsEnd(b, 1);
  }

  lemma HeaderOf(b: Block, p: nat)
    requires RecordOk(b, p) && Ino(b, p) != 0
    ensures Ino(b, p) == EntryAt(b, p).inode && NameLen(b, p) == |EntryAt(b, p).name|
    ensures NameLen(b, p) >= 1 ==> b[p + HEADER] == EntryAt(b, p).name[0]
  {
    hide Ino, RecLen;
  }

  /** The root as an inode. */
  lemma RootInode(fs: Fs)
    requires Formatted(fs)
    ensures fs.inodes[1].mode < U16 && Checker.ExpectedType(fs.inodes[1].mode) == FT_DIR && fs.inodes[1].mode / 0x1000 == S_IFDIR / 0x1000
    ensures Direct(fs.inodes[1].ptr, 0) == [1] && fs.inodes[1].ptr[0] == 1 && fs.inodes[1].ptr[DIRECT] == 0
    ensures |fs.disk| >= 2 && Chain(fs.disk[1], 0, RootRecords())
  {
    hide Sound, AllGrown, InodesTidy, Listed, Chain;
    assert IsDir(fs, ROOT);
    assert Direct(fs.inodes[1].ptr, 0)[0] == 1;
  }

  lemma RootReadable(fs: Fs, c: Place)
    requires Formatted(fs) && c in RootPlaces()
    ensures Checker.Readable(fs, c) && c.pos + HEADER < BLOCK_SIZE && Checker.InoOf(fs, c) == ROOT
    ensures Checker.Descends(fs, c, true) && !Checker.Descends(fs, c, false)
  {
    hide Tidy, Tiled, OnChain, Ino, RecLen, NameLen, Chain, Checker.ExpectedType, Direct, RootRecords;
    RootInode(fs);
    RootHeaders(fs.disk[1]);
  }

  lemma RootTree(fs: Fs)
    requires Formatted(fs)
    ensures Checker.Tree(fs, Place(1, 0), true, 1)
    ensures Checker.Visit(fs, Place(1, 0), true, 1) == [Place(1, 0)] + RootPlaces()
  {
    hide Tidy, Tiled, OnChain, Ino, RecLen, NameLen, Chain, Checker.ExpectedType, Direct, RootRecords, Checker.Readable, Checker.Descends, Checker.Records,
         Compact, MapsSmall;
    var at, cs := Place(1, 0), RootPlaces();
    RootInode(fs);
    RootHeaders(fs.disk[1]);
    OneBlock(fs.disk, 1);
    assert at in cs;
    RootReadable(fs, at);
    RootBlock(fs);
    forall c | c in cs ensures Checker.Tree(fs, c, false, 0) && Checker.Visit(fs, c, false, 0) == [c] {
      RootReadable(fs, c);
    }
    assert Checker.VisitAll(fs, cs, 0) == cs by {
      assert cs[0] in cs && cs[1] in cs && cs[1..] == [cs[1]] && cs[1..][1..] == [];
      assert Checker.VisitAll(fs, cs[1..], 0) == [cs[1]];
    }
  }

  lemma RootBlock(fs: Fs)
    requires Formatted(fs) && Checker.Readable(fs, Place(1, 0)) && Checker.InoOf(fs, Place(1, 0)) == ROOT
    ensures Direct(Checker.InodeOf(fs, Place(1, 0)).ptr, 0) == [1]
    ensures AllTiled(fs.disk, [1]) && Checker.Children(fs.disk, [1]) == RootPlaces()
  {
    hide Tidy, Tiled, OnChain, Ino, RecLen, NameLen, Chain, Direct, RootRecords, Checker.Readable, Checker.Records, Compact, MapsSmall;
    RootInode(fs);
    RootHeaders(fs.disk[1]);
    OneBlock(fs.disk, 1);
    assert [1][1..] == [];
    Checker.NoChildren(fs.disk);
    Checker.ChildrenStep(fs.disk, [1]);
  }

  /** All that is looked at for the root's records is block 1. */
  lemma RootReaches(fs: Fs, c: Place, n: nat)
    requires Formatted(fs) && c in RootPlaces() && Checker.Readable(fs, c) && n in Checker.ReachedFrom(fs, c)
    ensures n == 1
  {
    hide Tiled, OnChain, Ino, RecLen, NameLen, Chain, RootRecords, Checker.Readable, Compact, MapsSmall, Direct, Sound, AllGrown, EntriesTyped,
         PointersOk, Trimmed;
    RootReadable(fs, c);
    RootInode(fs);
    RootUsed(fs);
    assert InodeTidy(fs, ROOT);
    TrimmedIsReached(fs.inodes[1], fs.disk, n);
  }

  lemma RootUsed(fs: Fs)
    requires Tidy(fs, [ROOT])
    ensures ROOT in fs.inodeMap.used
  {
    hide DirOk, Owned, LinksCounted, AllGrown, InodesTidy, EntriesTyped, AllDirsOk, Compact, NoDup, Accounted, Listed;
    assert GoodDir(fs, ROOT);
  }

  lemma FormattedIsCheckable(fs: Fs)
    requires Formatted(fs)
    ensures Checker.Checkable(fs, 1) && Blocks(fs, ROOT) != []
  {
    hide Tidy, Root, Checker.Tree, Checker.Visit, Checker.Readable, Direct, Compact, Checker.ReachedFrom, Checker.Started, Checker.CountersOff;
    RootInode(fs);
    TidyIsStarted(fs, [ROOT]);
    RootTree(fs);
    forall c | c in RootPlaces() ensures Checker.Readable(fs, c) && Checker.InodeOf(fs, c) == fs.inodes[1] {
      RootReadable(fs, c);
    }
    assert forall c :: c in [Place(1, 0)] + RootPlaces() <==> c in RootPlaces();
    forall c, n | c in RootPlaces() && n in Checker.ReachedFrom(fs, c) ensures 1 <= n <= |fs.disk| {
      RootReaches(fs, c, n);
    }
  }

  /** A volume just formatted passes the checker. */
  method CheckFormatted(blocks: nat, inodes: nat) returns (d: Disk, fixed: nat)
    requires 2 <= blocks < U16 && ROOT <= inodes < U16
    ensures d.Valid() && Formatted(d.Value()) && fixed == 0
  {
    hide Tidy, Root, Checker.Checkable, Direct, RootRecords, ZeroFrom, Formatted;
    d := FormattedRoot(blocks, inodes);
    FormattedParts(d.Value());
    FormattedIsCheckable(d.Value());
    fixed := CheckTidy(d, [ROOT], 1);
  }
}
