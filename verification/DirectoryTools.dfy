/** Creating and deleting entries: what create_dir_entry and delete_file_entry do to the bytes of a
    directory, to the maps and to the inodes. */
module DirectoryTools {
  import opened Prelude
  import opened ResourceMap
  import opened Inodes
  import opened DirBlock
  import opened Directory
  import opened Volume

  const FT_REG_FILE := 1
  const S_IFDIR := 0x4000
  const S_IFREG := 0x8000
  const S_IFLNK := 0xA000

  ghost function Blocks(fs: Fs, dir: nat): seq<nat>
    requires 1 <= dir <= |fs.inodes|
  {
    Direct(fs.inodes[dir - 1].ptr, 0)
  }

  /** No pointer follows the first 0. */
  predicate Compact(i: Inode) {
    forall k :: |Direct(i.ptr, 0)| <= k <= DIRECT ==> i.ptr[k] == 0
  }

  /** The records of the directory tile its blocks, and no name is listed twice. */
  ghost predicate DirOk(fs: Fs, dir: nat) {
    && 1 <= dir <= |fs.inodes|
    && NoDup(Blocks(fs, dir)) && AllTiled(fs.disk, Blocks(fs, dir))
    && UniqueNames(Listed(fs, dir))
  }

  /** The entries of the directory in scan order; none where its records do not tile its blocks. */
  ghost function Listed(fs: Fs, dir: nat): seq<Entry> {
    if 1 <= dir <= |fs.inodes| && AllTiled(fs.disk, Blocks(fs, dir)) then Listing(fs.disk, Blocks(fs, dir)) else []
  }

  /** The directory as a finite map. */
  ghost function Names(fs: Fs, dir: nat): map<seq<Byte>, Entry>
    requires DirOk(fs, dir)
  {
    AsMap(Listed(fs, dir))
  }

  // ---------- creating ----------

  /** get_inode_mode. */
  function ModeOf(kind: Byte): nat {
    if kind == FT_DIR then S_IFDIR else if kind == FT_REG_FILE then S_IFREG else S_IFLNK
  }

  function BlankInode(kind: Byte): Inode {
    InodeRecord(ModeOf(kind), 0, 0, 0, 0, seq(SLOTS, i => 0))
  }

  function OneMoreLink(i: Inode): Inode {
    InodeRecord(i.mode, i.size, Inc(i.links, U16), i.sectors, i.dtime, i.ptr)
  }

  /** The inode of a new entry: `link` with one more link, or the new inode ino with its first. */
  function WithInode(fs: Fs, link: nat, ino: nat, kind: Byte): Fs
    requires 1 <= ino <= |fs.inodes|
  {
    if link == 0
    then Fs(fs.blockMap, Acquire(fs.inodeMap, ino), fs.inodes[ino - 1 := OneMoreLink(BlankInode(kind))], fs.disk)
    else Fs(fs.blockMap, fs.inodeMap, fs.inodes[ino - 1 := OneMoreLink(fs.inodes[ino - 1])], fs.disk)
  }

  function OneMoreBlock(i: Inode, n: nat, blk: nat): Inode
    requires n < DIRECT
  {
    InodeRecord(i.mode, i.size + BLOCK_SIZE, i.links, i.sectors + SECTORS_PER_BLOCK, i.dtime, i.ptr[n := blk])
  }

  /** Room for `need` bytes in the directory, or a slot for one more block. */
  ghost function SpotIn(fs: Fs, dir: nat, need: nat): Option<Place>
    requires DirOk(fs, dir)
  {
    Spot(fs.disk, Blocks(fs, dir), need)
  }

  /** The record of a new entry: put where it first fits, or alone in the new block blk. */
  ghost function WithEntry(fs: Fs, dir: nat, blk: nat, e: Entry): (r: Fs)
    requires DirOk(fs, dir) && Storable(e) && blk < |fs.disk|
    requires SpotIn(fs, dir, Need(e.name)).None? ==> |Blocks(fs, dir)| < DIRECT
    ensures |r.inodes| == |fs.inodes| && |r.disk| == |fs.disk|
  {
    match SpotIn(fs, dir, Need(e.name))
    case Some(at) =>
      SpotHasRoom(fs.disk, Blocks(fs, dir), Need(e.name));
      Fs(fs.blockMap, fs.inodeMap, fs.inodes, PutAt(fs.disk, Blocks(fs, dir), at, e))
    case None =>
      Fs(Acquire(fs.blockMap, blk), fs.inodeMap,
         fs.inodes[dir - 1 := OneMoreBlock(fs.inodes[dir - 1], |Blocks(fs, dir)|, blk)],
         fs.disk[blk := FirstEntry(e)])
  }

  /** The least number that is not in use. */
  ghost predicate LeastFree(m: Map, num: nat, count: nat) {
    1 <= num <= count && num !in m.used && Numbers(num - 1) <= m.used
  }

  lemma {:induction false} DirectGrows(ptr: seq<nat>, k: nat, blk: nat)
    requires |ptr| == SLOTS && k <= DIRECT && blk != 0
    requires var n := k + |Direct(ptr, k)|; n < DIRECT && forall j :: n <= j <= DIRECT ==> ptr[j] == 0
    ensures Direct(ptr[k + |Direct(ptr, k)| := blk], k) == Direct(ptr, k) + [blk]
    decreases DIRECT - k
  {
    if ptr[k] == 0 {
    } else {
      DirectGrows(ptr, k + 1, blk);
    }
  }

  lemma {:induction false} DirectStops(ptr: seq<nat>, k: nat)
    requires |ptr| == SLOTS && k <= DIRECT
    ensures k + |Direct(ptr, k)| <= DIRECT
    decreases DIRECT - k
  {
    if k == DIRECT || ptr[k] == 0 {
    } else {
      DirectStops(ptr, k + 1);
    }
  }

  ghost predicate CanEnter(fs: Fs, dir: nat, blk: nat, e: Entry) {
    && DirOk(fs, dir) && Compact(fs.inodes[dir - 1]) && Storable(e) && blk < |fs.disk|
    && e.name !in Names(fs, dir)
    && (SpotIn(fs, dir, Need(e.name)).None? ==> |Blocks(fs, dir)| < DIRECT && 0 < blk && blk !in Blocks(fs, dir))
  }

  /** The index at which the new entry appears in the listing. */
  ghost function EntryIndex(fs: Fs, dir: nat, e: Entry): nat
    requires DirOk(fs, dir)
  {
    match SpotIn(fs, dir, Need(e.name))
    case Some(at) =>
      SpotHasRoom(fs.disk, Blocks(fs, dir), Need(e.name));
      PutIndex(fs.disk, Blocks(fs, dir), at)
    case None => |Listed(fs, dir)|
  }

  lemma BlocksAfterEntry(fs: Fs, dir: nat, blk: nat, e: Entry)
    requires CanEnter(fs, dir, blk, e)
    ensures Blocks(WithEntry(fs, dir, blk, e), dir) ==
      if SpotIn(fs, dir, Need(e.name)).Some? then Blocks(fs, dir) else Blocks(fs, dir) + [blk]
  {
    hide Direct, AllTiled, UniqueNames, Spot, FirstEntry;
    if SpotIn(fs, dir, Need(e.name)).None? {
      DirectGrows(fs.inodes[dir - 1].ptr, 0, blk);
    }
  }

  /** Entering a new name is insertion into the listing, whichever way it is done. */
  lemma EntryIsInserted(fs: Fs, dir: nat, blk: nat, e: Entry)
    requires CanEnter(fs, dir, blk, e)
    ensures var fs' := WithEntry(fs, dir, blk, e);
      && AllTiled(fs'.disk, Blocks(fs', dir)) && NoDup(Blocks(fs', dir))
      && EntryIndex(fs, dir, e) <= |Listed(fs, dir)|
      && Listed(fs', dir) == InsertAt(Listed(fs, dir), EntryIndex(fs, dir, e), e)
  {
    hide Direct, UniqueNames, Spot, FirstEntry, AddAt, Listing, Live, Tiled;
    var bs, fs' := Blocks(fs, dir), WithEntry(fs, dir, blk, e);
    BlocksAfterEntry(fs, dir, blk, e);
    if SpotIn(fs, dir, Need(e.name)).Some? {
      SpotHasRoom(fs.disk, bs, Need(e.name));
      PutInserts(fs.disk, bs, SpotIn(fs, dir, Need(e.name)).value, e);
    } else {
      FirstEntryAlone(e);
      ListingSame(fs.disk, fs'.disk, bs);
      ListingSnoc(fs'.disk, bs, blk);
      assert InsertAt(Listed(fs, dir), |Listed(fs, dir)|, e) == Listed(fs, dir) + [e];
    }
  }

  /** create_dir_entry is insertion into the map; every other name keeps its entry. */
  lemma CreateIsInsert(fs: Fs, dir: nat, blk: nat, e: Entry)
    requires CanEnter(fs, dir, blk, e)
    ensures DirOk(WithEntry(fs, dir, blk, e), dir)
    ensures Names(WithEntry(fs, dir, blk, e), dir) == Names(fs, dir)[e.name := e]
  {
    hide WithEntry, AllTiled, EntryIndex, InsertAt;
    EntryIsInserted(fs, dir, blk, e);
    NewName(Listed(fs, dir), e.name);
    InsertIsInsert(Listed(fs, dir), EntryIndex(fs, dir, e), e);
    InsertKeepsUnique(Listed(fs, dir), EntryIndex(fs, dir, e), e);
  }

  lemma NewName(l: seq<Entry>, name: seq<Byte>)
    ensures name !in AsMap(l) <==> forall x :: x in l ==> x.name != name
  {
    MapHolds(l, name);
  }

  // ---------- deleting ----------

  ghost predicate Found(fs: Fs, dir: nat, name: seq<Byte>, at: Place) {
    DirOk(fs, dir) && FindEntry(fs.disk, Blocks(fs, dir), name) == Some(at)
  }

  /** The entry at a place found. */
  ghost function EntryIn(fs: Fs, dir: nat, name: seq<Byte>, at: Place): Entry
    requires Found(fs, dir, name, at)
  {
    Directory.FindIsFirst(fs.disk, Blocks(fs, dir), name);
    EntryAt(fs.disk[at.block], at.pos)
  }

  /** The directory bytes after delete_file_entry. */
  ghost function WithoutEntry(fs: Fs, dir: nat, name: seq<Byte>, at: Place): Fs
    requires Found(fs, dir, name, at)
  {
    Directory.FindIsFirst(fs.disk, Blocks(fs, dir), name);
    Fs(fs.blockMap, fs.inodeMap, fs.inodes, HiddenAt(fs.disk, Blocks(fs, dir), at))
  }

  /** delete_file_entry is removal from the map; every other name keeps its entry. */
  lemma DeleteIsRemove(fs: Fs, dir: nat, name: seq<Byte>, at: Place)
    requires Found(fs, dir, name, at)
    ensures DirOk(WithoutEntry(fs, dir, name, at), dir)
    ensures Names(WithoutEntry(fs, dir, name, at), dir) == Names(fs, dir) - {name}
    ensures name in Names(fs, dir) && Names(fs, dir)[name] == EntryIn(fs, dir, name, at)
  {
    EntryIsRemoved(fs, dir, name, at);
    var bs := Blocks(fs, dir);
    Directory.FindIsFirst(fs.disk, bs, name);
    RemoveIsRemove(Listed(fs, dir), Index(fs.disk, bs, at));
    RemoveKeepsUnique(Listed(fs, dir), Index(fs.disk, bs, at));
    FindIsLookup(fs.disk, bs, name);
  }

  lemma EntryIsRemoved(fs: Fs, dir: nat, name: seq<Byte>, at: Place)
    requires Found(fs, dir, name, at)
    ensures at.block in Blocks(fs, dir) && at.block < |fs.disk| && OnChain(fs.disk[at.block], 0, at.pos)
    ensures Index(fs.disk, Blocks(fs, dir), at) < |Listed(fs, dir)|
    ensures Listed(fs, dir)[Index(fs.disk, Blocks(fs, dir), at)] == EntryIn(fs, dir, name, at)
    ensures AllTiled(WithoutEntry(fs, dir, name, at).disk, Blocks(fs, dir))
    ensures Listed(WithoutEntry(fs, dir, name, at), dir) == RemoveAt(Listed(fs, dir), Index(fs.disk, Blocks(fs, dir), at))
    ensures EntryIn(fs, dir, name, at).name == name
  {
    Directory.FindIsFirst(fs.disk, Blocks(fs, dir), name);
    HidingRemoves(fs.disk, Blocks(fs, dir), at);
  }

  // ---------- the tools ----------

  /** The inner loop of find_entry. */
  method FindInBlock(d: Disk, blk: nat, name: seq<Byte>) returns (at: Option<nat>)
    requires blk < d.disk.Length && Tiled(d.disk[blk], 0)
    ensures at == DirBlock.Find(d.disk[blk], 0, name)
  {
    hide Ino, RecLen, NameLen, EntryAt;
    var b := d.disk[blk];
    var pos := 0;
    while pos != BLOCK_SIZE
      invariant pos <= BLOCK_SIZE && Tiled(b, pos)
      invariant DirBlock.Find(b, pos, name) == DirBlock.Find(b, 0, name)
      decreases BLOCK_SIZE - pos
    {
      if Ino(b, pos) != 0 {
        if EntryAt(b, pos).name == name {
          return Some(pos);
        }
      }
      pos := pos + RecLen(b, pos);
    }
    at := None;
  }

  /** find_entry; ok is false for the exit of get_name_len. */
  method FindName(d: Disk, dir: nat, name: seq<Byte>) returns (ok: bool, at: Option<Place>)
    requires d.Valid() && DirOk(d.Value(), dir)
    ensures ok <==> |name| <= NAME_MAX
    ensures ok ==> at == FindEntry(d.disk[..], Blocks(d.Value(), dir), name)
  {
    hide Tiled, DirBlock.Find, UniqueNames, Listing;
    ok, at := |name| <= NAME_MAX, None;
    if !ok {
      return;
    }
    ghost var disk := d.disk[..];
    var ptr := d.inodes[dir - 1].ptr;
    var n := 0;
    while n < DIRECT && ptr[n] != 0
      invariant n <= DIRECT && AllTiled(disk, Direct(ptr, n))
      invariant FindEntry(disk, Direct(ptr, n), name) == FindEntry(disk, Direct(ptr, 0), name)
    {
      assert Direct(ptr, n)[0] == ptr[n] && Direct(ptr, n)[1..] == Direct(ptr, n + 1);
      var p := FindInBlock(d, ptr[n], name);
      if p.Some? {
        return true, Some(Place(ptr[n], p.value));
      }
      n := n + 1;
    }
  }

  /** The inner loop of create_dir_entry. */
  method FitInBlock(d: Disk, blk: nat, need: nat) returns (at: Option<nat>)
    requires blk < d.disk.Length && Tiled(d.disk[blk], 0)
    ensures at == FirstFit(d.disk[blk], 0, need)
  {
    hide Ino, RecLen, NameLen, EntryAt;
    var b := d.disk[blk];
    var pos := 0;
    while pos != BLOCK_SIZE
      invariant pos <= BLOCK_SIZE && Tiled(b, pos)
      invariant FirstFit(b, pos, need) == FirstFit(b, 0, need)
      decreases BLOCK_SIZE - pos
    {
      if Ino(b, pos) == 0 {
        if need <= RecLen(b, pos) {
          return Some(pos);
        }
      } else if need <= RecLen(b, pos) - Actual(b, pos) {
        return Some(pos);
      }
      pos := pos + RecLen(b, pos);
    }
    at := None;
  }

  /** The loops of create_dir_entry; n is the slot where they stop when nothing fits. */
  method FindSpot(d: Disk, dir: nat, need: nat) returns (at: Option<Place>, n: nat)
    requires d.Valid() && DirOk(d.Value(), dir)
    ensures at == SpotIn(d.Value(), dir, need)
    ensures at.None? ==> n == |Blocks(d.Value(), dir)| <= DIRECT
  {
    hide Tiled, FirstFit, UniqueNames, Listing;
    ghost var disk := d.disk[..];
    var ptr := d.inodes[dir - 1].ptr;
    n := 0;
    while n < DIRECT && ptr[n] != 0
      invariant n <= DIRECT && AllTiled(disk, Direct(ptr, n)) && |Direct(ptr, 0)| == n + |Direct(ptr, n)|
      invariant Spot(disk, Direct(ptr, n), need) == Spot(disk, Direct(ptr, 0), need)
    {
      assert Direct(ptr, n)[0] == ptr[n] && Direct(ptr, n)[1..] == Direct(ptr, n + 1);
      var p := FitInBlock(d, ptr[n], need);
      if p.Some? {
        return Some(Place(ptr[n], p.value)), n;
      }
      n := n + 1;
    }
    at := None;
  }

  /** allocate_inode; None is the exit when all are in use. */
  method AllocateInode(d: Disk, kind: Byte) returns (num: Option<nat>)
    requires d.Valid()
    modifies d.inodeMap, d.inodeMap.bytes, d.inodes
    ensures d.Valid()
    ensures num.None? <==> old(d.inodeMap.Value()).used == Numbers(d.inodes.Length)
    ensures num.None? ==> d.Value() == old(d.Value())
    ensures num.Some? ==>
      && LeastFree(old(d.inodeMap.Value()), num.value, d.inodes.Length)
      && d.Value() == old(d.Value()).(inodeMap := Acquire(old(d.inodeMap.Value()), num.value),
                                      inodes := old(d.inodes[..])[num.value - 1 := BlankInode(kind)])
  {
    num := d.inodeMap.Allocate();
    if num.Some? {
      d.inodes[num.value - 1] := BlankInode(kind);
    }
  }

  /** init_dir_entry; None is the exit when a new inode is needed and there is none. */
  method InitEntry(d: Disk, at: Place, link: nat, recLen: nat, name: seq<Byte>, kind: Byte) returns (ino: Option<nat>)
    requires d.Valid() && link <= d.inodes.Length && |name| <= NAME_MAX && recLen < U16
    requires at.block < d.disk.Length && at.pos + HEADER + |name| <= BLOCK_SIZE
    modifies d.Repr()
    ensures d.Valid()
    ensures ino.None? <==> link == 0 && old(d.inodeMap.Value()).used == Numbers(d.inodes.Length)
    ensures ino.None? ==> d.Value() == old(d.Value())
    ensures ino.Some? ==>
      && 1 <= ino.value <= d.inodes.Length
      && (if link == 0 then LeastFree(old(d.inodeMap.Value()), ino.value, d.inodes.Length) else ino.value == link)
      && Storable(Entry(name, ino.value, kind))
      && d.Value() == WithInode(old(d.Value()), link, ino.value, kind).(
           disk := old(d.disk[..])[at.block := WriteEntry(old(d.disk[at.block]), at.pos, Entry(name, ino.value, kind), recLen)])
  {
    hide WriteEntry;
    ghost var fs := d.Value();
    ino := Some(link);
    if link == 0 {
      ino := AllocateInode(d, kind);
      if ino.None? {
        return;
      }
    }
    d.inodes[ino.value - 1] := OneMoreLink(d.inodes[ino.value - 1]);
    d.disk[at.block] := WriteEntry(d.disk[at.block], at.pos, Entry(name, ino.value, kind), recLen);
    assert d.Value() == WithInode(fs, link, ino.value, kind).(disk := d.disk[..]);
  }

  /** Neither a record with room nor a new block can be had. */
  ghost predicate NoRoom(fs: Fs, dir: nat, need: nat, blocks: nat)
    requires DirOk(fs, dir)
  {
    SpotIn(fs, dir, need).None? && (|Blocks(fs, dir)| >= DIRECT || fs.blockMap.used == Numbers(blocks))
  }

  /** What create_dir_entry does when it returns: the entry, its block and its inode. */
  ghost predicate Created(fs: Fs, fs': Fs, dir: nat, blk: nat, link: nat, e: Entry, blocks: nat) {
    && CanEnter(fs, dir, blk, e) && 1 <= e.inode <= |fs.inodes|
    && (SpotIn(fs, dir, Need(e.name)).None? ==> LeastFree(fs.blockMap, blk, blocks))
    && (if link == 0 then LeastFree(fs.inodeMap, e.inode, |fs.inodes|) else e.inode == link)
    && fs' == WithInode(WithEntry(fs, dir, blk, e), link, e.inode, e.kind)
  }

  /** The first record with room is an entry whose slack is to be split off. */
  ghost predicate Splits(fs: Fs, dir: nat, need: nat)
    requires DirOk(fs, dir)
  {
    var at := SpotIn(fs, dir, need);
    SpotIsRecord(fs, dir, need);
    at.Some? && Ino(fs.disk[at.value.block], at.value.pos) != 0
  }

  lemma SpotIsRecord(fs: Fs, dir: nat, need: nat)
    requires DirOk(fs, dir)
    ensures SpotIn(fs, dir, need).Some? ==>
      var at := SpotIn(fs, dir, need).value;
      && at.block in Blocks(fs, dir) && at.block < |fs.disk| && at.pos + HEADER <= BLOCK_SIZE
      && Tiled(fs.disk[at.block], 0) && OnChain(fs.disk[at.block], 0, at.pos)
      && RecordOk(fs.disk[at.block], at.pos) && Fits(fs.disk[at.block], at.pos, need)
  {
    hide Tiled, OnChain, Fits, Direct, UniqueNames, Listing;
    if SpotIn(fs, dir, need).Some? {
      SpotHasRoom(fs.disk, Blocks(fs, dir), need);
    }
  }

  /** The entry whose slack was to be split off has lost the slack. */
  ghost function AfterSplit(fs: Fs, dir: nat, need: nat): Fs
    requires DirOk(fs, dir) && Splits(fs, dir, need)
  {
    SpotIsRecord(fs, dir, need);
    var at := SpotIn(fs, dir, need).value;
    Fs(fs.blockMap, fs.inodeMap, fs.inodes, fs.disk[at.block := SplitAt(fs.disk[at.block], at.pos)])
  }

  /** A new block, all zeros, is the directory's last. */
  ghost function AfterNewBlock(fs: Fs, dir: nat, blk: nat): Fs
    requires DirOk(fs, dir) && |Blocks(fs, dir)| < DIRECT && blk < |fs.disk|
  {
    Fs(Acquire(fs.blockMap, blk), fs.inodeMap,
       fs.inodes[dir - 1 := OneMoreBlock(fs.inodes[dir - 1], |Blocks(fs, dir)|, blk)],
       fs.disk[blk := ZeroBlock()])
  }

  /** The image that create_dir_entry leaves when it exits: as it was, unless it is the inode that
      cannot be had, after a split has begun or a block been added. */
  ghost predicate Exited(fs: Fs, fs': Fs, dir: nat, name: seq<Byte>, blk: nat)
    requires DirOk(fs, dir)
  {
    if |name| > NAME_MAX || NoRoom(fs, dir, Need(name), |fs.disk|) then fs' == fs
    else if Splits(fs, dir, Need(name)) then fs' == AfterSplit(fs, dir, Need(name))
    else if SpotIn(fs, dir, Need(name)).Some? then fs' == fs
    else 0 < blk < |fs.disk| && LeastFree(fs.blockMap, blk, |fs.disk|) && fs' == AfterNewBlock(fs, dir, blk)
  }

  /** The two ways to add an entry, as they are written. */
  lemma AddedWhole(b: Block, q: nat, e: Entry)
    requires RecordOk(b, q) && Storable(e) && Fits(b, q, Need(e.name))
    ensures if Ino(b, q) == 0 then AddAt(b, q, e) == WriteEntry(b, q, e, RecLen(b, q))
            else AddAt(b, q, e) == WriteEntry(SplitAt(b, q), q + Actual(b, q), e, RecLen(b, q) - Actual(b, q))
  {
    hide WriteEntry, PutRecLen;
  }

  /** Where an entry has room its header and name stay in the block. */
  lemma NeedFits(b: Block, q: nat, name: seq<Byte>)
    requires RecordOk(b, q) && Fits(b, q, Need(name))
    ensures Ino(b, q) == 0 ==> q + HEADER + |name| <= BLOCK_SIZE && RecLen(b, q) < U16
    ensures Ino(b, q) != 0 ==>
      q + Actual(b, q) + HEADER + |name| <= BLOCK_SIZE && Actual(b, q) <= RecLen(b, q) && RecLen(b, q) - Actual(b, q) < U16
  {
    hide Ino, NameLen;
  }

  lemma SplitsThere(fs: Fs, dir: nat, need: nat, at: Place)
    requires DirOk(fs, dir) && SpotIn(fs, dir, need) == Some(at)
    ensures at.block < |fs.disk| && at.pos + HEADER <= BLOCK_SIZE
    ensures Splits(fs, dir, need) <==> Ino(fs.disk[at.block], at.pos) != 0
    ensures Splits(fs, dir, need) ==>
      AfterSplit(fs, dir, need) == Fs(fs.blockMap, fs.inodeMap, fs.inodes, fs.disk[at.block := SplitAt(fs.disk[at.block], at.pos)])
  {
    hide DirOk, SpotIn, Ino, SplitAt, OnChain, Tiled, Blocks;
    SpotIsRecord(fs, dir, need);
  }

  /** The entry and its inode, put together. */
  lemma CreatedThere(fs: Fs, fs': Fs, dir: nat, at: Place, link: nat, e: Entry)
    requires DirOk(fs, dir) && Compact(fs.inodes[dir - 1]) && Storable(e) && |fs.disk| > 0 && e.name !in Names(fs, dir)
    requires SpotIn(fs, dir, Need(e.name)) == Some(at) && 1 <= e.inode <= |fs.inodes|
    requires if link == 0 then LeastFree(fs.inodeMap, e.inode, |fs.inodes|) else e.inode == link
    requires at.block < |fs.disk| && RecordOk(fs.disk[at.block], at.pos) && Fits(fs.disk[at.block], at.pos, Need(e.name))
    requires fs' == WithInode(fs, link, e.inode, e.kind).(disk := fs.disk[at.block := AddAt(fs.disk[at.block], at.pos, e)])
    ensures Created(fs, fs', dir, 0, link, e, |fs.disk|)
  {
    hide DirOk, Compact, SpotIn, AddAt, Tiled, OnChain, AsMap, LeastFree, OneMoreLink, BlankInode, Direct;
  }

  /** The entry goes to a record that has room for it. */
  method CreateAt(d: Disk, dir: nat, link: nat, name: seq<Byte>, kind: Byte, at: Place) returns (ino: Option<nat>)
    requires d.Valid() && DirOk(d.Value(), dir) && Compact(d.inodes[dir - 1]) && link <= d.inodes.Length
    requires |name| <= NAME_MAX && name !in Names(d.Value(), dir) && SpotIn(d.Value(), dir, Need(name)) == Some(at)
    modifies d.Repr()
    ensures ino.None? <==> link == 0 && old(d.inodeMap.Value()).used == Numbers(d.inodes.Length)
    ensures d.Valid()
    ensures ino.None? ==>
      if Splits(old(d.Value()), dir, Need(name)) then d.Value() == AfterSplit(old(d.Value()), dir, Need(name))
      else d.Value() == old(d.Value())
    ensures ino.Some? ==> Created(old(d.Value()), d.Value(), dir, 0, link, Entry(name, ino.value, kind), d.disk.Length)
  {
    hide Tiled, UniqueNames, Listing, WriteEntry, SplitAt, Spot, Direct, LeastFree, AsMap, Created, AddAt, Splits, AfterSplit, OnChain, Ino, RecLen,
         Bitmap.Valid, Bitmap.Value;
    ghost var fs := d.Value();
    SpotIsRecord(fs, dir, Need(name));
    SplitsThere(fs, dir, Need(name), at);
    NeedFits(fs.disk[at.block], at.pos, name);
    assert d.disk[at.block] == fs.disk[at.block];
    var b, pos := d.disk[at.block], at.pos;
    if Ino(b, pos) == 0 {
      ino := InitEntry(d, at, link, RecLen(b, pos), name, kind);
    } else {
      var a := Actual(b, pos);
      d.disk[at.block] := SplitAt(b, pos);
      ino := InitEntry(d, Place(at.block, pos + a), link, RecLen(b, pos) - a, name, kind);
    }
    if ino.Some? {
      ghost var e := Entry(name, ino.value, kind);
      AddedWhole(b, pos, e);
      assert d.disk[..] == fs.disk[at.block := AddAt(b, pos, e)];
      CreatedThere(fs, d.Value(), dir, at, link, e);
    }
  }

  /** The directory gets one more block, and the entry has it to itself. */
  method CreateInNewBlock(d: Disk, dir: nat, slot: nat, link: nat, name: seq<Byte>, kind: Byte) returns (ino: Option<nat>, ghost blk: nat)
    requires d.Valid() && DirOk(d.Value(), dir) && Compact(d.inodes[dir - 1]) && link <= d.inodes.Length
    requires |name| <= NAME_MAX && name !in Names(d.Value(), dir) && SpotIn(d.Value(), dir, Need(name)).None?
    requires slot == |Blocks(d.Value(), dir)| < DIRECT && forall n :: n in Blocks(d.Value(), dir) ==> n in d.blockMap.Value().used
    modifies d.Repr()
    ensures ino.None? <==>
      || old(d.blockMap.Value()).used == Numbers(d.disk.Length)
      || (link == 0 && old(d.inodeMap.Value()).used == Numbers(d.inodes.Length))
    ensures d.Valid()
    ensures ino.None? ==>
      if old(d.blockMap.Value()).used == Numbers(d.disk.Length) then d.Value() == old(d.Value())
      else
        && 0 < blk < d.disk.Length && LeastFree(old(d.blockMap.Value()), blk, d.disk.Length)
        && d.Value() == AfterNewBlock(old(d.Value()), dir, blk)
    ensures ino.Some? ==> Created(old(d.Value()), d.Value(), dir, blk, link, Entry(name, ino.value, kind), d.disk.Length)
  {
    hide Tiled, UniqueNames, Listing, WriteEntry, Spot, Direct, AsMap;
    ghost var fs := d.Value();
    blk := 0;
    var num := d.AllocateBlock();
    if num.None? {
      return None, blk;
    }
    blk := num.value;
    var at := Place(num.value, 0);
    d.inodes[dir - 1] := OneMoreBlock(d.inodes[dir - 1], slot, num.value);
    ino := InitEntry(d, at, link, BLOCK_SIZE, name, kind);
    if ino.Some? {
      ghost var e := Entry(name, ino.value, kind);
      assert d.disk[..] == fs.disk[blk := FirstEntry(e)];
    }
  }

  /** How create_dir_entry ends. */
  ghost function CreateOutcome(fs: Fs, dir: nat, link: nat, name: seq<Byte>): Outcome
    requires DirOk(fs, dir)
  {
    if |name| > NAME_MAX then Exit
    else if name in Names(fs, dir) then EExist
    else if NoRoom(fs, dir, Need(name), |fs.disk|) then Exit
    else if link == 0 && fs.inodeMap.used == Numbers(|fs.inodes|) then Exit
    else Ok
  }

  /** create_dir_entry. */
  method CreateEntry(d: Disk, dir: nat, link: nat, name: seq<Byte>, kind: Byte) returns (r: Outcome, ino: nat, ghost blk: nat)
    requires d.Valid() && DirOk(d.Value(), dir) && Compact(d.inodes[dir - 1]) && link <= d.inodes.Length
    requires forall n :: n in Blocks(d.Value(), dir) ==> n in d.blockMap.Value().used
    modifies d.Repr()
    ensures r == CreateOutcome(old(d.Value()), dir, link, name)
    ensures d.Valid() && (r == EExist ==> d.Value() == old(d.Value()))
    ensures r == Exit ==> Exited(old(d.Value()), d.Value(), dir, name, blk)
    ensures r == Ok ==> Created(old(d.Value()), d.Value(), dir, blk, link, Entry(name, ino, kind), d.disk.Length)
  {
    hide AllTiled, NoDup, UniqueNames, Listing, AsMap, Spot, FindEntry, Created, Direct;
    ino, blk := 0, 0;
    ghost var fs := d.Value();
    var fits, found := FindName(d, dir, name);
    if !fits {
      return Exit, ino, blk;
    }
    FindIsLookup(fs.disk, Blocks(fs, dir), name);
    if found.Some? {
      return EExist, ino, blk;
    }
    var at, n := FindSpot(d, dir, Need(name));
    var num;
    if at.Some? {
      num := CreateAt(d, dir, link, name, kind, at.value);
    } else if n < DIRECT {
      num, blk := CreateInNewBlock(d, dir, n, link, name, kind);
    } else {
      return Exit, ino, blk;
    }
    if num.None? {
      return Exit, ino, blk;
    }
    r, ino := Ok, num.value;
  }

  /** The entry at p of a block can be deleted; its inode can be followed. */
  ghost predicate Deletable(fs: Fs, blk: nat, p: nat)
  {
    && blk < |fs.disk| && Tiled(fs.disk[blk], 0) && OnChain(fs.disk[blk], 0, p)
    && RecordOk(fs.disk[blk], p) && Ino(fs.disk[blk], p) != 0
    && Linked(fs, Ino(fs.disk[blk], p))
  }

  ghost function DeleteOutcome(fs: Fs, blk: nat, p: nat): Outcome
    requires Deletable(fs, blk, p)
  {
    var e := EntryAt(fs.disk[blk], p);
    if e.kind == FT_DIR then EIsDir else if fs.inodes[e.inode - 1].links == 0 then Exit else Ok
  }

  ghost function AfterDelete(fs: Fs, blk: nat, p: nat, now: nat): Fs
    requires Deletable(fs, blk, p) && DeleteOutcome(fs, blk, p) == Ok
  {
    var unlinked := AfterUnlink(fs, Ino(fs.disk[blk], p), now).value;
    Fs(unlinked.blockMap, unlinked.inodeMap, unlinked.inodes, fs.disk[blk := HideAt(fs.disk[blk], p)])
  }

  /** The body of delete_file_entry once the name has matched; prev is meaningless at the first
      record of a block. */
  method DeleteAt(d: Disk, blk: nat, prev: nat, p: nat, now: nat) returns (r: Outcome)
    requires d.Valid() && Deletable(d.Value(), blk, p)
    requires p > 0 ==> prev == Before(d.disk[blk], 0, p)
    modifies d.Repr()
    ensures d.Valid() && r == DeleteOutcome(old(d.Value()), blk, p)
    ensures d.Value() == if r == Ok then AfterDelete(old(d.Value()), blk, p, now) else old(d.Value())
  {
    hide Tiled, OnChain, Ino, RecLen, PutRecLen, PutIno, PointersOk, ReleaseAll;
    ghost var fs := d.Value();
    var b := d.disk[blk];
    var e := EntryAt(b, p);
    if e.kind == FT_DIR {
      return EIsDir;
    }
    var ok := d.Unlink(e.inode, now);
    if !ok {
      return Exit;
    }
    if p == 0 {
      d.disk[blk] := PutIno(b, 0, 0);
    } else {
      d.disk[blk] := PutRecLen(b, prev, RecLen(b, prev) + RecLen(b, p));
    }
    assert d.disk[..] == fs.disk[blk := HideAt(b, p)];
    r := Ok;
  }

  /** The inner loop of delete_file_entry; None when the block does not list the name. */
  method DeleteInBlock(d: Disk, blk: nat, name: seq<Byte>, now: nat) returns (r: Option<Outcome>)
    requires d.Valid() && blk < d.disk.Length && Tiled(d.disk[blk], 0)
    requires var p := DirBlock.Find(d.disk[blk], 0, name); p.Some? ==> Deletable(d.Value(), blk, p.value)
    modifies d.Repr()
    ensures d.Valid()
    ensures var p := DirBlock.Find(old(d.disk[blk]), 0, name);
      match p
      case None => r == None && d.Value() == old(d.Value())
      case Some(p) =>
        && r == Some(DeleteOutcome(old(d.Value()), blk, p))
        && d.Value() == if r == Some(Ok) then AfterDelete(old(d.Value()), blk, p, now) else old(d.Value())
  {
    hide Ino, RecLen, NameLen, EntryAt, AfterDelete, HideAt, AfterUnlink, PointersOk;
    ghost var fs := d.Value();
    var b := d.disk[blk];
    var pos: nat, prev: nat := 0, 0;
    while pos != BLOCK_SIZE
      invariant pos <= BLOCK_SIZE && Tiled(b, pos) && d.Valid() && d.Value() == fs
      invariant DirBlock.Find(b, pos, name) == DirBlock.Find(b, 0, name)
      invariant pos < BLOCK_SIZE ==> OnChain(b, 0, pos)
      invariant 0 < pos < BLOCK_SIZE ==> prev == Before(b, 0, pos)
      decreases BLOCK_SIZE - pos
    {
      if Ino(b, pos) != 0 {
        if EntryAt(b, pos).name == name {
          var done := DeleteAt(d, blk, prev, pos, now);
          return Some(done);
        }
      }
      ghost var next := pos + RecLen(b, pos);
      ChainNext(b, 0, pos);
      if next < BLOCK_SIZE {
        BeforeIs(b, 0, pos, next);
      }
      prev := pos;
      pos := pos + RecLen(b, pos);
    }
    r := None;
  }

  /** The inode that a listed name leads to can be followed. */
  ghost predicate NameLinked(fs: Fs, dir: nat, name: seq<Byte>)
    requires DirOk(fs, dir)
  {
    name in Names(fs, dir) ==> Linked(fs, Names(fs, dir)[name].inode)
  }

  lemma FoundIsDeletable(fs: Fs, dir: nat, name: seq<Byte>)
    requires DirOk(fs, dir) && NameLinked(fs, dir, name)
    ensures var at := FindEntry(fs.disk, Blocks(fs, dir), name);
      at.Some? ==>
        && Deletable(fs, at.value.block, at.value.pos)
        && DirBlock.Find(fs.disk[at.value.block], 0, name) == Some(at.value.pos)
  {
    hide Tiled, DirBlock.Find, UniqueNames, Listing, PointersOk;
    Directory.FindIsFirst(fs.disk, Blocks(fs, dir), name);
    FindIsLookup(fs.disk, Blocks(fs, dir), name);
  }

  /** What the deletion of a name answers, in terms of the directory as a map: a directory's name is
      refused, and the exit comes exactly for a file whose inode has no links. */
  lemma AnswerByName(fs: Fs, dir: nat, name: seq<Byte>)
    requires DirOk(fs, dir) && NameLinked(fs, dir, name)
    ensures var at := FindEntry(fs.disk, Blocks(fs, dir), name);
      && (at.None? <==> name !in Names(fs, dir))
      && (at.Some? ==>
          && Deletable(fs, at.value.block, at.value.pos)
          && var e := Names(fs, dir)[name];
          DeleteOutcome(fs, at.value.block, at.value.pos) ==
          if e.kind == FT_DIR then EIsDir else if fs.inodes[e.inode - 1].links == 0 then Exit else Ok)
  {
    hide Tiled, DirBlock.Find, UniqueNames, Listing, PointersOk, AsMap;
    FoundIsDeletable(fs, dir, name);
    FindIsLookup(fs.disk, Blocks(fs, dir), name);
  }

  /** delete_file_entry. */
  method DeleteEntry(d: Disk, dir: nat, name: seq<Byte>, now: nat) returns (r: Outcome)
    requires d.Valid() && DirOk(d.Value(), dir) && NameLinked(d.Value(), dir, name)
    modifies d.Repr()
    ensures d.Valid()
    ensures |name| > NAME_MAX ==> r == Exit && d.Value() == old(d.Value())
    ensures |name| <= NAME_MAX ==> match FindEntry(old(d.disk[..]), Blocks(old(d.Value()), dir), name)
      case None => r == ENoEnt && d.Value() == old(d.Value())
      case Some(at) =>
        && Deletable(old(d.Value()), at.block, at.pos)
        && r == DeleteOutcome(old(d.Value()), at.block, at.pos)
        && d.Value() == if r == Ok then AfterDelete(old(d.Value()), at.block, at.pos, now) else old(d.Value())
    ensures |name| <= NAME_MAX ==>
      var fs, m := old(d.Value()), Names(old(d.Value()), dir);
      && (r == ENoEnt <==> name !in m)
      && (r == EIsDir <==> name in m && m[name].kind == FT_DIR)
      && (r == Exit <==> name in m && m[name].kind != FT_DIR && fs.inodes[m[name].inode - 1].links == 0)
      && (r == Ok <==> name in m && m[name].kind != FT_DIR && fs.inodes[m[name].inode - 1].links != 0)
    ensures r != Ok ==> d.Value() == old(d.Value())
  {
    hide Tiled, DirBlock.Find, UniqueNames, Listing, AfterDelete, AfterUnlink, DeleteOutcome, Deletable, NameLinked, Direct, AsMap, Bitmap.Valid, Bitmap.Value;
    ghost var fs := d.Value();
    if |name| > NAME_MAX {
      return Exit;
    }
    AnswerByName(fs, dir, name);
    var ptr := d.inodes[dir - 1].ptr;
    ghost var whole := FindEntry(fs.disk, Direct(ptr, 0), name);
    FoundIsDeletable(fs, dir, name);
    var n := 0;
    while n < DIRECT && ptr[n] != 0
      invariant n <= DIRECT && AllTiled(fs.disk, Direct(ptr, n)) && d.Valid() && d.Value() == fs
      invariant FindEntry(fs.disk, Direct(ptr, n), name) == whole
    {
      DirectFrom(ptr, n);
      assert Direct(ptr, n)[0] == ptr[n] && Direct(ptr, n)[1..] == Direct(ptr, n + 1);
      var done := DeleteInBlock(d, ptr[n], name, now);
      if done.Some? {
        return done.value;
      }
      n := n + 1;
    }
    DirectFrom(ptr, n);
    r := ENoEnt;
  }
}
