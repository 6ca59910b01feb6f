/** The mounted image: bitmaps, inode table and blocks, changed in place by the ext2 tools. */
module Volume {
  import opened Prelude
  import opened ResourceMap
  import opened Inodes
  import opened FileData

  /** The value of a volume. Inode number n is inodes[n - 1]; block number n is disk[n]. */
  datatype Fs = Fs(blockMap: Map, inodeMap: Map, inodes: seq<Inode>, disk: seq<Block>)

  // ---------- unlinking and reclaiming ----------

  ghost predicate Linked(fs: Fs, num: nat) {
    1 <= num <= |fs.inodes| && PointersOk(fs.inodes[num - 1], fs.disk)
  }

  /** unlink_inode; None is the exit for an inode that has no links. */
  ghost function AfterUnlink(fs: Fs, num: nat, now: nat): Option<Fs>
    requires Linked(fs, num)
  {
    var i := fs.inodes[num - 1];
    if i.links == 0 then None
    else if i.links > 1 then Some(fs.(inodes := fs.inodes[num - 1 := i.(links := i.links - 1)]))
    else Some(fs.(inodes := fs.inodes[num - 1 := i.(links := 0, dtime := now)],
                  blockMap := ReleaseAll(fs.blockMap, FreeOrder(i, fs.disk)),
                  inodeMap := Release(fs.inodeMap, num)))
  }

  /** Neither the inode nor any block it points to is in use. */
  ghost predicate AllFree(fs: Fs, num: nat)
    requires Linked(fs, num)
  {
    num !in fs.inodeMap.used && forall n :: n in ClaimOrder(fs.inodes[num - 1], fs.disk) ==> n !in fs.blockMap.used
  }

  /** The inode is in use again, under its one link, with the blocks taken so far. */
  ghost function Revived(fs: Fs, num: nat, blockMap: Map): Fs
    requires 1 <= num <= |fs.inodes|
  {
    fs.(inodes := fs.inodes[num - 1 := fs.inodes[num - 1].(links := 1, dtime := 0)], blockMap := blockMap, inodeMap := Acquire(fs.inodeMap, num))
  }

  /** reclaim_inode_and_data_blocks: Refused is ENOENT, Clash is the exit when a block is claimed
      twice; the inode and the blocks before that one have been taken then. */
  datatype Reclaimed = Refused | Clash(left: Fs) | Restored(fs: Fs)

  ghost function AfterReclaim(fs: Fs, num: nat): Reclaimed
    requires Linked(fs, num)
  {
    if !AllFree(fs, num) then Refused
    else
      var order := ClaimOrder(fs.inodes[num - 1], fs.disk);
      match ClaimAll(fs.blockMap, order)
      case None => Clash(Revived(fs, num, ClaimUpTo(fs.blockMap, order)))
      case Some(blockMap) => Restored(Revived(fs, num, blockMap))
  }

  /** The exit happens exactly when everything is free and some block is reached twice. */
  lemma ClashExactly(fs: Fs, num: nat)
    requires Linked(fs, num)
    ensures AfterReclaim(fs, num).Clash? <==> AllFree(fs, num) && !NoDup(ClaimOrder(fs.inodes[num - 1], fs.disk))
  {
    hide ClaimOrder, NoDup, PointersOk, ClaimAll;
    ClaimAllValue(fs.blockMap, ClaimOrder(fs.inodes[num - 1], fs.disk));
  }

  /** Unlinking the last link of a live file and reclaiming it restores both bitmaps, all four
      counters, the inode and every block. */
  lemma ReclaimUndoesUnlink(fs: Fs, num: nat, now: nat)
    requires Linked(fs, num) && CountersFit(fs.blockMap) && CountersFit(fs.inodeMap)
    requires fs.inodes[num - 1].links == 1 && fs.inodes[num - 1].dtime == 0 && num in fs.inodeMap.used
    requires var order := FreeOrder(fs.inodes[num - 1], fs.disk); NoDup(order) && forall n :: n in order ==> n in fs.blockMap.used
    ensures AfterUnlink(fs, num, now).Some? && Linked(AfterUnlink(fs, num, now).value, num)
    ensures AfterReclaim(AfterUnlink(fs, num, now).value, num) == Restored(fs)
  {
    var i := fs.inodes[num - 1];
    var fs1 := AfterUnlink(fs, num, now).value;
    var i1 := fs1.inodes[num - 1];
    assert FreeOrder(i1, fs1.disk) == FreeOrder(i, fs.disk) && ClaimOrder(i1, fs1.disk) == ClaimOrder(i, fs.disk);
    SameBlocks(i, fs.disk);
    ReleaseAllValue(fs.blockMap, FreeOrder(i, fs.disk));
    ClaimUndoesRelease(fs.blockMap, FreeOrder(i, fs.disk), ClaimOrder(i, fs.disk));
    AcquireUndoesRelease(fs.inodeMap, num);
    assert AllFree(fs1, num) by {
      assert forall n :: n in ClaimOrder(i, fs.disk) ==> n in Elements(FreeOrder(i, fs.disk));
    }
    assert fs1.inodes[num - 1 := i1.(links := 1, dtime := 0)] == fs.inodes;
  }

  // ---------- copying a file in ----------

  /** The blocks claimed by a copy, in order. */
  function Claimed(ds: seq<nat>, ind: nat, es: seq<nat>): seq<nat> {
    ds + if ind == 0 then [] else [ind] + es
  }

  /** The inode has taken `blocks` blocks and len bytes; its other fields are as before. */
  predicate Counted(i0: Inode, i: Inode, blocks: nat, len: nat) {
    i == InodeRecord(i0.mode, len, i0.links, SECTORS_PER_BLOCK * blocks, i0.dtime, i.ptr)
  }

  /** How far a copy of src into inode num has come: ds and es are the data blocks so far, ind
      the indirect block or 0. */
  ghost predicate Copying(fs0: Fs, fs: Fs, num: nat, src: seq<Byte>, ds: seq<nat>, ind: nat, es: seq<nat>) {
    && 1 <= num <= |fs0.inodes| == |fs.inodes| && |fs0.disk| == |fs.disk|
    && fs.inodeMap == fs0.inodeMap
    && (forall k :: 0 <= k < |fs.inodes| && k != num - 1 ==> fs.inodes[k] == fs0.inodes[k])
    && ClaimAll(fs0.blockMap, Claimed(ds, ind, es)) == Some(fs.blockMap)
    && (forall n :: n in Claimed(ds, ind, es) ==> 0 < n < |fs.disk|)
    && (forall n :: 0 <= n < |fs.disk| && n !in Claimed(ds, ind, es) ==> fs.disk[n] == fs0.disk[n])
    && Stored(fs.disk, ds, src, 0) && Stored(fs.disk, es, src, DIRECT)
    && Slots(fs.inodes[num - 1], ds, ind)
    && Counted(fs0.inodes[num - 1], fs.inodes[num - 1], |Claimed(ds, ind, es)|, Least(BLOCK_SIZE * (|ds| + |es|), |src|))
    && (if ind == 0 then es == [] else |ds| == DIRECT && ind < |fs.disk| && Lists(fs.disk[ind], es))
  }

  lemma CopiedApart(fs0: Fs, fs: Fs, num: nat, src: seq<Byte>, ds: seq<nat>, ind: nat, es: seq<nat>, n: nat)
    requires Copying(fs0, fs, num, src, ds, ind, es) && n !in fs.blockMap.used
    ensures n !in ds && n !in es && n !in fs0.blockMap.used && (ind != 0 ==> n != ind)
    ensures n !in Claimed(ds, ind, es)
  {
    ClaimAllValue(fs0.blockMap, Claimed(ds, ind, es));
    assert forall x :: x in Claimed(ds, ind, es) ==> x in Elements(Claimed(ds, ind, es));
  }

  function SetSlot(i: Inode, k: nat, n: nat): Inode
    requires k < SLOTS
  {
    i.(ptr := i.ptr[k := n])
  }

  /** One more block, holding len more bytes, in the inode's counts. */
  function CountBlock(i: Inode, len: nat): Inode {
    i.(sectors := i.sectors + SECTORS_PER_BLOCK, size := i.size + len)
  }

  /** The number of bytes in the j-th block of the source. */
  function ChunkLength(src: seq<Byte>, j: nat): nat
    requires BLOCK_SIZE * j <= |src|
  {
    Least(BLOCK_SIZE * (j + 1), |src|) - BLOCK_SIZE * j
  }

  function StoreDirect(fs: Fs, num: nat, src: seq<Byte>, k: nat, n: nat): Fs
    requires 1 <= num <= |fs.inodes| && k < DIRECT && n < |fs.disk| && BLOCK_SIZE * k < |src|
  {
    Fs(Acquire(fs.blockMap, n), fs.inodeMap,
       fs.inodes[num - 1 := CountBlock(SetSlot(fs.inodes[num - 1], k, n), ChunkLength(src, k))],
       fs.disk[n := Chunk(src, k)])
  }

  lemma CopyDirectStep(fs0: Fs, fs: Fs, num: nat, src: seq<Byte>, ds: seq<nat>, n: nat)
    requires Copying(fs0, fs, num, src, ds, 0, []) && |ds| < DIRECT && BLOCK_SIZE * |ds| < |src|
    requires 0 < n < |fs.disk| && n !in fs.blockMap.used
    ensures Copying(fs0, StoreDirect(fs, num, src, |ds|, n), num, src, ds + [n], 0, [])
  {
    hide ClaimAll, Chunk, Acquire;
    CopiedApart(fs0, fs, num, src, ds, 0, [], n);
    assert Claimed(ds, 0, []) == ds && Claimed(ds + [n], 0, []) == ds + [n];
    ClaimSnoc(fs0.blockMap, ds, fs.blockMap, n);
  }

  function StoreIndirectBlock(fs: Fs, num: nat, n: nat): Fs
    requires 1 <= num <= |fs.inodes| && n < |fs.disk|
  {
    Fs(Acquire(fs.blockMap, n), fs.inodeMap,
       fs.inodes[num - 1 := CountBlock(SetSlot(fs.inodes[num - 1], DIRECT, n), 0)],
       fs.disk[n := ZeroBlock()])
  }

  lemma CopyIndirectStart(fs0: Fs, fs: Fs, num: nat, src: seq<Byte>, ds: seq<nat>, n: nat)
    requires Copying(fs0, fs, num, src, ds, 0, []) && |ds| == DIRECT
    requires 0 < n < |fs.disk| && n !in fs.blockMap.used
    ensures Copying(fs0, StoreIndirectBlock(fs, num, n), num, src, ds, n, [])
  {
    hide ClaimAll, Chunk, Acquire;
    CopiedApart(fs0, fs, num, src, ds, 0, [], n);
    assert Claimed(ds, 0, []) == ds && Claimed(ds, n, []) == ds + [n];
    ClaimSnoc(fs0.blockMap, ds, fs.blockMap, n);
    ZeroBlockLists();
  }

  function SetWord(b: Block, k: nat, n: nat): Block
    requires k < PTRS && n < U32
  {
    Splice(b, 4 * k, U32Bytes(n))
  }

  function StoreIndirect(fs: Fs, num: nat, src: seq<Byte>, ind: nat, k: nat, n: nat): Fs
    requires 1 <= num <= |fs.inodes| && k < PTRS && BLOCK_SIZE * (DIRECT + k) < |src|
    requires n < |fs.disk| && ind < |fs.disk| && n < U32 && n != ind
  {
    Fs(Acquire(fs.blockMap, n), fs.inodeMap,
       fs.inodes[num - 1 := CountBlock(fs.inodes[num - 1], ChunkLength(src, DIRECT + k))],
       fs.disk[n := Chunk(src, DIRECT + k)][ind := SetWord(fs.disk[ind], k, n)])
  }

  /** The blocks after one more block of the indirect part has been stored. */
  lemma CopyIndirectBlocks(fs0: Fs, fs: Fs, num: nat, src: seq<Byte>, ds: seq<nat>, ind: nat, es: seq<nat>, n: nat)
    requires Copying(fs0, fs, num, src, ds, ind, es) && ind != 0 && |es| < PTRS && BLOCK_SIZE * (DIRECT + |es|) < |src|
    requires 0 < n < |fs.disk| && n !in fs.blockMap.used && n < U32 && n != ind
    ensures var disk := StoreIndirect(fs, num, src, ind, |es|, n).disk;
      && Stored(disk, ds, src, 0) && Stored(disk, es + [n], src, DIRECT) && Lists(disk[ind], es + [n])
      && forall x :: 0 <= x < |disk| && x !in Claimed(ds, ind, es) && x != n ==> disk[x] == fs0.disk[x]
  {
    hide ClaimAll, Lists, Splice, U32Bytes, Chunk, Acquire, Stored, Slots, Counted;
    var fs1 := StoreIndirect(fs, num, src, ind, |es|, n);
    CopiedApart(fs0, fs, num, src, ds, ind, es, n);
    ListsOneMore(fs.disk[ind], es, n);
    ClaimAllValue(fs0.blockMap, Claimed(ds, ind, es));
    IndirectApart(ds, ind, es);
    assert forall x :: x in ds || x in es ==> x in Claimed(ds, ind, es) && x != n && x != ind;
    StoredKeeps(fs.disk, fs1.disk, ds, src, 0);
    StoredSnoc(fs.disk, fs1.disk, es, n, src, DIRECT);
    assert ind in Claimed(ds, ind, es);
  }

  lemma CopyIndirectStep(fs0: Fs, fs: Fs, num: nat, src: seq<Byte>, ds: seq<nat>, ind: nat, es: seq<nat>, n: nat)
    requires Copying(fs0, fs, num, src, ds, ind, es) && ind != 0 && |es| < PTRS && BLOCK_SIZE * (DIRECT + |es|) < |src|
    requires 0 < n < |fs.disk| && n !in fs.blockMap.used && n < U32 && n != ind
    ensures Copying(fs0, StoreIndirect(fs, num, src, ind, |es|, n), num, src, ds, ind, es + [n])
  {
    hide ClaimAll, Lists, Stored, SetWord, Chunk, Acquire;
    CopyIndirectBlocks(fs0, fs, num, src, ds, ind, es, n);
    assert Claimed(ds, ind, es + [n]) == Claimed(ds, ind, es) + [n];
    ClaimSnoc(fs0.blockMap, Claimed(ds, ind, es), fs.blockMap, n) by {
      CopiedApart(fs0, fs, num, src, ds, ind, es, n);
    }
  }

  lemma IndirectInUse(fs0: Fs, fs: Fs, num: nat, src: seq<Byte>, ds: seq<nat>, ind: nat, es: seq<nat>)
    requires Copying(fs0, fs, num, src, ds, ind, es) && ind != 0
    ensures 1 <= num <= |fs.inodes| && ind < |fs.disk| && ind in fs.blockMap.used
  {
    ClaimAllValue(fs0.blockMap, Claimed(ds, ind, es));
    assert ind in Claimed(ds, ind, es);
    assert ind in Elements(Claimed(ds, ind, es));
  }

  lemma IndirectApart(ds: seq<nat>, ind: nat, es: seq<nat>)
    requires ind != 0 && NoDup(Claimed(ds, ind, es))
    ensures ind !in ds && ind !in es
  {
    var all := Claimed(ds, ind, es);
    assert all[|ds|] == ind;
    assert forall j :: 0 <= j < |ds| ==> all[j] == ds[j];
    assert forall j :: 0 <= j < |es| ==> all[|ds| + 1 + j] == es[j];
  }

  /** The blocks a copy of len bytes takes: at most 268 for data, and the indirect one after 12. */
  function Needed(len: nat): nat {
    var blocks := Least(BlocksFor(len), MAX_BLOCKS);
    blocks + if blocks > DIRECT then 1 else 0
  }

  /** An inode without contents, as allocate_inode leaves it. */
  predicate Empty(i: Inode) {
    i.size == i.sectors == 0 && forall j :: 0 <= j <= DIRECT ==> i.ptr[j] == 0
  }

  lemma CopyStart(fs: Fs, num: nat, src: seq<Byte>)
    requires 1 <= num <= |fs.inodes| && Empty(fs.inodes[num - 1])
    ensures Copying(fs, fs, num, src, [], 0, [])
  {}

  /** The source is in the file, byte by byte, up to 268 blocks; nothing else has changed, no pointer
      follows the file's last, and freeing the file's blocks gives back the block map and its counters. */
  ghost predicate Copied(fs0: Fs, fs: Fs, num: nat, src: seq<Byte>) {
    && 1 <= num <= |fs0.inodes| == |fs.inodes| && |fs0.disk| == |fs.disk|
    && var i := fs.inodes[num - 1];
    && var len := Least(|src|, BLOCK_SIZE * MAX_BLOCKS);
    && Counted(fs0.inodes[num - 1], i, Needed(|src|), len)
    && (forall x :: 0 <= x < len ==> Reads(i, fs.disk, x, src[x]))
    && PointersOk(i, fs.disk) && Trimmed(i, fs.disk) && NoDup(FreeOrder(i, fs.disk))
    && |FreeOrder(i, fs.disk)| == Needed(|src|)
    && (forall n :: n in FreeOrder(i, fs.disk) ==> 0 < n && n in fs.blockMap.used && n !in fs0.blockMap.used)
    && ClaimAll(fs0.blockMap, ClaimOrder(i, fs.disk)) == Some(fs.blockMap)
    && ReleaseAll(fs.blockMap, FreeOrder(i, fs.disk)) == fs0.blockMap
    && fs.inodeMap == fs0.inodeMap
    && (forall k :: 0 <= k < |fs.inodes| && k != num - 1 ==> fs.inodes[k] == fs0.inodes[k])
    && (forall n :: 0 <= n < |fs.disk| && n in fs0.blockMap.used ==> fs.disk[n] == fs0.disk[n])
  }

  /** Walking the inode's pointers to byte x finds b. */
  predicate Reads(i: Inode, disk: seq<Block>, x: nat, b: Byte) {
    var j := x / BLOCK_SIZE;
    && j < MAX_BLOCKS && (j >= DIRECT ==> i.ptr[DIRECT] < |disk|)
    && BlockOf(i, disk, j) < |disk| && ByteAt(i, disk, x) == b
  }

  lemma CopyEnd(fs0: Fs, fs: Fs, num: nat, src: seq<Byte>, ds: seq<nat>, ind: nat, es: seq<nat>)
    requires Copying(fs0, fs, num, src, ds, ind, es) && CountersFit(fs0.blockMap)
    requires |ds| + |es| == Least(BlocksFor(|src|), MAX_BLOCKS) && (ind != 0 <==> es != [])
    ensures Copied(fs0, fs, num, src)
  {
    hide ClaimAll, Lists, Chunk, Stored, ReleaseAll, Direct, Entries, Trimmed;
    var i := fs.inodes[num - 1];
    var len := Least(|src|, BLOCK_SIZE * MAX_BLOCKS);
    assert Laid(i, fs.disk, ds, es, src, len);
    LaidOrder(i, fs.disk, ds, es, src, len);
    forall x | 0 <= x < len ensures Reads(i, fs.disk, x, src[x]) {
      ReadsBack(i, fs.disk, ds, es, src, len, x);
    }
    var all := Claimed(ds, ind, es);
    ClaimAllValue(fs0.blockMap, all);
    assert FreeOrder(i, fs.disk) == ds + if ind == 0 then [] else es + [ind];
    assert ClaimOrder(i, fs.disk) == all;
    CopyOrder(ds, ind, es);
    ReleaseUndoesClaim(fs0.blockMap, all, FreeOrder(i, fs.disk));
    assert forall n :: n in all ==> n in Elements(all);
  }

  /** A copy that has claimed so many blocks and finds the disk full cannot have had enough. */
  lemma CopyFull(fs0: Fs, fs: Fs, num: nat, src: seq<Byte>, ds: seq<nat>, ind: nat, es: seq<nat>, count: nat)
    requires Copying(fs0, fs, num, src, ds, ind, es) && |fs.disk| == count
    requires fs0.blockMap.used <= Numbers(count)
    ensures |fs.blockMap.used| == |fs0.blockMap.used| + |Claimed(ds, ind, es)| <= count
    ensures fs.blockMap.used == Numbers(count) ==> |Claimed(ds, ind, es)| == count - |fs0.blockMap.used|
  {
    ClaimedSize(fs0.blockMap, Claimed(ds, ind, es), count);
    NumbersSize(count);
  }

  lemma CopyOrder(ds: seq<nat>, ind: nat, es: seq<nat>)
    requires ind == 0 ==> es == []
    ensures var order := ds + if ind == 0 then [] else es + [ind];
      && |order| == |Claimed(ds, ind, es)| && (NoDup(Claimed(ds, ind, es)) ==> NoDup(order))
      && forall n :: n in order <==> n in Claimed(ds, ind, es)
  {
    if ind != 0 && NoDup(Claimed(ds, ind, es)) {
      UnrotateNoDup(ds, es, ind);
    }
  }

  /** Only the pointers decide what is claimed. */
  lemma RevivedOrder(fs: Fs, fs1: Fs, num: nat)
    requires Linked(fs, num) && |fs1.inodes| == |fs.inodes| && fs1.disk == fs.disk && fs1.inodes[num - 1].ptr == fs.inodes[num - 1].ptr
    ensures Linked(fs1, num) && ClaimOrder(fs1.inodes[num - 1], fs1.disk) == ClaimOrder(fs.inodes[num - 1], fs.disk)
  {
    hide Direct, Entries;
  }

  class Disk {
    const blockMap: Bitmap
    const inodeMap: Bitmap
    const inodes: array<Inode>
    const disk: array<Block>

    ghost function Repr(): set<object>
    {
      {blockMap, blockMap.bytes, inodeMap, inodeMap.bytes, inodes, disk}
    }

    /** Blocks 0, ..., count - 1 are in the image; the bit of block `count` is padding. */
    ghost predicate Valid()
      reads Repr()
    {
      && blockMap != inodeMap && blockMap.bytes != inodeMap.bytes
      && blockMap.Valid() && inodeMap.Valid()
      && inodes.Length == inodeMap.count < U16
      && disk.Length == blockMap.count < U16
      && blockMap.count in blockMap.Value().used
    }

    ghost function Value(): Fs
      requires Valid()
      reads Repr()
    {
      Fs(blockMap.Value(), inodeMap.Value(), inodes[..], disk[..])
    }

    /** The image as mapped into memory. */
    constructor (blockMap: Bitmap, inodeMap: Bitmap, inodes: array<Inode>, disk: array<Block>)
      ensures this.blockMap == blockMap && this.inodeMap == inodeMap && this.inodes == inodes && this.disk == disk
    {
      this.blockMap := blockMap;
      this.inodeMap := inodeMap;
      this.inodes := inodes;
      this.disk := disk;
    }

    /** The number in slot k of an indirect block. */
    method ReadWord(block: nat, k: nat) returns (x: nat)
      requires block < disk.Length && k < PTRS
      ensures x == U32At(disk[block], 4 * k)
    {
      x := U32At(disk[block], 4 * k);
    }

    /** The first loop of free_data_blocks; n is the slot where it stops. */
    method FreeDirect(ptr: seq<nat>) returns (n: nat)
      requires |ptr| == SLOTS && blockMap.Valid() && forall x :: x in Direct(ptr, 0) ==> x <= blockMap.count
      modifies blockMap, blockMap.bytes
      ensures blockMap.Valid() && blockMap.Value() == ReleaseAll(old(blockMap.Value()), Direct(ptr, 0))
      ensures n == |Direct(ptr, 0)| <= DIRECT && (n < DIRECT ==> ptr[n] == 0)
    {
      hide Direct, ReleaseAll, Acquire, Release, Bitmap.Valid, Bitmap.Value;
      ghost var m := blockMap.Value();
      n := 0;
      while n < DIRECT && ptr[n] != 0
        invariant n <= DIRECT && blockMap.Valid()
        invariant ReleaseAll(blockMap.Value(), Direct(ptr, n)) == ReleaseAll(m, Direct(ptr, 0))
        invariant |Direct(ptr, 0)| == n + |Direct(ptr, n)|
        invariant forall x :: x in Direct(ptr, n) ==> x in Direct(ptr, 0)
      {
        DirectFrom(ptr, n);
        ReleaseOne(blockMap.Value(), ptr[n], Direct(ptr, n + 1));
        blockMap.Free(ptr[n]);
        n := n + 1;
      }
      DirectFrom(ptr, n);
      ReleaseNothing(blockMap.Value());
    }

    /** The second loop: the blocks listed in the indirect block. The source reads one word past
        slot 255 and never uses it. */
    method FreeEntries(indirect: nat)
      requires blockMap.Valid() && indirect < disk.Length
      requires forall x :: x in Entries(disk[indirect], 0) ==> x <= blockMap.count
      modifies blockMap, blockMap.bytes
      ensures blockMap.Valid() && blockMap.Value() == ReleaseAll(old(blockMap.Value()), Entries(disk[indirect], 0))
    {
      hide U32At, Acquire, Release, Bitmap.Valid, Bitmap.Value;
      ghost var m, b := blockMap.Value(), disk[indirect];
      var k := 0;
      var direct := ReadWord(indirect, 0);
      while k < PTRS && direct != 0
        invariant k <= PTRS && blockMap.Valid() && disk[indirect] == b
        invariant k < PTRS ==> direct == U32At(b, 4 * k)
        invariant ReleaseAll(blockMap.Value(), Entries(b, k)) == ReleaseAll(m, Entries(b, 0))
        invariant forall x :: x in Entries(b, k) ==> x in Entries(b, 0)
      {
        assert direct in Entries(b, k);
        blockMap.Free(direct);
        k := k + 1;
        if k < PTRS {
          direct := ReadWord(indirect, k);
        }
      }
    }

    /** free_data_blocks. */
    method FreeDataBlocks(num: nat)
      requires Valid() && Linked(Value(), num)
      modifies blockMap, blockMap.bytes
      ensures Valid()
      ensures blockMap.Value() == ReleaseAll(old(blockMap.Value()), FreeOrder(inodes[num - 1], disk[..]))
    {
      hide Direct, Entries, ReleaseAll, Bitmap.Value;
      var ptr := inodes[num - 1].ptr;
      ghost var m := blockMap.Value();
      var n := FreeDirect(ptr);
      var indirect := ptr[n];
      if indirect != 0 {
        FreeEntries(indirect);
        blockMap.Free(indirect);
        ReleaseAllConcat(m, Direct(ptr, 0), Entries(disk[indirect], 0) + [indirect]);
        ReleaseAllConcat(ReleaseAll(m, Direct(ptr, 0)), Entries(disk[indirect], 0), [indirect]);
        ReleaseLast(ReleaseAll(ReleaseAll(m, Direct(ptr, 0)), Entries(disk[indirect], 0)), indirect);
      } else {
        assert Direct(ptr, 0) + [] == Direct(ptr, 0);
      }
      ReleaseAllValue(m, FreeOrder(inodes[num - 1], disk[..]));
    }

    /** unlink_inode; false is the exit for an inode without links. */
    method Unlink(num: nat, now: nat) returns (ok: bool)
      requires Valid() && Linked(Value(), num)
      modifies Repr()
      ensures Valid()
      ensures ok <==> AfterUnlink(old(Value()), num, now).Some?
      ensures Value() == if ok then AfterUnlink(old(Value()), num, now).value else old(Value())
    {
      ghost var fs := Value();
      var i := inodes[num - 1];
      if i.links == 0 {
        return false;
      }
      if i.links == 1 {
        FreeDataBlocks(num);
        inodeMap.Free(num);
        inodes[num - 1] := i.(links := 0, dtime := now);
      } else {
        inodes[num - 1] := i.(links := i.links - 1);
      }
      assert Value() == AfterUnlink(fs, num, now).value;
      ok := true;
    }

    method DirectFree(ptr: seq<nat>) returns (n: nat, free: bool)
      requires |ptr| == SLOTS && blockMap.Valid() && forall x :: x in Direct(ptr, 0) ==> x <= blockMap.count
      ensures free <==> forall x :: x in Direct(ptr, 0) ==> x !in blockMap.Value().used
      ensures free ==> n == |Direct(ptr, 0)| <= DIRECT && (n < DIRECT ==> ptr[n] == 0)
    {
      n := 0;
      while n < DIRECT
        invariant n <= DIRECT && |Direct(ptr, 0)| == n + |Direct(ptr, n)|
        invariant forall x :: x in Direct(ptr, n) ==> x in Direct(ptr, 0)
        invariant forall x :: x in Direct(ptr, 0) && x !in Direct(ptr, n) ==> x !in blockMap.Value().used
      {
        if ptr[n] == 0 {
          return n, true;
        }
        assert ptr[n] in Direct(ptr, n);
        var used := blockMap.IsInUse(ptr[n]);
        if used {
          return n, false;
        }
        n := n + 1;
      }
      free := true;
    }

    method EntriesFree(indirect: nat) returns (free: bool)
      requires blockMap.Valid() && indirect < disk.Length
      requires forall x :: x in Entries(disk[indirect], 0) ==> x <= blockMap.count
      ensures free <==> forall x :: x in Entries(disk[indirect], 0) ==> x !in blockMap.Value().used
    {
      hide U32At, Bitmap.Valid, Bitmap.Value;
      ghost var b := disk[indirect];
      var k := 0;
      var direct := ReadWord(indirect, 0);
      while k < PTRS && direct != 0
        invariant k <= PTRS
        invariant k < PTRS ==> direct == U32At(b, 4 * k)
        invariant forall x :: x in Entries(b, k) ==> x in Entries(b, 0)
        invariant forall x :: x in Entries(b, 0) && x !in Entries(b, k) ==> x !in blockMap.Value().used
      {
        assert direct in Entries(b, k);
        var used := blockMap.IsInUse(direct);
        if used {
          return false;
        }
        k := k + 1;
        if k < PTRS {
          direct := ReadWord(indirect, k);
        }
      }
      free := true;
    }

    /** is_inode_and_data_blocks_free. */
    method IsAllFree(num: nat) returns (free: bool)
      requires Valid() && Linked(Value(), num)
      ensures free <==> AllFree(Value(), num)
    {
      var inUse := inodeMap.IsInUse(num);
      if inUse {
        return false;
      }
      var ptr := inodes[num - 1].ptr;
      var n;
      n, free := DirectFree(ptr);
      if free && n == DIRECT && ptr[DIRECT] != 0 {
        var used := blockMap.IsInUse(ptr[DIRECT]);
        if used {
          assert ptr[DIRECT] in ClaimOrder(inodes[num - 1], disk[..]);
          return false;
        }
        free := EntriesFree(ptr[DIRECT]);
      }
    }

    /** The loop of reclaim over the direct blocks; false is the exit. */
    method ClaimDirect(ptr: seq<nat>) returns (n: nat, ok: bool)
      requires |ptr| == SLOTS && blockMap.Valid() && forall x :: x in Direct(ptr, 0) ==> x <= blockMap.count
      modifies blockMap, blockMap.bytes
      ensures blockMap.Valid() && blockMap.Value() == ClaimUpTo(old(blockMap.Value()), Direct(ptr, 0))
      ensures ok <==> ClaimAll(old(blockMap.Value()), Direct(ptr, 0)).Some?
      ensures ok ==> n == |Direct(ptr, 0)| <= DIRECT && (n < DIRECT ==> ptr[n] == 0)
    {
      hide Direct, ClaimAll, ClaimUpTo, Acquire, Release, Bitmap.Valid, Bitmap.Value;
      ghost var m := blockMap.Value();
      n := 0;
      while n < DIRECT
        invariant n <= DIRECT && blockMap.Valid()
        invariant ClaimAll(blockMap.Value(), Direct(ptr, n)).Some? == ClaimAll(m, Direct(ptr, 0)).Some?
        invariant ClaimUpTo(blockMap.Value(), Direct(ptr, n)) == ClaimUpTo(m, Direct(ptr, 0))
        invariant |Direct(ptr, 0)| == n + |Direct(ptr, n)|
        invariant forall x :: x in Direct(ptr, n) ==> x in Direct(ptr, 0)
      {
        DirectFrom(ptr, n);
        if ptr[n] == 0 {
          ClaimNothing(blockMap.Value());
          return n, true;
        }
        ClaimOne(blockMap.Value(), ptr[n], Direct(ptr, n + 1));
        ClaimUpToOne(blockMap.Value(), ptr[n], Direct(ptr, n + 1));
        ok := blockMap.SetInUse(ptr[n]);
        if !ok {
          return;
        }
        n := n + 1;
      }
      DirectFrom(ptr, DIRECT);
      ClaimNothing(blockMap.Value());
      ok := true;
    }

    method ClaimEntries(indirect: nat) returns (ok: bool)
      requires blockMap.Valid() && indirect < disk.Length
      requires forall x :: x in Entries(disk[indirect], 0) ==> x <= blockMap.count
      modifies blockMap, blockMap.bytes
      ensures blockMap.Valid() && blockMap.Value() == ClaimUpTo(old(blockMap.Value()), Entries(disk[indirect], 0))
      ensures ok <==> ClaimAll(old(blockMap.Value()), Entries(disk[indirect], 0)).Some?
    {
      hide U32At, Acquire, Release, Bitmap.Valid, Bitmap.Value;
      ghost var m, b := blockMap.Value(), disk[indirect];
      var k := 0;
      var direct := ReadWord(indirect, 0);
      while k < PTRS && direct != 0
        invariant k <= PTRS && blockMap.Valid() && disk[indirect] == b
        invariant k < PTRS ==> direct == U32At(b, 4 * k)
        invariant ClaimAll(blockMap.Value(), Entries(b, k)).Some? == ClaimAll(m, Entries(b, 0)).Some?
        invariant ClaimUpTo(blockMap.Value(), Entries(b, k)) == ClaimUpTo(m, Entries(b, 0))
        invariant forall x :: x in Entries(b, k) ==> x in Entries(b, 0)
      {
        assert direct in Entries(b, k);
        ok := blockMap.SetInUse(direct);
        if !ok {
          return;
        }
        k := k + 1;
        if k < PTRS {
          direct := ReadWord(indirect, k);
        }
      }
      ok := true;
    }

    /** All the claims of reclaim: direct blocks, the indirect block, the blocks it lists. */
    method ClaimBlocks(num: nat) returns (ok: bool)
      requires Valid() && Linked(Value(), num)
      modifies blockMap, blockMap.bytes
      ensures blockMap.Valid()
      ensures var order := ClaimOrder(inodes[num - 1], disk[..]);
        && ok == ClaimAll(old(blockMap.Value()), order).Some?
        && blockMap.Value() == ClaimUpTo(old(blockMap.Value()), order)
    {
      hide Direct, Entries, ClaimAll, ClaimUpTo, Bitmap.Value;
      var ptr := inodes[num - 1].ptr;
      ghost var m := blockMap.Value();
      ghost var tail := if HasIndirect(inodes[num - 1]) then [ptr[DIRECT]] + Entries(disk[ptr[DIRECT]], 0) else [];
      ClaimAllConcat(m, Direct(ptr, 0), tail);
      ClaimUpToConcat(m, Direct(ptr, 0), tail);
      ClaimUpToAll(m, Direct(ptr, 0));
      var n;
      n, ok := ClaimDirect(ptr);
      if ok && n == DIRECT && ptr[DIRECT] != 0 {
        ClaimOne(blockMap.Value(), ptr[DIRECT], Entries(disk[ptr[DIRECT]], 0));
        ClaimUpToOne(blockMap.Value(), ptr[DIRECT], Entries(disk[ptr[DIRECT]], 0));
        ok := blockMap.SetInUse(ptr[DIRECT]);
        if ok {
          ok := ClaimEntries(ptr[DIRECT]);
        }
      } else if ok {
        ClaimNothing(blockMap.Value());
      }
    }

    /** The inode comes back first: set_inode_in_use, its link and its deletion time. */
    method Revive(num: nat)
      requires Valid() && 1 <= num <= inodes.Length && num !in inodeMap.Value().used
      modifies inodeMap, inodeMap.bytes, inodes
      ensures Valid() && Value() == Revived(old(Value()), num, old(blockMap.Value()))
    {
      inodeMap.Take(num);
      inodes[num - 1] := inodes[num - 1].(links := 1, dtime := 0);
    }

    /** reclaim_inode_and_data_blocks. The exit leaves the inode in use, and the blocks that came
        before the one reached twice. */
    method Reclaim(num: nat) returns (r: Outcome)
      requires Valid() && Linked(Value(), num)
      modifies Repr()
      ensures Valid()
      ensures match AfterReclaim(old(Value()), num)
        case Refused => r == ENoEnt && Value() == old(Value())
        case Clash(left) => r == Exit && Value() == left
        case Restored(fs) => r == Ok && Value() == fs
    {
      hide ClaimAll, ClaimUpTo, ClaimOrder, PointersOk, Bitmap.Value;
      ghost var fs := Value();
      var free := IsAllFree(num);
      if !free {
        return ENoEnt;
      }
      Revive(num);
      RevivedOrder(fs, Value(), num);
      ClaimUpToAll(fs.blockMap, ClaimOrder(inodes[num - 1], disk[..]));
      ClaimUpToGrows(fs.blockMap, ClaimOrder(inodes[num - 1], disk[..]));
      var ok := ClaimBlocks(num);
      assert Value() == Revived(fs, num, blockMap.Value());
      r := if ok then Ok else Exit;
    }

    /** allocate_block: the least free block, zeroed; None is the exit. */
    method AllocateBlock() returns (num: Option<nat>)
      requires Valid()
      modifies blockMap, blockMap.bytes, disk
      ensures Valid()
      ensures num.None? <==> old(blockMap.Value()).used == Numbers(blockMap.count)
      ensures num.None? ==> Value() == old(Value())
      ensures num.Some? ==>
        && 0 < num.value < disk.Length && num.value !in old(blockMap.Value()).used
        && Numbers(num.value - 1) <= old(blockMap.Value()).used
        && Value() == old(Value()).(blockMap := Acquire(old(blockMap.Value()), num.value),
                                    disk := old(disk[..])[num.value := ZeroBlock()])
    {
      num := blockMap.Allocate();
      if num.Some? {
        disk[num.value] := ZeroBlock();
      }
    }

    /** One block of the source is stored in a newly allocated block. */
    method StoreChunk(src: seq<Byte>, j: nat) returns (num: Option<nat>)
      requires Valid() && BLOCK_SIZE * j < |src|
      modifies blockMap, blockMap.bytes, disk
      ensures Valid()
      ensures num.None? <==> old(blockMap.Value()).used == Numbers(blockMap.count)
      ensures num.None? ==> Value() == old(Value())
      ensures num.Some? ==>
        && 0 < num.value < disk.Length && num.value !in old(blockMap.Value()).used
        && Value() == old(Value()).(blockMap := Acquire(old(blockMap.Value()), num.value),
                                    disk := old(disk[..])[num.value := Chunk(src, j)])
    {
      num := AllocateBlock();
      if num.Some? {
        ghost var before := disk[..];
        var buf := src[BLOCK_SIZE * j..Least(BLOCK_SIZE * (j + 1), |src|)];
        disk[num.value] := Splice(disk[num.value], 0, buf);
        assert disk[num.value] == Chunk(src, j);
        assert disk[..] == before[num.value := Chunk(src, j)];
      }
    }

    /** The loop of copy_sourcefile_data over the direct slots; k is the slot where it stops, and
        ok is false for the exit of a full disk. */
    method CopyDirect(num: nat, src: seq<Byte>) returns (k: nat, ok: bool, ghost ds: seq<nat>)
      requires Valid() && 1 <= num <= inodes.Length && Empty(inodes[num - 1])
      modifies blockMap, blockMap.bytes, disk, inodes
      ensures Valid() && Copying(old(Value()), Value(), num, src, ds, 0, [])
      ensures |ds| == k <= DIRECT && (ok ==> k < DIRECT ==> |src| <= BLOCK_SIZE * k)
      ensures k > 0 ==> BLOCK_SIZE * (k - 1) < |src|
      ensures !ok ==> k < DIRECT && BLOCK_SIZE * k < |src| && blockMap.Value().used == Numbers(blockMap.count)
    {
      hide Copying, Chunk;
      ghost var fs0 := Value();
      CopyStart(fs0, num, src);
      k, ds, ok := 0, [], true;
      while k < DIRECT && BLOCK_SIZE * k < |src|
        invariant |ds| == k <= DIRECT && Valid() && Copying(fs0, Value(), num, src, ds, 0, [])
        invariant k > 0 ==> BLOCK_SIZE * (k - 1) < |src|
      {
        ghost var fs := Value();
        var n := StoreChunk(src, k);
        if n.None? {
          return k, false, ds;
        }
        inodes[num - 1] := CountBlock(SetSlot(inodes[num - 1], k, n.value), ChunkLength(src, k));
        CopyDirectStep(fs0, fs, num, src, ds, n.value);
        assert Value() == StoreDirect(fs, num, src, k, n.value);
        k, ds := k + 1, ds + [n.value];
      }
    }

    /** The loop over the indirect block; false is the exit of a full disk. */
    method CopyIndirect(num: nat, src: seq<Byte>, ind: nat, ghost fs0: Fs, ghost ds: seq<nat>)
      returns (ok: bool, ghost es: seq<nat>)
      requires Valid() && ind != 0 && Copying(fs0, Value(), num, src, ds, ind, []) && BLOCK_SIZE * DIRECT < |src|
      modifies blockMap, blockMap.bytes, disk, inodes
      ensures Valid() && Copying(fs0, Value(), num, src, ds, ind, es)
      ensures ok ==> |es| > 0 && (|es| < PTRS ==> |src| <= BLOCK_SIZE * (DIRECT + |es|))
      ensures |es| <= PTRS && (|es| > 0 ==> BLOCK_SIZE * (DIRECT + |es| - 1) < |src|)
      ensures !ok ==> |es| < PTRS && BLOCK_SIZE * (DIRECT + |es|) < |src| && blockMap.Value().used == Numbers(blockMap.count)
    {
      hide Copying, Chunk, Splice, Acquire, ChunkLength, CountBlock, SetWord;
      var k := 0;
      es, ok := [], true;
      while k < PTRS && BLOCK_SIZE * (DIRECT + k) < |src|
        invariant |es| == k <= PTRS && Valid() && Copying(fs0, Value(), num, src, ds, ind, es)
        invariant k > 0 ==> BLOCK_SIZE * (DIRECT + k - 1) < |src|
      {
        ghost var fs := Value();
        IndirectInUse(fs0, fs, num, src, ds, ind, es);
        var n := StoreChunk(src, DIRECT + k);
        if n.None? {
          return false, es;
        }
        disk[ind] := SetWord(disk[ind], k, n.value);
        inodes[num - 1] := CountBlock(inodes[num - 1], ChunkLength(src, DIRECT + k));
        CopyIndirectStep(fs0, fs, num, src, ds, ind, es, n.value);
        assert Value() == StoreIndirect(fs, num, src, ind, k, n.value);
        k, es := k + 1, es + [n.value];
      }
    }

    /** copy_sourcefile_data: it succeeds exactly when enough blocks are free; else it exits with as
        much of the source in the file as there were blocks for. */
    method CopySource(num: nat, src: seq<Byte>) returns (ok: bool, ghost ds: seq<nat>, ghost ind: nat, ghost es: seq<nat>)
      requires Valid() && 1 <= num <= inodes.Length && Empty(inodes[num - 1])
      modifies blockMap, blockMap.bytes, disk, inodes
      ensures Valid()
      ensures ok <==> Needed(|src|) <= blockMap.count - |old(blockMap.Value()).used|
      ensures ok ==> Copied(old(Value()), Value(), num, src)
      ensures !ok ==> Copying(old(Value()), Value(), num, src, ds, ind, es) && Value().blockMap.used == Numbers(|Value().disk|)
    {
      hide Copying, Copied, Chunk, Numbers, Acquire, Bitmap.Valid, Bitmap.Value;
      ghost var fs0 := Value();
      var k;
      ind, es := 0, [];
      k, ok, ds := CopyDirect(num, src);
      CopyFull(fs0, Value(), num, src, ds, 0, [], blockMap.count);
      if !ok {
        return;
      }
      if |src| <= BLOCK_SIZE * k {
        CopyEnd(fs0, Value(), num, src, ds, 0, []);
        return;
      }
      ghost var fs := Value();
      var n := AllocateBlock();
      if n.None? {
        return false, ds, 0, [];
      }
      ind := n.value;
      inodes[num - 1] := CountBlock(SetSlot(inodes[num - 1], DIRECT, n.value), 0);
      CopyIndirectStart(fs0, fs, num, src, ds, ind);
      assert Value() == StoreIndirectBlock(fs, num, ind);
      ok, es := CopyIndirect(num, src, n.value, fs0, ds);
      CopyFull(fs0, Value(), num, src, ds, ind, es, blockMap.count);
      if ok {
        CopyEnd(fs0, Value(), num, src, ds, ind, es);
      }
    }
  }

  /** What the tools return: Exit stands for the calls of exit in the middle of an update. */
  datatype Outcome = Ok | ENoEnt | EExist | EIsDir | Exit
}
