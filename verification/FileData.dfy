/** File contents: how a source of bytes is cut into blocks, and how they are read back through
    the direct and indirect pointers of an inode. */
module FileData {
  import opened Prelude
  import opened ResourceMap
  import opened Inodes

  const MAX_BLOCKS := DIRECT + PTRS

  function Least(a: nat, b: nat): nat {
    if a < b then a else b
  }

  /** The number of blocks that hold len bytes. */
  function BlocksFor(len: nat): nat {
    (len + BLOCK_SIZE - 1) / BLOCK_SIZE
  }

  /** The j-th block of the source, padded with zeros. */
  function Chunk(src: seq<Byte>, j: nat): Block {
    seq(BLOCK_SIZE, i requires 0 <= i < BLOCK_SIZE => if BLOCK_SIZE * j + i < |src| then src[BLOCK_SIZE * j + i] else 0)
  }

  /** The blocks bs hold the chunks of the source from the first-th on. */
  ghost predicate Stored(disk: seq<Block>, bs: seq<nat>, src: seq<Byte>, first: nat) {
    forall j :: 0 <= j < |bs| ==> 0 < bs[j] < |disk| && disk[bs[j]] == Chunk(src, first + j)
  }

  lemma StoredKeeps(disk: seq<Block>, disk': seq<Block>, bs: seq<nat>, src: seq<Byte>, first: nat)
    requires Stored(disk, bs, src, first) && |disk'| == |disk| && forall x :: x in bs ==> disk'[x] == disk[x]
    ensures Stored(disk', bs, src, first)
  {
    hide Chunk;
    forall j | 0 <= j < |bs| ensures 0 < bs[j] < |disk'| && disk'[bs[j]] == Chunk(src, first + j) {
      assert bs[j] in bs;
    }
  }

  lemma StoredSnoc(disk: seq<Block>, disk': seq<Block>, bs: seq<nat>, n: nat, src: seq<Byte>, first: nat)
    requires Stored(disk, bs, src, first) && |disk'| == |disk| && forall x :: x in bs ==> disk'[x] == disk[x]
    requires 0 < n < |disk'| && disk'[n] == Chunk(src, first + |bs|)
    ensures Stored(disk', bs + [n], src, first)
  {
    StoredKeeps(disk, disk', bs, src, first);
  }

  /** The number of the block that holds block j of a file. */
  function BlockOf(i: Inode, disk: seq<Block>, j: nat): nat
    requires j < MAX_BLOCKS && (j >= DIRECT ==> i.ptr[DIRECT] < |disk|)
  {
    if j < DIRECT then i.ptr[j] else U32At(disk[i.ptr[DIRECT]], 4 * (j - DIRECT))
  }

  /** Byte x of a file, found by walking the 12 direct slots and then the indirect block. */
  function ByteAt(i: Inode, disk: seq<Block>, x: nat): nat
    requires x / BLOCK_SIZE < MAX_BLOCKS && (x / BLOCK_SIZE >= DIRECT ==> i.ptr[DIRECT] < |disk|)
    requires BlockOf(i, disk, x / BLOCK_SIZE) < |disk|
  {
    disk[BlockOf(i, disk, x / BLOCK_SIZE)][x % BLOCK_SIZE]
  }

  /** The inode's direct slots are ds, then zeros; its indirect slot is ind. */
  predicate Slots(i: Inode, ds: seq<nat>, ind: nat) {
    && |ds| <= DIRECT
    && (forall j :: 0 <= j < |ds| ==> i.ptr[j] == ds[j] != 0)
    && (forall j :: |ds| <= j < DIRECT ==> i.ptr[j] == 0)
    && i.ptr[DIRECT] == ind
  }

  /** The indirect block lists es, then zeros. */
  predicate Lists(b: Block, es: seq<nat>) {
    && |es| <= PTRS
    && (forall j :: 0 <= j < |es| ==> U32At(b, 4 * j) == es[j] != 0)
    && (forall j :: |es| <= j < PTRS ==> U32At(b, 4 * j) == 0)
  }

  lemma {:induction false} DirectIs(i: Inode, ds: seq<nat>, ind: nat, k: nat)
    requires Slots(i, ds, ind) && k <= |ds|
    ensures Direct(i.ptr, k) == ds[k..]
    decreases |ds| - k
  {
    if k == |ds| {
    } else {
      DirectIs(i, ds, ind, k + 1);
      assert ds[k..] == [ds[k]] + ds[k + 1..];
    }
  }

  lemma {:induction false} EntriesAre(b: Block, es: seq<nat>, k: nat)
    requires Lists(b, es) && k <= |es|
    ensures Entries(b, k) == es[k..]
    decreases |es| - k
  {
    if k == |es| {
    } else {
      EntriesAre(b, es, k + 1);
      assert es[k..] == [es[k]] + es[k + 1..];
    }
  }

  lemma ZeroBlockLists()
    ensures Lists(ZeroBlock(), [])
  {
    forall j | 0 <= j < PTRS ensures U32At(ZeroBlock(), 4 * j) == 0 {}
  }

  lemma ListsOneMore(b: Block, es: seq<nat>, n: nat)
    requires Lists(b, es) && |es| < PTRS && 0 < n < U32
    ensures Lists(Splice(b, 4 * |es|, U32Bytes(n)), es + [n])
  {
    WordWritten(b, |es|, n);
  }

  /** The file laid out as data blocks ds and es reads back as the source. */
  ghost predicate Laid(i: Inode, disk: seq<Block>, ds: seq<nat>, es: seq<nat>, src: seq<Byte>, len: nat)
  {
    && Slots(i, ds, if es == [] then 0 else i.ptr[DIRECT])
    && Stored(disk, ds, src, 0) && Stored(disk, es, src, DIRECT)
    && (es != [] ==> |ds| == DIRECT && 0 < i.ptr[DIRECT] < |disk| && Lists(disk[i.ptr[DIRECT]], es))
    && len <= |src| && |ds| + |es| == BlocksFor(len)
  }

  lemma ReadsBack(i: Inode, disk: seq<Block>, ds: seq<nat>, es: seq<nat>, src: seq<Byte>, len: nat, x: nat)
    requires Laid(i, disk, ds, es, src, len) && x < len
    ensures var j := x / BLOCK_SIZE;
      && j < MAX_BLOCKS && (j >= DIRECT ==> i.ptr[DIRECT] < |disk|)
      && BlockOf(i, disk, j) < |disk| && ByteAt(i, disk, x) == src[x]
  {
    var j := x / BLOCK_SIZE;
    assert x == BLOCK_SIZE * j + x % BLOCK_SIZE;
    assert j < |ds| + |es|;
    if j < |ds| {
      assert disk[ds[j]] == Chunk(src, 0 + j);
    } else {
      assert disk[es[j - DIRECT]] == Chunk(src, DIRECT + (j - DIRECT));
    }
  }

  lemma LaidOrder(i: Inode, disk: seq<Block>, ds: seq<nat>, es: seq<nat>, src: seq<Byte>, len: nat)
    requires Laid(i, disk, ds, es, src, len)
    ensures PointersOk(i, disk) && Trimmed(i, disk)
    ensures FreeOrder(i, disk) == ds + if es == [] then [] else es + [i.ptr[DIRECT]]
    ensures ClaimOrder(i, disk) == ds + if es == [] then [] else [i.ptr[DIRECT]] + es
  {
    DirectIs(i, ds, i.ptr[DIRECT], 0);
    if es != [] {
      EntriesAre(disk[i.ptr[DIRECT]], es, 0);
    }
  }

  lemma ClaimSnoc(m: Map, ns: seq<nat>, v: Map, n: nat)
    requires ClaimAll(m, ns) == Some(v) && n !in v.used
    ensures ClaimAll(m, ns + [n]) == Some(Acquire(v, n))
  {
    ClaimAllConcat(m, ns, [n]);
    ClaimOne(v, n, []);
  }

  /** What is claimed so far, and how many numbers that leaves. */
  lemma ClaimedSize(m: Map, ns: seq<nat>, count: nat)
    requires ClaimAll(m, ns).Some? && m.used <= Numbers(count) && forall n :: n in ns ==> n in Numbers(count)
    ensures |ClaimAll(m, ns).value.used| == |m.used| + |ns| <= count
  {
    ClaimAllValue(m, ns);
    NoDupSize(ns);
    assert m.used !! Elements(ns);
    NumbersSize(count);
    SubsetSize(m.used + Elements(ns), Numbers(count));
  }
}
