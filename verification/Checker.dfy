/** ext2_checker: repairs of the counters and of every entry that is reached from the root. */
module Checker {
  import opened Prelude
  import opened BitWords
  import opened ResourceMap
  import opened Inodes
  import opened DirBlock
  import opened Directory
  import opened Volume
  import opened DirectoryTools

  const FT_UNKNOWN := 0
  const FT_SYMLINK := 7

  /** dir_entry_file_type: from the top four bits of i_mode. */
  function ExpectedType(mode: nat): Byte {
    if mode / 0x1000 == S_IFDIR / 0x1000 then FT_DIR
    else if mode / 0x1000 == S_IFREG / 0x1000 then FT_REG_FILE
    else if mode / 0x1000 == S_IFLNK / 0x1000 then FT_SYMLINK
    else FT_UNKNOWN
  }

  /** The type that create_dir_entry gives an entry is the one the checker expects of its new inode,
      exactly for regular files, directories and symbolic links. */
  lemma TypeMatchesMode(kind: Byte)
    ensures ExpectedType(BlankInode(kind).mode) == kind <==> kind == FT_REG_FILE || kind == FT_DIR || kind == FT_SYMLINK
  {}

  // ---------- one entry ----------

  /** The numbers that are not 0. */
  function Nonzero(s: seq<nat>): (r: seq<nat>)
    ensures forall n :: n in r <==> n in s && n != 0
  {
    if s == [] then [] else (if s[0] != 0 then [s[0]] else []) + Nonzero(s[1..])
  }

  /** The words of an indirect block that the checker looks at: all but the last. */
  function Words(b: Block): (r: seq<nat>)
    ensures |r| == PTRS - 1
  {
    seq(PTRS - 1, k requires 0 <= k < PTRS - 1 => U32At(b, 4 * k))
  }

  /** The block numbers that fix_data_block_allocation looks at, in order. It does not stop at a 0. */
  function Reached(i: Inode, disk: seq<Block>): seq<nat>
    requires i.ptr[DIRECT] < |disk|
  {
    Nonzero(i.ptr[..DIRECT]) + if i.ptr[DIRECT] == 0 then [] else [i.ptr[DIRECT]] + Nonzero(Words(disk[i.ptr[DIRECT]]))
  }

  /** Each number not in use is taken; how many were. */
  function Mark(m: Map, ns: seq<nat>): (Map, nat)
    decreases |ns|
  {
    if ns == [] then (m, 0)
    else if ns[0] in m.used then Mark(m, ns[1..])
    else var (m1, k) := Mark(Acquire(m, ns[0]), ns[1..]); (m1, k + 1)
  }

  /** Afterwards exactly these and the old numbers are in use; nothing changes if they all were. */
  lemma {:induction false} MarkValue(m: Map, ns: seq<nat>)
    ensures forall n :: n in Mark(m, ns).0.used <==> n in m.used || n in ns
    ensures Mark(m, ns).1 == 0 <==> forall n :: n in ns ==> n in m.used
    ensures (forall n :: n in ns ==> n in m.used) ==> Mark(m, ns) == (m, 0)
    decreases |ns|
  {
    if ns == [] {
    } else {
      MarkValue(if ns[0] in m.used then m else Acquire(m, ns[0]), ns[1..]);
      assert forall n :: n in ns <==> n == ns[0] || n in ns[1..];
    }
  }

  lemma {:induction false} MarkBalanced(m: Map, ns: seq<nat>, count: nat)
    requires Balanced(m, count) && count < U16 && forall n :: n in ns ==> 1 <= n <= count
    ensures Balanced(Mark(m, ns).0, count)
    decreases |ns|
  {
    if ns == [] {
    } else {
      assert ns[0] in ns && forall n :: n in ns[1..] ==> n in ns;
      if ns[0] in m.used {
        MarkBalanced(m, ns[1..], count);
      } else {
        AcquireBalanced(m, ns[0], count);
        MarkBalanced(Acquire(m, ns[0]), ns[1..], count);
      }
    }
  }

  /** The record at a place can be read, and its inode followed. */
  ghost predicate Readable(fs: Fs, at: Place) {
    && at.block < |fs.disk| && Tiled(fs.disk[at.block], 0) && OnChain(fs.disk[at.block], 0, at.pos)
    && RecordOk(fs.disk[at.block], at.pos) && NameLen(fs.disk[at.block], at.pos) >= 1
    && 1 <= Ino(fs.disk[at.block], at.pos) <= |fs.inodes|
    && fs.inodes[Ino(fs.disk[at.block], at.pos) - 1].ptr[DIRECT] < |fs.disk|
  }

  ghost function InoOf(fs: Fs, at: Place): nat
    requires Readable(fs, at)
  {
    Ino(fs.disk[at.block], at.pos)
  }

  ghost function InodeOf(fs: Fs, at: Place): Inode
    requires Readable(fs, at)
  {
    fs.inodes[InoOf(fs, at) - 1]
  }

  /** The block numbers that the check of an entry looks at. */
  ghost function ReachedFrom(fs: Fs, at: Place): seq<nat>
    requires Readable(fs, at)
  {
    Reached(InodeOf(fs, at), fs.disk)
  }

  function SetType(b: Block, p: nat, x: Byte): Block
    requires p + HEADER <= BLOCK_SIZE
  {
    b[p + 7 := x]
  }

  function ClearTime(i: Inode): Inode {
    InodeRecord(i.mode, i.size, i.links, i.sectors, 0, i.ptr)
  }

  /** The four repairs of one entry. */
  ghost function Repaired(fs: Fs, at: Place): Fs
    requires Readable(fs, at)
  {
    var num, i := InoOf(fs, at), InodeOf(fs, at);
    Fs(Mark(fs.blockMap, ReachedFrom(fs, at)).0,
       if num in fs.inodeMap.used then fs.inodeMap else Acquire(fs.inodeMap, num),
       fs.inodes[num - 1 := ClearTime(i)],
       fs.disk[at.block := SetType(fs.disk[at.block], at.pos, ExpectedType(i.mode))])
  }

  /** How many of them were needed, blocks counted one by one. */
  ghost function Repairs(fs: Fs, at: Place): nat
    requires Readable(fs, at)
  {
    var num, i := InoOf(fs, at), InodeOf(fs, at);
    (if fs.disk[at.block][at.pos + 7] != ExpectedType(i.mode) then 1 else 0)
    + (if num in fs.inodeMap.used then 0 else 1)
    + (if i.dtime != 0 then 1 else 0)
    + Mark(fs.blockMap, ReachedFrom(fs, at)).1
  }

  /** The entry is consistent: its type matches its inode, which is in use, not marked as deleted,
      and whose blocks are in use. */
  ghost predicate Clean(fs: Fs, at: Place)
    requires Readable(fs, at)
  {
    var num, i := InoOf(fs, at), InodeOf(fs, at);
    && fs.disk[at.block][at.pos + 7] == ExpectedType(i.mode)
    && num in fs.inodeMap.used && i.dtime == 0
    && forall n :: n in ReachedFrom(fs, at) ==> n in fs.blockMap.used
  }

  /** Nothing is repaired exactly where everything is consistent. */
  lemma CleanNeedsNothing(fs: Fs, at: Place)
    requires Readable(fs, at)
    ensures Repairs(fs, at) == 0 <==> Clean(fs, at)
    ensures Clean(fs, at) ==> Repaired(fs, at) == fs
  {
    hide ReachedFrom, Tiled, OnChain, ExpectedType;
    var i := InodeOf(fs, at);
    MarkValue(fs.blockMap, ReachedFrom(fs, at));
    if Clean(fs, at) {
      assert SetType(fs.disk[at.block], at.pos, ExpectedType(i.mode)) == fs.disk[at.block];
      assert fs.disk[at.block := fs.disk[at.block]] == fs.disk;
      assert fs.inodes[InoOf(fs, at) - 1 := i] == fs.inodes;
    }
  }

  // ---------- what a repair leaves as it was ----------

  /** Only the type of the record at q changes, so the chain stays. */
  lemma {:induction false} TypeKeepsChain(b: Block, p: nat, q: nat, x: Byte)
    requires Tiled(b, p) && q + HEADER <= BLOCK_SIZE && (OnChain(b, p, q) || q + HEADER <= p)
    ensures Tiled(SetType(b, q, x), p)
    ensures forall r: nat :: OnChain(b, p, r) <==> OnChain(SetType(b, q, x), p, r)
    decreases BLOCK_SIZE - p
  {
    hide Ino, RecLen, NameLen, SetType;
    if p == BLOCK_SIZE {
    } else {
      if OnChain(b, p, q) {
        ChainAt(b, p, q);
      }
      TypeKeepsHeader(b, p, q, x);
      TypeKeepsChain(b, p + RecLen(b, p), q, x);
    }
  }

  lemma TypeKeepsHeader(b: Block, p: nat, q: nat, x: Byte)
    requires RecordOk(b, p) && q + HEADER <= BLOCK_SIZE && (q == p || q + HEADER <= p || p + HEADER <= q)
    ensures var b' := SetType(b, q, x);
      && RecordOk(b', p) && Ino(b', p) == Ino(b, p) && RecLen(b', p) == RecLen(b, p) && NameLen(b', p) == NameLen(b, p)
      && (NameLen(b, p) >= 1 && p + HEADER < BLOCK_SIZE ==> b'[p + HEADER] == b[p + HEADER])
  {
    hide Tiled;
  }

  // ---------- the tree ----------

  /** The records in use from position p of a block on. */
  function Records(b: Block, n: nat, p: nat): seq<Place>
    requires Tiled(b, p)
    decreases BLOCK_SIZE - p
  {
    if p == BLOCK_SIZE then []
    else (if Ino(b, p) != 0 then [Place(n, p)] else []) + Records(b, n, p + RecLen(b, p))
  }

  lemma {:induction false} TypeKeepsRecords(b: Block, n: nat, p: nat, q: nat, x: Byte)
    requires Tiled(b, p) && q + HEADER <= BLOCK_SIZE && (OnChain(b, p, q) || q + HEADER <= p)
    ensures Tiled(SetType(b, q, x), p) && Records(SetType(b, q, x), n, p) == Records(b, n, p)
    decreases BLOCK_SIZE - p
  {
    hide Ino, RecLen, NameLen, SetType;
    if p == BLOCK_SIZE {
    } else {
      if OnChain(b, p, q) {
        ChainAt(b, p, q);
      }
      TypeKeepsHeader(b, p, q, x);
      TypeKeepsRecords(b, n, p + RecLen(b, p), q, x);
    }
  }

  /** The records in use in all blocks of a directory. */
  ghost function Children(disk: seq<Block>, bs: seq<nat>): seq<Place>
    requires AllTiled(disk, bs)
    decreases |bs|
  {
    if bs == [] then [] else Records(disk[bs[0]], bs[0], 0) + Children(disk, bs[1..])
  }

  /** Entries whose name begins with a dot are not followed, except at the root. */
  ghost predicate Descends(fs: Fs, at: Place, isRoot: bool)
    requires Readable(fs, at)
  {
    && ExpectedType(InodeOf(fs, at).mode) == FT_DIR
    && (isRoot || fs.disk[at.block][at.pos + HEADER] != DOT)
  }

  /** Below the entry hangs a tree of at most this depth, with well-formed blocks. */
  ghost predicate Tree(fs: Fs, at: Place, isRoot: bool, depth: nat)
    decreases depth
  {
    && Readable(fs, at) && at.pos + HEADER < BLOCK_SIZE
    && (Descends(fs, at, isRoot) ==>
      && depth > 0
      && var bs := Direct(InodeOf(fs, at).ptr, 0);
      && AllTiled(fs.disk, bs)
      && forall c :: c in Children(fs.disk, bs) ==> Tree(fs, c, false, depth - 1))
  }

  /** The entries visited, in order. */
  ghost function Visit(fs: Fs, at: Place, isRoot: bool, depth: nat): seq<Place>
    requires Tree(fs, at, isRoot, depth)
    decreases depth, 0
  {
    [at] + if Descends(fs, at, isRoot) then VisitAll(fs, Children(fs.disk, Direct(InodeOf(fs, at).ptr, 0)), depth - 1) else []
  }

  ghost function VisitAll(fs: Fs, cs: seq<Place>, depth: nat): seq<Place>
    requires forall c :: c in cs ==> Tree(fs, c, false, depth)
    decreases depth, 1, |cs|
  {
    if cs == [] then [] else
      assert cs[0] in cs;
      Visit(fs, cs[0], false, depth) + VisitAll(fs, cs[1..], depth)
  }

  /** The records visited in a block are exactly the entries it lists. */
  lemma {:induction false} RecordsAreListed(b: Block, n: nat, p: nat)
    requires Tiled(b, p)
    ensures |Records(b, n, p)| == |Live(b, p)|
    ensures forall k :: 0 <= k < |Records(b, n, p)| ==>
      var at := Records(b, n, p)[k]; at.block == n && RecordOk(b, at.pos) && Ino(b, at.pos) != 0 && EntryAt(b, at.pos) == Live(b, p)[k]
    decreases BLOCK_SIZE - p
  {
    hide Ino, RecLen, NameLen, EntryAt;
    if p == BLOCK_SIZE {
    } else {
      RecordsAreListed(b, n, p + RecLen(b, p));
    }
  }

  /** All entries of the directory that an entry leads to are among the places. */
  ghost predicate Covered(fs: Fs, at: Place, places: seq<Place>)
    requires Readable(fs, at)
  {
    var bs := Direct(InodeOf(fs, at).ptr, 0);
    AllTiled(fs.disk, bs) && forall c :: c in Children(fs.disk, bs) ==> c in places
  }

  /** The visit leaves nothing out: with every entry that is followed, all entries of its directory
      are visited. */
  lemma {:induction false} VisitCovers(fs: Fs, at: Place, isRoot: bool, depth: nat)
    requires Tree(fs, at, isRoot, depth)
    ensures var visited := Visit(fs, at, isRoot, depth);
      && at in visited && Readable(fs, at)
      && (Descends(fs, at, isRoot) ==> Covered(fs, at, visited))
      && forall c :: c in visited && c != at ==> Readable(fs, c) && (Descends(fs, c, false) ==> Covered(fs, c, visited))
    decreases depth, 0
  {
    hide Readable, Descends, Children, Direct, InodeOf, AllTiled;
    var visited := Visit(fs, at, isRoot, depth);
    if Descends(fs, at, isRoot) {
      var cs := Children(fs.disk, Direct(InodeOf(fs, at).ptr, 0));
      VisitAllCovers(fs, cs, depth - 1);
      var below := VisitAll(fs, cs, depth - 1);
      assert visited == [at] + below && forall c :: c in below ==> c in visited;
      forall c | c in visited && c != at ensures Readable(fs, c) && (Descends(fs, c, false) ==> Covered(fs, c, visited)) {
        assert c in below;
      }
    } else {
      assert visited == [at];
    }
  }

  lemma {:induction false} VisitAllCovers(fs: Fs, cs: seq<Place>, depth: nat)
    requires forall c :: c in cs ==> Tree(fs, c, false, depth)
    ensures var visited := VisitAll(fs, cs, depth);
      && (forall c :: c in cs ==> c in visited)
      && forall c :: c in visited ==> Readable(fs, c) && (Descends(fs, c, false) ==> Covered(fs, c, visited))
    decreases depth, 1, |cs|
  {
    hide Readable, Descends, Children, Direct, InodeOf, AllTiled, Tree, Visit;
    if cs == [] {
    } else {
      assert cs[0] in cs;
      VisitCovers(fs, cs[0], false, depth);
      VisitAllCovers(fs, cs[1..], depth);
      var first, later := Visit(fs, cs[0], false, depth), VisitAll(fs, cs[1..], depth);
      var visited := VisitAll(fs, cs, depth);
      assert visited == first + later && forall c :: c in first || c in later ==> c in visited;
      assert cs[0] in first && forall c :: c in cs ==> c == cs[0] || c in cs[1..];
    }
  }

  // ---------- repairs keep the tree ----------

  ghost predicate SameHeader(b: Block, b': Block, p: nat)
    requires p + HEADER <= BLOCK_SIZE
  {
    && Ino(b', p) == Ino(b, p) && RecLen(b', p) == RecLen(b, p) && NameLen(b', p) == NameLen(b, p)
    && (NameLen(b, p) >= 1 && p + HEADER < BLOCK_SIZE ==> b'[p + HEADER] == b[p + HEADER])
  }

  /** The same records at the same places, up to their types; other blocks as they were. */
  ghost predicate AlikeBlock(b: Block, b': Block, n: nat) {
    if Tiled(b, 0) then
      && Tiled(b', 0) && Records(b', n, 0) == Records(b, n, 0)
      && forall p: nat :: OnChain(b, 0, p) && p + HEADER <= BLOCK_SIZE ==> OnChain(b', 0, p) && SameHeader(b, b', p)
    else b' == b
  }

  ghost predicate Alike(fs: Fs, fs': Fs) {
    && |fs'.inodes| == |fs.inodes| && |fs'.disk| == |fs.disk|
    && (forall k :: 0 <= k < |fs.inodes| ==> fs'.inodes[k].mode == fs.inodes[k].mode && fs'.inodes[k].ptr == fs.inodes[k].ptr)
    && (forall n :: 0 <= n < |fs.disk| ==> AlikeBlock(fs.disk[n], fs'.disk[n], n))
  }

  lemma AlikeBlockTrans(b: Block, b1: Block, b2: Block, n: nat)
    requires AlikeBlock(b, b1, n) && AlikeBlock(b1, b2, n)
    ensures AlikeBlock(b, b2, n)
  {
    hide Tiled, Ino, RecLen, NameLen, Records, OnChain;
  }

  lemma AlikeTrans(fs: Fs, fs1: Fs, fs2: Fs)
    requires Alike(fs, fs1) && Alike(fs1, fs2)
    ensures Alike(fs, fs2)
  {
    hide AlikeBlock;
    forall n | 0 <= n < |fs.disk| ensures AlikeBlock(fs.disk[n], fs2.disk[n], n) {
      AlikeBlockTrans(fs.disk[n], fs1.disk[n], fs2.disk[n], n);
    }
  }

  lemma AlikeSame(fs: Fs)
    ensures Alike(fs, fs)
  {}

  lemma TypeIsAlike(b: Block, n: nat, q: nat, x: Byte)
    requires Tiled(b, 0) && OnChain(b, 0, q) && q + HEADER <= BLOCK_SIZE
    ensures AlikeBlock(b, SetType(b, q, x), n)
  {
    hide Ino, RecLen, NameLen, SetType, RecordOk;
    TypeKeepsChain(b, 0, q, x);
    TypeKeepsRecords(b, n, 0, q, x);
    forall p: nat | OnChain(b, 0, p) && p + HEADER <= BLOCK_SIZE ensures SameHeader(b, SetType(b, q, x), p) {
      RecordsApart(b, 0, p, q);
      ChainAt(b, 0, p);
      TypeKeepsHeader(b, p, q, x);
    }
  }

  lemma {:induction false} RecordsApart(b: Block, from: nat, p: nat, q: nat)
    requires Tiled(b, from) && OnChain(b, from, p) && OnChain(b, from, q)
    ensures p == q || q + HEADER <= p || p + HEADER <= q
    decreases BLOCK_SIZE - from
  {
    hide Ino, RecLen, NameLen;
    ChainAt(b, from, p);
    ChainAt(b, from, q);
    if from == p || from == q {
    } else {
      RecordsApart(b, from + RecLen(b, from), p, q);
    }
  }

  lemma RepairedIsAlike(fs: Fs, at: Place)
    requires Readable(fs, at)
    ensures Alike(fs, Repaired(fs, at))
  {
    hide Tiled, Ino, NameLen, RecordOk, ReachedFrom, Mark, ExpectedType, SetType, AlikeBlock, OnChain;
    var fs' := Repaired(fs, at);
    forall n | 0 <= n < |fs.disk| ensures AlikeBlock(fs.disk[n], fs'.disk[n], n) {
      if n == at.block {
        InRecord(fs, at);
        TypeIsAlike(fs.disk[n], n, at.pos, ExpectedType(InodeOf(fs, at).mode));
      } else {
        BlockAlike(fs.disk[n], n);
      }
    }
  }

  lemma BlockAlike(b: Block, n: nat)
    ensures AlikeBlock(b, b, n)
  {}

  lemma InRecord(fs: Fs, at: Place)
    requires Readable(fs, at)
    ensures at.pos + HEADER <= BLOCK_SIZE
  {}

  lemma ReadableAlike(fs: Fs, fs': Fs, at: Place)
    requires Alike(fs, fs') && Readable(fs, at)
    ensures Readable(fs', at) && InoOf(fs', at) == InoOf(fs, at)
    ensures InodeOf(fs', at).mode == InodeOf(fs, at).mode && InodeOf(fs', at).ptr == InodeOf(fs, at).ptr
    ensures at.pos + HEADER < BLOCK_SIZE ==> fs'.disk[at.block][at.pos + HEADER] == fs.disk[at.block][at.pos + HEADER]
  {
    hide Tiled, Ino, NameLen, RecLen, OnChain, Records;
    assert AlikeBlock(fs.disk[at.block], fs'.disk[at.block], at.block);
    OnChainOk(fs'.disk[at.block], at.pos);
  }

  lemma OnChainOk(b: Block, p: nat)
    requires Tiled(b, 0) && OnChain(b, 0, p)
    ensures RecordOk(b, p)
  {
    ChainAt(b, 0, p);
  }

  lemma {:induction false} ChildrenAlike(fs: Fs, fs': Fs, bs: seq<nat>)
    requires Alike(fs, fs') && AllTiled(fs.disk, bs)
    ensures AllTiled(fs'.disk, bs) && Children(fs'.disk, bs) == Children(fs.disk, bs)
    decreases |bs|
  {
    hide Tiled, SameHeader, Records;
    forall k | 0 <= k < |bs| ensures bs[k] < |fs'.disk| && Tiled(fs'.disk[bs[k]], 0) {
      assert AlikeBlock(fs.disk[bs[k]], fs'.disk[bs[k]], bs[k]);
    }
    if bs == [] {
    } else {
      assert AlikeBlock(fs.disk[bs[0]], fs'.disk[bs[0]], bs[0]);
      ChildrenAlike(fs, fs', bs[1..]);
    }
  }

  lemma DescendsAlike(fs: Fs, fs': Fs, at: Place, isRoot: bool)
    requires Alike(fs, fs') && Readable(fs, at) && at.pos + HEADER < BLOCK_SIZE
    ensures Readable(fs', at) && (Descends(fs', at, isRoot) <==> Descends(fs, at, isRoot))
  {
    hide Alike, Readable, InodeOf, ExpectedType;
    ReadableAlike(fs, fs', at);
  }

  /** The tree and the order of the visit depend only on what a repair keeps. */
  lemma {:induction false} TreeAlike(fs: Fs, fs': Fs, at: Place, isRoot: bool, depth: nat)
    requires Alike(fs, fs') && Tree(fs, at, isRoot, depth)
    ensures Tree(fs', at, isRoot, depth) && Visit(fs', at, isRoot, depth) == Visit(fs, at, isRoot, depth)
    decreases depth, 0
  {
    hide Alike, Readable, InodeOf, Descends, Children, Direct;
    ReadableAlike(fs, fs', at);
    DescendsAlike(fs, fs', at, isRoot);
    if Descends(fs, at, isRoot) {
      var bs := Direct(InodeOf(fs, at).ptr, 0);
      ChildrenAlike(fs, fs', bs);
      VisitAllAlike(fs, fs', Children(fs.disk, bs), depth - 1);
    }
  }

  lemma {:induction false} VisitAllAlike(fs: Fs, fs': Fs, cs: seq<Place>, depth: nat)
    requires Alike(fs, fs') && forall c :: c in cs ==> Tree(fs, c, false, depth)
    ensures forall c :: c in cs ==> Tree(fs', c, false, depth)
    ensures VisitAll(fs', cs, depth) == VisitAll(fs, cs, depth)
    decreases depth, 1, |cs|
  {
    hide Alike, Tree, Visit;
    if cs == [] {
    } else {
      assert cs[0] in cs;
      TreeAlike(fs, fs', cs[0], false, depth);
      VisitAllAlike(fs, fs', cs[1..], depth);
    }
  }

  // ---------- repairing all entries ----------

  ghost predicate AllReadable(fs: Fs, places: seq<Place>) {
    forall a :: a in places ==> Readable(fs, a)
  }

  lemma AllReadableAlike(fs: Fs, fs': Fs, places: seq<Place>)
    requires Alike(fs, fs') && AllReadable(fs, places)
    ensures AllReadable(fs', places)
  {
    hide Alike, Readable;
    forall a | a in places ensures Readable(fs', a) {
      ReadableAlike(fs, fs', a);
    }
  }

  lemma RepairedReadable(fs: Fs, places: seq<Place>)
    requires AllReadable(fs, places) && places != []
    ensures Readable(fs, places[0]) && AllReadable(Repaired(fs, places[0]), places[1..])
  {
    hide Readable, Repaired, Alike;
    assert places[0] in places;
    RepairedIsAlike(fs, places[0]);
    AllReadableAlike(fs, Repaired(fs, places[0]), places[1..]);
  }

  /** The repairs of a list of entries, one after the other, and their number. */
  ghost function RepairAll(fs: Fs, places: seq<Place>): (Fs, nat)
    requires AllReadable(fs, places)
    decreases |places|
  {
    if places == [] then (fs, 0) else
      RepairedReadable(fs, places);
      var (fs1, k) := RepairAll(Repaired(fs, places[0]), places[1..]);
      (fs1, Repairs(fs, places[0]) + k)
  }

  lemma {:induction false} RepairAllAlike(fs: Fs, places: seq<Place>)
    requires AllReadable(fs, places)
    ensures Alike(fs, RepairAll(fs, places).0)
    decreases |places|
  {
    hide Alike, Readable, Repaired, Repairs, AllReadable;
    if places == [] {
      AlikeSame(fs);
    } else {
      RepairedReadable(fs, places);
      var fs1 := Repaired(fs, places[0]);
      RepairedIsAlike(fs, places[0]);
      RepairAllAlike(fs1, places[1..]);
      AlikeTrans(fs, fs1, RepairAll(fs1, places[1..]).0);
    }
  }

  lemma {:induction false} RepairAllConcat(fs: Fs, a: seq<Place>, b: seq<Place>)
    requires AllReadable(fs, a) && AllReadable(fs, b)
    ensures AllReadable(fs, a + b) && AllReadable(RepairAll(fs, a).0, b)
    ensures var (fs1, k) := RepairAll(fs, a); RepairAll(fs, a + b) == (RepairAll(fs1, b).0, k + RepairAll(fs1, b).1)
    decreases |a|
  {
    hide Alike, Readable, Repaired, Repairs;
    if a == [] {
      assert a + b == b;
    } else {
      RepairedReadable(fs, a);
      RepairedIsAlike(fs, a[0]);
      AllReadableAlike(fs, Repaired(fs, a[0]), b);
      assert (a + b)[1..] == a[1..] + b && (a + b)[0] == a[0];
      RepairAllConcat(Repaired(fs, a[0]), a[1..], b);
    }
  }

  // ---------- after the repairs ----------

  /** No directory block among those visited is the indirect block of a visited inode. */
  ghost predicate IndirectApart(fs: Fs, at: Place, c: Place)
    requires Readable(fs, at) && Readable(fs, c)
  {
    InodeOf(fs, c).ptr[DIRECT] == 0 || InodeOf(fs, c).ptr[DIRECT] != at.block
  }

  lemma ReachedSame(fs: Fs, at: Place, c: Place)
    requires Readable(fs, at) && Readable(fs, c) && IndirectApart(fs, at, c)
    ensures Readable(Repaired(fs, at), c)
    ensures ReachedFrom(Repaired(fs, at), c) == ReachedFrom(fs, c)
  {
    hide Readable, Alike, Mark, Nonzero, Words, Tiled, Ino;
    RepairedIsAlike(fs, at);
    ReadableAlike(fs, Repaired(fs, at), c);
    RepairedDisk(fs, at);
    IndirectInRange(fs, c);
  }

  lemma IndirectInRange(fs: Fs, c: Place)
    requires Readable(fs, c)
    ensures InodeOf(fs, c).ptr[DIRECT] < |fs.disk| && c.block < |fs.disk| && c.pos + HEADER <= BLOCK_SIZE
  {}

  /** Byte by byte, a repair changes the type of its own record only. */
  lemma RepairedDisk(fs: Fs, at: Place)
    requires Readable(fs, at)
    ensures var fs' := Repaired(fs, at);
      && |fs'.disk| == |fs.disk| && |fs'.inodes| == |fs.inodes| && at.block < |fs.disk| && at.pos + HEADER <= BLOCK_SIZE
      && (forall n :: 0 <= n < |fs.disk| && n != at.block ==> fs'.disk[n] == fs.disk[n])
      && (forall x :: 0 <= x < BLOCK_SIZE && x != at.pos + 7 ==> fs'.disk[at.block][x] == fs.disk[at.block][x])
      && fs'.disk[at.block][at.pos + 7] == ExpectedType(InodeOf(fs, at).mode)
      && (forall k :: 0 <= k < |fs.inodes| ==> fs'.inodes[k] == if k == InoOf(fs, at) - 1 then ClearTime(fs.inodes[k]) else fs.inodes[k])
      && fs.inodeMap.used <= fs'.inodeMap.used && InoOf(fs, at) in fs'.inodeMap.used
      && fs.blockMap.used <= fs'.blockMap.used
      && forall n :: n in ReachedFrom(fs, at) ==> n in fs'.blockMap.used
  {
    hide Tiled, OnChain, Mark, ReachedFrom, ExpectedType;
    MarkValue(fs.blockMap, ReachedFrom(fs, at));
  }

  /** An entry that has been repaired is consistent. */
  lemma RepairedIsClean(fs: Fs, at: Place)
    requires Readable(fs, at) && IndirectApart(fs, at, at)
    ensures Readable(Repaired(fs, at), at) && Clean(Repaired(fs, at), at)
  {
    hide Readable, Alike, ReachedFrom, Repaired, InodeOf, InoOf, ExpectedType;
    RepairedIsAlike(fs, at);
    ReadableAlike(fs, Repaired(fs, at), at);
    RepairedDisk(fs, at);
    ReachedSame(fs, at, at);
    TimeCleared(fs, at);
  }

  lemma TimeCleared(fs: Fs, at: Place)
    requires Readable(fs, at)
    ensures Readable(Repaired(fs, at), at) && InodeOf(Repaired(fs, at), at).dtime == 0
  {
    hide Tiled, OnChain, ReachedFrom, Alike;
    RepairedIsAlike(fs, at);
    ReadableAlike(fs, Repaired(fs, at), at);
  }

  /** Repairing another entry keeps a consistent one consistent. */
  lemma RepairKeepsClean(fs: Fs, at: Place, c: Place)
    requires Readable(fs, at) && Readable(fs, c) && Clean(fs, c) && IndirectApart(fs, at, c)
    ensures Readable(Repaired(fs, at), c) && Clean(Repaired(fs, at), c)
  {
    hide Alike, ReachedFrom, Repaired, ExpectedType, Tiled, OnChain, Ino;
    RepairedIsAlike(fs, at);
    ReadableAlike(fs, Repaired(fs, at), c);
    RepairedDisk(fs, at);
    ReachedSame(fs, at, c);
    if at == c {
      RepairedIsClean(fs, at);
    }
  }

  ghost predicate AllApart(fs: Fs, places: seq<Place>)
    requires AllReadable(fs, places)
  {
    forall a, c :: a in places && c in places ==> IndirectApart(fs, a, c)
  }

  ghost predicate AllClean(fs: Fs, places: seq<Place>)
    requires AllReadable(fs, places)
  {
    forall c :: c in places ==> Clean(fs, c)
  }

  lemma AllApartAlike(fs: Fs, fs': Fs, places: seq<Place>)
    requires Alike(fs, fs') && AllReadable(fs, places) && AllApart(fs, places)
    ensures AllReadable(fs', places) && AllApart(fs', places)
  {
    hide Alike, Readable, InodeOf;
    AllReadableAlike(fs, fs', places);
    forall a, c | a in places && c in places ensures IndirectApart(fs', a, c) {
      ReadableAlike(fs, fs', c);
      assert IndirectApart(fs, a, c);
    }
  }

  lemma {:induction false} RepairAllKeeps(fs: Fs, places: seq<Place>, c: Place)
    requires AllReadable(fs, places) && Readable(fs, c) && Clean(fs, c)
    requires forall a :: a in places ==> IndirectApart(fs, a, c)
    ensures Readable(RepairAll(fs, places).0, c) && Clean(RepairAll(fs, places).0, c)
    decreases |places|
  {
    hide Alike, Readable, Repaired, Repairs, Clean, InodeOf;
    if places == [] {
    } else {
      var at := places[0];
      var fs1 := Repaired(fs, at);
      assert at in places;
      RepairedReadable(fs, places);
      RepairKeepsClean(fs, at, c);
      RepairedIsAlike(fs, at);
      ReadableAlike(fs, fs1, c);
      forall a | a in places[1..] ensures IndirectApart(fs1, a, c) {
        assert IndirectApart(fs, a, c);
      }
      RepairAllKeeps(fs1, places[1..], c);
    }
  }

  /** After the repairs every visited entry is consistent. */
  lemma {:induction false} RepairAllCleans(fs: Fs, places: seq<Place>)
    requires AllReadable(fs, places) && AllApart(fs, places)
    ensures AllReadable(RepairAll(fs, places).0, places) && AllClean(RepairAll(fs, places).0, places)
    decreases |places|
  {
    hide Alike, Readable, Repaired, Repairs, Clean, IndirectApart;
    RepairAllAlike(fs, places);
    AllReadableAlike(fs, RepairAll(fs, places).0, places);
    if places == [] {
    } else {
      var at, rest := places[0], places[1..];
      var fs1 := Repaired(fs, at);
      assert at in places && forall a :: a in rest ==> a in places;
      RepairedReadable(fs, places);
      RepairedIsClean(fs, at);
      RepairedIsAlike(fs, at);
      AllApartAlike(fs, fs1, places);
      RepairAllCleans(fs1, rest);
      RepairAllKeeps(fs1, rest, at);
    }
  }

  /** Where every entry is consistent nothing is repaired. */
  lemma {:induction false} NothingToRepair(fs: Fs, places: seq<Place>)
    requires AllReadable(fs, places) && AllClean(fs, places)
    ensures RepairAll(fs, places) == (fs, 0)
    decreases |places|
  {
    hide Readable, Repaired, Repairs, Clean;
    if places == [] {
    } else {
      var at, rest := places[0], places[1..];
      assert at in places && forall a :: a in rest ==> a in places;
      RepairedReadable(fs, places);
      CleanNeedsNothing(fs, at);
      NothingToRepair(fs, rest);
    }
  }

  lemma {:induction false} VisitReadable(fs: Fs, at: Place, isRoot: bool, depth: nat)
    requires Tree(fs, at, isRoot, depth)
    ensures AllReadable(fs, Visit(fs, at, isRoot, depth))
    decreases depth, 0
  {
    hide Readable, Descends, Children, Direct;
    if Descends(fs, at, isRoot) {
      VisitAllReadable(fs, Children(fs.disk, Direct(InodeOf(fs, at).ptr, 0)), depth - 1);
    }
  }

  lemma {:induction false} VisitAllReadable(fs: Fs, cs: seq<Place>, depth: nat)
    requires forall c :: c in cs ==> Tree(fs, c, false, depth)
    ensures AllReadable(fs, VisitAll(fs, cs, depth))
    decreases depth, 1, |cs|
  {
    hide Readable, Tree, Visit;
    if cs == [] {
    } else {
      assert cs[0] in cs;
      VisitReadable(fs, cs[0], false, depth);
      VisitAllReadable(fs, cs[1..], depth);
    }
  }

  /** The tree part of the checker is idempotent: after one run every visited entry is consistent,
      and a second run visits the same entries and repairs nothing. */
  lemma TreeRepairIsIdempotent(fs: Fs, at: Place, isRoot: bool, depth: nat)
    requires Tree(fs, at, isRoot, depth) && AllReadable(fs, Visit(fs, at, isRoot, depth)) && AllApart(fs, Visit(fs, at, isRoot, depth))
    ensures var visited := Visit(fs, at, isRoot, depth); var fs1 := RepairAll(fs, visited).0;
      && AllReadable(fs1, visited) && AllClean(fs1, visited)
      && Tree(fs1, at, isRoot, depth) && Visit(fs1, at, isRoot, depth) == visited
      && RepairAll(fs1, visited) == (fs1, 0)
  {
    hide Readable, Tree, Visit, Alike, RepairAll, AllClean, AllApart;
    var visited := Visit(fs, at, isRoot, depth);
    RepairAllAlike(fs, visited);
    RepairAllCleans(fs, visited);
    TreeAlike(fs, RepairAll(fs, visited).0, at, isRoot, depth);
    NothingToRepair(RepairAll(fs, visited).0, visited);
  }

  // ---------- counters and the root ----------

  /** fix_free_inodes_count and fix_free_blocks_count: both counters become the number of clear
      bits, the group's truncated to 16 bits. */
  ghost function Recounted(m: Map, count: nat): Map
    requires |m.used| <= count
  {
    Map(m.used, (count - |m.used|) % U32, (count - |m.used|) % U16)
  }

  function Distance(a: nat, b: nat): nat {
    if a < b then b - a else a - b
  }

  /** By how much the two counters were off. */
  ghost function Off(m: Map, count: nat): nat
    requires |m.used| <= count
  {
    Distance(count - |m.used|, m.sbFree) + Distance(count - |m.used|, m.gdFree)
  }

  /** Exactly the balanced maps need no repair of their counters. */
  lemma BalancedNeedsNothing(m: Map, count: nat)
    requires m.used <= Numbers(count) && count < U16
    ensures |m.used| <= count && Balanced(Recounted(m, count), count)
    ensures Off(m, count) == 0 <==> Balanced(m, count)
    ensures Balanced(m, count) ==> Recounted(m, count) == m
  {
    hide Numbers;
    UsedFits(m, count);
    SmallMod(count - |m.used|, U32);
    SmallMod(count - |m.used|, U16);
  }

  lemma SmallMod(x: nat, n: nat)
    requires x < n
    ensures x % n == x
  {
    ModUnique(x, n, 0, x);
  }

  /** The root's i_mode after the check in main: the directory bit is or-ed in. */
  function RootMode(mode: nat): nat
    requires mode < U16
  {
    if mode / 0x1000 == S_IFDIR / 0x1000 then mode else OrBit(mode, 14)
  }

  /** That makes it a directory exactly when its type was 0 or already a directory; a second run
      then has nothing left to do at the root. */
  lemma RootBecomesDirectory(mode: nat)
    requires mode < U16
    ensures RootMode(mode) / 0x1000 == S_IFDIR / 0x1000 <==> mode / 0x1000 == 0 || mode / 0x1000 == S_IFDIR / 0x1000
  {
    Pow2Values();
    assert Pow2(14) == 0x4000;
    var nibble := mode / 0x1000;
    assert mode == 0x1000 * nibble + mode % 0x1000;
    OrBitAdds(mode, 14);
    if mode / 0x1000 != S_IFDIR / 0x1000 && !Bit(mode, 14) {
      assert RootMode(mode) == 0x1000 * (nibble + 4) + mode % 0x1000;
    }
  }

  /** A second run leaves the mode as the first has left it, whatever type that is. */
  lemma RootModeTwice(mode: nat)
    requires mode < U16
    ensures RootMode(mode) < U16 && RootMode(RootMode(mode)) == RootMode(mode)
  {
    hide OrBit, Bit;
    RootModeFits(mode);
    BitOfOr(mode, 14, 14);
    OrBitAdds(OrBit(mode, 14), 14);
  }

  // ---------- a whole run ----------

  ghost predicate MapsFit(fs: Fs) {
    && fs.blockMap.used <= Numbers(|fs.disk|) && fs.inodeMap.used <= Numbers(|fs.inodes|)
    && |fs.disk| < U16 && 2 <= |fs.inodes| < U16
  }

  ghost predicate Counted(fs: Fs) {
    Balanced(fs.blockMap, |fs.disk|) && Balanced(fs.inodeMap, |fs.inodes|)
  }

  ghost function CountersFixed(fs: Fs): Fs
    requires MapsFit(fs)
  {
    UsedFits(fs.blockMap, |fs.disk|);
    UsedFits(fs.inodeMap, |fs.inodes|);
    Fs(Recounted(fs.blockMap, |fs.disk|), Recounted(fs.inodeMap, |fs.inodes|), fs.inodes, fs.disk)
  }

  ghost function CountersOff(fs: Fs): nat
    requires MapsFit(fs)
  {
    UsedFits(fs.blockMap, |fs.disk|);
    UsedFits(fs.inodeMap, |fs.inodes|);
    Off(fs.inodeMap, |fs.inodes|) + Off(fs.blockMap, |fs.disk|)
  }

  lemma CountedNeedsNothing(fs: Fs)
    requires MapsFit(fs)
    ensures MapsFit(CountersFixed(fs)) && Counted(CountersFixed(fs))
    ensures CountersOff(fs) == 0 <==> Counted(fs)
    ensures Counted(fs) ==> CountersFixed(fs) == fs
  {
    hide Numbers, Balanced, Recounted, Off;
    BalancedNeedsNothing(fs.blockMap, |fs.disk|);
    BalancedNeedsNothing(fs.inodeMap, |fs.inodes|);
    RecountedUsed(fs);
  }

  lemma RecountedUsed(fs: Fs)
    requires MapsFit(fs)
    ensures var g := CountersFixed(fs); g.blockMap.used == fs.blockMap.used && g.inodeMap.used == fs.inodeMap.used
  {}

  /** Every block number the checker looks at is a block of the image. */
  ghost predicate PointersInRange(fs: Fs, places: seq<Place>)
    requires AllReadable(fs, places)
  {
    forall c, n :: c in places && n in ReachedFrom(fs, c) ==> 1 <= n <= |fs.disk|
  }

  lemma {:induction false} RepairAllCounted(fs: Fs, places: seq<Place>)
    requires MapsFit(fs) && Counted(fs) && AllReadable(fs, places) && AllApart(fs, places) && PointersInRange(fs, places)
    ensures MapsFit(RepairAll(fs, places).0) && Counted(RepairAll(fs, places).0)
    decreases |places|
  {
    hide Readable, Repaired, Repairs, Balanced, Alike, IndirectApart, ReachedFrom, InodeOf, Numbers;
    if places == [] {
    } else {
      var at, rest := places[0], places[1..];
      var fs1 := Repaired(fs, at);
      assert at in places && forall a :: a in rest ==> a in places;
      RepairedReadable(fs, places);
      RepairedCounted(fs, at);
      RepairedIsAlike(fs, at);
      AllApartAlike(fs, fs1, places);
      forall c, n | c in rest && n in ReachedFrom(fs1, c) ensures 1 <= n <= |fs1.disk| {
        ReachedSame(fs, at, c);
      }
      RepairAllCounted(fs1, rest);
    }
  }

  lemma RepairedCounted(fs: Fs, at: Place)
    requires MapsFit(fs) && Counted(fs) && Readable(fs, at)
    requires forall n :: n in ReachedFrom(fs, at) ==> 1 <= n <= |fs.disk|
    ensures MapsFit(Repaired(fs, at)) && Counted(Repaired(fs, at))
    ensures |Repaired(fs, at).disk| == |fs.disk|
  {
    hide ReachedFrom, Tiled, OnChain, ExpectedType, Mark;
    MarkBalanced(fs.blockMap, ReachedFrom(fs, at), |fs.disk|);
    if InoOf(fs, at) !in fs.inodeMap.used {
      AcquireBalanced(fs.inodeMap, InoOf(fs, at), |fs.inodes|);
    }
  }

  /** main's check of the root inode, number 2. */
  ghost function RootFixed(fs: Fs): Fs
    requires |fs.inodes| >= 2 && fs.inodes[1].mode < U16
  {
    var i := fs.inodes[1];
    fs.(inodes := fs.inodes[1 := InodeRecord(RootMode(i.mode), i.size, i.links, i.sectors, i.dtime, i.ptr)])
  }

  function RootEntry(fs: Fs): Place
    requires |fs.inodes| >= 2
  {
    Place(fs.inodes[1].ptr[0], 0)
  }

  /** The root's type is 0 or directory: or-ing the directory bit in makes it a directory. */
  predicate RootTyped(mode: nat) {
    mode / 0x1000 == 0 || mode / 0x1000 == S_IFDIR / 0x1000
  }

  /** The state in which the walk starts. */
  ghost function Started(fs: Fs): Fs
    requires MapsFit(fs) && fs.inodes[1].mode < U16
  {
    CountersFixed(RootFixed(fs))
  }

  /** An acyclic tree of well-formed directory blocks hangs below the root. */
  ghost predicate Checkable(fs: Fs, depth: nat) {
    && MapsFit(fs) && fs.inodes[1].mode < U16
    && var p := Started(fs);
    && Tree(p, RootEntry(p), true, depth)
    && var visited := Visit(p, RootEntry(p), true, depth);
    && AllReadable(p, visited) && AllApart(p, visited) && PointersInRange(p, visited)
  }

  ghost function Visited(fs: Fs, depth: nat): seq<Place>
    requires Checkable(fs, depth)
  {
    Visit(Started(fs), RootEntry(Started(fs)), true, depth)
  }

  /** The image after a run of the checker. */
  ghost function Checked(fs: Fs, depth: nat): Fs
    requires Checkable(fs, depth)
  {
    RepairAll(Started(fs), Visited(fs, depth)).0
  }

  /** The number of inconsistencies it reports. */
  ghost function Reported(fs: Fs, depth: nat): nat
    requires Checkable(fs, depth)
  {
    (if fs.inodes[1].mode / 0x1000 == S_IFDIR / 0x1000 then 0 else 1)
    + CountersOff(RootFixed(fs)) + RepairAll(Started(fs), Visited(fs, depth)).1
  }

  lemma StartedIsCounted(fs: Fs)
    requires MapsFit(fs) && fs.inodes[1].mode < U16
    ensures MapsFit(Started(fs)) && Counted(Started(fs))
    ensures Started(fs).inodes[1].mode < U16 && RootMode(Started(fs).inodes[1].mode) == Started(fs).inodes[1].mode
    ensures Started(fs).inodes[1].mode / 0x1000 == S_IFDIR / 0x1000 <==> RootTyped(fs.inodes[1].mode)
  {
    hide Counted, Numbers;
    RootBecomesDirectory(fs.inodes[1].mode);
    RootModeTwice(fs.inodes[1].mode);
    CountedNeedsNothing(RootFixed(fs));
  }

  lemma RootModeFits(mode: nat)
    requires mode < U16
    ensures RootMode(mode) < U16
  {
    assert Pow2(8) == 0x100;
    assert Pow2(16) == U16;
    WordBound(mode, 14, 16);
  }

  /** A state in which the checker changes nothing before the walk. */
  lemma StartedAlready(fs: Fs)
    requires MapsFit(fs) && Counted(fs) && fs.inodes[1].mode < U16 && RootMode(fs.inodes[1].mode) == fs.inodes[1].mode
    ensures Started(fs) == fs && RootFixed(fs) == fs && CountersOff(fs) == 0
  {
    hide Counted, Numbers;
    assert fs.inodes[1 := fs.inodes[1]] == fs.inodes;
    CountedNeedsNothing(fs);
  }

  /** The checker is idempotent: after one run all counters match the bitmaps and every visited
      entry is consistent, and a second run visits the same entries and changes nothing. It reports
      nothing exactly if the root's type was 0 or directory; a root of any other type is reported
      again in every run. */
  lemma CheckerIsIdempotent(fs: Fs, depth: nat)
    requires Checkable(fs, depth)
    ensures var fs1 := Checked(fs, depth);
      && Counted(fs1) && AllReadable(fs1, Visited(fs, depth)) && AllClean(fs1, Visited(fs, depth))
      && Checkable(fs1, depth) && Visited(fs1, depth) == Visited(fs, depth)
      && Checked(fs1, depth) == fs1 && Reported(fs1, depth) == (if RootTyped(fs.inodes[1].mode) then 0 else 1)
  {
    hide Counted, MapsFit, Tree, Visit, AllApart, AllClean, AllReadable, RepairAll, Started, RootFixed, CountersOff, ReachedFrom, Readable, InodeOf;
    StartedIsCounted(fs);
    var p, visited := Started(fs), Visited(fs, depth);
    StartedFits(p);
    TreeRepairIsIdempotent(p, RootEntry(p), true, depth);
    RepairAllCounted(p, visited);
    RepairAllAlike(p, visited);
    var fs1 := Checked(fs, depth);
    RootAlike(p, fs1);
    StartedAlready(fs1);
    AllApartAlike(p, fs1, visited);
    ReachedKept(p, visited);
  }

  lemma StartedFits(fs: Fs)
    requires MapsFit(fs)
    ensures |fs.inodes| >= 2
  {}

  lemma RootAlike(p: Fs, fs1: Fs)
    requires Alike(p, fs1) && MapsFit(p)
    ensures |fs1.inodes| == |p.inodes| >= 2 && fs1.inodes[1].mode == p.inodes[1].mode && RootEntry(fs1) == RootEntry(p)
  {}

  /** The block numbers to look at stay in range. */
  lemma ReachedKept(fs: Fs, places: seq<Place>)
    requires AllReadable(fs, places) && AllApart(fs, places) && PointersInRange(fs, places)
    ensures AllReadable(RepairAll(fs, places).0, places) && PointersInRange(RepairAll(fs, places).0, places)
  {
    hide Readable, Alike, InodeOf, ReachedFrom, RepairAll;
    RepairAllAlike(fs, places);
    AllReadableAlike(fs, RepairAll(fs, places).0, places);
    RepairAllSize(fs, places);
    forall c, n | c in places && n in ReachedFrom(RepairAll(fs, places).0, c)
      ensures 1 <= n <= |RepairAll(fs, places).0.disk|
    {
      ReachedThrough(fs, places, c);
    }
  }

  lemma RepairAllSize(fs: Fs, places: seq<Place>)
    requires AllReadable(fs, places)
    ensures |RepairAll(fs, places).0.disk| == |fs.disk|
  {
    hide RepairAll;
    RepairAllAlike(fs, places);
  }

  lemma {:induction false} ReachedThrough(fs: Fs, places: seq<Place>, c: Place)
    requires AllReadable(fs, places) && Readable(fs, c) && forall a :: a in places ==> IndirectApart(fs, a, c)
    ensures Readable(RepairAll(fs, places).0, c)
    ensures ReachedFrom(RepairAll(fs, places).0, c) == ReachedFrom(fs, c)
    decreases |places|
  {
    hide Readable, Alike, InodeOf, ReachedFrom, Repaired, Repairs;
    if places == [] {
    } else {
      var at, rest := places[0], places[1..];
      var fs1 := Repaired(fs, at);
      assert at in places;
      RepairedReadable(fs, places);
      ReachedSame(fs, at, c);
      RepairedIsAlike(fs, at);
      ReadableAlike(fs, fs1, c);
      forall a | a in rest ensures IndirectApart(fs1, a, c) {
        assert IndirectApart(fs, a, c);
      }
      ReachedThrough(fs1, rest, c);
    }
  }

  // ---------- counters and tree commute ----------

  ghost predicate SameButCounters(a: Fs, b: Fs) {
    a.inodes == b.inodes && a.disk == b.disk && a.blockMap.used == b.blockMap.used && a.inodeMap.used == b.inodeMap.used
  }

  lemma {:induction false} MarkIgnoresCounters(m: Map, m': Map, ns: seq<nat>)
    requires m.used == m'.used
    ensures Mark(m, ns).0.used == Mark(m', ns).0.used && Mark(m, ns).1 == Mark(m', ns).1
    decreases |ns|
  {
    if ns == [] {
    } else {
      if ns[0] in m.used {
        MarkIgnoresCounters(m, m', ns[1..]);
      } else {
        MarkIgnoresCounters(Acquire(m, ns[0]), Acquire(m', ns[0]), ns[1..]);
      }
    }
  }

  lemma RepairedIgnoresCounters(a: Fs, b: Fs, at: Place)
    requires SameButCounters(a, b) && Readable(a, at)
    ensures Readable(b, at) && SameButCounters(Repaired(a, at), Repaired(b, at)) && Repairs(a, at) == Repairs(b, at)
  {
    hide Tiled, OnChain, Reached, ExpectedType, Mark;
    MarkIgnoresCounters(a.blockMap, b.blockMap, ReachedFrom(a, at));
  }

  lemma {:induction false} RepairAllIgnoresCounters(a: Fs, b: Fs, places: seq<Place>)
    requires SameButCounters(a, b) && AllReadable(a, places)
    ensures AllReadable(b, places)
    ensures SameButCounters(RepairAll(a, places).0, RepairAll(b, places).0) && RepairAll(a, places).1 == RepairAll(b, places).1
    decreases |places|
  {
    hide Readable, Repaired, Repairs;
    forall at | at in places ensures Readable(b, at) {
      RepairedIgnoresCounters(a, b, at);
    }
    if places == [] {
    } else {
      RepairedReadable(a, places);
      RepairedReadable(b, places);
      RepairedIgnoresCounters(a, b, places[0]);
      RepairAllIgnoresCounters(Repaired(a, places[0]), Repaired(b, places[0]), places[1..]);
    }
  }

  lemma ReadableIgnoresCounters(a: Fs, b: Fs, places: seq<Place>)
    requires SameButCounters(a, b) && AllReadable(a, places) && AllApart(a, places) && PointersInRange(a, places)
    ensures AllReadable(b, places) && AllApart(b, places) && PointersInRange(b, places)
  {
    hide Reached, Tiled, OnChain;
    forall at | at in places ensures Readable(b, at) && ReachedFrom(b, at) == ReachedFrom(a, at) && InodeOf(b, at) == InodeOf(a, at) {}
    forall x, c | x in places && c in places ensures IndirectApart(b, x, c) {
      assert IndirectApart(a, x, c);
    }
  }

  /** Repairing the counters before the tree or after it gives the same image. */
  lemma CountersCommute(fs: Fs, places: seq<Place>)
    requires MapsFit(fs) && AllReadable(fs, places) && AllApart(fs, places) && PointersInRange(fs, places)
    ensures AllReadable(CountersFixed(fs), places) && MapsFit(RepairAll(fs, places).0)
    ensures RepairAll(CountersFixed(fs), places).0 == CountersFixed(RepairAll(fs, places).0)
    ensures RepairAll(CountersFixed(fs), places).1 == RepairAll(fs, places).1
  {
    hide Readable, RepairAll, AllApart, PointersInRange, Balanced, Numbers, Recounted;
    RecountedUsed(fs);
    CountedNeedsNothing(fs);
    var g := CountersFixed(fs);
    ReadableIgnoresCounters(fs, g, places);
    RepairAllIgnoresCounters(fs, g, places);
    RepairAllCounted(g, places);
    CountedNeedsNothing(RepairAll(g, places).0);
    FixedIgnoresCounters(RepairAll(fs, places).0, RepairAll(g, places).0);
  }

  lemma FixedIgnoresCounters(a: Fs, b: Fs)
    requires SameButCounters(a, b) && MapsFit(b)
    ensures MapsFit(a) && CountersFixed(a) == CountersFixed(b)
  {}

  /** From m to m1 more numbers have come into use, and unless a counter wrapped each of them has
      been counted off once. */
  ghost predicate Drawn(m: Map, m1: Map) {
    && m.used <= m1.used && |m.used| <= |m1.used| && CountersFit(m1)
    && (NoWrap(m, m1) ==> m.sbFree - m1.sbFree == m.gdFree - m1.gdFree == |m1.used| - |m.used|)
  }

  /** Both counters are large enough for what comes into use. */
  ghost predicate NoWrap(m: Map, m1: Map) {
    |m1.used| - |m.used| <= m.sbFree && |m1.used| - |m.used| <= m.gdFree
  }

  lemma DrawnTrans(m: Map, m1: Map, m2: Map)
    requires Drawn(m, m1) && Drawn(m1, m2)
    ensures Drawn(m, m2)
  {}

  lemma AcquireDraws(m: Map, n: nat)
    requires CountersFit(m) && n !in m.used
    ensures Drawn(m, Acquire(m, n))
  {
    var m1 := Acquire(m, n);
    assert |m1.used| == |m.used| + 1;
    ModBound(m.sbFree + U32 - 1, U32);
    ModBound(m.gdFree + U16 - 1, U16);
    if NoWrap(m, m1) {
      ModUnique(m.sbFree + U32 - 1, U32, 1, m.sbFree - 1);
      ModUnique(m.gdFree + U16 - 1, U16, 1, m.gdFree - 1);
    }
  }

  lemma {:induction false} MarkDraws(m: Map, ns: seq<nat>)
    requires CountersFit(m)
    ensures Drawn(m, Mark(m, ns).0)
    decreases |ns|
  {
    hide Acquire, CountersFit;
    if ns == [] {
      DrawnNothing(m);
    } else if ns[0] in m.used {
      MarkDraws(m, ns[1..]);
    } else {
      AcquireDraws(m, ns[0]);
      MarkDraws(Acquire(m, ns[0]), ns[1..]);
      DrawnTrans(m, Acquire(m, ns[0]), Mark(m, ns).0);
    }
  }

  lemma DrawnNothing(m: Map)
    requires CountersFit(m)
    ensures Drawn(m, m)
  {}

  ghost predicate MapsDrawn(fs: Fs, fs1: Fs) {
    Drawn(fs.blockMap, fs1.blockMap) && Drawn(fs.inodeMap, fs1.inodeMap)
  }

  lemma RepairedDraws(fs: Fs, at: Place)
    requires Readable(fs, at) && CountersFit(fs.blockMap) && CountersFit(fs.inodeMap)
    ensures MapsDrawn(fs, Repaired(fs, at))
  {
    hide Tiled, OnChain, Reached, ExpectedType, Mark, Acquire, Drawn, CountersFit;
    MarkDraws(fs.blockMap, ReachedFrom(fs, at));
    if InoOf(fs, at) in fs.inodeMap.used {
      DrawnNothing(fs.inodeMap);
    } else {
      AcquireDraws(fs.inodeMap, InoOf(fs, at));
    }
  }

  lemma {:induction false} RepairAllDraws(fs: Fs, places: seq<Place>)
    requires AllReadable(fs, places) && CountersFit(fs.blockMap) && CountersFit(fs.inodeMap)
    ensures MapsDrawn(fs, RepairAll(fs, places).0)
    decreases |places|
  {
    hide Readable, Repaired, Repairs, NoWrap;
    if places == [] {
      DrawnNothing(fs.blockMap);
      DrawnNothing(fs.inodeMap);
    } else {
      RepairedReadable(fs, places);
      var fs1 := Repaired(fs, places[0]);
      RepairedDraws(fs, places[0]);
      RepairAllDraws(fs1, places[1..]);
      DrawnTrans(fs.blockMap, fs1.blockMap, RepairAll(fs, places).0.blockMap);
      DrawnTrans(fs.inodeMap, fs1.inodeMap, RepairAll(fs, places).0.inodeMap);
    }
  }

  lemma OffStays(m: Map, m1: Map, count: nat)
    requires Drawn(m, m1) && NoWrap(m, m1) && |m1.used| <= count
    ensures |m.used| <= count && Off(m1, count) == Off(m, count)
  {}

  /** Unless a counter wraps, the counters are off by as much after the tree as before it, so main
      reports the same total in whichever order its three calls are made. */
  lemma ReportCommutes(fs: Fs, places: seq<Place>)
    requires MapsFit(fs) && AllReadable(fs, places) && AllApart(fs, places) && PointersInRange(fs, places)
    requires CountersFit(fs.blockMap) && CountersFit(fs.inodeMap)
    requires NoWrap(fs.blockMap, RepairAll(fs, places).0.blockMap) && NoWrap(fs.inodeMap, RepairAll(fs, places).0.inodeMap)
    ensures AllReadable(CountersFixed(fs), places) && MapsFit(RepairAll(fs, places).0)
    ensures CountersOff(RepairAll(fs, places).0) == CountersOff(fs)
    ensures CountersOff(fs) + RepairAll(CountersFixed(fs), places).1 == RepairAll(fs, places).1 + CountersOff(RepairAll(fs, places).0)
  {
    hide Readable, RepairAll, AllApart, PointersInRange, Numbers, Recounted, Off, NoWrap, Drawn;
    CountersCommute(fs, places);
    RepairAllDraws(fs, places);
    RepairAllAlike(fs, places);
    var fs1 := RepairAll(fs, places).0;
    UsedFits(fs1.blockMap, |fs1.disk|);
    UsedFits(fs1.inodeMap, |fs1.inodes|);
    OffStays(fs.blockMap, fs1.blockMap, |fs.disk|);
    OffStays(fs.inodeMap, fs1.inodeMap, |fs.inodes|);
  }

  // ---------- the tool ----------

  /** The double loop over the bitmap: how many of the numbers are free. */
  method CountFree(bm: Bitmap) returns (free: nat)
    requires bm.Valid()
    ensures free == bm.count - |bm.Value().used|
  {
    free := 0;
    ghost var clear: set<nat> := {};
    var i := 0;
    while i < bm.count
      invariant i <= bm.count && free == |clear|
      invariant forall k :: k in clear <==> 1 <= k <= 8 * i && !bm.IsSet(k)
    {
      var j := 0;
      while j < 8
        invariant j <= 8 && free == |clear|
        invariant forall k :: k in clear <==> 1 <= k <= 8 * i + j && !bm.IsSet(k)
      {
        ghost var n := 8 * i + j + 1;
        assert (n - 1) / 8 == i && (n - 1) % 8 == j;
        if !Bit(bm.bytes[i], j) {
          free := free + 1;
          clear := clear + {n};
        }
        j := j + 1;
      }
      i := i + 1;
    }
    FreeNumbers(bm, clear);
  }

  lemma FreeNumbers(bm: Bitmap, clear: set<nat>)
    requires bm.Valid() && forall k :: k in clear <==> 1 <= k <= 8 * bm.count && !bm.IsSet(k)
    ensures |clear| == bm.count - |bm.Value().used|
  {
    var used := bm.Value().used;
    assert used + clear == Numbers(bm.count) && used !! clear;
    NumbersSize(bm.count);
    assert |used + clear| == |used| + |clear|;
  }

  /** fix_free_inodes_count and fix_free_blocks_count. */
  method FixFreeCount(bm: Bitmap) returns (off: nat)
    requires bm.Valid()
    modifies bm
    ensures bm.Valid() && bm.Value().used == old(bm.Value()).used
    ensures |old(bm.Value()).used| <= bm.count
    ensures bm.Value() == Recounted(old(bm.Value()), bm.count) && off == Off(old(bm.Value()), bm.count)
  {
    UsedFits(bm.Value(), bm.count);
    var free := CountFree(bm);
    var sbOff, gdOff := Distance(free, bm.sbFree), Distance(free, bm.gdFree);
    if sbOff != 0 {
      bm.sbFree := free % U32;
    }
    if gdOff != 0 {
      bm.gdFree := free % U16;
    }
    off := sbOff + gdOff;
    SameCounters(free, old(bm.sbFree), old(bm.gdFree));
  }

  lemma SameCounters(free: nat, sb: nat, gd: nat)
    requires sb < U32 && gd < U16
    ensures free == sb ==> free % U32 == sb
    ensures free == gd ==> free % U16 == gd
  {
    SmallMod(sb, U32);
    SmallMod(gd, U16);
  }

  lemma NonzeroStep(s: seq<nat>, k: nat)
    requires k < |s|
    ensures Nonzero(s[k..]) == (if s[k] != 0 then [s[k]] else []) + Nonzero(s[k + 1..])
  {
    assert s[k..][1..] == s[k + 1..];
  }

  lemma MarkStep(m: Map, n: nat, rest: seq<nat>)
    ensures Mark(m, [n] + rest) ==
      if n in m.used then Mark(m, rest) else (Mark(Acquire(m, n), rest).0, Mark(Acquire(m, n), rest).1 + 1)
  {
    assert ([n] + rest)[1..] == rest;
  }

  /** One test of fix_data_block_allocation: a nonzero number that is not in use is taken. */
  method MarkOne(bm: Bitmap, n: nat, ghost rest: seq<nat>) returns (fixed: nat)
    requires bm.Valid() && n <= bm.count
    modifies bm, bm.bytes
    ensures bm.Valid()
    ensures Mark(old(bm.Value()), (if n != 0 then [n] else []) + rest) ==
      (Mark(bm.Value(), rest).0, fixed + Mark(bm.Value(), rest).1)
  {
    hide Mark;
    fixed := 0;
    assert [] + rest == rest;
    if n != 0 {
      MarkStep(bm.Value(), n, rest);
      var used := bm.IsInUse(n);
      if !used {
        var ok := bm.SetInUse(n);
        fixed := 1;
      }
    }
  }

  /** The loop over the 12 direct slots; it does not stop at a 0. */
  method MarkDirect(bm: Bitmap, ptr: seq<nat>, ghost rest: seq<nat>) returns (fixed: nat)
    requires bm.Valid() && |ptr| == SLOTS && forall k :: 0 <= k < DIRECT ==> ptr[k] <= bm.count
    modifies bm, bm.bytes
    ensures bm.Valid()
    ensures Mark(old(bm.Value()), Nonzero(ptr[..DIRECT]) + rest) == (Mark(bm.Value(), rest).0, fixed + Mark(bm.Value(), rest).1)
  {
    hide Mark, Nonzero, Bitmap.Value;
    ghost var s, m := ptr[..DIRECT], bm.Value();
    fixed := 0;
    assert s[0..] == s;
    for n := 0 to DIRECT
      invariant bm.Valid()
      invariant Mark(m, Nonzero(s) + rest) ==
        (Mark(bm.Value(), Nonzero(s[n..]) + rest).0, fixed + Mark(bm.Value(), Nonzero(s[n..]) + rest).1)
    {
      NonzeroStep(s, n);
      ghost var tail := Nonzero(s[n + 1..]) + rest;
      assert Nonzero(s[n..]) + rest == (if ptr[n] != 0 then [ptr[n]] else []) + tail;
      var k := MarkOne(bm, ptr[n], tail);
      fixed := fixed + k;
    }
    assert s[DIRECT..] == [];
    NonzeroNone();
    assert [] + rest == rest;
  }

  lemma NonzeroNone()
    ensures Nonzero([]) == []
  {}

  /** The loop over the indirect block. It ends before the last word, which is only read. */
  method MarkIndirect(d: Disk, indirect: nat) returns (fixed: nat)
    requires d.blockMap.Valid() && indirect < d.disk.Length
    requires forall n :: n in Words(d.disk[indirect]) ==> n <= d.blockMap.count
    modifies d.blockMap, d.blockMap.bytes
    ensures d.blockMap.Valid()
    ensures (d.blockMap.Value(), fixed) == Mark(old(d.blockMap.Value()), Nonzero(Words(d.disk[indirect])))
  {
    hide Mark, Nonzero, Bitmap.Value, U32At;
    ghost var b, m := d.disk[indirect], d.blockMap.Value();
    ghost var s := Words(b);
    fixed := 0;
    assert s[0..] == s && Nonzero(s) + [] == Nonzero(s);
    var k := 0;
    var direct := d.ReadWord(indirect, 0);
    while k < PTRS - 1
      invariant k <= PTRS - 1 && d.blockMap.Valid() && d.disk[indirect] == b && direct == U32At(b, 4 * k)
      invariant Mark(m, Nonzero(s)) ==
        (Mark(d.blockMap.Value(), Nonzero(s[k..])).0, fixed + Mark(d.blockMap.Value(), Nonzero(s[k..])).1)
    {
      NonzeroStep(s, k);
      assert s[k] == direct && s[k] in s;
      var n := MarkOne(d.blockMap, direct, Nonzero(s[k + 1..]));
      fixed := fixed + n;
      k := k + 1;
      direct := d.ReadWord(indirect, k);
    }
    assert s[PTRS - 1..] == [];
    NonzeroNone();
    MarkNothing(d.blockMap.Value());
  }

  lemma MarkNothing(m: Map)
    ensures Mark(m, []) == (m, 0)
  {}

  predicate Fit(ns: seq<nat>, count: nat) {
    forall n :: n in ns ==> n <= count
  }

  /** fix_data_block_allocation. */
  method FixDataBlocks(d: Disk, num: nat) returns (fixed: nat)
    requires d.Valid() && 1 <= num <= d.inodes.Length && d.inodes[num - 1].ptr[DIRECT] < d.disk.Length
    requires Fit(Reached(d.inodes[num - 1], d.disk[..]), d.disk.Length)
    modifies d.blockMap, d.blockMap.bytes
    ensures d.blockMap.Valid()
    ensures (d.blockMap.Value(), fixed) == Mark(old(d.blockMap.Value()), Reached(d.inodes[num - 1], d.disk[..]))
  {
    hide Mark, Nonzero, Words, Bitmap.Value;
    var ptr := d.inodes[num - 1].ptr;
    var indirect := ptr[DIRECT];
    ghost var rest := if indirect == 0 then [] else [indirect] + Nonzero(Words(d.disk[indirect]));
    ghost var all := Reached(d.inodes[num - 1], d.disk[..]);
    assert all == Nonzero(ptr[..DIRECT]) + rest;
    DirectsInRange(ptr, rest, d.disk.Length);
    fixed := MarkDirect(d.blockMap, ptr, rest);
    if indirect != 0 {
      IndirectsInRange(indirect, Words(d.disk[indirect]), all, d.disk.Length);
      var k := MarkOne(d.blockMap, indirect, Nonzero(Words(d.disk[indirect])));
      fixed := fixed + k;
      k := MarkIndirect(d, indirect);
      fixed := fixed + k;
    } else {
      MarkNothing(d.blockMap.Value());
    }
  }

  lemma DirectsInRange(ptr: seq<nat>, rest: seq<nat>, count: nat)
    requires |ptr| == SLOTS && forall n :: n in Nonzero(ptr[..DIRECT]) + rest ==> n <= count
    ensures forall k :: 0 <= k < DIRECT ==> ptr[k] <= count
  {
    forall k | 0 <= k < DIRECT ensures ptr[k] <= count {
      assert ptr[k] in ptr[..DIRECT];
      if ptr[k] != 0 {
        assert ptr[k] in Nonzero(ptr[..DIRECT]) && ptr[k] in Nonzero(ptr[..DIRECT]) + rest;
      }
    }
  }

  lemma IndirectsInRange(indirect: nat, words: seq<nat>, all: seq<nat>, count: nat)
    requires forall n :: n in all ==> n <= count
    requires forall n :: n in [indirect] + Nonzero(words) ==> n in all
    ensures indirect <= count && forall n :: n in words ==> n <= count
  {
    hide Nonzero;
    assert indirect in [indirect] + Nonzero(words);
    forall n | n in words ensures n <= count {
      if n != 0 {
        assert n in [indirect] + Nonzero(words);
      }
    }
  }

  // ---------- one entry, then all ----------

  /** What the repair of some entries asks of the image. */
  ghost predicate Ready(fs: Fs, places: seq<Place>) {
    MapsFit(fs) && AllReadable(fs, places) && AllApart(fs, places) && PointersInRange(fs, places)
  }

  /** fix_file_type_mismatch. */
  method FixFileType(d: Disk, at: Place, num: nat) returns (fixed: nat)
    requires d.Valid() && at.block < d.disk.Length && at.pos + HEADER <= BLOCK_SIZE && 1 <= num <= d.inodes.Length
    modifies d.disk
    ensures d.Valid()
    ensures d.Value() == old(d.Value()).(disk :=
      old(d.disk[..])[at.block := SetType(old(d.disk[at.block]), at.pos, ExpectedType(d.inodes[num - 1].mode))])
    ensures fixed == if old(d.disk[at.block])[at.pos + 7] != ExpectedType(d.inodes[num - 1].mode) then 1 else 0
  {
    hide ExpectedType;
    var expected := ExpectedType(d.inodes[num - 1].mode);
    fixed := 0;
    if d.disk[at.block][at.pos + 7] != expected {
      d.disk[at.block] := SetType(d.disk[at.block], at.pos, expected);
      fixed := 1;
    } else {
      assert SetType(d.disk[at.block], at.pos, expected) == d.disk[at.block];
    }
  }

  /** fix_inode_allocation_inconsistency and fix_inode_deletion_time. */
  method FixInode(d: Disk, num: nat) returns (fixed: nat)
    requires d.Valid() && 1 <= num <= d.inodes.Length
    modifies d.inodeMap, d.inodeMap.bytes, d.inodes
    ensures d.Valid()
    ensures d.Value() == old(d.Value()).(
      inodeMap := if num in old(d.inodeMap.Value()).used then old(d.inodeMap.Value()) else Acquire(old(d.inodeMap.Value()), num),
      inodes := old(d.inodes[..])[num - 1 := ClearTime(old(d.inodes[num - 1]))])
    ensures fixed == (if num in old(d.inodeMap.Value()).used then 0 else 1) + (if old(d.inodes[num - 1]).dtime != 0 then 1 else 0)
  {
    fixed := 0;
    var used := d.inodeMap.IsInUse(num);
    if !used {
      var ok := d.inodeMap.SetInUse(num);
      fixed := 1;
    }
    if d.inodes[num - 1].dtime != 0 {
      d.inodes[num - 1] := ClearTime(d.inodes[num - 1]);
      fixed := fixed + 1;
    }
    assert d.inodes[..] == old(d.inodes[..])[num - 1 := ClearTime(old(d.inodes[num - 1]))];
  }

  /** The four repairs of one entry, in the order of fix_dir_entries_recursively. */
  method FixEntry(d: Disk, at: Place) returns (fixed: nat)
    requires d.Valid() && Ready(d.Value(), [at])
    modifies d.Repr()
    ensures d.Valid() && Readable(old(d.Value()), at)
    ensures d.Value() == Repaired(old(d.Value()), at) && fixed == Repairs(old(d.Value()), at)
  {
    hide Mark, ExpectedType, Reached, Tiled, OnChain, Ino, NameLen, RecLen, Numbers, RecordOk, SetType;
    ghost var fs := d.Value();
    ReadyOne(fs, at);
    var num := Ino(d.disk[at.block], at.pos);
    var a := FixFileType(d, at, num);
    var b := FixInode(d, num);
    SameReached(fs.inodes[num - 1], d.inodes[num - 1], fs.disk, d.disk[..], at.block);
    MarkValue(fs.blockMap, ReachedFrom(fs, at));
    var c := FixDataBlocks(d, num);
    fixed := a + b + c;
    assert d.Value() == Repaired(fs, at);
  }

  lemma ReadyOne(fs: Fs, at: Place)
    requires Ready(fs, [at])
    ensures Readable(fs, at) && IndirectApart(fs, at, at) && at.pos + HEADER <= BLOCK_SIZE && at.block < |fs.disk|
    ensures 1 <= InoOf(fs, at) <= |fs.inodes| && InodeOf(fs, at).ptr[DIRECT] < |fs.disk| && Fit(ReachedFrom(fs, at), |fs.disk|)
  {
    hide Reached, Tiled, OnChain, Ino;
    assert at in [at];
    assert Readable(fs, at);
  }

  lemma SameReached(i: Inode, i': Inode, disk: seq<Block>, disk': seq<Block>, n: nat)
    requires i.ptr == i'.ptr && |disk'| == |disk| && i.ptr[DIRECT] < |disk|
    requires i.ptr[DIRECT] == 0 || i.ptr[DIRECT] != n
    requires forall k :: 0 <= k < |disk| && k != n ==> disk'[k] == disk[k]
    ensures Reached(i', disk') == Reached(i, disk)
  {
    hide Nonzero, Words;
  }

  /** Repairing a first part leaves the rest ready, and the parts add up. */
  lemma ReadyAfter(fs: Fs, a: seq<Place>, b: seq<Place>)
    requires Ready(fs, a + b)
    ensures Ready(fs, a) && Ready(RepairAll(fs, a).0, b) && Alike(fs, RepairAll(fs, a).0)
    ensures RepairAll(fs, a + b) ==
      (RepairAll(RepairAll(fs, a).0, b).0, RepairAll(fs, a).1 + RepairAll(RepairAll(fs, a).0, b).1)
  {
    hide Readable, RepairAll, Alike, IndirectApart, ReachedFrom, MapsFit;
    assert forall c :: c in a || c in b ==> c in a + b;
    RepairAllConcat(fs, a, b);
    RepairAllAlike(fs, a);
    RepairAllFits(fs, a);
    AllApartAlike(fs, RepairAll(fs, a).0, b);
    RepairAllSize(fs, a);
    forall c, n | c in b && n in ReachedFrom(RepairAll(fs, a).0, c) ensures 1 <= n <= |fs.disk| {
      ReachedThrough(fs, a, c);
    }
  }

  lemma {:induction false} RepairAllFits(fs: Fs, places: seq<Place>)
    requires Ready(fs, places)
    ensures MapsFit(RepairAll(fs, places).0)
  {
    hide RepairAll, Readable, AllApart, PointersInRange;
    CountedNeedsNothing(fs);
    CountersCommute(fs, places);
  }

  lemma {:induction false} VisitAllConcat(fs: Fs, a: seq<Place>, b: seq<Place>, depth: nat)
    requires forall c :: c in a + b ==> Tree(fs, c, false, depth)
    ensures (forall c :: c in a ==> Tree(fs, c, false, depth)) && (forall c :: c in b ==> Tree(fs, c, false, depth))
    ensures VisitAll(fs, a + b, depth) == VisitAll(fs, a, depth) + VisitAll(fs, b, depth)
    decreases |a|
  {
    hide Tree, Visit;
    assert forall c :: c in a || c in b ==> c in a + b;
    if a == [] {
      assert a + b == b;
    } else {
      assert (a + b)[1..] == a[1..] + b && (a + b)[0] == a[0];
      VisitAllConcat(fs, a[1..], b, depth);
    }
  }

  /** How far a walk has come: the places still to be repaired, from the present state, give the
      same end state and the same total as all of them from the start. */
  ghost predicate Remaining(fs0: Fs, fs: Fs, all: seq<Place>, rest: seq<Place>, fixed: nat) {
    && Ready(fs0, all) && Ready(fs, rest) && Alike(fs0, fs)
    && RepairAll(fs0, all) == (RepairAll(fs, rest).0, fixed + RepairAll(fs, rest).1)
  }

  lemma RemainingAtStart(fs: Fs, all: seq<Place>)
    requires Ready(fs, all)
    ensures Remaining(fs, fs, all, all, 0)
  {
    AlikeSame(fs);
  }

  lemma RemainingStep(fs0: Fs, fs: Fs, all: seq<Place>, a: seq<Place>, rest: seq<Place>, fixed: nat)
    requires Remaining(fs0, fs, all, a + rest, fixed)
    ensures Ready(fs, a) && Remaining(fs0, RepairAll(fs, a).0, all, rest, fixed + RepairAll(fs, a).1)
  {
    hide RepairAll, Alike, AllReadable, AllApart, PointersInRange, MapsFit;
    ReadyAfter(fs, a, rest);
    AlikeTrans(fs0, fs, RepairAll(fs, a).0);
  }

  lemma RemainingNothing(fs0: Fs, fs: Fs, all: seq<Place>, fixed: nat)
    requires Remaining(fs0, fs, all, [], fixed)
    ensures RepairAll(fs0, all) == (fs, fixed)
  {}

  lemma RemainingAlike(fs0: Fs, fs: Fs, all: seq<Place>, rest: seq<Place>, fixed: nat)
    requires Remaining(fs0, fs, all, rest, fixed)
    ensures Alike(fs0, fs)
  {}

  /** All records from p of a block on have trees below them. */
  ghost predicate Trees(fs: Fs, cs: seq<Place>, depth: nat) {
    forall c :: c in cs ==> Tree(fs, c, false, depth)
  }

  lemma TreesParts(fs: Fs, a: seq<Place>, b: seq<Place>, depth: nat)
    requires Trees(fs, a + b, depth)
    ensures Trees(fs, a, depth) && Trees(fs, b, depth)
    ensures VisitAll(fs, a + b, depth) == VisitAll(fs, a, depth) + VisitAll(fs, b, depth)
  {
    hide Tree, Visit;
    VisitAllConcat(fs, a, b, depth);
  }

  lemma VisitAllOne(fs: Fs, c: Place, depth: nat)
    requires Trees(fs, [c], depth)
    ensures Tree(fs, c, false, depth) && VisitAll(fs, [c], depth) == Visit(fs, c, false, depth)
  {
    hide Tree, Visit;
    assert c in [c];
  }

  lemma NoVisit(fs: Fs, depth: nat)
    ensures VisitAll(fs, [], depth) == []
  {}

  lemma RecordsStep(b: Block, n: nat, p: nat)
    requires Tiled(b, p) && p < BLOCK_SIZE
    ensures RecordOk(b, p) && Tiled(b, p + RecLen(b, p))
    ensures Records(b, n, p) == (if Ino(b, p) != 0 then [Place(n, p)] else []) + Records(b, n, p + RecLen(b, p))
  {
    hide Ino, RecLen;
  }

  lemma HeadersAlike(fs: Fs, fs': Fs, blk: nat, p: nat)
    requires Alike(fs, fs') && blk < |fs.disk| && Tiled(fs.disk[blk], 0) && OnChain(fs.disk[blk], 0, p)
    ensures |fs'.disk| == |fs.disk| && RecordOk(fs.disk[blk], p) && p + HEADER <= BLOCK_SIZE
    ensures Ino(fs'.disk[blk], p) == Ino(fs.disk[blk], p) && RecLen(fs'.disk[blk], p) == RecLen(fs.disk[blk], p)
  {
    hide Ino, RecLen, NameLen, Tiled, Records;
    assert AlikeBlock(fs.disk[blk], fs'.disk[blk], blk);
    OnChainOk(fs.disk[blk], p);
  }

  /** The body of fix_dir_entries_recursively after the repairs: is the entry followed? */
  method IsFollowed(d: Disk, at: Place, isRoot: bool) returns (follow: bool)
    requires d.Valid() && Readable(d.Value(), at) && at.pos + HEADER < BLOCK_SIZE
    requires d.disk[at.block][at.pos + 7] == ExpectedType(InodeOf(d.Value(), at).mode)
    ensures follow <==> Descends(d.Value(), at, isRoot)
  {
    hide Tiled, OnChain, Ino, ExpectedType;
    if d.disk[at.block][at.pos + 7] != FT_DIR {
      return false;
    }
    if !isRoot && d.disk[at.block][at.pos + HEADER] == DOT {
      return false;
    }
    follow := true;
  }

  /** The walk over the records of one block. */
  method FixBlock(d: Disk, blk: nat, ghost depth: nat) returns (fixed: nat)
    requires d.Valid() && blk < d.disk.Length && Tiled(d.disk[blk], 0)
    requires Trees(d.Value(), Records(d.disk[blk], blk, 0), depth)
    requires Ready(d.Value(), VisitAll(d.Value(), Records(d.disk[blk], blk, 0), depth))
    modifies d.Repr()
    ensures d.Valid()
    ensures (d.Value(), fixed) ==
      RepairAll(old(d.Value()), VisitAll(old(d.Value()), Records(old(d.disk[blk]), blk, 0), depth))
    decreases depth, 2
  {
    hide Ready, RepairAll, Alike, Tree, Visit, VisitAll, Tiled, OnChain, Records, Ino, RecLen, NameLen, RecordOk, Remaining;
    ghost var fs0 := d.Value();
    ghost var b := d.disk[blk];
    ghost var all := VisitAll(fs0, Records(b, blk, 0), depth);
    RemainingAtStart(fs0, all);
    ChainStart(b);
    fixed := 0;
    var pos := 0;
    while pos != BLOCK_SIZE
      invariant 0 <= pos <= BLOCK_SIZE && d.Valid() && Tiled(b, pos) && (pos < BLOCK_SIZE ==> OnChain(b, 0, pos))
      invariant Trees(fs0, Records(b, blk, pos), depth)
      invariant Remaining(fs0, d.Value(), all, VisitAll(fs0, Records(b, blk, pos), depth), fixed)
      decreases BLOCK_SIZE - pos
    {
      ghost var fs := d.Value();
      RemainingAlike(fs0, fs, all, VisitAll(fs0, Records(b, blk, pos), depth), fixed);
      HeadersAlike(fs0, fs, blk, pos);
      RecordsStep(b, blk, pos);
      ghost var next := pos + RecLen(b, pos);
      if Ino(d.disk[blk], pos) != 0 {
        ghost var c := Place(blk, pos);
        TreesParts(fs0, [c], Records(b, blk, next), depth);
        VisitAllOne(fs0, c, depth);
        TreeAlike(fs0, fs, c, false, depth);
        RemainingStep(fs0, fs, all, Visit(fs0, c, false, depth), VisitAll(fs0, Records(b, blk, next), depth), fixed);
        var k := FixRecursively(d, Place(blk, pos), false, depth);
        fixed := fixed + k;
        RemainingAlike(fs0, d.Value(), all, VisitAll(fs0, Records(b, blk, next), depth), fixed);
        HeadersAlike(fs0, d.Value(), blk, pos);
      } else {
        assert [] + Records(b, blk, next) == Records(b, blk, next);
      }
      ChainNext(b, 0, pos);
      RecordLength(b, pos);
      pos := pos + RecLen(d.disk[blk], pos);
    }
    RecordsEnd(b, blk);
    NoVisit(fs0, depth);
    RemainingNothing(fs0, d.Value(), all, fixed);
  }

  lemma RecordLength(b: Block, p: nat)
    requires RecordOk(b, p)
    ensures p < p + RecLen(b, p) <= BLOCK_SIZE
  {}

  lemma RecordsEnd(b: Block, n: nat)
    ensures Tiled(b, BLOCK_SIZE) && Records(b, n, BLOCK_SIZE) == []
  {}

  lemma ChainStart(b: Block)
    requires Tiled(b, 0)
    ensures OnChain(b, 0, 0)
  {}

  lemma ChildrenStep(disk: seq<Block>, bs: seq<nat>)
    requires AllTiled(disk, bs) && bs != []
    ensures bs[0] < |disk| && Tiled(disk[bs[0]], 0) && AllTiled(disk, bs[1..])
    ensures Children(disk, bs) == Records(disk[bs[0]], bs[0], 0) + Children(disk, bs[1..])
  {
    hide Tiled;
  }

  /** One block of a directory, in a state alike. */
  lemma BlockTrees(fs0: Fs, fs: Fs, blk: nat, depth: nat)
    requires Alike(fs0, fs) && blk < |fs0.disk| && Tiled(fs0.disk[blk], 0) && Trees(fs0, Records(fs0.disk[blk], blk, 0), depth)
    ensures blk < |fs.disk| && Tiled(fs.disk[blk], 0) && Records(fs.disk[blk], blk, 0) == Records(fs0.disk[blk], blk, 0)
    ensures Trees(fs, Records(fs0.disk[blk], blk, 0), depth)
    ensures VisitAll(fs, Records(fs0.disk[blk], blk, 0), depth) == VisitAll(fs0, Records(fs0.disk[blk], blk, 0), depth)
  {
    hide Tree, VisitAll, SameHeader;
    assert AlikeBlock(fs0.disk[blk], fs.disk[blk], blk);
    VisitAllAlike(fs0, fs, Records(fs0.disk[blk], blk, 0), depth);
  }

  lemma NoChildren(disk: seq<Block>)
    ensures AllTiled(disk, []) && Children(disk, []) == []
  {}

  /** The loop over the blocks of a directory. */
  method FixDirectory(d: Disk, ptr: seq<nat>, ghost depth: nat) returns (fixed: nat)
    requires d.Valid() && |ptr| == SLOTS && AllTiled(d.disk[..], Direct(ptr, 0))
    requires Trees(d.Value(), Children(d.disk[..], Direct(ptr, 0)), depth)
    requires Ready(d.Value(), VisitAll(d.Value(), Children(d.disk[..], Direct(ptr, 0)), depth))
    modifies d.Repr()
    ensures d.Valid()
    ensures (d.Value(), fixed) ==
      RepairAll(old(d.Value()), VisitAll(old(d.Value()), Children(old(d.disk[..]), Direct(ptr, 0)), depth))
    decreases depth, 3
  {
    hide Ready, RepairAll, Alike, Tree, Visit, VisitAll, Tiled, AllTiled, Children, Records, Remaining, Direct;
    ghost var fs0 := d.Value();
    ghost var all := VisitAll(fs0, Children(fs0.disk, Direct(ptr, 0)), depth);
    RemainingAtStart(fs0, all);
    fixed := 0;
    var n := 0;
    while n < DIRECT && ptr[n] != 0
      invariant n <= DIRECT && d.Valid() && AllTiled(fs0.disk, Direct(ptr, n))
      invariant Trees(fs0, Children(fs0.disk, Direct(ptr, n)), depth)
      invariant Remaining(fs0, d.Value(), all, VisitAll(fs0, Children(fs0.disk, Direct(ptr, n)), depth), fixed)
    {
      ghost var fs, bs := d.Value(), Direct(ptr, n);
      DirectFrom(ptr, n);
      assert bs[0] == ptr[n] && bs[1..] == Direct(ptr, n + 1);
      RemainingAlike(fs0, fs, all, VisitAll(fs0, Children(fs0.disk, bs), depth), fixed);
      ChildrenStep(fs0.disk, bs);
      ghost var here, later := Records(fs0.disk[ptr[n]], ptr[n], 0), Children(fs0.disk, bs[1..]);
      TreesParts(fs0, here, later, depth);
      BlockTrees(fs0, fs, ptr[n], depth);
      RemainingStep(fs0, fs, all, VisitAll(fs0, here, depth), VisitAll(fs0, later, depth), fixed);
      var k := FixBlock(d, ptr[n], depth);
      fixed := fixed + k;
      n := n + 1;
    }
    DirectFrom(ptr, n);
    NoChildren(fs0.disk);
    NoVisit(fs0, depth);
    RemainingNothing(fs0, d.Value(), all, fixed);
  }

  lemma RepairOne(fs: Fs, at: Place)
    requires AllReadable(fs, [at])
    ensures Readable(fs, at) && RepairAll(fs, [at]) == (Repaired(fs, at), Repairs(fs, at))
  {
    hide Readable, Repaired, Repairs;
    assert at in [at];
    assert [at][1..] == [];
    RepairedReadable(fs, [at]);
  }

  /** Where the walk goes from an entry. */
  ghost function Below(fs: Fs, at: Place, isRoot: bool, depth: nat): seq<Place>
    requires Tree(fs, at, isRoot, depth)
  {
    if Descends(fs, at, isRoot) then VisitAll(fs, Children(fs.disk, Direct(InodeOf(fs, at).ptr, 0)), depth - 1) else []
  }

  lemma VisitIsBelow(fs: Fs, at: Place, isRoot: bool, depth: nat)
    requires Tree(fs, at, isRoot, depth)
    ensures Visit(fs, at, isRoot, depth) == [at] + Below(fs, at, isRoot, depth)
    ensures Readable(fs, at) && at.pos + HEADER < BLOCK_SIZE
  {
    hide Readable, Descends, Children, Direct, VisitAll;
  }

  /** The state after the repairs of an entry, as the walk goes on from it. */
  lemma AfterEntry(fs: Fs, at: Place, isRoot: bool, depth: nat)
    requires Tree(fs, at, isRoot, depth)
    ensures Readable(fs, at)
    ensures var fs1 := Repaired(fs, at);
      && Alike(fs, fs1) && Tree(fs1, at, isRoot, depth) && Below(fs1, at, isRoot, depth) == Below(fs, at, isRoot, depth)
      && Readable(fs1, at) && at.block < |fs1.disk| && at.pos + HEADER < BLOCK_SIZE
      && fs1.disk[at.block][at.pos + 7] == ExpectedType(InodeOf(fs1, at).mode)
  {
    hide Alike, Repaired, Visit, Descends, Below, Readable, InodeOf, Tree;
    VisitIsBelow(fs, at, isRoot, depth);
    RepairedIsAlike(fs, at);
    TreeAlike(fs, Repaired(fs, at), at, isRoot, depth);
    VisitIsBelow(Repaired(fs, at), at, isRoot, depth);
    RepairedDisk(fs, at);
    ReadableAlike(fs, Repaired(fs, at), at);
    SameTail(at, Below(fs, at, isRoot, depth), Below(Repaired(fs, at), at, isRoot, depth));
  }

  lemma SameTail(at: Place, a: seq<Place>, b: seq<Place>)
    requires [at] + a == [at] + b
    ensures a == b
  {
    assert a == ([at] + a)[1..] && b == ([at] + b)[1..];
  }

  /** fix_dir_entries_recursively. */
  method FixRecursively(d: Disk, at: Place, isRoot: bool, ghost depth: nat) returns (fixed: nat)
    requires d.Valid() && Tree(d.Value(), at, isRoot, depth) && Ready(d.Value(), Visit(d.Value(), at, isRoot, depth))
    modifies d.Repr()
    ensures d.Valid()
    ensures (d.Value(), fixed) == RepairAll(old(d.Value()), Visit(old(d.Value()), at, isRoot, depth))
    decreases depth, 1
  {
    hide Ready, RepairAll, Alike, Visit, VisitAll, Tiled, AllTiled, Children, Remaining, Readable, Repaired, Repairs, Descends, Direct, InodeOf;
    ghost var fs0 := d.Value();
    ghost var all, below := Visit(fs0, at, isRoot, depth), Below(fs0, at, isRoot, depth);
    VisitIsBelow(fs0, at, isRoot, depth);
    RemainingAtStart(fs0, all);
    RemainingStep(fs0, fs0, all, [at], below, 0);
    ReadyReadable(fs0, [at]);
    RepairOne(fs0, at);
    AfterEntry(fs0, at, isRoot, depth);
    fixed := FixEntry(d, at);
    ghost var fs1 := d.Value();
    var follow := IsFollowed(d, at, isRoot);
    if !follow {
      assert below == [];
      RemainingNothing(fs0, fs1, all, fixed);
      return;
    }
    RemainingReady(fs0, fs1, all, below, fixed);
    assert below + [] == below;
    RemainingStep(fs0, fs1, all, below, [], fixed);
    var k := FollowEntry(d, at, isRoot, depth);
    fixed := fixed + k;
    RemainingNothing(fs0, d.Value(), all, fixed);
  }

  /** What is below an entry that is followed. */
  lemma Followed(fs: Fs, at: Place, isRoot: bool, depth: nat)
    requires Tree(fs, at, isRoot, depth) && Readable(fs, at) && Descends(fs, at, isRoot)
    ensures at.block < |fs.disk| && at.pos + HEADER <= BLOCK_SIZE && 1 <= Ino(fs.disk[at.block], at.pos) <= |fs.inodes| && depth > 0
    ensures var ptr := fs.inodes[Ino(fs.disk[at.block], at.pos) - 1].ptr;
      && AllTiled(fs.disk, Direct(ptr, 0)) && Trees(fs, Children(fs.disk, Direct(ptr, 0)), depth - 1)
      && Below(fs, at, isRoot, depth) == VisitAll(fs, Children(fs.disk, Direct(ptr, 0)), depth - 1)
  {
    hide Descends, Children, Direct, VisitAll, Tiled, OnChain, Ino;
  }

  /** The directory part of fix_dir_entries_recursively. */
  method FollowEntry(d: Disk, at: Place, isRoot: bool, ghost depth: nat) returns (fixed: nat)
    requires d.Valid() && Tree(d.Value(), at, isRoot, depth) && Readable(d.Value(), at) && Descends(d.Value(), at, isRoot)
    requires Ready(d.Value(), Below(d.Value(), at, isRoot, depth))
    modifies d.Repr()
    ensures d.Valid()
    ensures (d.Value(), fixed) == RepairAll(old(d.Value()), Below(old(d.Value()), at, isRoot, depth))
    decreases depth, 0
  {
    hide Ready, RepairAll, VisitAll, Tiled, AllTiled, Children, Readable, Descends, Direct, Below, Tree, Trees;
    Followed(d.Value(), at, isRoot, depth);
    var num := Ino(d.disk[at.block], at.pos);
    fixed := FixDirectory(d, d.inodes[num - 1].ptr, depth - 1);
  }

  lemma ReadyReadable(fs: Fs, places: seq<Place>)
    requires Ready(fs, places)
    ensures AllReadable(fs, places)
  {}

  lemma RemainingReady(fs0: Fs, fs: Fs, all: seq<Place>, rest: seq<Place>, fixed: nat)
    requires Remaining(fs0, fs, all, rest, fixed)
    ensures Ready(fs, rest)
  {}

  /** main's check of the root. */
  method FixRoot(d: Disk) returns (fixed: nat)
    requires d.Valid() && d.inodes.Length >= 2 && d.inodes[1].mode < U16
    modifies d.inodes
    ensures d.Valid() && d.Value() == RootFixed(old(d.Value()))
    ensures fixed == if old(d.inodes[1]).mode / 0x1000 == S_IFDIR / 0x1000 then 0 else 1
  {
    hide OrBit;
    fixed := 0;
    var i := d.inodes[1];
    if i.mode / 0x1000 != S_IFDIR / 0x1000 {
      d.inodes[1] := InodeRecord(OrBit(i.mode, 14), i.size, i.links, i.sectors, i.dtime, i.ptr);
      fixed := 1;
    }
    assert d.inodes[..] == old(d.inodes[..])[1 := InodeRecord(RootMode(i.mode), i.size, i.links, i.sectors, i.dtime, i.ptr)];
  }

  /** The two counter repairs. */
  method FixCounts(d: Disk) returns (off: nat)
    requires d.Valid() && MapsFit(d.Value())
    modifies d.blockMap, d.inodeMap
    ensures d.Valid() && d.Value() == CountersFixed(old(d.Value())) && off == CountersOff(old(d.Value()))
  {
    hide Recounted, Off, Numbers;
    var a := FixFreeCount(d.inodeMap);
    var b := FixFreeCount(d.blockMap);
    off := a + b;
  }

  /** The checker's main, from the mounted image to the number of repairs. */
  method Check(d: Disk, ghost depth: nat) returns (fixed: nat)
    requires d.Valid() && Checkable(d.Value(), depth)
    modifies d.Repr()
    ensures d.Valid() && d.Value() == Checked(old(d.Value()), depth) && fixed == Reported(old(d.Value()), depth)
  {
    hide Tree, Visit, AllReadable, AllApart, PointersInRange, RepairAll, RootFixed, CountersFixed, CountersOff, Numbers;
    ghost var fs := d.Value();
    StartedFits(fs);
    var root := FixRoot(d);
    RootFits(fs);
    var off := FixCounts(d);
    StartedIsCounted(fs);
    StartedFits(Started(fs));
    var k := FixRecursively(d, Place(d.inodes[1].ptr[0], 0), true, depth);
    fixed := root + off + k;
  }

  lemma RootFits(fs: Fs)
    requires MapsFit(fs) && fs.inodes[1].mode < U16
    ensures MapsFit(RootFixed(fs))
  {}
}
