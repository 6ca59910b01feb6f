/** ext2_restore: the scan for a deleted entry in the gaps that rec_len leaves, and the round trip
    from ext2_rm. Addresses are byte offsets in the image. */
module Restore {
  import opened Prelude
  import opened ResourceMap
  import opened Inodes
  import opened DirBlock
  import opened Directory
  import opened Volume
  import opened DirectoryTools

  // ---------- reading records anywhere in the image ----------

  /** The byte at an address; 0 beyond the image. */
  function Peek(disk: seq<Block>, a: nat): Byte {
    if a / BLOCK_SIZE < |disk| then disk[a / BLOCK_SIZE][a % BLOCK_SIZE] else 0
  }

  function PeekIno(disk: seq<Block>, a: nat): nat {
    Digits(Peek(disk, a), Peek(disk, a + 1), Peek(disk, a + 2), Peek(disk, a + 3))
  }

  function PeekRecLen(disk: seq<Block>, a: nat): nat {
    Digits(Peek(disk, a + 4), Peek(disk, a + 5), 0, 0)
  }

  function PeekNameLen(disk: seq<Block>, a: nat): nat {
    Peek(disk, a + 6)
  }

  function PeekActual(disk: seq<Block>, a: nat): nat {
    Padded(HEADER + PeekNameLen(disk, a))
  }

  /** The strncmp with the name stored at an address. */
  predicate NameAt(disk: seq<Block>, a: nat, name: seq<Byte>) {
    PeekNameLen(disk, a) == |name| && forall i :: 0 <= i < |name| ==> Peek(disk, a + HEADER + i) == name[i]
  }

  // ---------- the scan ----------

  datatype Walk = Passed(pos: nat) | Hit(pos: nat)

  /** The inner loop of restore_file over one gap. */
  function WalkGap(disk: seq<Block>, pos: nat, gapEnd: nat, name: seq<Byte>): (w: Walk)
    ensures w.Passed? ==> pos <= w.pos
    ensures w.Hit? ==> pos <= w.pos < gapEnd
    decreases gapEnd - pos
  {
    if pos >= gapEnd then Passed(pos)
    else if PeekIno(disk, pos) == 0 then
      if PeekNameLen(disk, pos) == 0 then
        if PeekRecLen(disk, pos) == 0 then Passed(gapEnd) else WalkGap(disk, pos + PeekRecLen(disk, pos), gapEnd, name)
      else WalkGap(disk, pos + PeekActual(disk, pos), gapEnd, name)
    else if NameAt(disk, pos, name) then Hit(pos)
    else WalkGap(disk, pos + PeekActual(disk, pos), gapEnd, name)
  }

  /** A stale record and the valid one whose gap hides it. */
  datatype Stale = Stale(entry: nat, last: nat)

  /** The outer loop over one block that ends at address end. The walk may overshoot its gap, and
      then pos and last drift apart. */
  function ScanBlock(disk: seq<Block>, pos: nat, last: nat, end: nat, name: seq<Byte>): Option<Stale>
    decreases end - pos
  {
    if pos >= end then None
    else match WalkGap(disk, pos + PeekActual(disk, last), pos + PeekRecLen(disk, last), name)
      case Hit(p) => Some(Stale(p, last))
      case Passed(q) => ScanBlock(disk, q, last + PeekRecLen(disk, last), end, name)
  }

  function ScanFrom(disk: seq<Block>, n: nat, name: seq<Byte>): Option<Stale> {
    ScanBlock(disk, BLOCK_SIZE * n, BLOCK_SIZE * n, BLOCK_SIZE * n + BLOCK_SIZE, name)
  }

  function Scan(disk: seq<Block>, bs: seq<nat>, name: seq<Byte>): Option<Stale>
    decreases |bs|
  {
    if bs == [] then None
    else if ScanFrom(disk, bs[0], name).Some? then ScanFrom(disk, bs[0], name)
    else Scan(disk, bs[1..], name)
  }

  // ---------- unhiding and restoring ----------

  function Poke(disk: seq<Block>, a: nat, x: Byte): (r: seq<Block>)
    ensures |r| == |disk|
  {
    if a / BLOCK_SIZE < |disk| then disk[a / BLOCK_SIZE := disk[a / BLOCK_SIZE][a % BLOCK_SIZE := x]] else disk
  }

  /** A 16-bit store of x, truncated. */
  function PokeRecLen(disk: seq<Block>, a: nat, x: int): (r: seq<Block>)
    ensures |r| == |disk|
  {
    var s := U16Bytes(x % U16);
    Poke(Poke(disk, a + 4, s[0]), a + 5, s[1])
  }

  /** unhide_deleted_entry. */
  function Unhidden(disk: seq<Block>, at: Stale): (r: seq<Block>)
    ensures |r| == |disk|
  {
    var distance := at.entry - at.last;
    var disk1 := PokeRecLen(disk, at.entry, PeekRecLen(disk, at.last) - distance);
    PokeRecLen(disk1, at.last, distance)
  }

  /** The inode that a stale record found under this name leads to can be followed. */
  ghost predicate StaleLinked(fs: Fs, dir: nat, name: seq<Byte>)
    requires DirOk(fs, dir)
  {
    var at := Scan(fs.disk, Blocks(fs, dir), name);
    at.Some? ==> Linked(fs, PeekIno(fs.disk, at.value.entry))
  }

  /** Abandoned is the exit in the middle of a reclaim. */
  datatype Restoration = Failed(why: Outcome) | Abandoned(fs: Fs) | Recovered(fs: Fs)

  /** restore_file. */
  ghost function AfterRestore(fs: Fs, dir: nat, name: seq<Byte>): Restoration
    requires DirOk(fs, dir) && StaleLinked(fs, dir, name)
  {
    if |name| > NAME_MAX then Failed(Exit)
    else if FindEntry(fs.disk, Blocks(fs, dir), name).Some? then Failed(EExist)
    else match Scan(fs.disk, Blocks(fs, dir), name)
      case None => Failed(ENoEnt)
      case Some(at) =>
        if Peek(fs.disk, at.entry + 7) == FT_DIR then Failed(EIsDir)
        else match AfterReclaim(fs, PeekIno(fs.disk, at.entry))
          case Refused => Failed(ENoEnt)
          case Clash(left) => Abandoned(left)
          case Restored(fs1) => Recovered(Fs(fs1.blockMap, fs1.inodeMap, fs1.inodes, Unhidden(fs.disk, at)))
  }

  // ---------- quiet gaps ----------

  /** Between pos and gapEnd lie stale records, each wholly inside the gap and none in use under
      this name, up to its end or, where a jump is allowed, up to a header of zeros. */
  predicate QuietGap(b: Block, pos: nat, gapEnd: nat, name: seq<Byte>, jump: bool)
    requires gapEnd <= BLOCK_SIZE
    decreases gapEnd - pos
  {
    || pos == gapEnd
    || (pos + HEADER <= gapEnd
       && if Ino(b, pos) == 0 && NameLen(b, pos) == 0 then
            if RecLen(b, pos) == 0 then jump else QuietGap(b, pos + RecLen(b, pos), gapEnd, name, jump)
          else
            && pos + Actual(b, pos) <= gapEnd
            && (Ino(b, pos) == 0 || b[pos + HEADER..pos + HEADER + NameLen(b, pos)] != name)
            && QuietGap(b, pos + Actual(b, pos), gapEnd, name, jump))
  }

  /** All gaps from the record at p up to position stop are quiet. When strict, the last of them
      has no header of zeros, after which the scan of a longer gap would give up. */
  predicate QuietTo(b: Block, p: nat, stop: nat, name: seq<Byte>, strict: bool)
    requires Tiled(b, p) && stop <= BLOCK_SIZE
    decreases BLOCK_SIZE - p
  {
    || p == stop
    || (p < stop && p + RecLen(b, p) <= stop
       && Actual(b, p) <= RecLen(b, p)
       && QuietGap(b, p + Actual(b, p), p + RecLen(b, p), name, !(strict && p + RecLen(b, p) == stop))
       && QuietTo(b, p + RecLen(b, p), stop, name, strict))
  }

  /** Nothing in the directory before the record at a place stops the scan or misleads it. */
  ghost predicate QuietBefore(disk: seq<Block>, bs: seq<nat>, at: Place, name: seq<Byte>)
    requires AllTiled(disk, bs)
    decreases |bs|
  {
    && bs != [] && at.pos <= BLOCK_SIZE
    && if bs[0] == at.block then QuietTo(disk[at.block], 0, at.pos, name, true)
       else QuietTo(disk[bs[0]], 0, BLOCK_SIZE, name, false) && QuietBefore(disk, bs[1..], at, name)
  }

  lemma PeekHeader(disk: seq<Block>, n: nat, p: nat)
    requires n < |disk| && p + HEADER <= BLOCK_SIZE
    ensures PeekIno(disk, BLOCK_SIZE * n + p) == Ino(disk[n], p)
    ensures PeekRecLen(disk, BLOCK_SIZE * n + p) == RecLen(disk[n], p)
    ensures PeekNameLen(disk, BLOCK_SIZE * n + p) == NameLen(disk[n], p)
    ensures PeekActual(disk, BLOCK_SIZE * n + p) == Actual(disk[n], p)
    ensures Peek(disk, BLOCK_SIZE * n + p + 7) == disk[n][p + 7]
  {
    forall i | p <= i < p + HEADER ensures Peek(disk, BLOCK_SIZE * n + i) == disk[n][i] {
      PeekAt(disk, n, i);
    }
  }

  lemma PeekAt(disk: seq<Block>, n: nat, p: nat)
    requires n < |disk| && p < BLOCK_SIZE
    ensures Peek(disk, BLOCK_SIZE * n + p) == disk[n][p]
    ensures (BLOCK_SIZE * n + p) / BLOCK_SIZE == n && (BLOCK_SIZE * n + p) % BLOCK_SIZE == p
  {}

  lemma NameAtIs(disk: seq<Block>, n: nat, p: nat, name: seq<Byte>)
    requires n < |disk| && p + HEADER <= BLOCK_SIZE && p + HEADER + NameLen(disk[n], p) <= BLOCK_SIZE
    ensures NameAt(disk, BLOCK_SIZE * n + p, name) <==> disk[n][p + HEADER..p + HEADER + NameLen(disk[n], p)] == name
  {
    var s := disk[n][p + HEADER..p + HEADER + NameLen(disk[n], p)];
    PeekHeader(disk, n, p);
    forall i | 0 <= i < |s| ensures Peek(disk, BLOCK_SIZE * n + p + HEADER + i) == s[i] {
      PeekAt(disk, n, p + HEADER + i);
    }
    if NameAt(disk, BLOCK_SIZE * n + p, name) {
      assert forall i :: 0 <= i < |name| ==> s[i] == name[i];
    }
  }

  /** A quiet gap is passed without a hit: to its end, or to where a longer gap goes on. */
  lemma {:induction false} QuietIsPassed(disk: seq<Block>, n: nat, pos: nat, mid: nat, gapEnd: nat, name: seq<Byte>, jump: bool)
    requires n < |disk| && pos <= mid <= gapEnd && mid <= BLOCK_SIZE && QuietGap(disk[n], pos, mid, name, jump)
    requires jump ==> mid == gapEnd
    ensures WalkGap(disk, BLOCK_SIZE * n + pos, BLOCK_SIZE * n + gapEnd, name) ==
      WalkGap(disk, BLOCK_SIZE * n + mid, BLOCK_SIZE * n + gapEnd, name)
    decreases mid - pos
  {
    hide Peek, Ino, RecLen, NameLen, PeekIno, PeekRecLen, PeekNameLen, PeekActual, NameAt;
    if pos == mid {
    } else {
      var b := disk[n];
      PeekHeader(disk, n, pos);
      if Ino(b, pos) == 0 && NameLen(b, pos) == 0 {
        if RecLen(b, pos) != 0 {
          QuietIsPassed(disk, n, pos + RecLen(b, pos), mid, gapEnd, name, jump);
        }
      } else {
        NameAtIs(disk, n, pos, name);
        QuietIsPassed(disk, n, pos + Actual(b, pos), mid, gapEnd, name, jump);
      }
    }
  }

  lemma SlicesSame(b: Block, b': Block, p: nat, q: nat)
    requires p <= q <= BLOCK_SIZE && forall i :: p <= i < q ==> b'[i] == b[i]
    ensures b'[p..q] == b[p..q]
  {}

  lemma {:induction false} SameGap(b: Block, b': Block, pos: nat, gapEnd: nat, name: seq<Byte>, jump: bool)
    requires gapEnd <= BLOCK_SIZE && QuietGap(b, pos, gapEnd, name, jump)
    requires forall i :: pos <= i < gapEnd ==> b'[i] == b[i]
    ensures QuietGap(b', pos, gapEnd, name, jump)
    decreases gapEnd - pos
  {
    hide Ino, RecLen, NameLen;
    if pos == gapEnd {
    } else {
      SameRecord(b, b', pos);
      if Ino(b, pos) == 0 && NameLen(b, pos) == 0 {
        if RecLen(b, pos) != 0 {
          SameGap(b, b', pos + RecLen(b, pos), gapEnd, name, jump);
        }
      } else {
        SlicesSame(b, b', pos + HEADER, pos + HEADER + NameLen(b, pos));
        SameGap(b, b', pos + Actual(b, pos), gapEnd, name, jump);
      }
    }
  }

  lemma {:induction false} SameQuiet(b: Block, b': Block, p: nat, stop: nat, name: seq<Byte>, strict: bool)
    requires Tiled(b, p) && Tiled(b', p) && stop <= BLOCK_SIZE && QuietTo(b, p, stop, name, strict)
    requires forall i :: p <= i < stop ==> b'[i] == b[i]
    ensures QuietTo(b', p, stop, name, strict)
    decreases BLOCK_SIZE - p
  {
    hide Ino, RecLen, NameLen, QuietGap;
    if p == stop {
    } else {
      SameRecord(b, b', p);
      SameGap(b, b', p + Actual(b, p), p + RecLen(b, p), name, !(strict && p + RecLen(b, p) == stop));
      SameQuiet(b, b', p + RecLen(b, p), stop, name, strict);
    }
  }

  /** The scan gets through quiet gaps record by record, with pos and last together. */
  lemma {:induction false} QuietIsScanned(disk: seq<Block>, n: nat, p: nat, stop: nat, name: seq<Byte>, strict: bool)
    requires n < |disk| && Tiled(disk[n], p) && stop <= BLOCK_SIZE && QuietTo(disk[n], p, stop, name, strict)
    ensures var base, end := BLOCK_SIZE * n, BLOCK_SIZE * n + BLOCK_SIZE;
      ScanBlock(disk, base + p, base + p, end, name) == ScanBlock(disk, base + stop, base + stop, end, name)
    decreases BLOCK_SIZE - p
  {
    hide Peek, Ino, RecLen, NameLen, PeekIno, PeekRecLen, PeekNameLen, PeekActual, QuietGap, WalkGap, Actual;
    if p == stop {
    } else {
      var b, base := disk[n], BLOCK_SIZE * n;
      var next := p + RecLen(b, p);
      PeekHeader(disk, n, p);
      QuietIsPassed(disk, n, p + Actual(b, p), next, next, name, !(strict && next == stop));
      WalkNothing(disk, base + next, name);
      QuietIsScanned(disk, n, next, stop, name, strict);
    }
  }

  lemma WalkNothing(disk: seq<Block>, pos: nat, name: seq<Byte>)
    ensures WalkGap(disk, pos, pos, name) == Passed(pos)
  {}

  lemma {:induction false} QuietSplit(b: Block, p: nat, prev: nat, q: nat, name: seq<Byte>)
    requires Tiled(b, p) && OnChain(b, p, prev) && RecordOk(b, prev) && prev + RecLen(b, prev) == q && OnChain(b, p, q)
    requires QuietTo(b, p, q, name, true)
    ensures QuietTo(b, p, prev, name, false)
    ensures Actual(b, prev) <= RecLen(b, prev) && QuietGap(b, prev + Actual(b, prev), q, name, false)
    decreases BLOCK_SIZE - p
  {
    hide Ino, RecLen, NameLen, QuietGap, Actual;
    ChainAt(b, p, prev);
    ChainAt(b, p, q);
    if p == prev {
    } else {
      QuietSplit(b, p + RecLen(b, p), prev, q, name);
    }
  }

  // ---------- finding what was hidden ----------

  /** After an entry has been hidden behind its predecessor, the scan of its block finds it there. */
  lemma HiddenIsHit(disk: seq<Block>, n: nat, e: nat, name: seq<Byte>)
    requires n < |disk| && Tiled(disk[n], 0) && OnChain(disk[n], 0, e) && RecordOk(disk[n], e) && e > 0
    requires Matches(disk[n], e, name) && QuietTo(disk[n], 0, e, name, true)
    ensures ScanFrom(disk[n := HideAt(disk[n], e)], n, name) ==
      Some(Stale(BLOCK_SIZE * n + e, BLOCK_SIZE * n + Before(disk[n], 0, e)))
  {
    hide Peek, Ino, RecLen, NameLen, PeekIno, PeekRecLen, PeekNameLen, PeekActual, QuietGap, Actual, QuietTo, EntryAt, PutRecLen, NameAt, WalkGap, HideAt;
    var b, prev, base := disk[n], Before(disk[n], 0, e), BLOCK_SIZE * n;
    var b' := HideAt(b, e);
    var disk' := disk[n := b'];
    HideRemoves(b, e);
    QuietSplit(b, 0, prev, e, name);
    HideKeepsBefore(b, e);
    SameQuiet(b, b', 0, prev, name, false);
    QuietIsScanned(disk', n, 0, prev, name, false);
    HiddenGap(b, e, name);
    PeekHeader(disk', n, prev);
    QuietIsPassed(disk', n, prev + Actual(b, prev), e, e + RecLen(b, e), name, false);
    HitHere(disk', n, e, e + RecLen(b, e), name);
  }

  lemma HitHere(disk: seq<Block>, n: nat, e: nat, gapEnd: nat, name: seq<Byte>)
    requires n < |disk| && RecordOk(disk[n], e) && Matches(disk[n], e, name) && e < gapEnd
    ensures WalkGap(disk, BLOCK_SIZE * n + e, BLOCK_SIZE * n + gapEnd, name) == Hit(BLOCK_SIZE * n + e)
  {
    hide Peek, Ino, RecLen, NameLen, PeekIno, PeekRecLen, PeekNameLen, PeekActual, NameAt;
    PeekHeader(disk, n, e);
    NameAtIs(disk, n, e, name);
  }

  /** The gap that hiding leaves: the old one, quiet, and then the hidden record as it was. */
  lemma HiddenGap(b: Block, e: nat, name: seq<Byte>)
    requires Tiled(b, 0) && OnChain(b, 0, e) && RecordOk(b, e) && e > 0 && Ino(b, e) != 0
    requires var prev := Before(b, 0, e); Actual(b, prev) <= RecLen(b, prev) && QuietGap(b, prev + Actual(b, prev), e, name, false)
    ensures var b', prev := HideAt(b, e), Before(b, 0, e);
      && Actual(b', prev) == Actual(b, prev) && RecLen(b', prev) == RecLen(b, prev) + RecLen(b, e)
      && QuietGap(b', prev + Actual(b, prev), e, name, false)
      && Ino(b', e) == Ino(b, e) && RecLen(b', e) == RecLen(b, e) && NameLen(b', e) == NameLen(b, e) && EntryAt(b', e) == EntryAt(b, e)
  {
    hide QuietGap, PutRecLen, Tiled, OnChain, Ino, RecLen, NameLen, EntryAt;
    var prev := Before(b, 0, e);
    var len := RecLen(b, prev) + RecLen(b, e);
    RecLenWritten(b, prev, len);
    PutRecLenElsewhere(b, prev, len);
    SameGap(b, HideAt(b, e), prev + Actual(b, prev), e, name, false);
    SameHead(b, HideAt(b, e), e);
    SameRecord(b, HideAt(b, e), e);
    assert Head(HideAt(b, e), e) == [EntryAt(b, e)];
  }

  /** Quiet blocks before the one that matters do not end the scan. */
  lemma {:induction false} ScanReaches(disk: seq<Block>, disk': seq<Block>, bs: seq<nat>, at: Place, name: seq<Byte>, r: Stale)
    requires AllTiled(disk, bs) && QuietBefore(disk, bs, at, name)
    requires |disk'| == |disk| && forall n :: 0 <= n < |disk| && n != at.block ==> disk'[n] == disk[n]
    requires ScanFrom(disk', at.block, name) == Some(r)
    ensures Scan(disk', bs, name) == Some(r)
    decreases |bs|
  {
    hide QuietTo, WalkGap, Tiled;
    if bs[0] == at.block {
    } else {
      QuietIsScanned(disk', bs[0], 0, BLOCK_SIZE, name, false);
      assert ScanFrom(disk', bs[0], name).None?;
      ScanReaches(disk, disk', bs[1..], at, name, r);
    }
  }

  // ---------- unhiding undoes hiding ----------

  lemma PokeIsPut(disk: seq<Block>, n: nat, p: nat, x: nat)
    requires n < |disk| && p + HEADER <= BLOCK_SIZE && x < U16
    ensures PokeRecLen(disk, BLOCK_SIZE * n + p, x) == disk[n := PutRecLen(disk[n], p, x)]
  {
    hide Poke, PutRecLen, U16Bytes;
    var s := U16Bytes(x);
    var b1: Block := disk[n][p + 4 := s[0]];
    var b2: Block := b1[p + 5 := s[1]];
    PokeByte(disk, n, p + 4, s[0]);
    PokeByte(disk[n := b1], n, p + 5, s[1]);
    assert disk[n := b1][n := b2] == disk[n := b2];
    assert x % U16 == x;
    assert PokeRecLen(disk, BLOCK_SIZE * n + p, x) == disk[n := b2];
    PutIsTwoBytes(disk[n], p, x);
  }

  lemma PutIsTwoBytes(b: Block, p: nat, x: nat)
    requires p + HEADER <= BLOCK_SIZE && x < U16
    ensures b[p + 4 := U16Bytes(x)[0]][p + 5 := U16Bytes(x)[1]] == PutRecLen(b, p, x)
  {}

  lemma PokeByte(disk: seq<Block>, n: nat, p: nat, x: Byte)
    requires n < |disk| && p < BLOCK_SIZE
    ensures Poke(disk, BLOCK_SIZE * n + p, x) == disk[n := disk[n][p := x]]
  {
    PeekAt(disk, n, p);
  }

  lemma PutSame(b: Block, p: nat)
    requires p + HEADER <= BLOCK_SIZE
    ensures RecLen(b, p) < U16 && PutRecLen(b, p, RecLen(b, p)) == b
  {
    assert U16Bytes(RecLen(b, p)) == b[p + 4..p + 6];
  }

  lemma PutTwice(b: Block, p: nat, x: nat)
    requires p + HEADER <= BLOCK_SIZE && x < U16
    ensures RecLen(b, p) < U16 && PutRecLen(PutRecLen(b, p, x), p, RecLen(b, p)) == b
  {
    PutSame(b, p);
    assert PutRecLen(PutRecLen(b, p, x), p, RecLen(b, p)) == PutRecLen(b, p, RecLen(b, p));
  }

  /** The two lengths after hiding, and how the block gets back from there. */
  lemma HiddenLengths(b: Block, e: nat)
    requires Tiled(b, 0) && OnChain(b, 0, e) && RecordOk(b, e) && e > 0
    ensures var b', prev := HideAt(b, e), Before(b, 0, e);
      && RecLen(b', prev) == RecLen(b, prev) + RecLen(b, e) && RecLen(b', e) == RecLen(b, e)
      && RecLen(b, prev) < U16 && PutRecLen(b', prev, RecLen(b, prev)) == b
  {
    hide PutRecLen, RecLen, Tiled, OnChain, Ino, NameLen;
    var prev := Before(b, 0, e);
    var len := RecLen(b, prev) + RecLen(b, e);
    RecLenWritten(b, prev, len);
    PutRecLenElsewhere(b, prev, len);
    SameRecord(b, HideAt(b, e), e);
    PutTwice(b, prev, len);
  }

  lemma UnhideUndoesHide(disk: seq<Block>, n: nat, e: nat)
    requires n < |disk| && Tiled(disk[n], 0) && OnChain(disk[n], 0, e) && RecordOk(disk[n], e) && e > 0
    ensures var at := Stale(BLOCK_SIZE * n + e, BLOCK_SIZE * n + Before(disk[n], 0, e));
      Unhidden(disk[n := HideAt(disk[n], e)], at) == disk
  {
    hide Unhidden, PokeRecLen, PutRecLen, RecLen, PeekRecLen, Tiled, OnChain, Ino, NameLen, HideAt;
    var b, prev, base := disk[n], Before(disk[n], 0, e), BLOCK_SIZE * n;
    var disk' := disk[n := HideAt(b, e)];
    HiddenLengths(b, e);
    PeekHeader(disk', n, prev);
    PokeSame(disk', n, e, RecLen(b, e));
    PokeIsPut(disk', n, prev, RecLen(b, prev));
    assert disk'[n := b] == disk;
    UnhiddenIs(disk', Stale(base + e, base + prev), RecLen(b, e), RecLen(b, prev));
  }

  lemma UnhiddenIs(disk: seq<Block>, at: Stale, entryLen: nat, lastLen: nat)
    requires entryLen == PeekRecLen(disk, at.last) - (at.entry - at.last) && lastLen == at.entry - at.last
    ensures Unhidden(disk, at) == PokeRecLen(PokeRecLen(disk, at.entry, entryLen), at.last, lastLen)
  {
    hide PokeRecLen, PeekRecLen;
  }

  lemma PokeSame(disk: seq<Block>, n: nat, p: nat, x: nat)
    requires n < |disk| && p + HEADER <= BLOCK_SIZE && x == RecLen(disk[n], p)
    ensures PokeRecLen(disk, BLOCK_SIZE * n + p, x) == disk
  {
    hide PokeRecLen, PutRecLen;
    PutSame(disk[n], p);
    PokeIsPut(disk, n, p, x);
    assert disk[n := disk[n]] == disk;
  }

  // ---------- rm, then restore ----------

  /** Reclaiming looks at the indirect block only; other blocks may have changed. */
  lemma ReclaimElsewhere(fs: Fs, disk': seq<Block>, num: nat, fs1: Fs)
    requires Linked(fs, num) && |disk'| == |fs.disk| && AfterReclaim(fs, num) == Restored(fs1)
    requires forall n :: n in FreeOrder(fs.inodes[num - 1], fs.disk) ==> disk'[n] == fs.disk[n]
    ensures var g := Fs(fs.blockMap, fs.inodeMap, fs.inodes, disk');
      Linked(g, num) && AfterReclaim(g, num) == Restored(Fs(fs1.blockMap, fs1.inodeMap, fs1.inodes, disk'))
  {
    hide Direct, Entries, ClaimAll, U32At;
    var i := fs.inodes[num - 1];
    if HasIndirect(i) {
      assert i.ptr[DIRECT] in FreeOrder(i, fs.disk);
    }
    assert ClaimOrder(i, disk') == ClaimOrder(i, fs.disk);
  }

  /** rm does not refuse this name, and the inode behind it is in use, with distinct blocks that are in
      use and not the directory's. */
  ghost predicate Erasable(fs: Fs, dir: nat, name: seq<Byte>, at: Place) {
    && Found(fs, dir, name, at) && Deletable(fs, at.block, at.pos) && DeleteOutcome(fs, at.block, at.pos) == Ok
    && CountersFit(fs.blockMap) && CountersFit(fs.inodeMap)
    && var num := EntryIn(fs, dir, name, at).inode;
    && Linked(fs, num) && num in fs.inodeMap.used
    && var order := FreeOrder(fs.inodes[num - 1], fs.disk);
    && NoDup(order) && forall n :: n in order ==> n in fs.blockMap.used && n !in Blocks(fs, dir)
  }

  /** It has one link and no deletion time. */
  ghost predicate Once(fs: Fs, dir: nat, name: seq<Byte>, at: Place)
    requires Erasable(fs, dir, name, at)
  {
    var i := fs.inodes[EntryIn(fs, dir, name, at).inode - 1];
    i.links == 1 && i.dtime == 0
  }

  ghost predicate LiveFile(fs: Fs, dir: nat, name: seq<Byte>, at: Place) {
    Erasable(fs, dir, name, at) && Once(fs, dir, name, at)
  }

  /** What rm removes is no directory's name, and has a link to give up. */
  lemma ErasedIsFile(fs: Fs, dir: nat, name: seq<Byte>, at: Place)
    requires Found(fs, dir, name, at) && Deletable(fs, at.block, at.pos) && DeleteOutcome(fs, at.block, at.pos) == Ok
    ensures var e := EntryIn(fs, dir, name, at); e.kind != FT_DIR && fs.inodes[e.inode - 1].links > 0
  {
    hide Tiled, OnChain, DirBlock.Find, Direct, UniqueNames, FreeOrder, NoDup, PointersOk, Listing, Live, Rank, Index, Listed, FindEntry;
  }

  lemma LiveIsDeletable(fs: Fs, dir: nat, name: seq<Byte>, at: Place)
    requires Erasable(fs, dir, name, at)
    ensures Deletable(fs, at.block, at.pos) && DeleteOutcome(fs, at.block, at.pos) == Ok
    ensures Ino(fs.disk[at.block], at.pos) == EntryIn(fs, dir, name, at).inode
    ensures at.block in Blocks(fs, dir) && Matches(fs.disk[at.block], at.pos, name)
  {
    hide Tiled, OnChain, DirBlock.Find, Direct, UniqueNames, FreeOrder, NoDup, PointersOk, Listing, Live, Rank, Index, Listed;
    Directory.FindIsFirst(fs.disk, Blocks(fs, dir), name);
  }

  /** After the delete the directory is sound and the name is gone. */
  lemma DeletedIsGone(fs: Fs, dir: nat, name: seq<Byte>, at: Place)
    requires Found(fs, dir, name, at)
    ensures DirOk(WithoutEntry(fs, dir, name, at), dir)
    ensures FindEntry(WithoutEntry(fs, dir, name, at).disk, Blocks(fs, dir), name).None?
  {
    hide Tiled, OnChain, DirBlock.Find, Direct, UniqueNames, AsMap;
    DeleteIsRemove(fs, dir, name, at);
    var fs1 := WithoutEntry(fs, dir, name, at);
    FindIsLookup(fs1.disk, Blocks(fs1, dir), name);
  }

  /** The record at a place hidden, and an unlink. */
  ghost predicate Hides(fs: Fs, fs1: Fs, dir: nat, at: Place, num: nat, now: nat) {
    && at.block < |fs.disk| && Tiled(fs.disk[at.block], 0) && OnChain(fs.disk[at.block], 0, at.pos) && RecordOk(fs.disk[at.block], at.pos)
    && fs1.disk == fs.disk[at.block := HideAt(fs.disk[at.block], at.pos)]
    && Linked(fs, num) && AfterUnlink(fs, num, now).Some?
    && fs1 == AfterUnlink(fs, num, now).value.(disk := fs1.disk)
    && |fs1.inodes| == |fs.inodes| && 1 <= dir <= |fs.inodes| && Blocks(fs1, dir) == Blocks(fs, dir)
  }

  /** The state after the delete: the directory bytes of WithoutEntry, the rest of AfterUnlink. */
  lemma DeletedState(fs: Fs, dir: nat, name: seq<Byte>, at: Place, now: nat)
    requires Erasable(fs, dir, name, at)
    ensures Deletable(fs, at.block, at.pos) && DeleteOutcome(fs, at.block, at.pos) == Ok
    ensures Hides(fs, AfterDelete(fs, at.block, at.pos, now), dir, at, EntryIn(fs, dir, name, at).inode, now)
    ensures AfterDelete(fs, at.block, at.pos, now).disk == WithoutEntry(fs, dir, name, at).disk
  {
    hide Deletable, DeleteOutcome, AfterDelete, EntryIn, Ino, HideAt, AfterUnlink, FreeOrder, PointersOk, NoDup, Direct, Matches, WithoutEntry, DirOk, FindEntry, AllTiled, UniqueNames, Listing, Listed;
    DirectoryIsTiled(fs, dir);
    ErasedIsFile(fs, dir, name, at);
    LiveIsDeletable(fs, dir, name, at);
    DeleteInParts(fs, at.block, at.pos, now);
    WithoutIsHidden(fs, dir, name, at);
    UnlinkKeepsPointers(fs, EntryIn(fs, dir, name, at).inode, now);
  }

  lemma DeleteInParts(fs: Fs, blk: nat, p: nat, now: nat)
    requires Deletable(fs, blk, p) && DeleteOutcome(fs, blk, p) == Ok
    ensures blk < |fs.disk| && p + HEADER <= BLOCK_SIZE && Tiled(fs.disk[blk], 0) && OnChain(fs.disk[blk], 0, p) && RecordOk(fs.disk[blk], p)
    ensures Linked(fs, Ino(fs.disk[blk], p)) && AfterUnlink(fs, Ino(fs.disk[blk], p), now).Some?
    ensures var fs1 := AfterDelete(fs, blk, p, now);
      && fs1.disk == fs.disk[blk := HideAt(fs.disk[blk], p)]
      && fs1 == AfterUnlink(fs, Ino(fs.disk[blk], p), now).value.(disk := fs1.disk)
  {
    hide Tiled, OnChain, HideAt, PointersOk, ReleaseAll, FreeOrder, Ino;
  }

  lemma WithoutIsHidden(fs: Fs, dir: nat, name: seq<Byte>, at: Place)
    requires Found(fs, dir, name, at)
    ensures at.block < |fs.disk| && Tiled(fs.disk[at.block], 0) && OnChain(fs.disk[at.block], 0, at.pos) && RecordOk(fs.disk[at.block], at.pos)
    ensures WithoutEntry(fs, dir, name, at).disk == fs.disk[at.block := HideAt(fs.disk[at.block], at.pos)]
  {
    hide Tiled, OnChain, HideAt, UniqueNames, Listing, FindEntry, Direct, Index, DirBlock.Find, Live, Rank, Ino;
    Directory.FindIsFirst(fs.disk, Blocks(fs, dir), name);
  }

  lemma UnlinkKeepsPointers(fs: Fs, num: nat, now: nat)
    requires Linked(fs, num) && AfterUnlink(fs, num, now).Some?
    ensures var u := AfterUnlink(fs, num, now).value;
      |u.inodes| == |fs.inodes| && forall k :: 0 <= k < |fs.inodes| ==> u.inodes[k].ptr == fs.inodes[k].ptr
  {
    hide PointersOk, ReleaseAll, FreeOrder;
  }

  lemma {:induction false} QuietHere(disk: seq<Block>, bs: seq<nat>, at: Place, name: seq<Byte>)
    requires AllTiled(disk, bs) && QuietBefore(disk, bs, at, name)
    ensures at.block in bs && at.pos <= BLOCK_SIZE && QuietTo(disk[at.block], 0, at.pos, name, true)
    decreases |bs|
  {
    if bs[0] == at.block {
    } else {
      QuietHere(disk, bs[1..], at, name);
    }
  }

  /** The record a deleted entry leaves behind, and the one that hides it. */
  ghost function HiddenStale(disk: seq<Block>, at: Place): Stale
    requires at.block < |disk| && Tiled(disk[at.block], 0) && OnChain(disk[at.block], 0, at.pos) && at.pos > 0
  {
    Stale(BLOCK_SIZE * at.block + at.pos, BLOCK_SIZE * at.block + Before(disk[at.block], 0, at.pos))
  }

  /** The scan after the delete ends at the hidden record. */
  lemma DeletedIsScanned(disk: seq<Block>, bs: seq<nat>, name: seq<Byte>, at: Place)
    requires AllTiled(disk, bs) && QuietBefore(disk, bs, at, name) && at.pos > 0
    requires OnChains(disk, bs, at) && Matches(disk[at.block], at.pos, name)
    ensures Scan(HiddenAt(disk, bs, at), bs, name) == Some(HiddenStale(disk, at))
  {
    hide Tiled, QuietTo, QuietBefore, HideAt, Scan, ScanFrom, Ino, EntryAt, OnChain, RecordOk;
    QuietHere(disk, bs, at, name);
    HiddenIsHit(disk, at.block, at.pos, name);
    ScanReaches(disk, HiddenAt(disk, bs, at), bs, at, name, HiddenStale(disk, at));
  }

  /** A name that is found has a length that name_len can hold. */
  lemma FoundIsShort(fs: Fs, dir: nat, name: seq<Byte>, at: Place)
    requires Found(fs, dir, name, at)
    ensures |name| <= NAME_MAX
  {
    hide Tiled, OnChain, Direct, UniqueNames, Listing, DirBlock.Find, FindEntry, Index;
    Directory.FindIsFirst(fs.disk, Blocks(fs, dir), name);
  }

  /** What the hidden record still says. */
  lemma HiddenRecord(disk: seq<Block>, at: Place)
    requires at.block < |disk| && Tiled(disk[at.block], 0) && OnChain(disk[at.block], 0, at.pos) && at.pos > 0
    requires RecordOk(disk[at.block], at.pos)
    ensures var disk', r := disk[at.block := HideAt(disk[at.block], at.pos)], HiddenStale(disk, at);
      && PeekIno(disk', r.entry) == Ino(disk[at.block], at.pos)
      && Peek(disk', r.entry + 7) == disk[at.block][at.pos + 7]
      && Unhidden(disk', r) == disk
  {
    hide Tiled, HideAt, Unhidden, Peek, PeekIno, Ino;
    PeekHeader(disk[at.block := HideAt(disk[at.block], at.pos)], at.block, at.pos);
    HiddenHeader(disk[at.block], at.pos);
    UnhideUndoesHide(disk, at.block, at.pos);
  }

  lemma OrderInRange(i: Inode, disk: seq<Block>)
    requires PointersOk(i, disk)
    ensures forall n :: n in FreeOrder(i, disk) ==> n < |disk|
  {
    hide Direct, Inodes.Entries;
  }

  lemma FileElsewhere(fs: Fs, dir: nat, name: seq<Byte>, at: Place)
    requires LiveFile(fs, dir, name, at)
    ensures var i := fs.inodes[EntryIn(fs, dir, name, at).inode - 1];
      forall n :: n in FreeOrder(i, fs.disk) ==> n < |fs.disk| && n != at.block
  {
    hide Tiled, Direct, UniqueNames, NoDup, FindEntry, FreeOrder, PointersOk, EntryIn, Matches, Deletable, DeleteOutcome;
    LiveIsDeletable(fs, dir, name, at);
    OrderInRange(fs.inodes[EntryIn(fs, dir, name, at).inode - 1], fs.disk);
  }

  lemma HiddenHeader(b: Block, e: nat)
    requires Tiled(b, 0) && OnChain(b, 0, e) && RecordOk(b, e) && e > 0
    ensures Ino(HideAt(b, e), e) == Ino(b, e) && HideAt(b, e)[e + 7] == b[e + 7]
  {
    hide PutRecLen, RecLen, Tiled, OnChain, Ino, NameLen;
    var prev := Before(b, 0, e);
    PutRecLenElsewhere(b, prev, RecLen(b, prev) + RecLen(b, e));
    SameRecord(b, HideAt(b, e), e);
  }

  lemma SameDirectory(fs: Fs, fs': Fs, dir: nat)
    requires DirOk(fs, dir) && |fs'.inodes| == |fs.inodes| && fs'.disk == fs.disk && Blocks(fs', dir) == Blocks(fs, dir)
    ensures DirOk(fs', dir)
  {
    hide Direct, AllTiled, UniqueNames, Listing;
  }

  /** The inode and the blocks come back from the state after the delete. */
  lemma DeletedIsReclaimed(fs: Fs, dir: nat, name: seq<Byte>, at: Place, now: nat)
    requires LiveFile(fs, dir, name, at)
    ensures Deletable(fs, at.block, at.pos) && DeleteOutcome(fs, at.block, at.pos) == Ok
    ensures var fs1, num := AfterDelete(fs, at.block, at.pos, now), EntryIn(fs, dir, name, at).inode;
      Linked(fs1, num) && AfterReclaim(fs1, num) == Restored(Fs(fs.blockMap, fs.inodeMap, fs.inodes, fs1.disk))
  {
    hide Tiled, OnChain, Direct, NoDup, PointersOk, HideAt, AfterUnlink, AfterReclaim, FreeOrder, AfterDelete, DeleteOutcome, EntryIn, DirOk;
    DeletedState(fs, dir, name, at, now);
    var num, fs1 := EntryIn(fs, dir, name, at).inode, AfterDelete(fs, at.block, at.pos, now);
    FileElsewhere(fs, dir, name, at);
    ReclaimUndoesUnlink(fs, num, now);
    UnlinkedOrder(fs, num, now);
    var u := AfterUnlink(fs, num, now).value;
    var order := FreeOrder(fs.inodes[num - 1], fs.disk);
    assert forall n :: n in order ==> n < |fs.disk| && fs1.disk[n] == u.disk[n];
    ReclaimElsewhere(u, fs1.disk, num, fs);
  }

  /** rm and then restore is the identity on the directory's bytes, both bitmaps, all four counters
      and the inode, when the entry is not the first of its block and the gaps met before it are
      quiet. */
  lemma RestoreUndoesDelete(fs: Fs, dir: nat, name: seq<Byte>, at: Place, now: nat)
    requires LiveFile(fs, dir, name, at) && at.pos > 0 && QuietBefore(fs.disk, Blocks(fs, dir), at, name)
    ensures Deletable(fs, at.block, at.pos) && DeleteOutcome(fs, at.block, at.pos) == Ok
    ensures var fs1 := AfterDelete(fs, at.block, at.pos, now);
      DirOk(fs1, dir) && StaleLinked(fs1, dir, name) && AfterRestore(fs1, dir, name) == Recovered(fs)
  {
    hide Tiled, DirBlock.Find, Direct, UniqueNames, NoDup, PointersOk, QuietTo, QuietBefore, HideAt, Unhidden, Scan, Peek, PeekIno, Ino,
         AfterUnlink, AfterReclaim, FreeOrder, HiddenAt, AfterDelete, AllTiled, Listed, FindEntry, DeleteOutcome, Before, OnChain;
    ErasedIsFile(fs, dir, name, at);
    DeletedState(fs, dir, name, at, now);
    var num, fs1 := EntryIn(fs, dir, name, at).inode, AfterDelete(fs, at.block, at.pos, now);
    DeletedIsGone(fs, dir, name, at);
    SameDirectory(WithoutEntry(fs, dir, name, at), fs1, dir);
    LiveIsDeletable(fs, dir, name, at);
    FoundIsShort(fs, dir, name, at);
    DeletedIsScanned(fs.disk, Blocks(fs, dir), name, at);
    HiddenRecord(fs.disk, at);
    DeletedIsReclaimed(fs, dir, name, at, now);
  }

  lemma UnlinkedOrder(fs: Fs, num: nat, now: nat)
    requires Linked(fs, num) && AfterUnlink(fs, num, now).Some?
    ensures var u := AfterUnlink(fs, num, now).value;
      && u.disk == fs.disk && |u.inodes| == |fs.inodes| && u.inodes[num - 1].ptr == fs.inodes[num - 1].ptr
      && Linked(u, num) && FreeOrder(u.inodes[num - 1], u.disk) == FreeOrder(fs.inodes[num - 1], fs.disk)
  {
    hide Direct, Inodes.Entries, ReleaseAll;
  }

  // ---------- the first entry of a block ----------

  /** All gaps of the directory are quiet. */
  ghost predicate QuietAll(disk: seq<Block>, bs: seq<nat>, name: seq<Byte>)
    requires AllTiled(disk, bs)
    decreases |bs|
  {
    bs == [] || (QuietTo(disk[bs[0]], 0, BLOCK_SIZE, name, false) && QuietAll(disk, bs[1..], name))
  }

  lemma {:induction false} QuietScan(disk: seq<Block>, bs: seq<nat>, name: seq<Byte>)
    requires AllTiled(disk, bs) && QuietAll(disk, bs, name)
    ensures Scan(disk, bs, name).None?
    decreases |bs|
  {
    hide QuietTo, WalkGap, Tiled;
    if bs == [] {
    } else {
      QuietIsScanned(disk, bs[0], 0, BLOCK_SIZE, name, false);
      assert ScanFrom(disk, bs[0], name).None?;
      QuietScan(disk, bs[1..], name);
    }
  }

  /** Only the inode number of the first record changes. */
  lemma WithoutFirst(b: Block)
    requires Tiled(b, 0) && RecordOk(b, 0)
    ensures var b' := HideAt(b, 0);
      && RecordOk(b', 0) && RecLen(b', 0) == RecLen(b, 0) && Actual(b', 0) == Actual(b, 0)
      && forall i :: HEADER <= i < BLOCK_SIZE ==> b'[i] == b[i]
  {
    hide Tiled, Ino, RecLen;
    InoWritten(b, 0, 0);
  }

  lemma QuietWithoutFirst(b: Block, name: seq<Byte>)
    requires Tiled(b, 0) && QuietTo(b, 0, BLOCK_SIZE, name, false)
    ensures Tiled(HideAt(b, 0), 0) && QuietTo(HideAt(b, 0), 0, BLOCK_SIZE, name, false)
  {
    hide QuietGap, Ino, EntryAt, RecLen, HideAt, Actual;
    var b', next := HideAt(b, 0), RecLen(b, 0);
    WithoutFirst(b);
    SameChain(b, b', next);
    ActualIsMore(b, 0);
    SameGap(b, b', Actual(b, 0), next, name, true);
    SameQuiet(b, b', next, BLOCK_SIZE, name, false);
  }

  lemma ActualIsMore(b: Block, p: nat)
    requires p + HEADER <= BLOCK_SIZE
    ensures Actual(b, p) >= HEADER
  {}

  lemma {:induction false} QuietAllKept(disk: seq<Block>, disk': seq<Block>, bs: seq<nat>, n: nat, name: seq<Byte>)
    requires AllTiled(disk, bs) && AllTiled(disk', bs) && QuietAll(disk, bs, name) && |disk'| == |disk|
    requires forall k :: 0 <= k < |disk| && k != n ==> disk'[k] == disk[k]
    requires n < |disk| && Tiled(disk[n], 0) && Tiled(disk'[n], 0)
    requires QuietTo(disk[n], 0, BLOCK_SIZE, name, false) ==> QuietTo(disk'[n], 0, BLOCK_SIZE, name, false)
    ensures QuietAll(disk', bs, name)
    decreases |bs|
  {
    hide QuietTo, Tiled;
    if bs == [] {
    } else {
      QuietAllKept(disk, disk', bs[1..], n, name);
    }
  }

  /** The first entry of a block is lost: its inode number has been overwritten. */
  lemma FirstEntryIsLost(fs: Fs, dir: nat, name: seq<Byte>, at: Place, now: nat)
    requires LiveFile(fs, dir, name, at) && at.pos == 0 && QuietAll(fs.disk, Blocks(fs, dir), name)
    ensures Deletable(fs, at.block, at.pos) && DeleteOutcome(fs, at.block, at.pos) == Ok
    ensures var fs1 := AfterDelete(fs, at.block, at.pos, now);
      DirOk(fs1, dir) && StaleLinked(fs1, dir, name) && AfterRestore(fs1, dir, name) == Failed(ENoEnt)
  {
    hide Tiled, DirBlock.Find, Direct, UniqueNames, NoDup, PointersOk, QuietTo, QuietAll, HideAt, AfterUnlink, FreeOrder, AfterDelete,
         FindEntry, DeleteOutcome, OnChain, Ino, EntryAt, RecLen, Listing;
    DeletedState(fs, dir, name, at, now);
    var fs1 := AfterDelete(fs, at.block, at.pos, now);
    DeletedIsGone(fs, dir, name, at);
    LiveIsDeletable(fs, dir, name, at);
    FoundIsShort(fs, dir, name, at);
    if QuietTo(fs.disk[at.block], 0, BLOCK_SIZE, name, false) {
      QuietWithoutFirst(fs.disk[at.block], name);
    }
    QuietAllKept(fs.disk, fs1.disk, Blocks(fs, dir), at.block, name);
    QuietScan(fs1.disk, Blocks(fs, dir), name);
  }

  // ---------- the tool ----------

  /** The inner loop of restore_file: None when it leaves the gap, at position pos. */
  method WalkThroughGap(disk: seq<Block>, start: nat, gapEnd: nat, name: seq<Byte>) returns (hit: bool, pos: nat)
    ensures WalkGap(disk, start, gapEnd, name) == if hit then Hit(pos) else Passed(pos)
  {
    hide Peek, PeekIno, PeekRecLen, PeekNameLen, PeekActual, NameAt;
    pos := start;
    while pos < gapEnd
      invariant WalkGap(disk, pos, gapEnd, name) == WalkGap(disk, start, gapEnd, name)
      decreases gapEnd - pos
    {
      if PeekIno(disk, pos) == 0 {
        if PeekNameLen(disk, pos) == 0 {
          if PeekRecLen(disk, pos) == 0 {
            pos := gapEnd;
          } else {
            pos := pos + PeekRecLen(disk, pos);
          }
        } else {
          ActualGrows(disk, pos);
          pos := pos + PeekActual(disk, pos);
        }
      } else if NameAt(disk, pos, name) {
        return true, pos;
      } else {
        ActualGrows(disk, pos);
        pos := pos + PeekActual(disk, pos);
      }
    }
    hit := false;
  }

  lemma ActualGrows(disk: seq<Block>, a: nat)
    ensures PeekActual(disk, a) >= HEADER
  {}

  /** The scan of one directory block. */
  method ScanOneBlock(disk: seq<Block>, n: nat, name: seq<Byte>) returns (at: Option<Stale>)
    ensures at == ScanFrom(disk, n, name)
  {
    hide WalkGap, PeekRecLen, PeekActual;
    var pos, last, end := BLOCK_SIZE * n, BLOCK_SIZE * n, BLOCK_SIZE * n + BLOCK_SIZE;
    while pos < end
      invariant 0 <= pos && 0 <= last
      invariant ScanBlock(disk, pos, last, end, name) == ScanFrom(disk, n, name)
      decreases end - pos
    {
      ActualGrows(disk, last);
      var hit, p := WalkThroughGap(disk, pos + PeekActual(disk, last), pos + PeekRecLen(disk, last), name);
      if hit {
        return Some(Stale(p, last));
      }
      pos := p;
      last := last + PeekRecLen(disk, last);
    }
    at := None;
  }

  /** The loop over the directory's blocks. */
  method ScanDirectory(ptr: seq<nat>, disk: seq<Block>, name: seq<Byte>) returns (at: Option<Stale>)
    requires |ptr| == SLOTS
    ensures at == Scan(disk, Direct(ptr, 0), name)
  {
    hide ScanFrom;
    var n := 0;
    while n < DIRECT && ptr[n] != 0
      invariant n <= DIRECT && Scan(disk, Direct(ptr, n), name) == Scan(disk, Direct(ptr, 0), name)
    {
      assert Direct(ptr, n)[0] == ptr[n] && Direct(ptr, n)[1..] == Direct(ptr, n + 1);
      at := ScanOneBlock(disk, ptr[n], name);
      if at.Some? {
        return;
      }
      n := n + 1;
    }
    at := None;
  }

  /** One byte of the image. */
  method WriteByte(d: Disk, a: nat, x: Byte)
    requires d.Valid()
    modifies d.disk
    ensures d.Valid() && d.Value() == old(d.Value()).(disk := Poke(old(d.disk[..]), a, x))
  {
    if a / BLOCK_SIZE < d.disk.Length {
      d.disk[a / BLOCK_SIZE] := d.disk[a / BLOCK_SIZE][a % BLOCK_SIZE := x];
    }
    assert d.disk[..] == Poke(old(d.disk[..]), a, x);
  }

  /** rec_len of the record at a, truncated to 16 bits. */
  method WriteRecLen(d: Disk, a: nat, x: int)
    requires d.Valid()
    modifies d.disk
    ensures d.Valid() && d.Value() == old(d.Value()).(disk := PokeRecLen(old(d.disk[..]), a, x))
  {
    hide Poke;
    var s := U16Bytes(x % U16);
    WriteByte(d, a + 4, s[0]);
    WriteByte(d, a + 5, s[1]);
  }

  /** unhide_deleted_entry. */
  method Unhide(d: Disk, entry: nat, last: nat)
    requires d.Valid()
    modifies d.disk
    ensures d.Valid() && d.Value() == old(d.Value()).(disk := Unhidden(old(d.disk[..]), Stale(entry, last)))
  {
    hide PokeRecLen;
    var distance := entry - last;
    WriteRecLen(d, entry, PeekRecLen(d.disk[..], last) - distance);
    WriteRecLen(d, last, distance);
  }

  /** What a restoration answers: EEXIST for a listed name, ENOENT where no stale record of the name is
      found or what it leads to is no longer free, EISDIR for a directory's, and the exit where
      some block is reached twice. */
  ghost predicate Answers(fs: Fs, dir: nat, name: seq<Byte>, r: Outcome)
    requires DirOk(fs, dir) && StaleLinked(fs, dir, name) && |name| <= NAME_MAX
  {
    && (r == EExist <==> name in Names(fs, dir))
    && (name !in Names(fs, dir) ==>
      match Scan(fs.disk, Blocks(fs, dir), name)
      case None => r == ENoEnt
      case Some(at) =>
        var num, isDir := PeekIno(fs.disk, at.entry), Peek(fs.disk, at.entry + 7) == FT_DIR;
        var once := NoDup(ClaimOrder(fs.inodes[num - 1], fs.disk));
        && (r == EIsDir <==> isDir)
        && (r == ENoEnt <==> !isDir && !AllFree(fs, num))
        && (r == Exit <==> !isDir && AllFree(fs, num) && !once)
        && (r == Ok <==> !isDir && AllFree(fs, num) && once))
  }

  lemma RestorationAnswers(fs: Fs, dir: nat, name: seq<Byte>)
    requires DirOk(fs, dir) && StaleLinked(fs, dir, name) && |name| <= NAME_MAX
    ensures match AfterRestore(fs, dir, name)
      case Failed(why) => Answers(fs, dir, name, why)
      case Abandoned(_) => Answers(fs, dir, name, Exit)
      case Recovered(_) => Answers(fs, dir, name, Ok)
  {
    hide Scan, UniqueNames, Listing, PointersOk, Unhidden, Peek, PeekIno, AsMap, ClaimOrder, NoDup, AllFree, FindEntry, AllTiled, Direct, ClaimAll;
    DirectoryIsTiled(fs, dir);
    FindIsLookup(fs.disk, Blocks(fs, dir), name);
    var at := Scan(fs.disk, Blocks(fs, dir), name);
    if at.Some? {
      ClashExactly(fs, PeekIno(fs.disk, at.value.entry));
    }
  }

  lemma DirectoryIsTiled(fs: Fs, dir: nat)
    requires DirOk(fs, dir)
    ensures 1 <= dir <= |fs.inodes| && AllTiled(fs.disk, Blocks(fs, dir)) && UniqueNames(Listed(fs, dir))
    ensures Listed(fs, dir) == Listing(fs.disk, Blocks(fs, dir))
  {
    hide UniqueNames, Listing, AllTiled;
  }

  /** restore_file. */
  method RestoreFile(d: Disk, dir: nat, name: seq<Byte>) returns (r: Outcome)
    requires d.Valid() && DirOk(d.Value(), dir) && StaleLinked(d.Value(), dir, name)
    modifies d.Repr()
    ensures d.Valid()
    ensures match AfterRestore(old(d.Value()), dir, name)
      case Failed(why) => r == why && d.Value() == old(d.Value())
      case Abandoned(left) => r == Exit && d.Value() == left
      case Recovered(fs) => r == Ok && d.Value() == fs
    ensures if |name| > NAME_MAX then r == Exit else Answers(old(d.Value()), dir, name, r)
  {
    hide FindEntry, Scan, UniqueNames, Listing, PointersOk, AfterReclaim, Unhidden, Peek, PeekIno, Answers;
    ghost var fs := d.Value();
    if |name| > NAME_MAX {
      return Exit;
    }
    RestorationAnswers(fs, dir, name);
    var fits, found := FindName(d, dir, name);
    if found.Some? {
      return EExist;
    }
    var at := ScanDirectory(d.inodes[dir - 1].ptr, d.disk[..], name);
    if at.None? {
      return ENoEnt;
    }
    if Peek(d.disk[..], at.value.entry + 7) == FT_DIR {
      return EIsDir;
    }
    r := d.Reclaim(PeekIno(d.disk[..], at.value.entry));
    if r == Ok {
      ghost var fs1 := d.Value();
      assert AfterReclaim(fs, PeekIno(fs.disk, at.value.entry)) == Restored(fs1);
      ReclaimKeepsDisk(fs, PeekIno(fs.disk, at.value.entry));
      Unhide(d, at.value.entry, at.value.last);
    }
  }

  lemma ReclaimKeepsDisk(fs: Fs, num: nat)
    requires Linked(fs, num)
    ensures AfterReclaim(fs, num).Restored? ==> AfterReclaim(fs, num).fs.disk == fs.disk
  {}
}
