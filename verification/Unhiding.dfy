/** What a restore does to a directory's records, wherever the scan has ended: the bytes of a stale
    record become an entry when they fit behind the valid one, and break the chain when they do not. */
module Unhiding {
  import opened Prelude
  import opened ResourceMap
  import opened Inodes
  import opened DirBlock
  import opened Directory
  import opened Volume
  import opened DirectoryTools
  import opened Restore

  // ---------- where a scan can end ----------

  /** A hit is a stale record in use under the name looked for. */
  lemma {:induction false} HitIsNamed(disk: seq<Block>, pos: nat, gapEnd: nat, name: seq<Byte>)
    ensures var w := WalkGap(disk, pos, gapEnd, name);
      && (w.Hit? ==> PeekIno(disk, w.pos) != 0 && NameAt(disk, w.pos, name))
      && (w.Passed? ==> w.pos >= gapEnd)
    decreases gapEnd - pos
  {
    hide Peek, PeekIno, PeekRecLen, PeekNameLen, PeekActual, NameAt;
    if pos >= gapEnd {
    } else if PeekIno(disk, pos) == 0 {
      if PeekNameLen(disk, pos) == 0 {
        if PeekRecLen(disk, pos) != 0 {
          HitIsNamed(disk, pos + PeekRecLen(disk, pos), gapEnd, name);
        }
      } else {
        ActualGrows(disk, pos);
        HitIsNamed(disk, pos + PeekActual(disk, pos), gapEnd, name);
      }
    } else if !NameAt(disk, pos, name) {
      ActualGrows(disk, pos);
      HitIsNamed(disk, pos + PeekActual(disk, pos), gapEnd, name);
    }
  }

  /** The valid record is on the chain of block n; the stale one starts behind its name, at most two
      blocks on, and is in use under the name looked for. */
  ghost predicate Ends(disk: seq<Block>, n: nat, at: Stale, name: seq<Byte>) {
    && n < |disk| && Tiled(disk[n], 0) && BLOCK_SIZE * n <= at.last < BLOCK_SIZE * n + BLOCK_SIZE
    && var lp := at.last - BLOCK_SIZE * n;
    && OnChain(disk[n], 0, lp) && RecordOk(disk[n], lp)
    && at.last + Actual(disk[n], lp) <= at.entry < at.last + 2 * BLOCK_SIZE
    && PeekIno(disk, at.entry) != 0 && NameAt(disk, at.entry, name)
  }

  /** However far pos has drifted, last is a record of the chain, and a hit is behind its name. */
  lemma {:induction false} ScanEnds(disk: seq<Block>, n: nat, pos: nat, lp: nat, name: seq<Byte>)
    requires n < |disk| && Tiled(disk[n], 0) && (lp == BLOCK_SIZE || OnChain(disk[n], 0, lp)) && BLOCK_SIZE * n + lp <= pos
    ensures var at := ScanBlock(disk, pos, BLOCK_SIZE * n + lp, BLOCK_SIZE * n + BLOCK_SIZE, name);
      at.Some? ==> Ends(disk, n, at.value, name)
    decreases BLOCK_SIZE * n + BLOCK_SIZE - pos
  {
    hide Peek, PeekIno, PeekRecLen, PeekNameLen, PeekActual, NameAt, WalkGap, Tiled, OnChain, Ino, RecLen, NameLen, Actual;
    var base := BLOCK_SIZE * n;
    if pos >= base + BLOCK_SIZE {
    } else {
      ChainAt(disk[n], 0, lp);
      ChainNext(disk[n], 0, lp);
      PeekHeader(disk, n, lp);
      ActualIsMore(disk[n], lp);
      var start, gapEnd := pos + PeekActual(disk, base + lp), pos + PeekRecLen(disk, base + lp);
      HitIsNamed(disk, start, gapEnd, name);
      var w := WalkGap(disk, start, gapEnd, name);
      if w.Passed? {
        ScanEnds(disk, n, w.pos, lp + RecLen(disk[n], lp), name);
      }
    }
  }

  /** The block in which a scan of the directory ended. */
  lemma {:induction false} ScanShape(disk: seq<Block>, bs: seq<nat>, name: seq<Byte>) returns (n: nat)
    requires AllTiled(disk, bs) && Scan(disk, bs, name).Some?
    ensures n in bs && Ends(disk, n, Scan(disk, bs, name).value, name)
    decreases |bs|
  {
    hide ScanBlock, Tiled, Ends;
    if ScanFrom(disk, bs[0], name).Some? {
      n := bs[0];
      FirstOnChain(disk[n]);
      ScanEnds(disk, n, BLOCK_SIZE * n, 0, name);
    } else {
      n := ScanShape(disk, bs[1..], name);
    }
  }

  lemma FirstOnChain(b: Block)
    requires Tiled(b, 0)
    ensures OnChain(b, 0, 0)
  {}

  // ---------- the bytes a restore writes ----------

  lemma PeekPoke(disk: seq<Block>, a: nat, x: Byte, c: nat)
    ensures Peek(Poke(disk, a, x), c) == if c == a && a / BLOCK_SIZE < |disk| then x else Peek(disk, c)
  {
    assert a == BLOCK_SIZE * (a / BLOCK_SIZE) + a % BLOCK_SIZE && c == BLOCK_SIZE * (c / BLOCK_SIZE) + c % BLOCK_SIZE;
  }

  lemma PeekPokeRecLen(disk: seq<Block>, a: nat, x: int, c: nat)
    ensures Peek(PokeRecLen(disk, a, x), c) ==
      if (c == a + 4 || c == a + 5) && c / BLOCK_SIZE < |disk| then U16Bytes(x % U16)[c - a - 4] else Peek(disk, c)
  {
    hide Peek, Poke, U16Bytes;
    var s := U16Bytes(x % U16);
    PeekPoke(disk, a + 4, s[0], c);
    PeekPoke(Poke(disk, a + 4, s[0]), a + 5, s[1], c);
  }

  /** The bytes a restore writes: two in the valid record, two in the stale one. */
  predicate Written(at: Stale, c: nat) {
    c == at.last + 4 || c == at.last + 5 || c == at.entry + 4 || c == at.entry + 5
  }

  lemma UnhiddenPeek(disk: seq<Block>, at: Stale, c: nat)
    requires at.last + HEADER <= at.entry
    ensures var d, r := at.entry - at.last, PeekRecLen(disk, at.last);
      Peek(Unhidden(disk, at), c) ==
        if !Written(at, c) || c / BLOCK_SIZE >= |disk| then Peek(disk, c)
        else if c < at.entry then U16Bytes(d % U16)[c - at.last - 4]
        else U16Bytes((r - d) % U16)[c - at.entry - 4]
  {
    hide Peek, PokeRecLen, U16Bytes, PeekRecLen;
    var d := at.entry - at.last;
    var disk1 := PokeRecLen(disk, at.entry, PeekRecLen(disk, at.last) - d);
    PeekPokeRecLen(disk, at.entry, PeekRecLen(disk, at.last) - d, c);
    PeekPokeRecLen(disk1, at.last, d, c);
  }

  lemma UnhiddenBytes(disk: seq<Block>, at: Stale, m: nat, i: nat)
    requires m < |disk| && i < BLOCK_SIZE && at.last + HEADER <= at.entry
    ensures !Written(at, BLOCK_SIZE * m + i) ==> Unhidden(disk, at)[m][i] == disk[m][i]
  {
    hide Peek, Unhidden;
    UnhiddenPeek(disk, at, BLOCK_SIZE * m + i);
    PeekAt(disk, m, i);
    PeekAt(Unhidden(disk, at), m, i);
  }

  lemma DigitsOfBytes(x: nat)
    requires x < U16
    ensures Digits(U16Bytes(x)[0], U16Bytes(x)[1], 0, 0) == x
  {}

  /** What the two records say afterwards, where their headers are within one block. */
  lemma UnhiddenLast(disk: seq<Block>, at: Stale, n: nat, lp: nat)
    requires n < |disk| && lp + HEADER <= BLOCK_SIZE && at.last == BLOCK_SIZE * n + lp
    requires at.last + HEADER <= at.entry && at.entry - at.last < U16
    ensures var b' := Unhidden(disk, at)[n]; RecLen(b', lp) == at.entry - at.last
  {
    hide Peek, Unhidden, PeekRecLen, U16Bytes;
    var disk' := Unhidden(disk, at);
    forall c | c == at.last + 4 || c == at.last + 5
      ensures Peek(disk', c) == U16Bytes(at.entry - at.last)[c - at.last - 4] && Peek(disk', c) == disk'[n][c - BLOCK_SIZE * n]
    {
      UnhiddenPeek(disk, at, c);
      PeekAt(disk', n, c - BLOCK_SIZE * n);
    }
    assert Peek(disk', at.last + 4) == disk'[n][lp + 4] && Peek(disk', at.last + 5) == disk'[n][lp + 5];
    DigitsOfBytes(at.entry - at.last);
  }

  lemma UnhiddenEntry(disk: seq<Block>, at: Stale, m: nat, ep: nat)
    requires m < |disk| && ep + HEADER <= BLOCK_SIZE && at.entry == BLOCK_SIZE * m + ep
    requires at.last + HEADER <= at.entry
    ensures var b' := Unhidden(disk, at)[m];
      && RecLen(b', ep) == (PeekRecLen(disk, at.last) - (at.entry - at.last)) % U16
      && Ino(b', ep) == Ino(disk[m], ep) && NameLen(b', ep) == NameLen(disk[m], ep)
      && (ep + HEADER + NameLen(disk[m], ep) <= BLOCK_SIZE ==> EntryAt(b', ep) == EntryAt(disk[m], ep))
  {
    hide Peek, Unhidden, PeekRecLen, U16Bytes;
    var disk' := Unhidden(disk, at);
    var x := (PeekRecLen(disk, at.last) - (at.entry - at.last)) % U16;
    forall c | c == at.entry + 4 || c == at.entry + 5
      ensures Peek(disk', c) == U16Bytes(x)[c - at.entry - 4] && Peek(disk', c) == disk'[m][c - BLOCK_SIZE * m]
    {
      UnhiddenPeek(disk, at, c);
      PeekAt(disk', m, c - BLOCK_SIZE * m);
    }
    assert Peek(disk', at.entry + 4) == disk'[m][ep + 4] && Peek(disk', at.entry + 5) == disk'[m][ep + 5];
    DigitsOfBytes(x);
    forall i | ep <= i < BLOCK_SIZE && i != ep + 4 && i != ep + 5 ensures disk'[m][i] == disk[m][i] {
      UnhiddenBytes(disk, at, m, i);
    }
    if ep + HEADER + NameLen(disk[m], ep) <= BLOCK_SIZE {
      assert disk'[m][ep + HEADER..ep + HEADER + NameLen(disk[m], ep)] == disk[m][ep + HEADER..ep + HEADER + NameLen(disk[m], ep)];
    }
  }

  // ---------- when the stale record fits ----------

  /** The stale record, with its name, lies inside the valid one, at a distance that rec_len can
      hold. */
  predicate StaleFits(disk: seq<Block>, at: Stale, name: seq<Byte>)
    requires at.last <= at.entry
  {
    (at.entry - at.last) % 4 == 0 && at.entry + HEADER + |name| <= at.last + PeekRecLen(disk, at.last)
  }

  lemma EndsBehind(disk: seq<Block>, n: nat, at: Stale, name: seq<Byte>)
    requires Ends(disk, n, at, name)
    ensures at.last + HEADER <= at.entry
  {}

  /** The entry the stale bytes make. */
  function StaleEntry(disk: seq<Block>, at: Stale, name: seq<Byte>): Entry {
    Entry(name, PeekIno(disk, at.entry), Peek(disk, at.entry + 7))
  }

  /** The record at ep, under this name, lies inside the one at lp. */
  ghost predicate Inside(b: Block, lp: nat, ep: nat, name: seq<Byte>) {
    && Tiled(b, 0) && OnChain(b, 0, lp) && RecordOk(b, lp)
    && lp + Actual(b, lp) <= ep && (ep - lp) % 4 == 0 && ep + HEADER + |name| <= lp + RecLen(b, lp)
    && NameLen(b, ep) == |name| && EntryAt(b, ep).name == name && Ino(b, ep) != 0
  }

  /** Where a fitting record is: in the same block as the valid one. */
  lemma FitsInBlock(disk: seq<Block>, n: nat, at: Stale, name: seq<Byte>) returns (lp: nat, ep: nat)
    requires Ends(disk, n, at, name) && at.last <= at.entry && StaleFits(disk, at, name)
    ensures at.last == BLOCK_SIZE * n + lp && at.entry == BLOCK_SIZE * n + ep
    ensures Inside(disk[n], lp, ep, name) && EntryAt(disk[n], ep) == StaleEntry(disk, at, name)
    ensures PeekRecLen(disk, at.last) == RecLen(disk[n], lp)
  {
    hide Peek, PeekIno, PeekRecLen, PeekNameLen, NameAt, Tiled, OnChain, Ino, RecLen;
    lp, ep := at.last - BLOCK_SIZE * n, at.entry - BLOCK_SIZE * n;
    PeekHeader(disk, n, lp);
    PeekHeader(disk, n, ep);
    NameAtLength(disk, at.entry, name);
    NameAtIs(disk, n, ep, name);
  }

  lemma NameAtLength(disk: seq<Block>, a: nat, name: seq<Byte>)
    requires NameAt(disk, a, name)
    ensures PeekNameLen(disk, a) == |name|
  {}

  /** Two blocks that differ in the lengths of these records only. */
  ghost predicate Relinked(b: Block, b': Block, lp: nat, ep: nat)
    requires lp + HEADER <= BLOCK_SIZE && ep + HEADER <= BLOCK_SIZE
  {
    && RecLen(b', lp) == ep - lp && RecLen(b', ep) == RecLen(b, lp) - (ep - lp)
    && forall i :: 0 <= i < BLOCK_SIZE && i != lp + 4 && i != lp + 5 && i != ep + 4 && i != ep + 5 ==> b'[i] == b[i]
  }

  lemma SameName(b: Block, b': Block, p: nat)
    requires p + HEADER <= BLOCK_SIZE && forall i :: p <= i < BLOCK_SIZE && i < p + HEADER + NameLen(b, p) && i != p + 4 && i != p + 5 ==> b'[i] == b[i]
    ensures Ino(b', p) == Ino(b, p) && NameLen(b', p) == NameLen(b, p)
    ensures p + HEADER + NameLen(b, p) <= BLOCK_SIZE ==> EntryAt(b', p) == EntryAt(b, p)
  {
    if p + HEADER + NameLen(b, p) <= BLOCK_SIZE {
      assert b'[p + HEADER..p + HEADER + NameLen(b, p)] == b[p + HEADER..p + HEADER + NameLen(b, p)];
    }
  }

  lemma RelinkedHeads(b: Block, b': Block, lp: nat, ep: nat, name: seq<Byte>)
    requires Inside(b, lp, ep, name) && Relinked(b, b', lp, ep)
    ensures RecordOk(b', lp) && Head(b', lp) == Head(b, lp)
    ensures RecordOk(b', ep) && Head(b', ep) == [EntryAt(b, ep)]
  {
    hide Ino, RecLen, NameLen, EntryAt, Tiled, OnChain;
    SameName(b, b', lp);
    SameName(b, b', ep);
  }

  lemma FittingBytes(disk: seq<Block>, n: nat, at: Stale, name: seq<Byte>, lp: nat, ep: nat)
    requires Ends(disk, n, at, name) && at.last <= at.entry && StaleFits(disk, at, name)
    requires at.last == BLOCK_SIZE * n + lp && at.entry == BLOCK_SIZE * n + ep
    ensures Inside(disk[n], lp, ep, name) && EntryAt(disk[n], ep) == StaleEntry(disk, at, name)
    ensures Relinked(disk[n], Unhidden(disk, at)[n], lp, ep)
  {
    hide Peek, PeekIno, PeekRecLen, Unhidden, Tiled, OnChain, NameAt, Ino, RecLen, NameLen, EntryAt;
    var lp', ep' := FitsInBlock(disk, n, at, name);
    UnhiddenLast(disk, at, n, lp);
    UnhiddenEntry(disk, at, n, ep);
    forall i | 0 <= i < BLOCK_SIZE && i != lp + 4 && i != lp + 5 && i != ep + 4 && i != ep + 5
      ensures Unhidden(disk, at)[n][i] == disk[n][i]
    {
      UnhiddenBytes(disk, at, n, i);
    }
  }

  /** Unhiding a fitting record keeps the tiling and inserts exactly one entry into the listing. */
  lemma UnhideInserts(disk: seq<Block>, n: nat, at: Stale, name: seq<Byte>, lp: nat)
    requires n < |disk| && Tiled(disk[n], 0) && OnChain(disk[n], 0, lp) && RecordOk(disk[n], lp)
    requires Ends(disk, n, at, name) && at.last <= at.entry && StaleFits(disk, at, name) && at.last == BLOCK_SIZE * n + lp
    ensures var b, b' := disk[n], Unhidden(disk, at)[n];
      && Tiled(b', 0) && AddRank(b, lp) <= |Live(b, 0)|
      && Live(b', 0) == InsertAt(Live(b, 0), AddRank(b, lp), StaleEntry(disk, at, name))
  {
    hide Peek, PeekIno, PeekRecLen, Unhidden, Tiled, OnChain, NameAt, Live, Rank, Head, Ino, RecLen, NameLen, EntryAt, InsertAt, StaleFits, Actual, StaleEntry;
    var lp', ep := FitsInBlock(disk, n, at, name);
    var b, b' := disk[n], Unhidden(disk, at)[n];
    FittingBytes(disk, n, at, name, lp, ep);
    RelinkedHeads(b, b', lp, ep, name);
    ChainAt(b, 0, lp);
    RankAt(b, 0, lp);
    LiveFrom(b, lp);
    SameChain(b, b', lp + RecLen(b, lp));
    TiledFrom(b', ep);
    TiledFrom(b', lp);
    PrefixKept(b, b', 0, lp);
    InsertJoin(Live(b, 0), Rank(b, 0, lp), Head(b, lp), StaleEntry(disk, at, name), Live(b, lp + RecLen(b, lp)));
    assert Live(b', lp) == Head(b, lp) + [StaleEntry(disk, at, name)] + Live(b, lp + RecLen(b, lp));
  }

  /** Blocks that are not written stay as they are. */
  lemma UnhiddenElsewhere(disk: seq<Block>, at: Stale, m: nat)
    requires m < |disk| && at.last + HEADER <= at.entry
    requires forall c :: BLOCK_SIZE * m <= c < BLOCK_SIZE * m + BLOCK_SIZE ==> !Written(at, c)
    ensures Unhidden(disk, at)[m] == disk[m]
  {
    hide Unhidden, Written;
    forall i | 0 <= i < BLOCK_SIZE ensures Unhidden(disk, at)[m][i] == disk[m][i] {
      UnhiddenBytes(disk, at, m, i);
    }
  }

  lemma FittingElsewhere(disk: seq<Block>, n: nat, at: Stale, name: seq<Byte>, m: nat)
    requires Ends(disk, n, at, name) && at.last <= at.entry && StaleFits(disk, at, name) && m < |disk| && m != n
    ensures Unhidden(disk, at)[m] == disk[m]
  {
    hide Unhidden, Tiled, OnChain, NameAt;
    var lp, ep := FitsInBlock(disk, n, at, name);
    UnhiddenElsewhere(disk, at, m);
  }

  /** Over a whole directory: one entry is inserted, right behind the valid record. */
  lemma UnhidingInserts(disk: seq<Block>, bs: seq<nat>, n: nat, at: Stale, name: seq<Byte>, lp: nat)
    requires AllTiled(disk, bs) && NoDup(bs) && OnChains(disk, bs, Place(n, lp))
    requires Ends(disk, n, at, name) && at.last <= at.entry && StaleFits(disk, at, name) && at.last == BLOCK_SIZE * n + lp
    ensures var disk' := Unhidden(disk, at);
      && AllTiled(disk', bs) && PutIndex(disk, bs, Place(n, lp)) <= |Listing(disk, bs)|
      && Listing(disk', bs) == InsertAt(Listing(disk, bs), PutIndex(disk, bs, Place(n, lp)), StaleEntry(disk, at, name))
  {
    hide Unhidden, Tiled, OnChain, NameAt, Live, StaleFits, StaleEntry, Peek, PeekIno, Actual, AddRank, PutIndex, Listing;
    UnhideInserts(disk, n, at, name, lp);
    forall m | 0 <= m < |disk| && m != n ensures Unhidden(disk, at)[m] == disk[m] {
      FittingElsewhere(disk, n, at, name, m);
    }
    BlockInserts(disk, Unhidden(disk, at), bs, Place(n, lp), StaleEntry(disk, at, name));
  }

  // ---------- when it does not fit ----------

  lemma {:induction false} TiledAligned(b: Block, p: nat)
    requires Tiled(b, p)
    ensures p % 4 == 0 && p <= BLOCK_SIZE
    decreases BLOCK_SIZE - p
  {
    hide Ino, RecLen, NameLen;
    if p == BLOCK_SIZE {
    } else {
      TiledAligned(b, p + RecLen(b, p));
    }
  }

  lemma BrokenLast(disk: seq<Block>, n: nat, at: Stale, name: seq<Byte>, lp: nat)
    requires Ends(disk, n, at, name) && at.last == BLOCK_SIZE * n + lp
    ensures at.last + HEADER <= at.entry && lp + HEADER <= BLOCK_SIZE
    ensures var b' := Unhidden(disk, at)[n];
      && RecLen(b', lp) == at.entry - at.last
      && Ino(b', lp) == Ino(disk[n], lp) && NameLen(b', lp) == NameLen(disk[n], lp)
      && forall i :: 0 <= i < lp ==> b'[i] == disk[n][i]
  {
    hide Peek, PeekIno, PeekRecLen, Unhidden, Tiled, OnChain, NameAt;
    UnhiddenLast(disk, at, n, lp);
    forall i | 0 <= i < lp + HEADER && i != lp + 4 && i != lp + 5 ensures Unhidden(disk, at)[n][i] == disk[n][i] {
      UnhiddenBytes(disk, at, n, i);
    }
  }

  /** A stale record in this block that does not fit cannot be a record of the chain. */
  lemma BrokenEntry(disk: seq<Block>, n: nat, at: Stale, name: seq<Byte>, lp: nat, ep: nat)
    requires Ends(disk, n, at, name) && at.last <= at.entry && !StaleFits(disk, at, name)
    requires at.last == BLOCK_SIZE * n + lp && at.entry == BLOCK_SIZE * n + ep && ep < BLOCK_SIZE && (ep - lp) % 4 == 0
    ensures !RecordOk(Unhidden(disk, at)[n], ep)
  {
    hide Peek, PeekIno, PeekRecLen, PeekNameLen, Unhidden, Tiled, OnChain, NameAt, Ino, RecLen, NameLen, EntryAt;
    if ep + HEADER <= BLOCK_SIZE {
      UnhiddenEntry(disk, at, n, ep);
      PeekHeader(disk, n, ep);
      PeekHeader(disk, n, lp);
      NameAtLength(disk, at.entry, name);
    }
  }

  lemma BrokenTiles(disk: seq<Block>, n: nat, at: Stale, name: seq<Byte>, lp: nat)
    requires Ends(disk, n, at, name) && at.last <= at.entry && !StaleFits(disk, at, name) && at.last == BLOCK_SIZE * n + lp
    requires Tiled(Unhidden(disk, at)[n], 0)
    ensures at.entry == BLOCK_SIZE * n + BLOCK_SIZE
  {
    hide Peek, PeekIno, PeekRecLen, Unhidden, Tiled, OnChain, NameAt, Ino, RecLen, NameLen, StaleFits, Head, Live, Actual;
    var b, b' := disk[n], Unhidden(disk, at)[n];
    var ep := at.entry - BLOCK_SIZE * n;
    BrokenLast(disk, n, at, name, lp);
    ChainAt(b, 0, lp);
    PrefixLeads(b, b', 0, lp);
    LiveFrom(b', lp);
    TiledAligned(b', ep);
    TiledAligned(b, lp);
    if ep < BLOCK_SIZE {
      BrokenEntry(disk, n, at, name, lp, ep);
      LiveFrom(b', ep);
    }
  }

  lemma BehindHead(disk: seq<Block>, n: nat, at: Stale, name: seq<Byte>, lp: nat)
    requires Ends(disk, n, at, name) && at.last == BLOCK_SIZE * n + lp && at.entry == BLOCK_SIZE * n + BLOCK_SIZE
    ensures var b, b' := disk[n], Unhidden(disk, at)[n];
      && RecordOk(b, lp) && RecordOk(b', lp) && lp + RecLen(b', lp) == BLOCK_SIZE && Head(b', lp) == Head(b, lp)
      && forall i :: 0 <= i < lp ==> b'[i] == b[i]
  {
    hide Peek, PeekIno, PeekRecLen, Unhidden, Tiled, OnChain, NameAt, Ino, RecLen, NameLen, EntryAt;
    var b, b' := disk[n], Unhidden(disk, at)[n];
    BrokenLast(disk, n, at, name, lp);
    ChainAt(b, 0, lp);
    TiledAligned(b, lp);
    forall i | lp <= i < BLOCK_SIZE && i != lp + 4 && i != lp + 5 ensures b'[i] == b[i] {
      UnhiddenBytes(disk, at, n, i);
    }
    SameName(b, b', lp);
  }

  /** A stale record right behind the block: the valid one swallows the rest of the block. */
  lemma BehindTiles(disk: seq<Block>, n: nat, at: Stale, name: seq<Byte>, lp: nat)
    requires Ends(disk, n, at, name) && at.last == BLOCK_SIZE * n + lp && at.entry == BLOCK_SIZE * n + BLOCK_SIZE
    ensures Tiled(Unhidden(disk, at)[n], 0) && Live(Unhidden(disk, at)[n], 0) <= Live(disk[n], 0)
  {
    hide Peek, PeekIno, PeekRecLen, Unhidden, Tiled, OnChain, NameAt, Ino, RecLen, NameLen, Head, Live, Rank;
    var b, b' := disk[n], Unhidden(disk, at)[n];
    BehindHead(disk, n, at, name, lp);
    EndTiles(b');
    TiledFrom(b', lp);
    PrefixKept(b, b', 0, lp);
    RankAt(b, 0, lp);
    LiveFrom(b, lp);
    assert Live(b', 0) == Live(b, 0)[..Rank(b, 0, lp)] + Head(b, lp);
    assert Live(b, 0) == Live(b, 0)[..Rank(b, 0, lp)] + Live(b, lp);
  }

  lemma EndTiles(b: Block)
    ensures Tiled(b, BLOCK_SIZE) && Live(b, BLOCK_SIZE) == []
  {}

  /** The block behind is broken by it: the step from its first byte is too short or too long. */
  lemma BehindBreaks(disk: seq<Block>, n: nat, at: Stale, name: seq<Byte>)
    requires Ends(disk, n, at, name) && at.entry == BLOCK_SIZE * n + BLOCK_SIZE && n + 1 < |disk|
    ensures !Tiled(Unhidden(disk, at)[n + 1], 0)
  {
    hide Peek, PeekIno, PeekRecLen, PeekNameLen, Unhidden, OnChain, NameAt, Ino, RecLen, NameLen, EntryAt;
    var lp := at.last - BLOCK_SIZE * n;
    PeekHeader(disk, n, lp);
    UnhiddenEntry(disk, at, n + 1, 0);
  }

  /** A restore leaves the directory's records tiling its blocks exactly when the stale record fits,
      or starts right behind the block and the next block is not the directory's. */
  lemma RestoreTilesExactly(disk: seq<Block>, bs: seq<nat>, n: nat, at: Stale, name: seq<Byte>)
    requires AllTiled(disk, bs) && NoDup(bs) && n in bs && Ends(disk, n, at, name) && at.last <= at.entry
    ensures AllTiled(Unhidden(disk, at), bs) <==>
      StaleFits(disk, at, name) || (at.entry == BLOCK_SIZE * n + BLOCK_SIZE && n + 1 !in bs)
  {
    hide Peek, PeekIno, PeekRecLen, PeekNameLen, Unhidden, Tiled, OnChain, NameAt, StaleFits, Ends, Live, Listing;
    var lp := LastIn(disk, n, at, name);
    var disk' := Unhidden(disk, at);
    if StaleFits(disk, at, name) {
      UnhidingInserts(disk, bs, n, at, name, lp);
    } else if at.entry == BLOCK_SIZE * n + BLOCK_SIZE && n + 1 !in bs {
      BehindTiles(disk, n, at, name, lp);
      forall m | m in bs && m != n ensures disk'[m] == disk[m] {
        BehindElsewhere(disk, n, at, name, m);
      }
    } else if AllTiled(disk', bs) {
      BrokenTiles(disk, n, at, name, lp);
      BehindBreaks(disk, n, at, name);
    }
  }

  lemma LastIn(disk: seq<Block>, n: nat, at: Stale, name: seq<Byte>) returns (lp: nat)
    requires Ends(disk, n, at, name)
    ensures at.last == BLOCK_SIZE * n + lp && OnChain(disk[n], 0, lp) && RecordOk(disk[n], lp) && at.last + HEADER <= at.entry
  {
    lp := at.last - BLOCK_SIZE * n;
  }

  lemma BehindElsewhere(disk: seq<Block>, n: nat, at: Stale, name: seq<Byte>, m: nat)
    requires Ends(disk, n, at, name) && at.entry == BLOCK_SIZE * n + BLOCK_SIZE && m < |disk| && m != n && m != n + 1
    ensures Unhidden(disk, at)[m] == disk[m]
  {
    hide Unhidden, Tiled, OnChain, NameAt, Peek, PeekIno;
    var lp := LastIn(disk, n, at, name);
    UnhiddenElsewhere(disk, at, m);
  }
}
