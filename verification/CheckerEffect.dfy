/** The whole effect of a run of the checker, read off the image it starts from: which bytes, inodes
    and bits change, to what, and how many repairs are reported. */
module CheckerEffect {
  import opened Prelude
  import opened BitWords
  import opened ResourceMap
  import opened Inodes
  import opened FileData
  import opened DirBlock
  import opened Directory
  import opened Volume
  import opened DirectoryTools
  import opened Checker

  // ---------- what the places lead to ----------

  /** The inodes that the records at these places name. */
  ghost function InodesOf(fs: Fs, places: seq<Place>): (r: set<nat>)
    requires AllReadable(fs, places)
    ensures forall i :: i in r ==> 1 <= i <= |fs.inodes|
  {
    set c | c in places :: InoOf(fs, c)
  }

  /** The blocks that the check of these records looks at. */
  ghost function BlocksOf(fs: Fs, places: seq<Place>): set<nat>
    requires AllReadable(fs, places)
  {
    set c, n | c in places && n in ReachedFrom(fs, c) :: n
  }

  /** Byte x of block n is the type of one of the records. */
  predicate IsType(places: seq<Place>, n: nat, x: nat) {
    x >= 7 && Place(n, x - 7) in places
  }

  /** The type that the record at a place should have. */
  ghost function TypeDue(fs: Fs, c: Place): Byte
    requires Readable(fs, c)
  {
    ExpectedType(InodeOf(fs, c).mode)
  }

  // ---------- what the repairs change ----------

  ghost predicate InodesAfter(fs: Fs, fs1: Fs, places: seq<Place>)
    requires AllReadable(fs, places)
  {
    && |fs1.inodes| == |fs.inodes|
    && forall k :: 0 <= k < |fs.inodes| ==>
      fs1.inodes[k] == (if k + 1 in InodesOf(fs, places) then fs.inodes[k].(dtime := 0) else fs.inodes[k])
  }

  ghost predicate BytesAfter(fs: Fs, fs1: Fs, places: seq<Place>)
    requires AllReadable(fs, places)
  {
    && |fs1.disk| == |fs.disk|
    && forall n, x :: 0 <= n < |fs.disk| && 0 <= x < BLOCK_SIZE ==>
      fs1.disk[n][x] == if IsType(places, n, x) then TypeDue(fs, Place(n, x - 7)) else fs.disk[n][x]
  }

  ghost predicate MapsAfter(fs: Fs, fs1: Fs, places: seq<Place>)
    requires AllReadable(fs, places)
  {
    && fs1.inodeMap.used == fs.inodeMap.used + InodesOf(fs, places)
    && fs1.blockMap.used == fs.blockMap.used + BlocksOf(fs, places)
  }

  lemma InodesOfCons(fs: Fs, places: seq<Place>)
    requires AllReadable(fs, places) && places != []
    ensures InodesOf(fs, places) == {InoOf(fs, places[0])} + InodesOf(fs, places[1..])
  {
    hide Readable, InoOf;
    assert places[0] in places && forall c :: c in places <==> c == places[0] || c in places[1..];
  }

  lemma BlocksOfCons(fs: Fs, places: seq<Place>)
    requires AllReadable(fs, places) && places != []
    ensures Readable(fs, places[0]) && BlocksOf(fs, places) == Elements(ReachedFrom(fs, places[0])) + BlocksOf(fs, places[1..])
  {
    hide Readable, ReachedFrom;
    assert places[0] in places && forall c :: c in places <==> c == places[0] || c in places[1..];
  }

  /** A repair changes none of what the other records lead to. */
  lemma LeadsTheSame(fs: Fs, at: Place, places: seq<Place>)
    requires AllReadable(fs, places) && Readable(fs, at) && forall c :: c in places ==> Checker.IndirectApart(fs, at, c)
    ensures AllReadable(Repaired(fs, at), places)
    ensures InodesOf(Repaired(fs, at), places) == InodesOf(fs, places)
    ensures BlocksOf(Repaired(fs, at), places) == BlocksOf(fs, places)
    ensures forall c :: c in places ==> TypeDue(Repaired(fs, at), c) == TypeDue(fs, c)
  {
    hide Readable, Repaired, ReachedFrom, InoOf, InodeOf, Alike, Checker.IndirectApart;
    RepairedIsAlike(fs, at);
    AllReadableAlike(fs, Repaired(fs, at), places);
    forall c | c in places
      ensures InoOf(Repaired(fs, at), c) == InoOf(fs, c) && ReachedFrom(Repaired(fs, at), c) == ReachedFrom(fs, c)
      ensures InodeOf(Repaired(fs, at), c).mode == InodeOf(fs, c).mode
    {
      ReadableAlike(fs, Repaired(fs, at), c);
      ReachedSame(fs, at, c);
    }
  }

  /** The effect of one repair. */
  lemma RepairedEffect(fs: Fs, at: Place)
    requires Readable(fs, at)
    ensures var fs' := Repaired(fs, at);
      && |fs'.inodes| == |fs.inodes| && |fs'.disk| == |fs.disk|
      && (forall k :: 0 <= k < |fs.inodes| ==> fs'.inodes[k] == if k + 1 == InoOf(fs, at) then fs.inodes[k].(dtime := 0) else fs.inodes[k])
      && (forall n, x :: 0 <= n < |fs.disk| && 0 <= x < BLOCK_SIZE ==>
            fs'.disk[n][x] == if n == at.block && x == at.pos + 7 then TypeDue(fs, at) else fs.disk[n][x])
      && fs'.inodeMap.used == fs.inodeMap.used + {InoOf(fs, at)}
      && fs'.blockMap.used == fs.blockMap.used + Elements(ReachedFrom(fs, at))
  {
    hide Tiled, OnChain, Mark, ReachedFrom, ExpectedType;
    MarkValue(fs.blockMap, ReachedFrom(fs, at));
    InRecord(fs, at);
  }

  lemma NothingAfter(fs: Fs)
    ensures AllReadable(fs, []) && InodesAfter(fs, fs, []) && BytesAfter(fs, fs, []) && MapsAfter(fs, fs, [])
  {
    assert InodesOf(fs, []) == {} && BlocksOf(fs, []) == {};
  }

  lemma InodesChain(fs: Fs, fs1: Fs, fs2: Fs, places: seq<Place>)
    requires AllReadable(fs, places) && places != [] && AllReadable(fs1, places[1..]) && Readable(fs, places[0])
    requires |fs1.inodes| == |fs.inodes| && InodesOf(fs1, places[1..]) == InodesOf(fs, places[1..])
    requires forall k :: 0 <= k < |fs.inodes| ==>
      fs1.inodes[k] == if k + 1 == InoOf(fs, places[0]) then fs.inodes[k].(dtime := 0) else fs.inodes[k]
    requires InodesAfter(fs1, fs2, places[1..])
    ensures InodesAfter(fs, fs2, places)
  {
    hide Readable, InodesOf, InoOf;
    InodesOfCons(fs, places);
  }

  lemma BytesChain(fs: Fs, fs1: Fs, fs2: Fs, places: seq<Place>)
    requires AllReadable(fs, places) && places != [] && AllReadable(fs1, places[1..]) && Readable(fs, places[0])
    requires |fs1.disk| == |fs.disk| && forall c :: c in places[1..] ==> TypeDue(fs1, c) == TypeDue(fs, c)
    requires forall n, x :: 0 <= n < |fs.disk| && 0 <= x < BLOCK_SIZE ==>
      fs1.disk[n][x] == if n == places[0].block && x == places[0].pos + 7 then TypeDue(fs, places[0]) else fs.disk[n][x]
    requires BytesAfter(fs1, fs2, places[1..])
    ensures BytesAfter(fs, fs2, places)
  {
    hide Readable, TypeDue;
    forall n, x | 0 <= n < |fs.disk| && 0 <= x < BLOCK_SIZE
      ensures fs2.disk[n][x] == if IsType(places, n, x) then TypeDue(fs, Place(n, x - 7)) else fs.disk[n][x]
    {
      assert IsType(places, n, x) <==> (n == places[0].block && x == places[0].pos + 7) || IsType(places[1..], n, x);
      assert fs2.disk[n][x] == if IsType(places[1..], n, x) then TypeDue(fs1, Place(n, x - 7)) else fs1.disk[n][x];
      if IsType(places[1..], n, x) {
        assert Place(n, x - 7) in places[1..];
      } else if IsType(places, n, x) {
        assert Place(n, x - 7) == places[0];
      }
    }
  }

  /** The repairs of a list of records change the types of these records, the deletion times of the
      inodes they name, and the bits of these inodes and of the blocks reached from them: each to
      what the image says at the start, and nothing else. */
  lemma {:induction false} RepairAllEffect(fs: Fs, places: seq<Place>)
    requires AllReadable(fs, places) && AllApart(fs, places)
    ensures var fs1 := RepairAll(fs, places).0; InodesAfter(fs, fs1, places) && BytesAfter(fs, fs1, places) && MapsAfter(fs, fs1, places)
    decreases |places|
  {
    hide Readable, Repaired, Repairs, ReachedFrom, InoOf, TypeDue, InodesOf, BlocksOf, Checker.IndirectApart, InodesAfter, BytesAfter, Alike;
    if places == [] {
      NothingAfter(fs);
    } else {
      var at, rest := places[0], places[1..];
      var fs1 := Repaired(fs, at);
      assert at in places && forall a :: a in rest ==> a in places;
      RepairedReadable(fs, places);
      RepairedIsAlike(fs, at);
      AllApartAlike(fs, fs1, places);
      LeadsTheSame(fs, at, rest);
      RepairedEffect(fs, at);
      RepairAllEffect(fs1, rest);
      InodesChain(fs, fs1, RepairAll(fs1, rest).0, places);
      BytesChain(fs, fs1, RepairAll(fs1, rest).0, places);
      InodesOfCons(fs, places);
      BlocksOfCons(fs, places);
    }
  }

  // ---------- how many repairs are reported ----------

  /** The type of the record is not the one due. */
  ghost predicate WrongType(fs: Fs, c: Place)
    requires Readable(fs, c)
  {
    fs.disk[c.block][c.pos + 7] != TypeDue(fs, c)
  }

  /** The records whose type is not the one due. */
  ghost function Mistyped(fs: Fs, places: seq<Place>): set<Place>
    requires AllReadable(fs, places)
  {
    set c | c in places && WrongType(fs, c)
  }

  /** The inodes named that carry a deletion time. */
  ghost function Dated(fs: Fs, places: seq<Place>): set<nat>
    requires AllReadable(fs, places)
  {
    set i | i in InodesOf(fs, places) && fs.inodes[i - 1].dtime != 0
  }

  /** What is wrong with the entries at these places, each fault counted once. */
  ghost function Faults(fs: Fs, places: seq<Place>): nat
    requires AllReadable(fs, places)
  {
    |Mistyped(fs, places)| + |Dated(fs, places)|
    + |InodesOf(fs, places) - fs.inodeMap.used| + |BlocksOf(fs, places) - fs.blockMap.used|
  }

  lemma {:induction false} MarkCounts(m: Map, ns: seq<nat>)
    ensures Mark(m, ns).1 == |Elements(ns) - m.used|
    decreases |ns|
  {
    if ns == [] {
      assert Elements(ns) - m.used == {};
    } else {
      var rest := ns[1..];
      assert Elements(ns) == {ns[0]} + Elements(rest);
      if ns[0] in m.used {
        MarkCounts(m, rest);
        assert Elements(ns) - m.used == Elements(rest) - m.used;
      } else {
        var m1 := Acquire(m, ns[0]);
        MarkCounts(m1, rest);
        assert Elements(ns) - m.used == {ns[0]} + (Elements(rest) - m1.used);
      }
    }
  }

  lemma NewOnes<T>(a: set<T>, b: set<T>, used: set<T>)
    ensures |a + b - used| == |a - used| + |b - (used + a)|
  {
    assert a + b - used == (a - used) + (b - (used + a));
  }

  /** A repair rights the type of its own record and leaves those of all others. */
  lemma TypeRighted(fs: Fs, at: Place, fs1: Fs, c: Place)
    requires Readable(fs, at) && Readable(fs, c) && Readable(fs1, c) && |fs1.disk| == |fs.disk| && TypeDue(fs1, c) == TypeDue(fs, c)
    requires forall n, x :: 0 <= n < |fs.disk| && 0 <= x < BLOCK_SIZE ==>
      fs1.disk[n][x] == if n == at.block && x == at.pos + 7 then TypeDue(fs, at) else fs.disk[n][x]
    ensures WrongType(fs1, c) <==> c != at && WrongType(fs, c)
  {
    hide TypeDue, Readable;
    InBounds(fs, c);
  }

  lemma MistypedStep(fs: Fs, places: seq<Place>, fs1: Fs)
    requires AllReadable(fs, places) && places != [] && Readable(fs, places[0]) && AllReadable(fs1, places[1..]) && |fs1.disk| == |fs.disk|
    requires forall c :: c in places[1..] ==> TypeDue(fs1, c) == TypeDue(fs, c)
    requires forall n, x :: 0 <= n < |fs.disk| && 0 <= x < BLOCK_SIZE ==>
      fs1.disk[n][x] == if n == places[0].block && x == places[0].pos + 7 then TypeDue(fs, places[0]) else fs.disk[n][x]
    ensures |Mistyped(fs, places)| == (if WrongType(fs, places[0]) then 1 else 0) + |Mistyped(fs1, places[1..])|
  {
    hide TypeDue, Readable, WrongType;
    var at, rest := places[0], places[1..];
    forall c | c in rest ensures WrongType(fs1, c) <==> c != at && WrongType(fs, c) {
      TypeRighted(fs, at, fs1, c);
    }
    MistypedCons(fs, places, fs1);
  }

  lemma MistypedCons(fs: Fs, places: seq<Place>, fs1: Fs)
    requires AllReadable(fs, places) && places != [] && Readable(fs, places[0]) && AllReadable(fs1, places[1..])
    requires forall c :: c in places[1..] ==> (WrongType(fs1, c) <==> c != places[0] && WrongType(fs, c))
    ensures |Mistyped(fs, places)| == (if WrongType(fs, places[0]) then 1 else 0) + |Mistyped(fs1, places[1..])|
  {
    hide Readable, WrongType;
    var at, rest := places[0], places[1..];
    assert forall c :: c in places <==> c == at || c in rest;
    var here := if WrongType(fs, at) then {at} else {};
    assert Mistyped(fs, places) == here + Mistyped(fs1, rest);
    assert at !in Mistyped(fs1, rest);
    assert here * Mistyped(fs1, rest) == {};
  }

  lemma InBounds(fs: Fs, c: Place)
    requires Readable(fs, c)
    ensures c.block < |fs.disk| && c.pos + HEADER <= BLOCK_SIZE
  {
    hide Tiled, OnChain, Ino, NameLen;
  }

  lemma NamedInode(fs: Fs, at: Place)
    requires Readable(fs, at)
    ensures 1 <= InoOf(fs, at) <= |fs.inodes| && InodeOf(fs, at) == fs.inodes[InoOf(fs, at) - 1]
  {
    hide Tiled, OnChain, Ino, NameLen;
  }

  lemma DatedStep(fs: Fs, places: seq<Place>, fs1: Fs)
    requires AllReadable(fs, places) && places != [] && Readable(fs, places[0]) && AllReadable(fs1, places[1..])
    requires |fs1.inodes| == |fs.inodes| && InodesOf(fs1, places[1..]) == InodesOf(fs, places[1..])
    requires forall k :: 0 <= k < |fs.inodes| ==>
      fs1.inodes[k] == if k + 1 == InoOf(fs, places[0]) then fs.inodes[k].(dtime := 0) else fs.inodes[k]
    ensures |Dated(fs, places)| == (if InodeOf(fs, places[0]).dtime != 0 then 1 else 0) + |Dated(fs1, places[1..])|
  {
    hide InodesOf, Readable, InoOf, InodeOf;
    var num := InoOf(fs, places[0]);
    NamedInode(fs, places[0]);
    InodesOfCons(fs, places);
    var here: set<nat> := if fs.inodes[num - 1].dtime != 0 then {num} else {};
    assert Dated(fs, places) == here + Dated(fs1, places[1..]);
    assert num !in Dated(fs1, places[1..]);
    assert here * Dated(fs1, places[1..]) == {};
  }

  lemma RepairsCount(fs: Fs, at: Place)
    requires Readable(fs, at)
    ensures Repairs(fs, at) ==
      (if fs.disk[at.block][at.pos + 7] != TypeDue(fs, at) then 1 else 0) + (if InodeOf(fs, at).dtime != 0 then 1 else 0)
      + |{InoOf(fs, at)} - fs.inodeMap.used| + |Elements(ReachedFrom(fs, at)) - fs.blockMap.used|
  {
    hide ReachedFrom, Tiled, OnChain, Ino, ExpectedType, Mark;
    MarkCounts(fs.blockMap, ReachedFrom(fs, at));
    var num := InoOf(fs, at);
    assert {num} - fs.inodeMap.used == if num in fs.inodeMap.used then {} else {num};
  }

  /** The faults of a list of records are those of the first and those that are left once it has been
      repaired. */
  lemma FaultsStep(fs: Fs, places: seq<Place>)
    requires AllReadable(fs, places) && AllApart(fs, places) && places != [] && Readable(fs, places[0])
    ensures AllReadable(Repaired(fs, places[0]), places[1..])
    ensures Faults(fs, places) == Repairs(fs, places[0]) + Faults(Repaired(fs, places[0]), places[1..])
  {
    hide Readable, Repaired, Repairs, ReachedFrom, InoOf, InodeOf, TypeDue, InodesOf, BlocksOf, Checker.IndirectApart, Mistyped, Dated;
    var at, rest := places[0], places[1..];
    var fs1 := Repaired(fs, at);
    assert at in places && forall a :: a in rest ==> a in places;
    LeadsTheSame(fs, at, rest);
    RepairedEffect(fs, at);
    RepairsCount(fs, at);
    MistypedStep(fs, places, fs1);
    DatedStep(fs, places, fs1);
    InodesOfCons(fs, places);
    BlocksOfCons(fs, places);
    NewOnes({InoOf(fs, at)}, InodesOf(fs, rest), fs.inodeMap.used);
    NewOnes(Elements(ReachedFrom(fs, at)), BlocksOf(fs, rest), fs.blockMap.used);
  }

  /** The number of repairs is the number of faults. */
  lemma {:induction false} RepairsAreFaults(fs: Fs, places: seq<Place>)
    requires AllReadable(fs, places) && AllApart(fs, places)
    ensures RepairAll(fs, places).1 == Faults(fs, places)
    decreases |places|
  {
    hide Readable, Repaired, Repairs, Faults, Alike, Checker.IndirectApart;
    if places == [] {
      NoFaults(fs);
    } else {
      var at, rest := places[0], places[1..];
      assert at in places && forall a :: a in rest ==> a in places;
      RepairedReadable(fs, places);
      FaultsStep(fs, places);
      RepairedIsAlike(fs, at);
      AllApartAlike(fs, Repaired(fs, at), places);
      RepairsAreFaults(Repaired(fs, at), rest);
    }
  }

  lemma NoFaults(fs: Fs)
    ensures AllReadable(fs, []) && Faults(fs, []) == 0
  {
    assert Mistyped(fs, []) == {} && InodesOf(fs, []) == {} && BlocksOf(fs, []) == {} && Dated(fs, []) == {};
  }

  // ---------- a whole run ----------

  /** The inodes visited. */
  ghost function Seen(fs: Fs, depth: nat): set<nat>
    requires Checkable(fs, depth)
  {
    InodesOf(Started(fs), Visited(fs, depth))
  }

  lemma StartedParts(fs: Fs)
    requires MapsFit(fs) && fs.inodes[1].mode < U16
    ensures var p := Started(fs);
      && p.disk == fs.disk && p.blockMap.used == fs.blockMap.used && p.inodeMap.used == fs.inodeMap.used
      && |p.inodes| == |fs.inodes| && (forall k :: 0 <= k < |fs.inodes| && k != 1 ==> p.inodes[k] == fs.inodes[k])
      && p.inodes[1] == fs.inodes[1].(mode := RootMode(fs.inodes[1].mode))
  {
    hide Numbers, RootMode;
    RecountedUsed(RootFixed(fs));
  }

  /** Or-ing the directory bit into the mode leaves its lower twelve bits alone. */
  lemma RootModeLow(mode: nat)
    requires mode < U16
    ensures RootMode(mode) % 0x1000 == mode % 0x1000
  {
    Pow2Values();
    assert Pow2(14) == 0x4000;
    OrBitAdds(mode, 14);
    if RootMode(mode) != mode {
      assert mode == 0x1000 * (mode / 0x1000) + mode % 0x1000;
      assert RootMode(mode) == 0x1000 * (mode / 0x1000 + 4) + mode % 0x1000;
    }
  }

  /** An inode keeps size, links, sectors and pointers. It keeps its mode, the root up to its type, and
      loses its deletion time exactly if it was visited. */
  lemma CheckedInodes(fs: Fs, depth: nat, k: nat)
    requires Checkable(fs, depth) && k < |fs.inodes|
    ensures |Checked(fs, depth).inodes| == |fs.inodes|
    ensures var i, i1 := fs.inodes[k], Checked(fs, depth).inodes[k];
      && i1.size == i.size && i1.links == i.links && i1.sectors == i.sectors && i1.ptr == i.ptr
      && i1.dtime == (if k + 1 in Seen(fs, depth) then 0 else i.dtime)
      && (if k == 1 then i1.mode % 0x1000 == i.mode % 0x1000 && (i.mode / 0x1000 == S_IFDIR / 0x1000 ==> i1.mode == i.mode)
          else i1.mode == i.mode)
  {
    hide MapsFit, Tree, Visit, AllApart, AllReadable, RepairAll, InodesOf, PointersInRange;
    RepairAllEffect(Started(fs), Visited(fs, depth));
    RootModeKeeps(fs);
  }

  lemma RootModeKeeps(fs: Fs)
    requires MapsFit(fs) && fs.inodes[1].mode < U16
    ensures var p := Started(fs);
      && |p.inodes| == |fs.inodes| && (forall k :: 0 <= k < |fs.inodes| && k != 1 ==> p.inodes[k] == fs.inodes[k])
      && p.inodes[1] == fs.inodes[1].(mode := p.inodes[1].mode)
      && p.inodes[1].mode % 0x1000 == fs.inodes[1].mode % 0x1000
      && (fs.inodes[1].mode / 0x1000 == S_IFDIR / 0x1000 ==> p.inodes[1].mode == fs.inodes[1].mode)
  {
    hide Started, MapsFit, OrBit;
    StartedFits(fs);
    StartedParts(fs);
    RootModeLow(fs.inodes[1].mode);
  }

  /** Of all bytes of all blocks only the types of visited records change, to what the mode of the
      inode says. */
  lemma CheckedBytes(fs: Fs, depth: nat, n: nat, x: nat)
    requires Checkable(fs, depth) && n < |fs.disk| && x < BLOCK_SIZE
    ensures |Checked(fs, depth).disk| == |fs.disk|
    ensures AllReadable(Started(fs), Visited(fs, depth))
    ensures Checked(fs, depth).disk[n][x] ==
      if IsType(Visited(fs, depth), n, x) then TypeDue(Started(fs), Place(n, x - 7)) else fs.disk[n][x]
  {
    hide MapsFit, Tree, Visit, AllApart, RepairAll, Started, Readable, TypeDue, PointersInRange, IsType;
    RepairAllEffect(Started(fs), Visited(fs, depth));
    StartedParts(fs);
  }

  lemma CheckedSize(fs: Fs, depth: nat)
    requires Checkable(fs, depth)
    ensures |Checked(fs, depth).disk| == |fs.disk|
  {
    hide MapsFit, Tree, Visit, AllApart, RepairAll, Started, Readable, PointersInRange;
    StartedParts(fs);
    RepairAllSize(Started(fs), Visited(fs, depth));
  }

  /** Exactly the inodes visited, and the blocks looked at for them, come into use. */
  lemma CheckedMaps(fs: Fs, depth: nat)
    requires Checkable(fs, depth)
    ensures AllReadable(Started(fs), Visited(fs, depth))
    ensures Checked(fs, depth).inodeMap.used == fs.inodeMap.used + Seen(fs, depth)
    ensures Checked(fs, depth).blockMap.used == fs.blockMap.used + BlocksOf(Started(fs), Visited(fs, depth))
  {
    hide MapsFit, Tree, Visit, AllApart, RepairAll, Started, Readable, InodesOf, BlocksOf, PointersInRange;
    RepairAllEffect(Started(fs), Visited(fs, depth));
    StartedParts(fs);
  }

  /** Every block of a visited inode is in use afterwards: its 12 direct ones, whether or not there is a 0
      before them, the indirect one, and all that this lists but the last. */
  lemma VisitedBlocksInUse(fs: Fs, depth: nat, c: Place, j: nat)
    requires Checkable(fs, depth) && c in Visited(fs, depth) && j < MAX_BLOCKS - 1
    ensures Readable(Started(fs), c)
    ensures var i, used := InodeOf(Started(fs), c), Checked(fs, depth).blockMap.used;
      && (i.ptr[DIRECT] != 0 ==> i.ptr[DIRECT] in used)
      && (j < DIRECT || i.ptr[DIRECT] != 0 ==> i.ptr[DIRECT] < |fs.disk| && (BlockOf(i, fs.disk, j) != 0 ==> BlockOf(i, fs.disk, j) in used))
  {
    hide MapsFit, Tree, Visit, AllApart, RepairAll, Started, PointersInRange, U32At, Tiled, OnChain, Ino, NameLen;
    CheckedMaps(fs, depth);
    StartedParts(fs);
    BlockIsReached(InodeOf(Started(fs), c), fs.disk, j);
    assert forall n :: n in ReachedFrom(Started(fs), c) ==> n in BlocksOf(Started(fs), Visited(fs, depth));
  }

  lemma BlockIsReached(i: Inode, disk: seq<Block>, j: nat)
    requires i.ptr[DIRECT] < |disk| && j < MAX_BLOCKS - 1
    ensures i.ptr[DIRECT] != 0 ==> i.ptr[DIRECT] in Reached(i, disk)
    ensures (j < DIRECT || i.ptr[DIRECT] != 0) && BlockOf(i, disk, j) != 0 ==> BlockOf(i, disk, j) in Reached(i, disk)
  {
    hide U32At, Nonzero, Words;
    if j < DIRECT {
      InPrefix(i.ptr, j);
    } else if i.ptr[DIRECT] != 0 {
      WordIn(disk[i.ptr[DIRECT]], j - DIRECT);
    }
  }

  lemma InPrefix(ptr: seq<nat>, j: nat)
    requires |ptr| == SLOTS && j < DIRECT
    ensures ptr[j] in ptr[..DIRECT]
  {
    assert ptr[..DIRECT][j] == ptr[j];
  }

  lemma WordIn(b: Block, k: nat)
    requires k < PTRS - 1
    ensures U32At(b, 4 * k) in Words(b)
  {
    hide U32At;
    assert Words(b)[k] == U32At(b, 4 * k);
  }

  /** What is reported: one for a root that is no directory, the errors of the four counters, and every
      fault of a visited entry once. */
  lemma ReportIsFaults(fs: Fs, depth: nat)
    requires Checkable(fs, depth)
    ensures AllReadable(Started(fs), Visited(fs, depth)) && |fs.blockMap.used| <= |fs.disk| && |fs.inodeMap.used| <= |fs.inodes|
    ensures Reported(fs, depth) ==
      (if fs.inodes[1].mode / 0x1000 == S_IFDIR / 0x1000 then 0 else 1)
      + Off(fs.inodeMap, |fs.inodes|) + Off(fs.blockMap, |fs.disk|)
      + Faults(Started(fs), Visited(fs, depth))
  {
    hide Tree, Visit, AllApart, RepairAll, Started, Readable, Faults, PointersInRange, Numbers, Off;
    RepairsAreFaults(Started(fs), Visited(fs, depth));
    UsedFits(fs.blockMap, |fs.disk|);
    UsedFits(fs.inodeMap, |fs.inodes|);
  }

  // ---------- directories and files ----------

  /** A listing without the types. */
  function Named(l: seq<Entry>): seq<(seq<Byte>, nat)>
    decreases |l|
  {
    if l == [] then [] else [(l[0].name, l[0].inode)] + Named(l[1..])
  }

  lemma {:induction false} NamedConcat(a: seq<Entry>, b: seq<Entry>)
    ensures Named(a + b) == Named(a) + Named(b)
    decreases |a|
  {
    if a == [] {
      assert a + b == b;
    } else {
      assert (a + b)[1..] == a[1..] + b;
      NamedConcat(a[1..], b);
    }
  }

  lemma SameNamed(b: Block, b': Block, p: nat)
    requires RecordOk(b, p) && forall x :: p <= x < p + RecLen(b, p) && x != p + 7 ==> b'[x] == b[x]
    ensures RecordOk(b', p) && RecLen(b', p) == RecLen(b, p) && Named(Head(b', p)) == Named(Head(b, p))
  {
    if Ino(b, p) != 0 {
      assert EntryAt(b', p).name == EntryAt(b, p).name;
    }
  }

  /** Changed types change no name and no inode number of a block. */
  lemma {:induction false} BlockNamed(b: Block, b': Block, p: nat)
    requires Tiled(b, p) && forall x :: p <= x < BLOCK_SIZE && (x < p + 7 || !OnChain(b, p, x - 7)) ==> b'[x] == b[x]
    ensures Tiled(b', p) && Named(Live(b', p)) == Named(Live(b, p))
    decreases BLOCK_SIZE - p
  {
    hide Ino, RecLen, NameLen, EntryAt, Head;
    if p == BLOCK_SIZE {
    } else {
      var next := p + RecLen(b, p);
      RecordLength(b, p);
      forall x | p <= x < next && x != p + 7 ensures b'[x] == b[x] {
        if x >= p + 7 && OnChain(b, p, x - 7) {
          ChainAt(b, p, x - 7);
        }
      }
      forall x | next <= x < BLOCK_SIZE && (x < next + 7 || !OnChain(b, next, x - 7)) ensures b'[x] == b[x] {
        if x >= p + 7 && OnChain(b, p, x - 7) && x < next + 7 {
          ChainAt(b, p, x - 7);
        }
      }
      SameNamed(b, b', p);
      BlockNamed(b, b', next);
      TiledFrom(b', p);
      NamedConcat(Head(b, p), Live(b, next));
      NamedConcat(Head(b', p), Live(b', next));
    }
  }

  lemma CheckedBlock(fs: Fs, depth: nat, n: nat)
    requires Checkable(fs, depth) && n < |fs.disk| && Tiled(fs.disk[n], 0)
    ensures |Checked(fs, depth).disk| == |fs.disk| && Tiled(Checked(fs, depth).disk[n], 0)
    ensures Named(Live(Checked(fs, depth).disk[n], 0)) == Named(Live(fs.disk[n], 0))
  {
    hide Checkable, Checked, Visited, Tiled, OnChain, Live, TypeDue, Started, MapsFit;
    var fs1 := Checked(fs, depth);
    CheckedBytes(fs, depth, n, 0);
    forall x | 0 <= x < BLOCK_SIZE && (x < 7 || !OnChain(fs.disk[n], 0, x - 7)) ensures fs1.disk[n][x] == fs.disk[n][x] {
      CheckedBytes(fs, depth, n, x);
      if IsType(Visited(fs, depth), n, x) {
        PlaceOnChain(fs, depth, Place(n, x - 7));
      }
    }
    BlockNamed(fs.disk[n], fs1.disk[n], 0);
  }

  lemma PlaceOnChain(fs: Fs, depth: nat, c: Place)
    requires Checkable(fs, depth) && c in Visited(fs, depth)
    ensures c.block < |fs.disk| && Tiled(fs.disk[c.block], 0) && OnChain(fs.disk[c.block], 0, c.pos)
  {
    hide MapsFit, Tree, Visit, AllApart, Started, PointersInRange, Tiled, OnChain, Ino, NameLen, RecordOk;
    StartedParts(fs);
    assert Readable(Started(fs), c);
  }

  lemma {:induction false} CheckedListing(fs: Fs, depth: nat, bs: seq<nat>)
    requires Checkable(fs, depth) && AllTiled(fs.disk, bs)
    ensures AllTiled(Checked(fs, depth).disk, bs)
    ensures Named(Listing(Checked(fs, depth).disk, bs)) == Named(Listing(fs.disk, bs))
    decreases |bs|
  {
    hide Checkable, Checked, Tiled, Live;
    if bs == [] {
    } else {
      CheckedBlock(fs, depth, bs[0]);
      CheckedListing(fs, depth, bs[1..]);
      TiledCons(Checked(fs, depth).disk, bs);
      NamedConcat(Live(fs.disk[bs[0]], 0), Listing(fs.disk, bs[1..]));
      NamedConcat(Live(Checked(fs, depth).disk[bs[0]], 0), Listing(Checked(fs, depth).disk, bs[1..]));
    }
  }

  lemma TiledCons(disk: seq<Block>, bs: seq<nat>)
    requires bs != [] && bs[0] < |disk| && Tiled(disk[bs[0]], 0) && AllTiled(disk, bs[1..])
    ensures AllTiled(disk, bs)
  {
    hide Tiled;
    forall k | 0 <= k < |bs| ensures bs[k] < |disk| && Tiled(disk[bs[k]], 0) {
      if k > 0 {
        assert bs[k] == bs[1..][k - 1];
      }
    }
  }

  /** Every directory lists the same names with the same inode numbers, in the same order. */
  lemma DirectoriesStay(fs: Fs, depth: nat, d: nat)
    requires Checkable(fs, depth) && 1 <= d <= |fs.inodes| && AllTiled(fs.disk, Blocks(fs, d))
    ensures |Checked(fs, depth).inodes| == |fs.inodes| && AllTiled(Checked(fs, depth).disk, Blocks(Checked(fs, depth), d))
    ensures Named(Listed(Checked(fs, depth), d)) == Named(Listed(fs, d))
  {
    hide Checkable, Checked, AllTiled, Direct, Listing, Seen, Named;
    CheckedInodes(fs, depth, d - 1);
    CheckedListing(fs, depth, Blocks(fs, d));
  }

  /** No visited record lies in block n. */
  ghost predicate Unvisited(fs: Fs, depth: nat, n: nat)
    requires Checkable(fs, depth)
  {
    forall c :: c in Visited(fs, depth) ==> c.block != n
  }

  lemma UnvisitedStays(fs: Fs, depth: nat, n: nat)
    requires Checkable(fs, depth) && n < |fs.disk| && Unvisited(fs, depth, n)
    ensures |Checked(fs, depth).disk| == |fs.disk| && Checked(fs, depth).disk[n] == fs.disk[n]
  {
    hide Checkable, Checked, TypeDue, Visited, Started, MapsFit;
    CheckedBytes(fs, depth, n, 0);
    forall x | 0 <= x < BLOCK_SIZE ensures Checked(fs, depth).disk[n][x] == fs.disk[n][x] {
      CheckedBytes(fs, depth, n, x);
    }
  }

  /** A file reads back the same, byte by byte, and has the same size, as long as its blocks are not
      also those of a visited directory. */
  lemma FilesStay(fs: Fs, depth: nat, num: nat, x: nat)
    requires Checkable(fs, depth) && 1 <= num <= |fs.inodes| && x / BLOCK_SIZE < MAX_BLOCKS
    requires var i := fs.inodes[num - 1];
      && (x / BLOCK_SIZE >= DIRECT ==> i.ptr[DIRECT] < |fs.disk| && Unvisited(fs, depth, i.ptr[DIRECT]))
      && BlockOf(i, fs.disk, x / BLOCK_SIZE) < |fs.disk| && Unvisited(fs, depth, BlockOf(i, fs.disk, x / BLOCK_SIZE))
    ensures var fs1 := Checked(fs, depth);
      && |fs1.inodes| == |fs.inodes| && |fs1.disk| == |fs.disk|
      && fs1.inodes[num - 1].size == fs.inodes[num - 1].size
      && Reads(fs1.inodes[num - 1], fs1.disk, x, ByteAt(fs.inodes[num - 1], fs.disk, x))
  {
    hide Checkable, Checked, Unvisited, Seen, U32At;
    var i, j := fs.inodes[num - 1], x / BLOCK_SIZE;
    CheckedInodes(fs, depth, num - 1);
    UnvisitedStays(fs, depth, BlockOf(i, fs.disk, j));
    if j >= DIRECT {
      UnvisitedStays(fs, depth, i.ptr[DIRECT]);
    }
  }
}
