/** Page table entries, packed as the simulator packs them, and the two-level table. */
module PageTable {
  import opened BitWords

  const PAGE_SHIFT := 12
  const PAGE_SIZE := 4096
  const PTRS_PER_PGDIR := 4096
  const PTRS_PER_PGTBL := 4096
  const NUM_PAGES := 0x100_0000
  const MAX_FRAMES := 0x10_0000
  const INVALID_SWAP := -1
  const SIMPAGESIZE := 16

  /** Positions of the status bits in the frame word (masks 0x1, 0x2, 0x4 and 0x8). */
  const PG_VALID := 0
  const PG_DIRTY := 1
  const PG_REF := 2
  const PG_ONSWAP := 3

  /** The packed entry: frame number above bit 12, status bits below, and the swap offset. */
  datatype RawPte = RawPte(word: Word, swapOff: int)

  /** What a packed entry means; `slot` is the 16-byte slot at swapOff, or INVALID_SWAP. */
  datatype Pte = Pte(frame: nat, valid: bool, dirty: bool, accessed: bool, onswap: bool, slot: int)

  const UNUSED := Pte(0, false, false, false, false, INVALID_SWAP)

  predicate OffsetOk(off: int) {
    off == INVALID_SWAP || (off >= 0 && off % SIMPAGESIZE == 0)
  }

  function SlotAt(off: int): int {
    if off == INVALID_SWAP then INVALID_SWAP else off / SIMPAGESIZE
  }

  function Decode(r: RawPte): Pte {
    Pte(Shr(r.word, PAGE_SHIFT), Bit(r.word, PG_VALID), Bit(r.word, PG_DIRTY),
        Bit(r.word, PG_REF), Bit(r.word, PG_ONSWAP), SlotAt(r.swapOff))
  }

  lemma DecodeFlags(r: RawPte)
    ensures Decode(r).valid == Bit(r.word, PG_VALID) && Decode(r).dirty == Bit(r.word, PG_DIRTY)
    ensures Decode(r).onswap == Bit(r.word, PG_ONSWAP) && Decode(r).slot == SlotAt(r.swapOff)
  {}

  /** frame << PAGE_SHIFT fits a word, and carries the frame number and no status bit. */
  lemma ShiftedFrame(frame: nat, off: int)
    requires frame < MAX_FRAMES
    ensures Shl(frame, PAGE_SHIFT) <= WORD_ALLBITS
    ensures Decode(RawPte(Shl(frame, PAGE_SHIFT), off)) == Pte(frame, false, false, false, false, SlotAt(off))
  {
    ShlIsMultiply(frame, PAGE_SHIFT);
    assert Pow2(8) == 256 && Pow2(PAGE_SHIFT) == PAGE_SIZE;
    ShiftRoundTrip(frame, PAGE_SHIFT);
    forall j | 0 <= j < 4 ensures !Bit(Shl(frame, PAGE_SHIFT), j) { ShiftedInZeros(frame, PAGE_SHIFT, j); }
  }

  /** Setting or clearing one status bit changes that flag and nothing else. */
  lemma StatusBits(w: Word, off: int, j: nat)
    requires j < 4
    ensures Decode(RawPte(SetWordBit(w, j), off)) == WithFlag(Decode(RawPte(w, off)), j, true)
    ensures Decode(RawPte(ClearWordBit(w, j), off)) == WithFlag(Decode(RawPte(w, off)), j, false)
  {
    LowDigitsShiftOut(w, j, PAGE_SHIFT);
    forall k: nat | k < 4
      ensures Bit(OrBit(w, j), k) == (j == k || Bit(w, k)) && Bit(AndNotBit(w, j), k) == (j != k && Bit(w, k))
    {
      BitOfOr(w, j, k);
      BitOfAndNot(w, j, k);
    }
  }

  /** The bit updates made to the victim's word, taken together. */
  lemma EvictedWord(w: Word, off: int, newOff: int)
    ensures var w1 := if Bit(w, PG_DIRTY) then SetWordBit(w, PG_ONSWAP) else w;
      Decode(RawPte(ClearWordBit(ClearWordBit(w1, PG_VALID), PG_DIRTY), newOff)) ==
      var e := Decode(RawPte(w, off));
      e.(valid := false, dirty := false, onswap := e.onswap || e.dirty, slot := SlotAt(newOff))
  {
    var w1 := if Bit(w, PG_DIRTY) then SetWordBit(w, PG_ONSWAP) else w;
    StatusBits(w, newOff, PG_ONSWAP);
    StatusBits(w1, newOff, PG_VALID);
    StatusBits(ClearWordBit(w1, PG_VALID), newOff, PG_DIRTY);
  }

  /** The bit updates made to the word of a page that has just been placed in a frame. */
  lemma PlacedWord(frame: nat, off: int, firstTouch: bool)
    requires frame < MAX_FRAMES
    ensures Shl(frame, PAGE_SHIFT) <= WORD_ALLBITS
    ensures var w: Word := Shl(frame, PAGE_SHIFT);
      var w1 := if firstTouch then SetWordBit(SetWordBit(w, PG_DIRTY), PG_ONSWAP) else ClearWordBit(SetWordBit(w, PG_ONSWAP), PG_DIRTY);
      Decode(RawPte(w1, off)) == Pte(frame, false, firstTouch, false, true, SlotAt(off))
  {
    ShiftedFrame(frame, off);
    var w: Word := Shl(frame, PAGE_SHIFT);
    StatusBits(w, off, PG_DIRTY);
    StatusBits(w, off, PG_ONSWAP);
    StatusBits(SetWordBit(w, PG_DIRTY), off, PG_ONSWAP);
    StatusBits(SetWordBit(w, PG_ONSWAP), off, PG_DIRTY);
  }

  /** The bit updates that end every reference. */
  lemma ReferencedWord(w: Word, off: int, write: bool)
    ensures var w1 := SetWordBit(SetWordBit(w, PG_VALID), PG_REF);
      var e := Decode(RawPte(w, off));
      Decode(RawPte(if write then SetWordBit(w1, PG_DIRTY) else w1, off)) ==
      e.(valid := true, accessed := true, dirty := e.dirty || write)
  {
    StatusBits(w, off, PG_VALID);
    StatusBits(SetWordBit(w, PG_VALID), off, PG_REF);
    StatusBits(SetWordBit(SetWordBit(w, PG_VALID), PG_REF), off, PG_DIRTY);
  }

  function WithFlag(e: Pte, j: nat, b: bool): Pte
    requires j < 4
  {
    match j
    case 0 => e.(valid := b)
    case 1 => e.(dirty := b)
    case 2 => e.(accessed := b)
    case _ => e.(onswap := b)
  }

  /** The page of a 36-bit address: its page directory index and page table index together. */
  function PageOf(vaddr: nat): nat {
    vaddr / PAGE_SIZE
  }

  function DirIndex(vaddr: nat): nat {
    vaddr / 0x100_0000
  }

  function TableIndex(vaddr: nat): nat {
    vaddr / PAGE_SIZE % PTRS_PER_PGTBL
  }

  /** The two indices together identify the page: no two pages share an entry. */
  lemma TwoLevelIndex(vaddr: nat)
    ensures PageOf(vaddr) == DirIndex(vaddr) * PTRS_PER_PGTBL + TableIndex(vaddr)
    ensures DirIndex(vaddr) == PageOf(vaddr) / PTRS_PER_PGTBL
  {}

  lemma ZeroEntryIsUnused()
    ensures Decode(RawPte(0, INVALID_SWAP)) == UNUSED
  {
    ShiftedFrame(0, INVALID_SWAP);
    ShlIsMultiply(0, PAGE_SHIFT);
  }

  lemma SplitPage(i: nat, j: nat)
    requires j < PTRS_PER_PGTBL
    ensures (i * PTRS_PER_PGTBL + j) / PTRS_PER_PGTBL == i && (i * PTRS_PER_PGTBL + j) % PTRS_PER_PGTBL == j
  {}

  class Table {
    const pgdir: array<array?<RawPte>>

    /** The abstract table: the decoded entry of every page ever touched. */
    ghost var View: map<nat, Pte>
    /** The second-level tables allocated so far. */
    ghost var Tables: set<array<RawPte>>

    ghost predicate Valid()
      reads this, pgdir, Tables
    {
      && pgdir.Length == PTRS_PER_PGDIR
      && (forall i :: 0 <= i < PTRS_PER_PGDIR && pgdir[i] != null ==>
            pgdir[i] in Tables && pgdir[i].Length == PTRS_PER_PGTBL)
      && (forall i, j :: 0 <= i < j < PTRS_PER_PGDIR && pgdir[i] != null ==> pgdir[i] != pgdir[j])
      && (forall p :: p in View ==> 0 <= p < NUM_PAGES)
      && (forall i, j {:trigger pgdir[i][j]} :: 0 <= i < PTRS_PER_PGDIR && pgdir[i] != null && 0 <= j < PTRS_PER_PGTBL ==>
            Decode(pgdir[i][j]) == Lookup(View, i * PTRS_PER_PGTBL + j) && OffsetOk(pgdir[i][j].swapOff))
      && (forall p :: p in View && View[p] != UNUSED ==> pgdir[p / PTRS_PER_PGTBL] != null)
    }

    static ghost function Lookup(view: map<nat, Pte>, p: nat): Pte {
      if p in view then view[p] else UNUSED
    }

    constructor ()
      ensures Valid() && fresh(pgdir) && Tables == {} && View == map[]
    {
      pgdir := new array?<RawPte>[PTRS_PER_PGDIR](_ => null);
      View := map[];
      Tables := {};
    }

    /** Creates the second-level table of vaddr when it is missing; no entry changes. */
    method EnsureTable(vaddr: nat)
      requires Valid() && PageOf(vaddr) < NUM_PAGES
      modifies this, pgdir
      ensures Valid() && fresh(Tables - old(Tables)) && View == old(View)
      ensures pgdir.Length == PTRS_PER_PGDIR && pgdir[PageOf(vaddr) / PTRS_PER_PGTBL] != null
    {
      ZeroEntryIsUnused();
      hide Decode;
      var idx := DirIndex(vaddr);
      if pgdir[idx] == null {
        var t := new RawPte[PTRS_PER_PGTBL](_ => RawPte(0, INVALID_SWAP));
        forall j {:trigger t[j]} | 0 <= j < PTRS_PER_PGTBL
          ensures Decode(t[j]) == UNUSED == Lookup(View, idx * PTRS_PER_PGTBL + j)
        {
          SplitPage(idx, j);
        }
        pgdir[idx] := t;
        Tables := Tables + {t};
      }
    }

    lemma Present(page: nat)
      requires Valid() && page in View && View[page] != UNUSED
      ensures page < NUM_PAGES && pgdir.Length == PTRS_PER_PGDIR && pgdir[page / PTRS_PER_PGTBL] != null
    {}

    method Get(page: nat) returns (r: RawPte)
      requires Valid() && page < NUM_PAGES && pgdir.Length == PTRS_PER_PGDIR && pgdir[page / PTRS_PER_PGTBL] != null
      ensures Decode(r) == Lookup(View, page) && OffsetOk(r.swapOff)
    {
      r := pgdir[page / PTRS_PER_PGTBL][page % PTRS_PER_PGTBL];
      assert page == page / PTRS_PER_PGTBL * PTRS_PER_PGTBL + page % PTRS_PER_PGTBL;
    }

    method Set(page: nat, r: RawPte)
      requires Valid() && page < NUM_PAGES && pgdir.Length == PTRS_PER_PGDIR && pgdir[page / PTRS_PER_PGTBL] != null && OffsetOk(r.swapOff)
      modifies this, Tables
      ensures Valid() && Tables == old(Tables) && View == old(View)[page := Decode(r)]
      ensures forall i :: 0 <= i < PTRS_PER_PGDIR ==> pgdir[i] == old(pgdir[i])
    {
      var t := pgdir[page / PTRS_PER_PGTBL];
      t[page % PTRS_PER_PGTBL] := r;
      View := View[page := Decode(r)];
      forall i, j {:trigger pgdir[i][j]} | 0 <= i < PTRS_PER_PGDIR && pgdir[i] != null && 0 <= j < PTRS_PER_PGTBL
        ensures Decode(pgdir[i][j]) == Lookup(View, i * PTRS_PER_PGTBL + j) && OffsetOk(pgdir[i][j].swapOff)
      {
        SplitPage(i, j);
        if i != page / PTRS_PER_PGTBL { assert pgdir[i] != t; }
      }
    }
  }
}
