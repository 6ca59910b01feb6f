/** The simulator itself: page table, coremap, physical memory, swap and the replacement
    algorithms, updated in place by each reference. Every method refines the transition
    function of module Paging. */
module Simulator {
  import opened Prelude
  import opened BitWords
  import opened PageTable
  import opened Paging
  import opened SwapSpace
  import opened FlatMemory
  import opened LruQueue
  import opened ClockHand
  import opened Evictions

  /** The rows of the algs table. Rand and Opt take their victim from outside. */
  datatype Algorithm = RandAlg | LruAlg | FifoAlg | ClockAlg | OptAlg

  /** A line of the trace file: one starting with '=' is skipped. */
  datatype Line = Comment | Access(r: Ref)

  class FifoHead {
    var head: nat

    constructor ()
      ensures head == 0
    {
      head := 0;
    }

    method Evict(memsize: nat) returns (frame: nat)
      requires head < memsize
      modifies this
      ensures frame == old(head) && head == Next(old(head), memsize)
    {
      frame := head;
      head := Next(head, memsize);
    }
  }

  lemma FirstFreeIs(core: seq<Option<nat>>, i: nat)
    requires i <= |core| && (i < |core| ==> core[i].None?)
    requires forall j :: 0 <= j < i ==> core[j].Some?
    ensures FirstFree(core) == i
  {}

  class Sim {
    const memsize: nat
    const coremap: array<Option<nat>>
    const physmem: array<Page>
    const table: Table
    const swap: Swap
    const alg: Algorithm
    const lru: Queue
    const fifo: FifoHead
    const clock: Hand
    var hits: nat
    var misses: nat
    var refs: nat
    var clean: nat
    var dirty: nat

    ghost function PolicyRepr(): set<object>
      reads lru
    {
      {lru, lru.referenced, fifo, clock, clock.referenced} + set n | n in lru.nodes
    }

    /** Everything a reference may update, except the page directory itself. */
    ghost function Entries(): set<object>
      reads this, table, lru
    {
      {this, coremap, physmem, swap.swapmap.v, swap.file, table} + (set t | t in table.Tables) + PolicyRepr()
    }

    ghost function Repr(): set<object>
      reads this, table, lru
    {
      Entries() + {table.pgdir}
    }

    ghost predicate PolicyWf()
      reads PolicyRepr(), lru
    {
      && 0 < memsize
      && lru.Valid() && clock.Valid() && fifo.head < memsize
      && lru.referenced.Length == clock.referenced.Length == memsize
      && lru.referenced != clock.referenced
    }

    /** The parts are separate objects, each in good order. */
    ghost predicate Wf()
      reads this, table, lru, Repr()
    {
      && memsize <= MAX_FRAMES
      && coremap.Length == physmem.Length == memsize
      && table.Valid() && swap.Valid()
      && physmem != swap.file
      && PolicyWf()
    }

    ghost function Pol(): Policy
      reads lru, fifo, clock, clock.referenced
    {
      match alg
      case LruAlg => Lru(Frames(lru.nodes))
      case FifoAlg => Fifo(fifo.head)
      case ClockAlg => Clock(clock.hand, clock.referenced[..])
      case _ => AnyVictim
    }

    ghost function State(): Sys
      requires Wf()
      reads this, table, lru, Repr()
    {
      Sys(table.View, coremap[..], physmem[..], swap.swapmap.Marked(), swap.file[..], Pol(),
          Counters(hits, misses, refs, clean, dirty))
    }

    constructor (memsize: nat, swapsize: nat, alg: Algorithm)
      requires 0 < memsize <= MAX_FRAMES
      ensures Wf() && Initial(State(), memsize, swapsize)
      ensures fresh({coremap, physmem, swap.swapmap.v, swap.file, table, table.pgdir}) && table.Tables == {}
      ensures fresh({lru, lru.referenced, fifo, clock, clock.referenced}) && lru.nodes == []
      ensures this.alg == alg
    {
      hide Initial, Queue.Valid, Hand.Valid, Swap.Valid, Table.Valid, Repr, Entries, PolicyRepr, State, Pol;
      this.memsize := memsize;
      this.alg := alg;
      coremap := new Option<nat>[memsize](_ => None);
      physmem := new Page[memsize](_ => Page(0, 0));
      swap := new Swap(swapsize);
      table := new Table();
      lru := new Queue(memsize);
      fifo := new FifoHead();
      clock := new Hand(memsize);
      hits, misses, refs, clean, dirty := 0, 0, 0, 0, 0;
      new;
      assert PolicyWf();
      assert Wf();
      StartIsInitial(swapsize);
    }

    /** Nothing in memory, nothing on swap, no policy history, nothing counted. */
    lemma StartIsInitial(swapsize: nat)
      requires Wf() && table.View == map[] && (forall f :: 0 <= f < coremap.Length ==> coremap[f].None?)
      requires swap.swapmap.Marked() == {} && swap.file.Length == swapsize
      requires lru.nodes == [] && fifo.head == 0 && clock.hand == 0
      requires forall i :: 0 <= i < clock.referenced.Length ==> !clock.referenced[i]
      requires hits == misses == refs == clean == dirty == 0
      ensures Initial(State(), memsize, swapsize)
    {
      hide Queue.Valid, Swap.Valid, Table.Valid;
      assert Frames(lru.nodes) == [];
    }

    /** The five counters as main prints them. */
    function Counts(): Counters
      reads this
    {
      Counters(hits, misses, refs, clean, dirty)
    }

    lemma CountsOfState()
      requires Wf()
      ensures Counts() == State().cnt
    {
      hide Wf;
    }

    /** evict_fcn, through the table of algorithms. */
    method EvictFcn(choice: nat) returns (frame: nat)
      requires PolicyWf() && PolicyOk(Pol(), memsize, Below(memsize))
      modifies lru, lru.nodes, lru.referenced, fifo, clock, clock.referenced
      ensures PolicyWf() && PolicyRepr() <= old(PolicyRepr())
      ensures (frame, Pol()) == Evict(old(Pol()), memsize, choice)
    {
      match alg
      case LruAlg =>
        assert 0 in Elements(Frames(lru.nodes));
        frame := lru.Evict();
      case FifoAlg => frame := fifo.Evict(memsize);
      case ClockAlg => frame := clock.Evict();
      case _ => frame := choice % memsize;
    }

    /** ref_fcn, through the table of algorithms. */
    method RefFcn(frame: nat)
      requires PolicyWf() && frame < memsize
      modifies lru, lru.nodes, lru.referenced, fifo, clock, clock.referenced
      ensures PolicyWf() && fresh(PolicyRepr() - old(PolicyRepr()))
      ensures Pol() == Touch(old(Pol()), frame)
    {
      match alg
      case LruAlg => lru.Ref(frame);
      case ClockAlg => clock.Ref(frame);
      case _ =>
    }

    /** The scan at the head of allocate_frame; -1 when every frame is in use. */
    method FreeFrame() returns (frame: int)
      requires Wf()
      ensures frame == if FirstFree(coremap[..]) < memsize then FirstFree(coremap[..]) else -1
    {
      for i := 0 to memsize
        invariant forall j :: 0 <= j < i ==> coremap[j].Some?
      {
        if coremap[i].None? {
          FirstFreeIs(coremap[..], i);
          return i;
        }
      }
      FirstFreeIs(coremap[..], memsize);
      frame := -1;
    }

    method IsDirty(page: nat) returns (d: bool)
      requires Wf() && page in table.View && table.View[page] != UNUSED
      ensures d == table.View[page].dirty
    {
      table.Present(page);
      var pte := table.Get(page);
      d := Bit(pte.word, PG_DIRTY);
    }

    method CountEviction(isDirty: bool)
      requires Wf()
      modifies this
      ensures Wf() && State() == Paging.CountEviction(old(State()), isDirty)
    {
      if isDirty {
        dirty := dirty + 1;
      } else {
        clean := clean + 1;
      }
    }

    /** The victim's entry says that it has left memory, and where its copy is. */
    method MarkGone(victim: nat, off: int)
      requires Wf() && victim in table.View && table.View[victim] != UNUSED && table.View[victim].onswap && OffsetOk(off)
      modifies table, table.Tables
      ensures Wf() && table.Tables == old(table.Tables)
      ensures State() == old(State()).(ptes := old(table.View)[victim :=
                old(table.View)[victim].(valid := false, dirty := false, slot := SlotAt(off))])
    {
      table.Present(victim);
      hide Decode, Table.Valid, Queue.Valid, Hand.Valid, Swap.Valid;
      var pte := table.Get(victim);
      DecodeFlags(pte);
      var w := if Bit(pte.word, PG_DIRTY) then SetWordBit(pte.word, PG_ONSWAP) else pte.word;
      w := ClearWordBit(ClearWordBit(w, PG_VALID), PG_DIRTY);
      EvictedWord(pte.word, pte.swapOff, off);
      table.Set(victim, RawPte(w, off));
    }

    /** The victim's page goes to swap, and its entry says it has left memory. */
    method PageOutVictim(frame: nat, victim: nat) returns (ok: bool)
      requires Wf() && frame < memsize && victim in table.View && table.View[victim] != UNUSED
      requires PteOk(State(), victim) && State().ptes[victim].slot < swap.file.Length
      modifies table, table.Tables, swap.swapmap.v, swap.file
      ensures Wf() && table.Tables == old(table.Tables)
      ensures ok <==> SlotFor(old(State()), old(State()).ptes[victim].slot).Some?
      ensures ok ==>
        var slot := SlotFor(old(State()), old(State()).ptes[victim].slot).value;
        0 <= slot < swap.file.Length && State() == LeaveMemory(old(State()), frame, victim, slot)
    {
      ghost var s := State();
      table.Present(victim);
      hide Decode, Table.Valid, Queue.Valid, Hand.Valid;
      var pte := table.Get(victim);
      DecodeFlags(pte);
      var off := swap.PageOut(physmem, frame, pte.swapOff);
      if off == INVALID_SWAP {
        return false;
      }
      ghost var slot := SlotAt(off);
      assert State() == s.(used := s.used + {slot}, file := s.file[slot := s.mem[frame]]);
      MarkGone(victim, off);
      ok := true;
    }

    method WriteOut(frame: nat, victim: nat) returns (ok: bool)
      requires Wf() && frame < memsize && victim in table.View && table.View[victim] != UNUSED
      requires PteOk(State(), victim) && State().ptes[victim].slot < swap.file.Length
      modifies this, table, table.Tables, swap.swapmap.v, swap.file
      ensures Wf() && table.Tables == old(table.Tables)
      ensures ok <==> SlotFor(old(State()), old(State()).ptes[victim].slot).Some?
      ensures ok ==>
        var slot := SlotFor(old(State()), old(State()).ptes[victim].slot).value;
        0 <= slot < swap.file.Length &&
        State() == LeaveMemory(Paging.CountEviction(old(State()), old(State()).ptes[victim].dirty), frame, victim, slot)
    {
      hide Table.Valid, Queue.Valid, Hand.Valid, Swap.Valid;
      var isDirty := IsDirty(victim);
      CountEviction(isDirty);
      ok := PageOutVictim(frame, victim);
    }

    method EvictVictim(choice: nat) returns (frame: Option<nat>)
      requires Wf() && Good(State()) && FirstFree(coremap[..]) == memsize
      modifies Entries()
      ensures Wf() && table.Tables == old(table.Tables) && PolicyRepr() <= old(PolicyRepr())
      ensures frame.None? <==> Paging.EvictVictim(old(State()), choice).None?
      ensures frame.Some? ==> Paging.EvictVictim(old(State()), choice) == Some((State(), frame.value))
    {
      hide Table.Valid, Queue.Valid, Hand.Valid, Swap.Valid, Mapped, SlotsOk, CleanOk, Evict, PolicyOk, CountersOk;
      ghost var s := State();
      assert Resident(coremap[..]) == Below(memsize);
      var f := EvictFcn(choice);
      var victim := coremap[f].value;
      HeldAt(s, f);
      PteAt(s, victim);
      var ok := WriteOut(f, victim);
      frame := if ok then Some(f) else None;
    }

    method AllocateFrame(page: nat, choice: nat) returns (frame: Option<nat>)
      requires Wf() && Good(State())
      modifies Entries()
      ensures Wf() && table.Tables == old(table.Tables) && PolicyRepr() <= old(PolicyRepr())
      ensures frame.None? <==> Paging.AllocateFrame(old(State()), page, choice).None?
      ensures frame.Some? ==> Paging.AllocateFrame(old(State()), page, choice) == Some((State(), frame.value))
    {
      hide Table.Valid, Queue.Valid, Hand.Valid, Swap.Valid, Good, Paging.EvictVictim;
      var f := FreeFrame();
      if f == -1 {
        frame := EvictVictim(choice);
        if frame.None? {
          return;
        }
        f := frame.value;
      }
      coremap[f] := Some(page);
      frame := Some(f);
    }

    /** The frame is filled from the page's slot or, on the first touch, with zeros and the
        address; the new entry's word is built beside it. */
    method FillFrame(frame: nat, vaddr: nat, pte: RawPte) returns (placed: RawPte)
      requires Wf() && frame < memsize && OffsetOk(pte.swapOff)
      requires Decode(pte).onswap ==> 0 <= Decode(pte).slot < swap.file.Length
      modifies this, physmem
      ensures Wf() && OffsetOk(placed.swapOff)
      ensures var e := Decode(pte);
        && State() == (if e.onswap then Paging.PageIn(old(State()), frame, e.slot) else InitFrame(old(State()), frame, vaddr))
        && Decode(placed) == Pte(frame, false, !e.onswap, false, true, e.slot)
    {
      DecodeFlags(pte);
      PlacedWord(frame, pte.swapOff, !Bit(pte.word, PG_ONSWAP));
      hide Table.Valid, Queue.Valid, Hand.Valid, Decode;
      var w: Word := Shl(frame, PAGE_SHIFT);
      if Bit(pte.word, PG_ONSWAP) {
        swap.PageIn(physmem, frame, pte.swapOff);
        w := ClearWordBit(SetWordBit(w, PG_ONSWAP), PG_DIRTY);
      } else {
        physmem[frame] := Page(0, vaddr);
        w := SetWordBit(SetWordBit(w, PG_DIRTY), PG_ONSWAP);
      }
      misses := misses + 1;
      placed := RawPte(w, pte.swapOff);
    }

    /** The miss half of find_physpage: the page gets a frame and the frame gets its data. */
    method PlacePage(vaddr: nat, pte: RawPte, choice: nat) returns (placed: Option<RawPte>)
      requires Wf() && Good(State()) && PageOf(vaddr) < NUM_PAGES && OffsetOk(pte.swapOff)
      requires Decode(pte) == Table.Lookup(table.View, PageOf(vaddr)) && !Decode(pte).valid
      modifies Entries()
      ensures Wf() && table.Tables == old(table.Tables) && PolicyRepr() <= old(PolicyRepr())
      ensures placed.None? <==> Paging.PlacePage(old(State()), vaddr, choice).None?
      ensures placed.Some? ==> OffsetOk(placed.value.swapOff) && Decode(placed.value).frame < memsize
      ensures placed.Some? ==> Paging.PlacePage(old(State()), vaddr, choice) == Some((State(), Decode(placed.value)))
    {
      hide Table.Valid, Queue.Valid, Hand.Valid, Swap.Valid, Mapped, SlotsOk, CleanOk, PolicyOk, CountersOk, Decode, Paging.AllocateFrame;
      ghost var s := State();
      var f := AllocateFrame(PageOf(vaddr), choice);
      if f.None? {
        return None;
      }
      AllocateKeeps(s, PageOf(vaddr), choice);
      var raw := FillFrame(f.value, vaddr, pte);
      placed := Some(raw);
    }

    /** The entry is marked valid and referenced, dirty if it will be written. */
    method MarkReferenced(page: nat, pte: RawPte, kind: char)
      requires Wf() && page < NUM_PAGES && table.pgdir.Length == PTRS_PER_PGDIR && table.pgdir[page / PTRS_PER_PGTBL] != null
      requires OffsetOk(pte.swapOff)
      modifies this, table, table.Tables
      ensures Wf() && table.Tables == old(table.Tables)
      ensures var s, e := old(State()), Decode(pte);
        State() == s.(ptes := s.ptes[page := e.(valid := true, accessed := true, dirty := e.dirty || IsWrite(kind))],
                      cnt := s.cnt.(refs := s.cnt.refs + 1))
    {
      ReferencedWord(pte.word, pte.swapOff, IsWrite(kind));
      hide Decode, Table.Valid, Swap.Valid;
      var w := SetWordBit(SetWordBit(pte.word, PG_VALID), PG_REF);
      refs := refs + 1;
      if IsWrite(kind) {
        w := SetWordBit(w, PG_DIRTY);
      }
      table.Set(page, RawPte(w, pte.swapOff));
    }

    method TellPolicy(frame: nat)
      requires Wf() && frame < memsize
      modifies lru, lru.nodes, lru.referenced, fifo, clock, clock.referenced
      ensures Wf() && fresh(PolicyRepr() - old(PolicyRepr()))
      ensures old(Pol()).Clock? ==> |old(Pol()).bits| == memsize
      ensures State() == old(State()).(pol := Touch(old(Pol()), frame))
    {
      hide Table.Valid, Swap.Valid, Touch, Queue.Valid, Hand.Valid, PolicyRepr;
      ghost var s := State();
      RefFcn(frame);
      assert State() == s.(pol := Pol());
    }

    /** The end of find_physpage: status bits, the reference count and ref_fcn. */
    method FinishReference(page: nat, pte: RawPte, kind: char) returns (frame: nat)
      requires Wf() && page < NUM_PAGES && table.pgdir.Length == PTRS_PER_PGDIR && table.pgdir[page / PTRS_PER_PGTBL] != null
      requires OffsetOk(pte.swapOff) && Decode(pte).frame < memsize
      modifies this, table, table.Tables, lru, lru.nodes, lru.referenced, fifo, clock, clock.referenced
      ensures Wf() && table.Tables == old(table.Tables) && fresh(PolicyRepr() - old(PolicyRepr()))
      ensures frame == Decode(pte).frame == FrameOf(State(), page)
      ensures old(Pol()).Clock? ==> |old(Pol()).bits| == memsize
      ensures State() == Reference(old(State()), page, Decode(pte), kind)
    {
      hide Table.Valid, Queue.Valid, Swap.Valid, Hand.Valid, Touch;
      ghost var s := State();
      MarkReferenced(page, pte, kind);
      ghost var s1 := State();
      frame := Shr(pte.word, PAGE_SHIFT);
      hide Decode;
      TellPolicy(frame);
      ghost var s2 := State();
      assert s2 == s1.(pol := Touch(s.pol, frame));
      assert s2 == Reference(s, page, Decode(pte), kind);
    }

    method CountHit()
      requires Wf()
      modifies this
      ensures Wf() && State() == old(State()).(cnt := old(State()).cnt.(hits := old(State()).cnt.hits + 1))
    {
      hits := hits + 1;
    }

    method ServeHit(vaddr: nat, pte: RawPte, kind: char) returns (frame: nat)
      requires Wf() && Good(State()) && PageOf(vaddr) < NUM_PAGES && OffsetOk(pte.swapOff)
      requires table.pgdir.Length == PTRS_PER_PGDIR && table.pgdir[PageOf(vaddr) / PTRS_PER_PGTBL] != null
      requires Decode(pte) == Table.Lookup(table.View, PageOf(vaddr)) && Decode(pte).valid
      modifies this, table, table.Tables, lru, lru.nodes, lru.referenced, fifo, clock, clock.referenced
      ensures Wf() && table.Tables == old(table.Tables) && fresh(PolicyRepr() - old(PolicyRepr()))
      ensures Paging.FindPhyspage(old(State()), Ref(kind, vaddr), 0) == Some(State())
      ensures frame == FrameOf(State(), PageOf(vaddr))
    {
      hide Table.Valid, Queue.Valid, Hand.Valid, Swap.Valid, SlotsOk, CleanOk, CountersOk, Decode, Touch, PolicyOk;
      ghost var s, r := State(), Ref(kind, vaddr);
      FindHit(s, r, 0);
      hide Mapped, Paging.FindPhyspage, Reference, Good;
      CountHit();
      ghost var s1 := State();
      frame := FinishReference(PageOf(vaddr), pte, kind);
      ghost var s2 := State();
      assert s2 == Reference(s1, PageOf(vaddr), Decode(pte), kind);
      assert s1 == s.(cnt := s.cnt.(hits := s.cnt.hits + 1));
      assert Paging.FindPhyspage(s, r, 0) == Some(s2);

    }

    method ServeMiss(vaddr: nat, pte: RawPte, kind: char, choice: nat) returns (frame: Option<nat>)
      requires Wf() && Good(State()) && PageOf(vaddr) < NUM_PAGES && OffsetOk(pte.swapOff)
      requires table.pgdir.Length == PTRS_PER_PGDIR && table.pgdir[PageOf(vaddr) / PTRS_PER_PGTBL] != null
      requires Decode(pte) == Table.Lookup(table.View, PageOf(vaddr)) && !Decode(pte).valid
      modifies Entries()
      ensures Wf() && table.Tables == old(table.Tables) && fresh(PolicyRepr() - old(PolicyRepr()))
      ensures frame.None? <==> Paging.FindPhyspage(old(State()), Ref(kind, vaddr), choice).None?
      ensures frame.Some? ==>
        && Paging.FindPhyspage(old(State()), Ref(kind, vaddr), choice) == Some(State())
        && frame.value == FrameOf(State(), PageOf(vaddr))
    {
      hide Table.Valid, Queue.Valid, Hand.Valid, Swap.Valid, Good, Decode, Touch, PolicyWf, Paging.PlacePage;
      var placed := PlacePage(vaddr, pte, choice);
      if placed.None? {
        return None;
      }
      var f := FinishReference(PageOf(vaddr), placed.value, kind);
      frame := Some(f);
    }

    /** The page's entry, after its second-level table has been added if there was none. */
    method LookUp(vaddr: nat) returns (pte: RawPte)
      requires Wf() && PageOf(vaddr) < NUM_PAGES
      modifies table, table.pgdir
      ensures Wf() && State() == old(State()) && fresh(table.Tables - old(table.Tables)) && PolicyRepr() == old(PolicyRepr())
      ensures table.pgdir.Length == PTRS_PER_PGDIR && table.pgdir[PageOf(vaddr) / PTRS_PER_PGTBL] != null
      ensures OffsetOk(pte.swapOff) && Decode(pte) == Table.Lookup(table.View, PageOf(vaddr))
      ensures Bit(pte.word, PG_VALID) == Decode(pte).valid
    {
      hide Table.Valid, Queue.Valid, Hand.Valid, Swap.Valid;
      table.EnsureTable(vaddr);
      TwoLevelIndex(vaddr);
      pte := table.Get(PageOf(vaddr));
      DecodeFlags(pte);
    }

    /** A page in memory is found whatever an eviction would choose. */
    lemma HitIgnoresChoice(s: Sys, r: Ref, choice: nat)
      requires Good(s) && PageOf(r.vaddr) < NUM_PAGES && Table.Lookup(s.ptes, PageOf(r.vaddr)).valid
      ensures Paging.FindPhyspage(s, r, choice) == Paging.FindPhyspage(s, r, 0)
    {
      hide Good;
      FindHit(s, r, 0);
      FindHit(s, r, choice);
    }

    /** find_physpage; None is the exit for lack of swap space. */
    method FindPhyspage(vaddr: nat, kind: char, choice: nat) returns (frame: Option<nat>)
      requires Wf() && Good(State()) && PageOf(vaddr) < NUM_PAGES
      modifies Repr()
      ensures Wf() && fresh(Repr() - old(Repr()))
      ensures frame.None? <==> Paging.FindPhyspage(old(State()), Ref(kind, vaddr), choice).None?
      ensures frame.Some? ==>
        && Paging.FindPhyspage(old(State()), Ref(kind, vaddr), choice) == Some(State())
        && frame.value == FrameOf(State(), PageOf(vaddr))
    {
      hide Table.Valid, Queue.Valid, Hand.Valid, Swap.Valid, Good, Touch, Paging.FindPhyspage, Decode, PolicyWf;
      ghost var s := State();
      var pte := LookUp(vaddr);
      if Bit(pte.word, PG_VALID) {
        HitIgnoresChoice(s, Ref(kind, vaddr), choice);
        var f := ServeHit(vaddr, pte, kind);
        frame := Some(f);
      } else {
        frame := ServeMiss(vaddr, pte, kind, choice);
      }
    }

    method BumpVersion(frame: nat)
      requires Wf() && frame < memsize
      modifies physmem
      ensures Wf() && State() == old(State()).(mem := old(State()).mem[frame := Bump(old(State()).mem[frame])])
    {
      physmem[frame] := Bump(physmem[frame]);
    }

    /** access_mem. `mismatch` says whether the recorded address differs from the one
        referenced, which is when the program prints its error. */
    method AccessMem(r: Ref, choice: nat) returns (ok: bool, mismatch: bool)
      requires Wf() && Good(State()) && PageOf(r.vaddr) < NUM_PAGES
      modifies Repr()
      ensures Wf() && fresh(Repr() - old(Repr()))
      ensures !ok <==> Paging.AccessMem(old(State()), r, choice).None?
      ensures ok ==> Paging.AccessMem(old(State()), r, choice) == Some(State()) && Good(State())
      ensures ok ==> FrameOf(State(), PageOf(r.vaddr)) < |State().mem|
      ensures ok ==> (mismatch <==> State().mem[FrameOf(State(), PageOf(r.vaddr))].vaddr != r.vaddr)
    {
      hide Table.Valid, Queue.Valid, Hand.Valid, Swap.Valid, PolicyOk, CountersOk, SlotsOk, CleanOk, PolicyWf;
      hide Paging.FindPhyspage;
      ghost var s := State();
      var frame := FindPhyspage(r.vaddr, r.kind, choice);
      if frame.None? {
        return false, false;
      }
      FindPhyspageKeeps(s, r, choice);
      AccessKeeps(s, r, choice);
      var f := frame.value;
      assert f < memsize;
      hide Good, Mapped;
      mismatch := physmem[f].vaddr != r.vaddr;
      ghost var s1 := State();
      if IsWrite(r.kind) {
        BumpVersion(f);
      }
      ghost var s2 := State();
      assert s2 == WriteRef(s1, r);
      assert Paging.AccessMem(s, r, choice) == Some(s2);
      ok := true;
    }

    /** One reference of the trace, the n-th. */
    method ReplayReference(r: Ref, choice: nat, ghost s: Sys, ghost t: seq<Ref>, ghost n: nat, ghost choices: nat -> nat, ghost errors: seq<bool>)
      returns (ok: bool, mismatch: bool)
      requires Wf() && ReplayedTo(s, t, n, choices, errors, State()) && n < |t| && t[n] == r && choices(n) == choice
      modifies Repr()
      ensures Wf() && fresh(Repr() - old(Repr()))
      ensures if ok then ReplayedTo(s, t, n + 1, choices, errors + [mismatch], State()) else Run(s, t, choices).None?
    {
      hide Table.Valid, Queue.Valid, Hand.Valid, Swap.Valid, Good, Wf, State, Entries, FrameOf, Paging.AccessMem, Run, Reported, ValidTrace;
      ValidAt(t, n);
      ValidPrefix(t, n + 1);
      RunStep(s, t, n, choices);
      ok, mismatch := AccessMem(r, choice);
      if !ok {
        RunStops(s, t, n + 1, choices);
      } else if s.ptes == map[] {
        ReportedNext(s, State(), t, n, choices, errors, mismatch);
      }
    }

    /** replay_trace: lines that start with '=' are skipped, every other line is a reference.
        errors[i] says whether the error message is printed at reference i. */
    method ReplayTrace(lines: seq<Line>, choices: nat -> nat) returns (ok: bool, errors: seq<bool>)
      requires Wf() && Good(State()) && ValidTrace(References(lines))
      modifies Repr()
      ensures Wf()
      ensures !ok <==> Run(old(State()), References(lines), choices).None?
      ensures ok ==> Run(old(State()), References(lines), choices) == Some(State())
      ensures ok && old(State()).ptes == map[] ==> Reported(References(lines), |References(lines)|, errors)
    {
      hide Table.Valid, Queue.Valid, Hand.Valid, Swap.Valid, Good, PolicyWf, Run, References, Reported, ReplayedTo, State;
      ghost var s := State();
      ghost var t := References(lines);
      var n := 0;
      errors := [];
      ReplayBegins(s, t, choices);
      NoLines(lines);
      for i := 0 to |lines|
        invariant Wf() && fresh(Repr() - old(Repr())) && ReplayedTo(s, t, n, choices, errors, State())
        invariant n == |References(lines[..i])| <= |t| && References(lines[..i]) == t[..n]
      {
        ReferencesStep(lines, i);
        if lines[i].Access? {
          var mismatch;
          ok, mismatch := ReplayReference(lines[i].r, choices(n), s, t, n, choices, errors);
          if !ok {
            return false, errors;
          }
          n, errors := n + 1, errors + [mismatch];
        }
      }
      assert lines[..|lines|] == lines;
      ReplayEnds(s, t, choices, errors, State());
      ok := true;
    }
  }

  /** How far a replay has come: the state is that of the run so far, and the errors are raised where
      they are due. */
  ghost predicate ReplayedTo(s: Sys, t: seq<Ref>, n: nat, choices: nat -> nat, errors: seq<bool>, now: Sys) {
    && Good(s) && Good(now) && ValidTrace(t) && n <= |t| && ValidTrace(t[..n]) && Run(s, t[..n], choices) == Some(now)
    && (s.ptes == map[] ==> Reported(t, n, errors))
  }

  lemma ReplayBegins(s: Sys, t: seq<Ref>, choices: nat -> nat)
    requires Good(s) && ValidTrace(t)
    ensures ReplayedTo(s, t, 0, choices, [], s)
  {
    hide Good, Reported;
    RunNothing(s, t, choices);
    NothingReported(t);
  }

  lemma ReplayEnds(s: Sys, t: seq<Ref>, choices: nat -> nat, errors: seq<bool>, now: Sys)
    requires ReplayedTo(s, t, |t|, choices, errors, now)
    ensures Good(s) && ValidTrace(t) && Run(s, t, choices) == Some(now) && (s.ptes == map[] ==> Reported(t, |t|, errors))
  {
    hide Good, Run, Reported, ValidTrace;
    assert t[..|t|] == t;
  }

  /** At the first n references the error is raised exactly where the address differs from the one
      of the first reference to the page. */
  ghost predicate Reported(t: seq<Ref>, n: nat, errors: seq<bool>) {
    && |errors| == n <= |t|
    && forall i :: 0 <= i < n ==>
      && PageOf(t[i].vaddr) in Touched(t) && (errors[i] <==> t[i].vaddr != FirstTouch(t, PageOf(t[i].vaddr)))
  }

  lemma NothingReported(t: seq<Ref>)
    ensures Reported(t, 0, [])
  {}

  lemma ReportedNext(s: Sys, s1: Sys, t: seq<Ref>, n: nat, choices: nat -> nat, errors: seq<bool>, mismatch: bool)
    requires Good(s) && s.ptes == map[] && ValidTrace(t) && n < |t| && Reported(t, n, errors)
    requires Run(s, t[..n], choices).Some? && Paging.AccessMem(Run(s, t[..n], choices).value, t[n], choices(n)) == Some(s1)
    requires FrameOf(s1, PageOf(t[n].vaddr)) < |s1.mem|
    requires mismatch <==> s1.mem[FrameOf(s1, PageOf(t[n].vaddr))].vaddr != t[n].vaddr
    ensures Reported(t, n + 1, errors + [mismatch])
  {
    hide Good, Run, Paging.AccessMem, FrameOf, FirstTouch;
    StepShowsFirstTouch(s, t, n, choices);
  }

  /** The references of a trace file. */
  function References(lines: seq<Line>): seq<Ref> {
    if lines == [] then []
    else
      var last := lines[|lines| - 1];
      References(lines[..|lines| - 1]) + if last.Access? then [last.r] else []
  }

  lemma {:induction false} ReferencesPrefix(lines: seq<Line>, i: nat)
    requires i <= |lines|
    ensures References(lines[..i]) <= References(lines)
    decreases |lines| - i
  {
    if i == |lines| {
      assert lines[..i] == lines;
    } else {
      ReferencesPrefix(lines, i + 1);
      assert lines[..i + 1][..i] == lines[..i];
    }
  }

  lemma ReferencesStep(lines: seq<Line>, i: nat)
    requires i < |lines|
    ensures References(lines[..i + 1]) == References(lines[..i]) + if lines[i].Access? then [lines[i].r] else []
    ensures References(lines[..i + 1]) <= References(lines)
  {
    assert lines[..i + 1][..i] == lines[..i];
    ReferencesPrefix(lines, i + 1);
  }

  lemma RunNothing(s: Sys, t: seq<Ref>, choices: nat -> nat)
    requires Good(s) && ValidTrace(t)
    ensures Run(s, t[..0], choices) == Some(s)
  {}

  lemma NoLines(lines: seq<Line>)
    ensures References(lines[..0]) == []
  {}

  lemma RunStep(s: Sys, t: seq<Ref>, n: nat, choices: nat -> nat)
    requires Good(s) && ValidTrace(t) && n < |t| && Run(s, t[..n], choices).Some?
    ensures Run(s, t[..n + 1], choices) == Paging.AccessMem(Run(s, t[..n], choices).value, t[n], choices(n))
  {
    assert t[..n + 1][..n] == t[..n];
  }

  lemma {:induction false} RunStops(s: Sys, t: seq<Ref>, n: nat, choices: nat -> nat)
    requires Good(s) && ValidTrace(t) && n <= |t| && Run(s, t[..n], choices).None?
    ensures Run(s, t, choices).None?
    decreases |t| - n
  {
    if n == |t| {
      assert t[..n] == t;
    } else {
      assert t[..n + 1][..n] == t[..n];
      RunStops(s, t, n + 1, choices);
    }
  }

  /** The policy that -a selects. */
  predicate Selects(alg: Algorithm, pol: Policy) {
    match alg
    case LruAlg => pol.Lru?
    case FifoAlg => pol.Fifo?
    case ClockAlg => pol.Clock?
    case _ => pol.AnyVictim?
  }

  /** A simulator at the start of main. */
  method Start(memsize: nat, swapsize: nat, alg: Algorithm) returns (sim: Sim)
    requires 0 < memsize <= MAX_FRAMES
    ensures fresh(sim) && sim.Wf() && fresh(sim.Repr())
    ensures Initial(sim.State(), memsize, swapsize) && Selects(alg, sim.State().pol)
  {
    hide Table.Valid, Queue.Valid, Hand.Valid, Swap.Valid, Initial;
    sim := new Sim(memsize, swapsize, alg);
  }

  /** The whole program: from empty memory its printed counters are those of the run of the trace.
      s is the state in which the trace starts. */
  method Simulate(memsize: nat, swapsize: nat, alg: Algorithm, lines: seq<Line>, choices: nat -> nat)
    returns (ok: bool, c: Counters, errors: seq<bool>, ghost s: Sys)
    requires 0 < memsize <= MAX_FRAMES && ValidTrace(References(lines))
    ensures Initial(s, memsize, swapsize) && Good(s) && Selects(alg, s.pol)
    ensures ok <==> Run(s, References(lines), choices).Some?
    ensures ok ==> c == Run(s, References(lines), choices).value.cnt
    ensures ok ==> Reported(References(lines), |References(lines)|, errors)
    ensures |Touched(References(lines))| <= swapsize ==> ok
    ensures ok ==> c.hits + c.misses == c.refs == |References(lines)|
    ensures ok ==> c.misses == c.clean + c.dirty + if c.misses < memsize then c.misses else memsize
    ensures ok ==>
      && s.ptes == map[] && c.dirty == |Evicting(s, References(lines), choices, true)|
      && c.clean == |Evicting(s, References(lines), choices, false)|
      && c.dirty <= |Touched(References(lines))| + AllWrites(References(lines))
  {
    hide Run, Touched, References, Sim.Wf, Sim.State, Sim.Repr, Sim.Counts, Reported, Good, Evicting, DirtyPages;
    var sim := Start(memsize, swapsize, alg);
    s := sim.State();
    ghost var t := References(lines);
    InitialIsGood(s, memsize, swapsize);
    if |Touched(t)| <= swapsize {
      EnoughSwap(s, t, choices);
    }
    ok, errors := sim.ReplayTrace(lines, choices);
    c := sim.Counts();
    sim.CountsOfState();
    if ok {
      CountersAgree(s, memsize, swapsize, t, choices);
      ReferencesCounted(s, t, choices);
      CountersAreEvictions(s, t, choices);
      DirtyIsPaidFor(s, t, choices);
    }
  }
}
