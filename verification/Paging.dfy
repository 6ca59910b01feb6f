/** The demand-paging simulator as a transition function on values: page table entries,
    coremap, physical memory, swap space and the state of the replacement policy. */
module Paging {
  import opened Prelude
  import opened PageTable

  const VERSION_MODULUS := 0x1_0000_0000

  /** One 16-byte simulated page: the version counter and the recorded address. */
  datatype Page = Page(version: nat, vaddr: nat)

  /** One line of the trace. */
  datatype Ref = Ref(kind: char, vaddr: nat)

  predicate IsWrite(kind: char) {
    kind == 'M' || kind == 'S'
  }

  /** The state of the chosen replacement algorithm. AnyVictim stands for every policy whose
      victim is an arbitrary frame below memsize. */
  datatype Policy =
    | AnyVictim
    | Fifo(head: nat)
    | Lru(queue: seq<nat>)
    | Clock(hand: nat, bits: seq<bool>)

  datatype Counters = Counters(hits: nat, misses: nat, refs: nat, clean: nat, dirty: nat)

  datatype Sys = Sys(ptes: map<nat, Pte>, core: seq<Option<nat>>, mem: seq<Page>,
                     used: set<nat>, file: seq<Page>, pol: Policy, cnt: Counters)

  /** The state before the first reference. */
  ghost predicate Initial(s: Sys, memsize: nat, swapsize: nat) {
    && s.ptes == map[]
    && |s.core| == |s.mem| == memsize
    && (forall f :: 0 <= f < memsize ==> s.core[f].None?)
    && s.used == {} && |s.file| == swapsize
    && InitialPolicy(s.pol, memsize)
    && s.cnt == Counters(0, 0, 0, 0, 0)
  }

  ghost predicate InitialPolicy(pol: Policy, memsize: nat) {
    match pol
    case AnyVictim => true
    case Fifo(head) => head == 0
    case Lru(queue) => queue == []
    case Clock(hand, bits) => hand == 0 && |bits| == memsize && forall i :: 0 <= i < memsize ==> !bits[i]
  }

  // ---------- replacement policies ----------

  /** (i + 1) % memsize. */
  function Next(i: nat, memsize: nat): (r: nat)
    requires i < memsize
    ensures r == if i + 1 == memsize then 0 else i + 1
  {
    (i + 1) % memsize
  }

  ghost function SetBits(bits: seq<bool>): set<nat> {
    set i | i in Below(|bits|) && bits[i]
  }

  /** The second-chance scan from frame i. */
  ghost function Scan(bits: seq<bool>, i: nat): (r: (nat, seq<bool>))
    requires i < |bits|
    ensures r.0 < |bits| && |r.1| == |bits|
    decreases |SetBits(bits)|
  {
    if bits[i] then
      assert SetBits(bits) == SetBits(bits[i := false]) + {i};
      Scan(bits[i := false], Next(i, |bits|))
    else
      (i, bits[i := true])
  }

  ghost predicate PolicyOk(pol: Policy, memsize: nat, resident: set<nat>) {
    match pol
    case AnyVictim => true
    case Fifo(head) => head < memsize
    case Lru(queue) => NoDup(queue) && Elements(queue) == resident
    case Clock(hand, bits) => hand < |bits| == memsize
  }

  ghost function Evict(pol: Policy, memsize: nat, choice: nat): (r: (nat, Policy))
    requires memsize > 0 && PolicyOk(pol, memsize, Below(memsize))
    ensures r.0 < memsize && PolicyOk(r.1, memsize, Below(memsize) - {r.0})
  {
    match pol
    case AnyVictim => (choice % memsize, pol)
    case Fifo(head) => (head, Fifo(Next(head, memsize)))
    case Lru(queue) =>
      assert 0 in Elements(queue);
      assert queue[0] in Elements(queue);
      (queue[0], Lru(queue[1..]))
    case Clock(hand, bits) => var (i, bits') := Scan(bits, hand); (i, Clock(i, bits'))
  }

  /** The queue with every f removed. */
  function Without(queue: seq<nat>, f: nat): (r: seq<nat>)
    ensures forall x :: x in r <==> x in queue && x != f
  {
    if queue == [] then []
    else if queue[0] == f then Without(queue[1..], f)
    else [queue[0]] + Without(queue[1..], f)
  }

  lemma {:induction false} WithoutNone(q: seq<nat>, p: nat)
    requires p !in q
    ensures Without(q, p) == q
  {
    if q == [] {
    } else {
      WithoutNone(q[1..], p);
    }
  }

  lemma {:induction false} WithoutNoDup(queue: seq<nat>, f: nat)
    requires NoDup(queue)
    ensures NoDup(Without(queue, f))
  {
    if queue == [] {
    } else {
      assert NoDup(queue[1..]) && queue[0] !in queue[1..];
      WithoutNoDup(queue[1..], f);
    }
  }

  ghost function Touch(pol: Policy, f: nat): Policy
    requires pol.Clock? ==> f < |pol.bits|
  {
    match pol
    case AnyVictim => pol
    case Fifo(_) => pol
    case Lru(queue) => Lru(Without(queue, f) + [f])
    case Clock(hand, bits) => Clock(hand, bits[f := true])
  }

  // ---------- frames and swap ----------

  /** The least free frame, or memsize when every frame is in use. */
  ghost function FirstFree(core: seq<Option<nat>>): (f: nat)
    ensures f <= |core|
    ensures f < |core| ==> core[f].None?
    ensures forall i :: 0 <= i < f ==> core[i].Some?
  {
    if core == [] || core[0].None? then 0 else 1 + FirstFree(core[1..])
  }

  ghost function Resident(core: seq<Option<nat>>): set<nat> {
    set f | f in Below(|core|) && core[f].Some?
  }

  /** The least index at or above k that is not in used, or n. */
  ghost function LeastAbsent(used: set<nat>, k: nat, n: nat): (r: nat)
    requires k <= n
    ensures k <= r <= n
    ensures r < n ==> r !in used
    ensures forall i: nat :: k <= i < r ==> i in used
    decreases n - k
  {
    if k == n || k !in used then k else LeastAbsent(used, k + 1, n)
  }

  /** The slot swap_pageout writes to: the page's own, else the least free one. */
  ghost function SlotFor(s: Sys, slot: int): Option<int> {
    if slot != INVALID_SWAP then Some(slot)
    else
      var k := LeastAbsent(s.used, 0, |s.file|);
      if k == |s.file| then None else Some(k)
  }

  // ---------- the invariant ----------

  /** Coremap frames (except the pending one) and valid entries are inverse to each other. */
  ghost predicate Mapped(s: Sys, pending: Option<nat>) {
    && 0 < |s.core| == |s.mem|
    && (forall f :: 0 <= f < |s.core| && s.core[f].Some? && pending != Some(f) ==> Holds(s, s.core[f].value, f))
    && (forall p :: p in s.ptes && s.ptes[p].valid ==>
          s.ptes[p].frame < |s.core| && pending != Some(s.ptes[p].frame) && s.core[s.ptes[p].frame] == Some(p))
  }

  ghost predicate Holds(s: Sys, p: nat, f: nat) {
    p in s.ptes && s.ptes[p].valid && s.ptes[p].frame == f
  }

  /** Every page out of memory has a slot, no two pages share one, and the bitmap marks
      exactly the slots that pages own. */
  ghost predicate SlotsOk(s: Sys) {
    && s.used <= Below(|s.file|)
    && (forall p :: p in s.ptes ==> PteOk(s, p))
    && (forall p, q :: p in s.ptes && q in s.ptes && s.ptes[p].slot == s.ptes[q].slot != INVALID_SWAP ==> p == q)
    && (forall k :: k in s.used ==> Owned(s, k))
  }

  ghost predicate PteOk(s: Sys, p: nat)
    requires p in s.ptes
  {
    && p < NUM_PAGES && s.ptes[p].onswap
    && (s.ptes[p].slot == INVALID_SWAP ==> s.ptes[p].valid && s.ptes[p].dirty)
    && (s.ptes[p].slot != INVALID_SWAP ==> s.ptes[p].slot in s.used)
  }

  ghost predicate Owned(s: Sys, k: nat) {
    exists p :: p in s.ptes && s.ptes[p].slot == k
  }

  /** A clean page in memory equals its slot. */
  ghost predicate CleanOk(s: Sys)
    requires |s.core| == |s.mem| && SlotsOk(s)
  {
    forall p :: p in s.ptes && s.ptes[p].valid && !s.ptes[p].dirty && s.ptes[p].frame < |s.mem| ==>
      s.file[s.ptes[p].slot] == s.mem[s.ptes[p].frame]
  }

  ghost predicate Consistent(s: Sys, pending: Option<nat>) {
    Mapped(s, pending) && SlotsOk(s) && CleanOk(s)
  }

  lemma PteAt(s: Sys, p: nat)
    requires SlotsOk(s) && p in s.ptes
    ensures PteOk(s, p)
    ensures s.ptes[p].slot != INVALID_SWAP ==> 0 <= s.ptes[p].slot < |s.file|
  {}

  lemma HeldAt(s: Sys, f: nat)
    requires Mapped(s, None) && f < |s.core| && s.core[f].Some?
    ensures Holds(s, s.core[f].value, f)
  {}

  ghost predicate CountersOk(s: Sys, inFlight: nat) {
    && s.cnt.hits + s.cnt.misses == s.cnt.refs
    && s.cnt.misses + inFlight == s.cnt.clean + s.cnt.dirty + |Resident(s.core)|
  }

  ghost predicate Good(s: Sys) {
    && Consistent(s, None)
    && PolicyOk(s.pol, |s.core|, Resident(s.core))
    && CountersOk(s, 0)
  }

  lemma InitialIsGood(s: Sys, memsize: nat, swapsize: nat)
    requires Initial(s, memsize, swapsize) && memsize > 0
    ensures Good(s)
  {
    assert Resident(s.core) == {};
  }

  // ---------- one reference ----------

  /** allocate_frame when every frame is in use: the policy's victim goes out to swap. None is
      the simulator's exit when swap space has run out. */
  ghost function EvictFrame(s: Sys, page: nat, choice: nat): Option<(Sys, nat)>
    requires Good(s) && FirstFree(s.core) == |s.core|
  {
    match EvictVictim(s, choice)
    case None => None
    case Some((s1, frame)) => Some((s1.(core := s1.core[frame := Some(page)]), frame))
  }

  /** The policy picks its victim, the eviction is counted, and the victim leaves memory. */
  ghost function EvictVictim(s: Sys, choice: nat): (r: Option<(Sys, nat)>)
    requires Good(s) && FirstFree(s.core) == |s.core|
    ensures r.Some? ==> r.value.1 < |r.value.0.core|
  {
    assert Resident(s.core) == Below(|s.core|);
    var (frame, pol) := Evict(s.pol, |s.core|, choice);
    var victim := s.core[frame].value;
    var e := s.ptes[victim];
    match SlotFor(s, e.slot)
    case None => None
    case Some(slot) => Some((LeaveMemory(CountEviction(s.(pol := pol), e.dirty), frame, victim, slot), frame))
  }

  ghost function CountEviction(s: Sys, dirty: bool): Sys {
    s.(cnt := if dirty then s.cnt.(dirty := s.cnt.dirty + 1) else s.cnt.(clean := s.cnt.clean + 1))
  }

  /** The frame's page is written to `slot` and leaves memory... */
  ghost function LeaveMemory(s: Sys, frame: nat, victim: nat, slot: nat): Sys
    requires frame < |s.mem| && victim in s.ptes && slot < |s.file|
  {
    s.(ptes := s.ptes[victim := s.ptes[victim].(valid := false, dirty := false, slot := slot)],
       used := s.used + {slot},
       file := s.file[slot := s.mem[frame]])
  }

  /** ...and the frame is handed to `page`. */
  ghost function WriteBack(s: Sys, frame: nat, page: nat, slot: nat): Sys
    requires Mapped(s, None) && frame < |s.core| && s.core[frame].Some? && slot < |s.file|
  {
    LeaveMemory(s, frame, s.core[frame].value, slot).(core := s.core[frame := Some(page)])
  }

  ghost function AllocateFrame(s: Sys, page: nat, choice: nat): Option<(Sys, nat)>
    requires Good(s)
  {
    var free := FirstFree(s.core);
    if free < |s.core| then Some((s.(core := s.core[free := Some(page)]), free))
    else EvictFrame(s, page, choice)
  }

  /** What find_physpage leaves behind once the page sits in e.frame: valid and referenced,
      dirty if written, with the policy told. */
  ghost function Reference(s: Sys, page: nat, e: Pte, kind: char): Sys
    requires s.pol.Clock? ==> e.frame < |s.pol.bits|
  {
    s.(ptes := s.ptes[page := e.(valid := true, accessed := true, dirty := e.dirty || IsWrite(kind))],
       pol := Touch(s.pol, e.frame),
       cnt := s.cnt.(refs := s.cnt.refs + 1))
  }

  /** A page comes back from its slot: clean, and equal to the slot. */
  ghost function PageIn(s: Sys, frame: nat, slot: nat): Sys
    requires frame < |s.mem| && slot < |s.file|
  {
    s.(mem := s.mem[frame := s.file[slot]], cnt := s.cnt.(misses := s.cnt.misses + 1))
  }

  /** A first touch: the frame is zeroed and the address recorded. */
  ghost function InitFrame(s: Sys, frame: nat, vaddr: nat): Sys
    requires frame < |s.mem|
  {
    s.(mem := s.mem[frame := Page(0, vaddr)], cnt := s.cnt.(misses := s.cnt.misses + 1))
  }

  /** The miss half of find_physpage: the page gets a frame and its data; the new entry is
      still to be marked valid. */
  ghost function PlacePage(s: Sys, vaddr: nat, choice: nat): Option<(Sys, Pte)>
    requires Good(s) && PageOf(vaddr) < NUM_PAGES && !Table.Lookup(s.ptes, PageOf(vaddr)).valid
  {
    match AllocateFrame(s, PageOf(vaddr), choice)
    case None => None
    case Some((s1, frame)) =>
      AllocateKeeps(s, PageOf(vaddr), choice);
      var e := Table.Lookup(s.ptes, PageOf(vaddr));
      Some((if e.onswap then PageIn(s1, frame, e.slot) else InitFrame(s1, frame, vaddr),
            Pte(frame, false, !e.onswap, false, true, e.slot)))
  }

  ghost function FindPhyspage(s: Sys, r: Ref, choice: nat): Option<Sys>
    requires Good(s) && PageOf(r.vaddr) < NUM_PAGES
  {
    var page := PageOf(r.vaddr);
    var e := Table.Lookup(s.ptes, page);
    if e.valid then
      Some(Reference(s.(cnt := s.cnt.(hits := s.cnt.hits + 1)), page, e, r.kind))
    else
      match PlacePage(s, r.vaddr, choice)
      case None => None
      case Some((s1, e1)) =>
        AllocateKeeps(s, page, choice);
        Some(Reference(s1, page, e1, r.kind))
  }

  lemma FindHit(s: Sys, r: Ref, choice: nat)
    requires Good(s) && PageOf(r.vaddr) < NUM_PAGES && Table.Lookup(s.ptes, PageOf(r.vaddr)).valid
    ensures var e := Table.Lookup(s.ptes, PageOf(r.vaddr));
      && e.frame < |s.core| && (s.pol.Clock? ==> |s.pol.bits| == |s.core|)
      && FindPhyspage(s, r, choice) ==
         Some(Reference(s.(cnt := s.cnt.(hits := s.cnt.hits + 1)), PageOf(r.vaddr), e, r.kind))
  {}

  function Bump(p: Page): Page {
    p.(version := (p.version + 1) % VERSION_MODULUS)
  }

  ghost function FrameOf(s: Sys, page: nat): nat {
    Table.Lookup(s.ptes, page).frame
  }

  /** The write half of access_mem: the version counter is incremented in place. */
  ghost function WriteRef(s: Sys, r: Ref): Sys
    requires FrameOf(s, PageOf(r.vaddr)) < |s.mem|
  {
    var f := FrameOf(s, PageOf(r.vaddr));
    if IsWrite(r.kind) then s.(mem := s.mem[f := Bump(s.mem[f])]) else s
  }

  /** access_mem: find the page, then write to it. */
  ghost function AccessMem(s: Sys, r: Ref, choice: nat): Option<Sys>
    requires Good(s) && PageOf(r.vaddr) < NUM_PAGES
  {
    match FindPhyspage(s, r, choice)
    case None => None
    case Some(s1) =>
      FindPhyspageKeeps(s, r, choice);
      Some(WriteRef(s1, r))
  }

  // ---------- what a reference keeps ----------

  /** The data of a touched page, wherever it currently lives. */
  ghost function Data(s: Sys, p: nat): Page
    requires p in s.ptes && |s.core| == |s.mem| && SlotsOk(s)
    requires s.ptes[p].valid ==> s.ptes[p].frame < |s.mem|
  {
    if s.ptes[p].valid then s.mem[s.ptes[p].frame] else s.file[s.ptes[p].slot]
  }

  /** The state between allocate_frame and the update of the new page's entry. */
  ghost predicate InTransit(s: Sys, s1: Sys, page: nat, frame: nat)
    requires Good(s)
  {
    && frame < |s.core|
    && Consistent(s1, Some(frame))
    && |s1.core| == |s.core| && |s1.file| == |s.file|
    && s1.core[frame] == Some(page)
    && PolicyOk(s1.pol, |s1.core|, Resident(s1.core) - {frame})
    && CountersOk(s1, 1) && s1.cnt.misses == s.cnt.misses && s1.cnt.refs == s.cnt.refs
    && s1.ptes.Keys == s.ptes.Keys
    && Table.Lookup(s1.ptes, page) == Table.Lookup(s.ptes, page)
    && (forall p :: p in s.ptes ==> Data(s1, p) == Data(s, p))
  }

  lemma ClaimKeeps(s: Sys, f: nat, page: nat)
    requires Consistent(s, None) && f < |s.core| && s.core[f].None?
    ensures var s1 := s.(core := s.core[f := Some(page)]);
      Consistent(s1, Some(f)) && forall p :: p in s.ptes ==> Data(s1, p) == Data(s, p)
  {
    var s1 := s.(core := s.core[f := Some(page)]);
    forall k | k in s1.used ensures Owned(s1, k) { assert Owned(s, k); }
    forall p | p in s1.ptes ensures PteOk(s1, p) { assert PteOk(s, p); }
    forall g | 0 <= g < |s1.core| && s1.core[g].Some? && g != f ensures Holds(s1, s1.core[g].value, g) {
      assert Holds(s, s.core[g].value, g);
    }
  }

  lemma AllocateFreeKeeps(s: Sys, page: nat)
    requires Good(s) && FirstFree(s.core) < |s.core|
    ensures InTransit(s, s.(core := s.core[FirstFree(s.core) := Some(page)]), page, FirstFree(s.core))
  {
    hide PolicyOk, SlotsOk, CleanOk, Mapped;
    var f := FirstFree(s.core);
    ClaimKeeps(s, f, page);
    var s1 := s.(core := s.core[f := Some(page)]);
    assert Resident(s1.core) == Resident(s.core) + {f} && Resident(s1.core) - {f} == Resident(s.core);
  }

  /** The slot a victim is written to: its own, or one that no page owns. */
  ghost predicate SlotChosen(s: Sys, victim: nat, slot: nat)
    requires victim in s.ptes
  {
    slot < |s.file| && (s.ptes[victim].slot == slot || (s.ptes[victim].slot == INVALID_SWAP && slot !in s.used))
  }

  lemma WriteBackSlots(s: Sys, f: nat, page: nat, slot: nat)
    requires Consistent(s, None) && f < |s.core| && s.core[f].Some? && SlotChosen(s, s.core[f].value, slot)
    ensures SlotsOk(WriteBack(s, f, page, slot))
  {
    var s1, v := WriteBack(s, f, page, slot), s.core[f].value;
    assert Holds(s, v, f) && PteOk(s, v);
    forall k | k in s1.used ensures Owned(s1, k) {
      if k == slot {
        assert s1.ptes[v].slot == k;
      } else {
        assert Owned(s, k);
        var p :| p in s.ptes && s.ptes[p].slot == k;
        assert p in s1.ptes && s1.ptes[p].slot == k;
      }
    }
    forall p | p in s1.ptes ensures PteOk(s1, p) { assert PteOk(s, p); }
    forall p, q | p in s1.ptes && q in s1.ptes && s1.ptes[p].slot == s1.ptes[q].slot != INVALID_SWAP
      ensures p == q
    {
      assert PteOk(s, p) && PteOk(s, q);
    }
  }

  lemma WriteBackMapped(s: Sys, f: nat, page: nat, slot: nat)
    requires Consistent(s, None) && f < |s.core| && s.core[f].Some? && SlotChosen(s, s.core[f].value, slot)
    ensures Mapped(WriteBack(s, f, page, slot), Some(f))
  {
    var s1, v := WriteBack(s, f, page, slot), s.core[f].value;
    assert Holds(s, v, f);
    forall g | 0 <= g < |s1.core| && s1.core[g].Some? && g != f ensures Holds(s1, s1.core[g].value, g) {
      assert Holds(s, s.core[g].value, g);
    }
  }

  /** Writing a page back loses no data, and writing back a clean page changes no slot. */
  lemma WriteBackKeepsData(s: Sys, f: nat, page: nat, slot: nat)
    requires Consistent(s, None) && f < |s.core| && s.core[f].Some? && SlotChosen(s, s.core[f].value, slot)
    ensures var s1 := WriteBack(s, f, page, slot);
      Mapped(s1, Some(f)) && SlotsOk(s1) && CleanOk(s1) && forall p :: p in s.ptes ==> Data(s1, p) == Data(s, p)
    ensures !s.ptes[s.core[f].value].dirty ==> WriteBack(s, f, page, slot).file == s.file
  {
    WriteBackSlots(s, f, page, slot);
    WriteBackMapped(s, f, page, slot);
    var s1, v := WriteBack(s, f, page, slot), s.core[f].value;
    assert Holds(s, v, f) && PteOk(s, v);
    forall p | p in s.ptes
      ensures Data(s1, p) == Data(s, p)
      ensures p != v && s.ptes[p].slot != INVALID_SWAP ==> s.ptes[p].slot != slot
    {
      assert PteOk(s, p);
    }
  }

  lemma EvictShape(s: Sys, page: nat, choice: nat)
    requires Good(s) && FirstFree(s.core) == |s.core| && EvictFrame(s, page, choice).Some?
    ensures var (s1, f) := EvictFrame(s, page, choice).value;
      && f < |s.core| && s.core[f].Some? && Holds(s, s.core[f].value, f)
      && var v := s.core[f].value;
      && SlotFor(s, s.ptes[v].slot).Some? && SlotFor(s, s.ptes[v].slot).value >= 0
      && var slot: nat := SlotFor(s, s.ptes[v].slot).value;
      && SlotChosen(s, v, slot)
      && s1 == WriteBack(s, f, page, slot).(pol := s1.pol, cnt := s1.cnt)
      && Resident(s1.core) == Below(|s.core|)
      && PolicyOk(s1.pol, |s1.core|, Resident(s1.core) - {f})
      && CountersOk(s1, 1) && s1.cnt.misses == s.cnt.misses
  {
    hide Mapped, SlotsOk, CleanOk, Evict;
    var (s1, f) := EvictFrame(s, page, choice).value;
    assert Resident(s.core) == Below(|s.core|) == Resident(s1.core);
    HeldAt(s, f);
    PteAt(s, s.core[f].value);
  }

  lemma EvictKeeps(s: Sys, page: nat, choice: nat)
    requires Good(s) && !Table.Lookup(s.ptes, page).valid
    requires FirstFree(s.core) == |s.core| && EvictFrame(s, page, choice).Some?
    ensures var (s1, f) := EvictFrame(s, page, choice).value; InTransit(s, s1, page, f)
  {
    hide PolicyOk, CountersOk, SlotsOk, CleanOk, Mapped, Evict;
    EvictShape(s, page, choice);
    var (s1, f) := EvictFrame(s, page, choice).value;
    var v := s.core[f].value;
    var slot: nat := SlotFor(s, s.ptes[v].slot).value;
    WriteBackKeepsData(s, f, page, slot);
    SameTables(WriteBack(s, f, page, slot), s1, Some(f));
  }

  /** Policy state and counters play no part in consistency. */
  lemma SameTables(s: Sys, s1: Sys, pending: Option<nat>)
    requires s1 == s.(pol := s1.pol, cnt := s1.cnt)
    requires Consistent(s, pending)
    ensures Consistent(s1, pending)
    ensures forall p :: p in s.ptes ==> Data(s1, p) == Data(s, p)
  {
    forall f | 0 <= f < |s1.core| && s1.core[f].Some? && pending != Some(f) ensures Holds(s1, s1.core[f].value, f) {
      assert Holds(s, s.core[f].value, f);
    }
    forall p | p in s1.ptes ensures PteOk(s1, p) { assert PteOk(s, p); }
    forall k | k in s1.used ensures Owned(s1, k) { assert Owned(s, k); }
  }

  lemma AllocateKeeps(s: Sys, page: nat, choice: nat)
    requires Good(s) && !Table.Lookup(s.ptes, page).valid
    requires AllocateFrame(s, page, choice).Some?
    ensures var (s1, f) := AllocateFrame(s, page, choice).value; InTransit(s, s1, page, f)
    ensures var e := Table.Lookup(s.ptes, page); e.onswap ==> 0 <= e.slot < |s.file|
  {
    if FirstFree(s.core) < |s.core| {
      AllocateFreeKeeps(s, page);
    } else {
      EvictKeeps(s, page, choice);
    }
    if page in s.ptes {
      assert PteOk(s, page);
    }
  }

  lemma TouchKeepsPolicy(pol: Policy, memsize: nat, resident: set<nat>, f: nat)
    requires f < memsize && (PolicyOk(pol, memsize, resident) || PolicyOk(pol, memsize, resident - {f}))
    requires f in resident
    ensures PolicyOk(Touch(pol, f), memsize, resident)
  {
    if pol.Lru? {
      WithoutNoDup(pol.queue, f);
      var queue := Without(pol.queue, f) + [f];
      forall x ensures x in queue <==> x in resident {
        assert x in pol.queue <==> x in Elements(pol.queue);
      }
    }
  }

  /** The pending frame receives its data and its page becomes valid there. */
  ghost predicate Placed(s1: Sys, s2: Sys, page: nat, f: nat, e: Pte, data: Page)
    requires f < |s1.mem|
  {
    && s2 == s1.(ptes := s1.ptes[page := e], mem := s1.mem[f := data], pol := s2.pol, cnt := s2.cnt)
    && e.valid && e.frame == f && e.onswap
    && e.slot == Table.Lookup(s1.ptes, page).slot
    && (!e.dirty ==> 0 <= e.slot < |s1.file| && s1.file[e.slot] == data)
  }

  lemma PlaceMapped(s1: Sys, s2: Sys, page: nat, f: nat, e: Pte, data: Page)
    requires Consistent(s1, Some(f)) && f < |s1.core| && s1.core[f] == Some(page)
    requires !Table.Lookup(s1.ptes, page).valid && Placed(s1, s2, page, f, e, data)
    ensures Mapped(s2, None)
  {
    hide SlotsOk, CleanOk;
    forall g | 0 <= g < |s2.core| && s2.core[g].Some? ensures Holds(s2, s2.core[g].value, g) {
      if g != f { assert Holds(s1, s1.core[g].value, g); }
    }
  }

  lemma PlaceSlots(s1: Sys, s2: Sys, page: nat, f: nat, e: Pte, data: Page)
    requires Consistent(s1, Some(f)) && f < |s1.core| && s1.core[f] == Some(page)
    requires page < NUM_PAGES && Placed(s1, s2, page, f, e, data)
    ensures SlotsOk(s2)
  {
    hide CleanOk;
    if page in s1.ptes { assert PteOk(s1, page); }
    forall p | p in s2.ptes ensures PteOk(s2, p) {
      if p in s1.ptes { assert PteOk(s1, p); }
    }
    forall k | k in s2.used ensures Owned(s2, k) {
      assert Owned(s1, k);
      var p :| p in s1.ptes && s1.ptes[p].slot == k;
      assert p in s2.ptes && s2.ptes[p].slot == k;
    }
  }

  lemma PlaceKeeps(s1: Sys, s2: Sys, page: nat, f: nat, e: Pte, data: Page)
    requires Consistent(s1, Some(f)) && f < |s1.core| && s1.core[f] == Some(page)
    requires page < NUM_PAGES && !Table.Lookup(s1.ptes, page).valid
    requires Placed(s1, s2, page, f, e, data)
    ensures Consistent(s2, None)
    ensures forall p :: p in s1.ptes && p != page ==> Data(s2, p) == Data(s1, p)
    ensures Data(s2, page) == data
  {
    hide SlotsOk;
    PlaceMapped(s1, s2, page, f, e, data);
    PlaceSlots(s1, s2, page, f, e, data);
    forall p | p in s1.ptes && p != page ensures Data(s2, p) == Data(s1, p) {
      PteAt(s1, p);
    }
  }

  /** Everything one find_physpage call promises: the invariant, the page valid (and dirty if it
      will be written), its data as before or fresh, and no other page's data changed. */
  ghost predicate Served(s: Sys, s1: Sys, r: Ref)
    requires Good(s)
  {
    var page := PageOf(r.vaddr);
    && Good(s1)
    && |s1.core| == |s.core| && |s1.file| == |s.file|
    && s1.ptes.Keys == s.ptes.Keys + {page}
    && s1.ptes[page].valid && (IsWrite(r.kind) ==> s1.ptes[page].dirty)
    && Data(s1, page) == (if page in s.ptes then Data(s, page) else Page(0, r.vaddr))
    && (forall p :: p in s.ptes && p != page ==> Data(s1, p) == Data(s, p))
    && s1.cnt.refs == s.cnt.refs + 1
    && s1.cnt.misses == s.cnt.misses + (if Table.Lookup(s.ptes, page).valid then 0 else 1)
  }

  /** Updating the status bits of a valid entry, never making it clean, moves no data. */
  lemma RefreshKeeps(s: Sys, s1: Sys, page: nat, e: Pte)
    requires Consistent(s, None) && page in s.ptes && s.ptes[page].valid
    requires e == s.ptes[page].(accessed := e.accessed, dirty := e.dirty) && (s.ptes[page].dirty ==> e.dirty)
    requires s1 == s.(ptes := s.ptes[page := e], pol := s1.pol, cnt := s1.cnt)
    ensures Consistent(s1, None)
    ensures forall p :: p in s.ptes ==> Data(s1, p) == Data(s, p)
  {
    forall f | 0 <= f < |s1.core| && s1.core[f].Some? ensures Holds(s1, s1.core[f].value, f) {
      assert Holds(s, s.core[f].value, f);
    }
    assert PteOk(s, page);
    forall p | p in s1.ptes ensures PteOk(s1, p) { assert PteOk(s, p); }
    forall k | k in s1.used ensures Owned(s1, k) {
      assert Owned(s, k);
      var p :| p in s.ptes && s.ptes[p].slot == k;
      assert p in s1.ptes && s1.ptes[p].slot == k;
    }
  }

  lemma HitServed(s: Sys, r: Ref, choice: nat)
    requires Good(s) && PageOf(r.vaddr) < NUM_PAGES && Table.Lookup(s.ptes, PageOf(r.vaddr)).valid
    ensures Served(s, FindPhyspage(s, r, choice).value, r)
  {
    hide PolicyOk, Touch, SlotsOk, CleanOk;
    var page := PageOf(r.vaddr);
    var s1 := FindPhyspage(s, r, choice).value;
    RefreshKeeps(s, s1, page, s1.ptes[page]);
    TouchKeepsPolicy(s.pol, |s.core|, Resident(s.core), s.ptes[page].frame);
    assert s1.ptes.Keys == s.ptes.Keys + {page};
  }

  lemma MissServed(s: Sys, r: Ref, choice: nat)
    requires Good(s) && PageOf(r.vaddr) < NUM_PAGES && !Table.Lookup(s.ptes, PageOf(r.vaddr)).valid
    requires AllocateFrame(s, PageOf(r.vaddr), choice).Some?
    ensures FindPhyspage(s, r, choice).Some? && Served(s, FindPhyspage(s, r, choice).value, r)
  {
    hide PolicyOk, Touch, AllocateFrame, SlotsOk, CleanOk;
    var page := PageOf(r.vaddr);
    var e0 := Table.Lookup(s.ptes, page);
    AllocateKeeps(s, page, choice);
    var (s1, f) := AllocateFrame(s, page, choice).value;
    var s2 := FindPhyspage(s, r, choice).value;
    var e := Pte(f, true, IsWrite(r.kind) || !e0.onswap, true, true, e0.slot);
    if page in s.ptes { PteAt(s, page); PteAt(s1, page); assert Data(s1, page) == Data(s, page); }
    var data := if e0.onswap then s1.file[e0.slot] else Page(0, r.vaddr);
    assert Placed(s1, s2, page, f, e, data);
    PlaceKeeps(s1, s2, page, f, e, data);
    assert f in Resident(s1.core);
    TouchKeepsPolicy(s1.pol, |s1.core|, Resident(s1.core), f);
    assert s2.ptes.Keys == s.ptes.Keys + {page};
    assert Resident(s2.core) == Resident(s1.core);
  }

  lemma FindPhyspageKeeps(s: Sys, r: Ref, choice: nat)
    requires Good(s) && PageOf(r.vaddr) < NUM_PAGES
    requires FindPhyspage(s, r, choice).Some?
    ensures Served(s, FindPhyspage(s, r, choice).value, r)
  {
    if Table.Lookup(s.ptes, PageOf(r.vaddr)).valid {
      HitServed(s, r, choice);
    } else {
      MissServed(s, r, choice);
    }
  }
}
