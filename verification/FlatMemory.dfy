/** Paging is invisible: whatever the frames, the swap space and the victims chosen, every
    reference finds the page that a flat memory without paging would hold. */
module FlatMemory {
  import opened Prelude
  import opened PageTable
  import opened Paging

  ghost predicate ValidTrace(t: seq<Ref>) {
    forall i :: 0 <= i < |t| ==> PageOf(t[i].vaddr) < NUM_PAGES
  }

  lemma WriteKeeps(s: Sys, s1: Sys, r: Ref)
    requires Good(s) && PageOf(r.vaddr) < NUM_PAGES && Served(s, s1, r)
    ensures Good(WriteRef(s1, r)) && Contents(WriteRef(s1, r)) == FlatStep(Contents(s), r)
  {
    hide SlotsOk, CleanOk, PolicyOk, CountersOk;
    var page := PageOf(r.vaddr);
    ServedContents(s, s1, r);
    if IsWrite(r.kind) {
      BumpKeeps(s1, page);
      var base := Data(s1, page);
      assert Contents(s)[page := base][page := Bump(base)] == Contents(s)[page := Bump(base)];
    }
  }

  lemma ServedContents(s: Sys, s1: Sys, r: Ref)
    requires Good(s) && PageOf(r.vaddr) < NUM_PAGES && Served(s, s1, r)
    ensures Contents(s1) == Contents(s)[PageOf(r.vaddr) := Data(s1, PageOf(r.vaddr))]
  {}

  lemma AccessKeeps(s: Sys, r: Ref, choice: nat)
    requires Good(s) && PageOf(r.vaddr) < NUM_PAGES && AccessMem(s, r, choice).Some?
    ensures var s2 := AccessMem(s, r, choice).value; Good(s2) && |s2.core| == |s.core| && |s2.file| == |s.file|
    ensures Contents(AccessMem(s, r, choice).value) == FlatStep(Contents(s), r)
  {
    FindPhyspageKeeps(s, r, choice);
    WriteKeeps(s, FindPhyspage(s, r, choice).value, r);
  }

  lemma BumpConsistent(s: Sys, page: nat)
    requires Consistent(s, None) && page in s.ptes && s.ptes[page].valid && s.ptes[page].dirty
    ensures var s2 := s.(mem := s.mem[s.ptes[page].frame := Bump(s.mem[s.ptes[page].frame])]);
      && Consistent(s2, None)
      && (forall p :: p in s.ptes && p != page ==> Data(s2, p) == Data(s, p))
      && Data(s2, page) == Bump(Data(s, page))
  {
    var f := s.ptes[page].frame;
    var s2 := s.(mem := s.mem[f := Bump(s.mem[f])]);
    forall g | 0 <= g < |s2.core| && s2.core[g].Some? ensures Holds(s2, s2.core[g].value, g) {
      assert Holds(s, s.core[g].value, g);
    }
    forall p | p in s2.ptes ensures PteOk(s2, p) { assert PteOk(s, p); }
    forall k | k in s2.used ensures Owned(s2, k) { assert Owned(s, k); }
  }

  /** Writing through a valid dirty entry changes that page's data and nothing else. */
  lemma BumpKeeps(s: Sys, page: nat)
    requires Good(s) && page in s.ptes && s.ptes[page].valid && s.ptes[page].dirty
    ensures var s2 := s.(mem := s.mem[s.ptes[page].frame := Bump(s.mem[s.ptes[page].frame])]);
      Good(s2) && Contents(s2) == Contents(s)[page := Bump(Data(s, page))]
  {
    hide PolicyOk, SlotsOk, CleanOk;
    BumpConsistent(s, page);
  }

  /** The run of the simulator over a trace; choices(i) is the free choice offered to step i.
      None is the exit for lack of swap space. */
  ghost function Run(s: Sys, t: seq<Ref>, choices: nat -> nat): (r: Option<Sys>)
    requires Good(s) && ValidTrace(t)
    ensures r.Some? ==> Good(r.value) && |r.value.core| == |s.core| && |r.value.file| == |s.file|
  {
    if t == [] then Some(s)
    else
      var n := |t| - 1;
      match Run(s, t[..n], choices)
      case None => None
      case Some(s1) =>
        var r := AccessMem(s1, t[n], choices(n));
        if r.Some? then AccessKeeps(s1, t[n], choices(n)); r else r
  }

  // ---------- flat memory ----------

  lemma RunLast(s: Sys, t: seq<Ref>, choices: nat -> nat)
    requires Good(s) && ValidTrace(t) && t != [] && Run(s, t, choices).Some?
    ensures var n := |t| - 1;
      && Run(s, t[..n], choices).Some?
      && AccessMem(Run(s, t[..n], choices).value, t[n], choices(n)) == Run(s, t, choices)
  {}

  /** The data of every touched page. */
  ghost function Contents(s: Sys): map<nat, Page>
    requires Good(s)
  {
    map p | p in s.ptes :: Data(s, p)
  }

  /** A memory with room for every page: the first touch records the address, a write counts. */
  function FlatStep(m: map<nat, Page>, r: Ref): map<nat, Page> {
    var page := PageOf(r.vaddr);
    var before := if page in m then m[page] else Page(0, r.vaddr);
    m[page := if IsWrite(r.kind) then Bump(before) else before]
  }

  function FlatRun(t: seq<Ref>): map<nat, Page> {
    if t == [] then map[] else FlatStep(FlatRun(t[..|t| - 1]), t[|t| - 1])
  }

  lemma {:induction false} RunRefinesFlat(s: Sys, t: seq<Ref>, choices: nat -> nat)
    requires Good(s) && s.ptes == map[] && ValidTrace(t) && Run(s, t, choices).Some?
    ensures Contents(Run(s, t, choices).value) == FlatRun(t)
  {
    if t == [] {
    } else {
      var n := |t| - 1;
      RunRefinesFlat(s, t[..n], choices);
      AccessKeeps(Run(s, t[..n], choices).value, t[n], choices(n));
    }
  }

  // ---------- what flat memory holds, read off the trace ----------

  function Touched(t: seq<Ref>): set<nat> {
    set r | r in t :: PageOf(r.vaddr)
  }

  /** The number of write references to page p. */
  function Writes(t: seq<Ref>, p: nat): nat {
    if t == [] then 0
    else (if PageOf(t[0].vaddr) == p && IsWrite(t[0].kind) then 1 else 0) + Writes(t[1..], p)
  }

  /** The address of the first reference to page p. */
  function FirstTouch(t: seq<Ref>, p: nat): nat
    requires p in Touched(t)
  {
    if PageOf(t[0].vaddr) == p then t[0].vaddr
    else
      assert Touched(t) == Touched([t[0]] + t[1..]) == {PageOf(t[0].vaddr)} + Touched(t[1..]);
      FirstTouch(t[1..], p)
  }

  lemma {:induction false} TouchedSnoc(t: seq<Ref>, r: Ref)
    ensures Touched(t + [r]) == Touched(t) + {PageOf(r.vaddr)}
  {}

  lemma {:induction false} WritesSnoc(t: seq<Ref>, r: Ref, p: nat)
    ensures Writes(t + [r], p) == Writes(t, p) + if PageOf(r.vaddr) == p && IsWrite(r.kind) then 1 else 0
  {
    if t == [] {
    } else {
      assert (t + [r])[1..] == t[1..] + [r];
      WritesSnoc(t[1..], r, p);
    }
  }

  lemma {:induction false} FirstTouchSnoc(t: seq<Ref>, r: Ref, p: nat)
    requires p in Touched(t + [r])
    ensures FirstTouch(t + [r], p) == if p in Touched(t) then FirstTouch(t, p) else r.vaddr
  {
    if t == [] || PageOf(t[0].vaddr) == p {
    } else {
      assert (t + [r])[1..] == t[1..] + [r];
      assert Touched(t) == Touched([t[0]] + t[1..]) == {PageOf(t[0].vaddr)} + Touched(t[1..]);
      TouchedSnoc(t[1..], r);
      TouchedSnoc(t, r);
      FirstTouchSnoc(t[1..], r, p);
    }
  }

  lemma {:induction false} FlatTouched(t: seq<Ref>)
    ensures FlatRun(t).Keys == Touched(t)
  {
    if t == [] {
    } else {
      assert t == t[..|t| - 1] + [t[|t| - 1]];
      FlatTouched(t[..|t| - 1]);
      TouchedSnoc(t[..|t| - 1], t[|t| - 1]);
    }
  }

  lemma FlatSnoc(t: seq<Ref>, r: Ref)
    ensures FlatRun(t + [r]) == FlatStep(FlatRun(t), r)
  {
    assert (t + [r])[..|t|] == t;
  }

  lemma BumpCounts(w: nat, vaddr: nat)
    ensures Bump(Page(w % VERSION_MODULUS, vaddr)) == Page((w + 1) % VERSION_MODULUS, vaddr)
  {}

  /** Flat memory holds each touched page with its first address and its number of writes. */
  lemma {:induction false} FlatMeaning(t: seq<Ref>, p: nat)
    requires p in Touched(t)
    ensures p in FlatRun(t) && FlatRun(t)[p] == Page(Writes(t, p) % VERSION_MODULUS, FirstTouch(t, p))
    decreases |t|
  {
    hide FlatRun, Writes, FirstTouch, Bump;
    var t0, r := t[..|t| - 1], t[|t| - 1];
    assert t == t0 + [r];
    FlatSnoc(t0, r);
    FlatTouched(t0);
    TouchedSnoc(t0, r);
    WritesSnoc(t0, r, p);
    FirstTouchSnoc(t0, r, p);
    if p in Touched(t0) {
      FlatMeaning(t0, p);
    } else {
      NoWrites(t0, p);
    }
    BumpCounts(Writes(t0, p), FirstTouch(t, p));
  }

  lemma {:induction false} NoWrites(t: seq<Ref>, p: nat)
    requires p !in Touched(t)
    ensures Writes(t, p) == 0
  {
    if t == [] {
    } else {
      assert PageOf(t[0].vaddr) in Touched(t);
      assert forall x :: x in t[1..] ==> x in t;
      NoWrites(t[1..], p);
    }
  }

  /** The main theorem. For every trace, memory size, policy and choice of victims: when
      find_physpage returns for the last reference, the page it returns holds the address of
      the page's first reference and the number of writes made before this reference. */
  lemma PagingIsInvisible(s: Sys, t: seq<Ref>, r: Ref, choices: nat -> nat)
    requires Good(s) && s.ptes == map[]
    requires ValidTrace(t + [r])
    requires ValidTrace(t) && Run(s, t, choices).Some? && PageOf(r.vaddr) < NUM_PAGES
    requires FindPhyspage(Run(s, t, choices).value, r, choices(|t|)).Some?
    ensures PageOf(r.vaddr) in Touched(t + [r])
    ensures var s1 := FindPhyspage(Run(s, t, choices).value, r, choices(|t|)).value;
      var p := PageOf(r.vaddr);
      && p in s1.ptes && s1.ptes[p].valid && s1.ptes[p].frame < |s1.mem|
      && s1.mem[s1.ptes[p].frame] == Page(Writes(t, p) % VERSION_MODULUS, FirstTouch(t + [r], p))
  {
    hide Run, FindPhyspage, PolicyOk, CountersOk, SlotsOk, CleanOk, FlatRun;
    var s0 := Run(s, t, choices).value;
    var p := PageOf(r.vaddr);
    RunRefinesFlat(s, t, choices);
    FlatTouched(t);
    FindPhyspageKeeps(s0, r, choices(|t|));
    TouchedSnoc(t, r);
    FirstTouchSnoc(t, r, p);
    assert s0.ptes.Keys == Contents(s0).Keys;
    if p !in s0.ptes {
      NoWrites(t, p);
    } else {
      FlatMeaning(t, p);
      assert Data(s0, p) == Contents(s0)[p];
    }
  }

  /** The address of a page's first reference does not depend on what follows. */
  lemma {:induction false} FirstTouchPrefix(t: seq<Ref>, n: nat, p: nat)
    requires n <= |t| && p in Touched(t[..n])
    ensures p in Touched(t) && FirstTouch(t, p) == FirstTouch(t[..n], p)
    decreases |t| - n
  {
    if n == |t| {
      assert t[..n] == t;
    } else {
      assert t[..n + 1] == t[..n] + [t[n]];
      TouchedSnoc(t[..n], t[n]);
      FirstTouchSnoc(t[..n], t[n], p);
      FirstTouchPrefix(t, n + 1, p);
    }
  }

  /** After step n of a run from empty memory the page referenced lies in its frame with the address
      of its first reference. */
  lemma StepShowsFirstTouch(s: Sys, t: seq<Ref>, n: nat, choices: nat -> nat)
    requires Good(s) && s.ptes == map[] && ValidTrace(t) && n < |t|
    requires Run(s, t[..n], choices).Some? && AccessMem(Run(s, t[..n], choices).value, t[n], choices(n)).Some?
    ensures var s1, p := AccessMem(Run(s, t[..n], choices).value, t[n], choices(n)).value, PageOf(t[n].vaddr);
      && p in Touched(t) && FrameOf(s1, p) < |s1.mem|
      && s1.mem[FrameOf(s1, p)].vaddr == FirstTouch(t, p)
  {
    hide Run, FindPhyspage, PolicyOk, CountersOk, SlotsOk, CleanOk, Good, Mapped, ValidTrace;
    ValidPrefix(t, n + 1);
    ValidPrefix(t, n);
    ValidAt(t, n);
    var p := PageOf(t[n].vaddr);
    assert t[..n + 1] == t[..n] + [t[n]];
    PagingIsInvisible(s, t[..n], t[n], choices);
    FirstTouchPrefix(t, n + 1, p);
  }

  lemma ValidPrefix(t: seq<Ref>, n: nat)
    requires ValidTrace(t) && n <= |t|
    ensures ValidTrace(t[..n])
  {}

  lemma ValidAt(t: seq<Ref>, n: nat)
    requires ValidTrace(t) && n < |t|
    ensures PageOf(t[n].vaddr) < NUM_PAGES
  {}

  // ---------- running out of swap space ----------

  /** The page the policy would evict when every frame is in use. */
  ghost function Victim(s: Sys, choice: nat): (v: nat)
    requires Good(s) && FirstFree(s.core) == |s.core|
    ensures v in s.ptes && PteOk(s, v)
  {
    assert Resident(s.core) == Below(|s.core|);
    var f := Evict(s.pol, |s.core|, choice).0;
    assert Holds(s, s.core[f].value, f) && PteOk(s, s.core[f].value);
    s.core[f].value
  }

  /** A policy that is free to choose can choose every page in memory. */
  lemma AnyVictimIsAny(s: Sys, f: nat)
    requires Good(s) && s.pol.AnyVictim? && FirstFree(s.core) == |s.core| && f < |s.core|
    ensures s.core[f].Some? && Victim(s, f) == s.core[f].value
  {
    hide Mapped, SlotsOk, CleanOk, CountersOk;
    ModUnique(f, |s.core|, 0, f);
  }

  /** The simulator exits exactly when the page is not in memory, no frame is free, and the
      victim owns no slot while every slot is taken. */
  lemma OutOfSwapExactly(s: Sys, r: Ref, choice: nat)
    requires Good(s) && PageOf(r.vaddr) < NUM_PAGES
    ensures AccessMem(s, r, choice).None? <==>
      && !Table.Lookup(s.ptes, PageOf(r.vaddr)).valid
      && FirstFree(s.core) == |s.core|
      && s.ptes[Victim(s, choice)].slot == INVALID_SWAP
      && s.used == Below(|s.file|)
  {
    assert AccessMem(s, r, choice).None? == FindPhyspage(s, r, choice).None?;
    if FirstFree(s.core) == |s.core| {
      assert Resident(s.core) == Below(|s.core|);
      var k := LeastAbsent(s.used, 0, |s.file|);
      assert k == |s.file| <==> s.used == Below(|s.file|);
    }
  }

  /** When it exits, more distinct pages have been touched than swap has slots. */
  lemma OutOfSwapNeedsPages(s: Sys, r: Ref, choice: nat)
    requires Good(s) && PageOf(r.vaddr) < NUM_PAGES && AccessMem(s, r, choice).None?
    ensures |s.ptes.Keys| > |s.file|
  {
    OutOfSwapExactly(s, r, choice);
    SlotsNeedPages(s, Victim(s, choice));
  }

  /** If a page owns no slot and all slots are taken, the other pages outnumber the slots. */
  lemma SlotsNeedPages(s: Sys, v: nat)
    requires SlotsOk(s) && v in s.ptes && s.ptes[v].slot == INVALID_SWAP && s.used == Below(|s.file|)
    ensures |s.ptes.Keys| > |s.file|
  {
    var others := s.ptes.Keys - {v};
    var slotOf := map p | p in s.ptes && s.ptes[p].slot >= 0 :: s.ptes[p].slot as nat;
    forall k: nat | k < |s.file| ensures Hits(others, slotOf, k) {
      assert Owned(s, k);
      var p :| p in s.ptes && s.ptes[p].slot == k;
      assert p in others && p in slotOf && slotOf[p] == k;
    }
    Onto(others, slotOf, |s.file|);
    assert s.ptes.Keys == others + {v};
  }

  /** A trace that touches no more pages than swap has slots always runs to its end. */
  lemma {:induction false} EnoughSwap(s: Sys, t: seq<Ref>, choices: nat -> nat)
    requires Good(s) && s.ptes == map[] && ValidTrace(t)
    requires |Touched(t)| <= |s.file|
    ensures Run(s, t, choices).Some?
  {
    if t == [] {
    } else {
      var n := |t| - 1;
      assert Touched(t[..n]) <= Touched(t) by { assert t == t[..n] + [t[n]]; TouchedSnoc(t[..n], t[n]); }
      SubsetSize(Touched(t[..n]), Touched(t));
      EnoughSwap(s, t[..n], choices);
      var s1 := Run(s, t[..n], choices).value;
      RunRefinesFlat(s, t[..n], choices);
      FlatTouched(t[..n]);
      assert s1.ptes.Keys == Contents(s1).Keys;
      if AccessMem(s1, t[n], choices(n)).None? {
        OutOfSwapNeedsPages(s1, t[n], choices(n));
      }
    }
  }

  // ---------- counters ----------

  /** Frames stay in use, and something is evicted only when none is free. */
  ghost predicate Fills(s: Sys, s1: Sys) {
    && |s1.core| == |s.core|
    && (forall f :: 0 <= f < |s.core| && s.core[f].Some? ==> s1.core[f].Some?)
    && (s1.cnt.clean + s1.cnt.dirty != s.cnt.clean + s.cnt.dirty ==> FirstFree(s.core) == |s.core|)
  }

  lemma AllocateFills(s: Sys, page: nat, choice: nat)
    requires Good(s) && !Table.Lookup(s.ptes, page).valid && AllocateFrame(s, page, choice).Some?
    ensures Fills(s, AllocateFrame(s, page, choice).value.0)
  {
    hide Mapped, SlotsOk, CleanOk, PolicyOk, CountersOk, Evict, Touch;
    AllocateKeeps(s, page, choice);
    if FirstFree(s.core) == |s.core| {
      EvictShape(s, page, choice);
    }
  }

  lemma PlacedFills(s: Sys, r: Ref, choice: nat)
    requires Good(s) && PageOf(r.vaddr) < NUM_PAGES && FindPhyspage(s, r, choice).Some?
    requires !Table.Lookup(s.ptes, PageOf(r.vaddr)).valid
    ensures AllocateFrame(s, PageOf(r.vaddr), choice).Some?
    ensures var s1, s2 := FindPhyspage(s, r, choice).value, AllocateFrame(s, PageOf(r.vaddr), choice).value.0;
      s1.core == s2.core && s1.cnt.clean == s2.cnt.clean && s1.cnt.dirty == s2.cnt.dirty
  {
    hide Good, Touch, AllocateFrame;
  }

  lemma AccessCore(s: Sys, r: Ref, choice: nat)
    requires Good(s) && PageOf(r.vaddr) < NUM_PAGES && AccessMem(s, r, choice).Some?
    ensures FindPhyspage(s, r, choice).Some?
    ensures AccessMem(s, r, choice).value.core == FindPhyspage(s, r, choice).value.core
    ensures AccessMem(s, r, choice).value.cnt == FindPhyspage(s, r, choice).value.cnt
  {
    hide Good, FindPhyspage;
  }

  /** A step evicts only when no frame is free, and never frees a frame. */
  lemma StepFillsFrames(s: Sys, r: Ref, choice: nat)
    requires Good(s) && PageOf(r.vaddr) < NUM_PAGES && AccessMem(s, r, choice).Some?
    ensures Fills(s, AccessMem(s, r, choice).value)
  {
    hide Good, FindPhyspage, AccessMem, AllocateFrame, Touch;
    AccessCore(s, r, choice);
    if Table.Lookup(s.ptes, PageOf(r.vaddr)).valid {
      FindHit(s, r, choice);
    } else {
      PlacedFills(s, r, choice);
      AllocateFills(s, PageOf(r.vaddr), choice);
    }
  }

  lemma {:induction false} EvictionsOnlyWhenFull(s: Sys, t: seq<Ref>, choices: nat -> nat)
    requires Good(s) && ValidTrace(t) && Run(s, t, choices).Some?
    requires s.cnt.clean + s.cnt.dirty > 0 ==> FirstFree(s.core) == |s.core|
    ensures var s1 := Run(s, t, choices).value; s1.cnt.clean + s1.cnt.dirty > 0 ==> FirstFree(s1.core) == |s1.core|
  {
    if t == [] {
    } else {
      var n := |t| - 1;
      EvictionsOnlyWhenFull(s, t[..n], choices);
      StepFillsFrames(Run(s, t[..n], choices).value, t[n], choices(n));
    }
  }

  /** In every run of every policy, references are hits or misses, and misses are clean
      evictions, dirty evictions, or fills of a free frame, of which there are at most memsize. */
  lemma CountersAgree(s: Sys, memsize: nat, swapsize: nat, t: seq<Ref>, choices: nat -> nat)
    requires Initial(s, memsize, swapsize) && memsize > 0 && Good(s)
    requires ValidTrace(t) && Run(s, t, choices).Some?
    ensures var c := Run(s, t, choices).value.cnt;
      && c.hits + c.misses == c.refs
      && c.misses == c.clean + c.dirty + if c.misses < memsize then c.misses else memsize
  {
    EvictionsOnlyWhenFull(s, t, choices);
    var s1 := Run(s, t, choices).value;
    BelowSize(memsize);
    SubsetSize(Resident(s1.core), Below(memsize));
    if FirstFree(s1.core) == memsize {
      assert Resident(s1.core) == Below(memsize);
    }
  }

  lemma {:induction false} ReferencesCounted(s: Sys, t: seq<Ref>, choices: nat -> nat)
    requires Good(s) && ValidTrace(t) && Run(s, t, choices).Some?
    ensures Run(s, t, choices).value.cnt.refs == s.cnt.refs + |t|
  {
    if t == [] {
    } else {
      var n := |t| - 1;
      ReferencesCounted(s, t[..n], choices);
      FindPhyspageKeeps(Run(s, t[..n], choices).value, t[n], choices(n));
    }
  }
}
