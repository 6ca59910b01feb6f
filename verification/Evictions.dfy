/** What an eviction costs: a victim counts as dirty exactly when it was first touched or written since
    it was last loaded, over whole runs of every policy. */
module Evictions {
  import opened Prelude
  import opened PageTable
  import opened Paging
  import opened FlatMemory
  import opened Replacement

  // ---------- one reference ----------

  /** A reference to page p evicts: p is absent and no frame is free. */
  ghost predicate Evicts(s: Sys, p: nat) {
    p !in Cached(s) && FirstFree(s.core) == |s.core|
  }

  /** The pages in memory whose entry is marked dirty. */
  ghost function DirtyPages(s: Sys): set<nat> {
    set p | p in s.ptes && s.ptes[p].valid && s.ptes[p].dirty
  }

  /** The page that leaves memory. */
  ghost function Gone(s: Sys, p: nat, choice: nat): set<nat>
    requires Good(s)
  {
    if Evicts(s, p) then {Victim(s, choice)} else {}
  }

  /** What a reference does to the dirty pages and to the two eviction counters. */
  ghost predicate Pays(s: Sys, s2: Sys, r: Ref, choice: nat)
    requires Good(s)
  {
    var p, gone := PageOf(r.vaddr), Gone(s, PageOf(r.vaddr), choice);
    && DirtyPages(s2) == DirtyPages(s) - gone + (if IsWrite(r.kind) || p !in s.ptes then {p} else {})
    && s2.cnt.dirty == s.cnt.dirty + |gone * DirtyPages(s)|
    && s2.cnt.clean == s.cnt.clean + |gone - DirtyPages(s)|
  }

  lemma EvictionPays(s: Sys, p: nat, choice: nat)
    requires Good(s) && FirstFree(s.core) == |s.core| && EvictFrame(s, p, choice).Some?
    ensures var s1, v := EvictFrame(s, p, choice).value.0, Victim(s, choice);
      && v in Cached(s) && v in s1.ptes && s1.ptes == s.ptes[v := s1.ptes[v]] && !s1.ptes[v].valid
      && s1.cnt.dirty == s.cnt.dirty + (if v in DirtyPages(s) then 1 else 0)
      && s1.cnt.clean == s.cnt.clean + (if v in DirtyPages(s) then 0 else 1)
  {
    hide SlotsOk, CleanOk, CountersOk, Evict;
    EvictShape(s, p, choice);
    HeldAt(s, EvictFrame(s, p, choice).value.1);
  }

  lemma VictimGone(s: Sys, p: nat, choice: nat)
    requires Good(s) && Evicts(s, p)
    ensures var v, gone := Victim(s, choice), Gone(s, p, choice);
      && |gone * DirtyPages(s)| == (if v in DirtyPages(s) then 1 else 0)
      && |gone - DirtyPages(s)| == (if v in DirtyPages(s) then 0 else 1)
  {
    hide Good, Victim;
    var v, gone := Victim(s, choice), Gone(s, p, choice);
    assert gone * DirtyPages(s) == if v in DirtyPages(s) then {v} else {};
    assert gone - DirtyPages(s) == if v in DirtyPages(s) then {} else {v};
  }

  lemma NobodyGone(s: Sys, p: nat, choice: nat)
    requires Good(s) && !Evicts(s, p)
    ensures Gone(s, p, choice) == {} && |Gone(s, p, choice) * DirtyPages(s)| == 0 && |Gone(s, p, choice) - DirtyPages(s)| == 0
  {
    hide Good;
    assert Gone(s, p, choice) * DirtyPages(s) == {} && Gone(s, p, choice) - DirtyPages(s) == {};
  }

  /** A page that has been touched has been on swap, or counts as such. */
  lemma TouchedIsOnSwap(s: Sys, p: nat)
    requires Good(s)
    ensures Table.Lookup(s.ptes, p).onswap <==> p in s.ptes
  {
    hide Mapped, CleanOk, PolicyOk;
    if p in s.ptes {
      PteAt(s, p);
    }
  }

  /** The entries after a page has been given a frame. */
  lemma AllocationPays(s: Sys, p: nat, choice: nat)
    requires Good(s) && p !in Cached(s) && AllocateFrame(s, p, choice).Some?
    ensures var s1 := AllocateFrame(s, p, choice).value.0;
      && DirtyPages(s1) == DirtyPages(s) - Gone(s, p, choice) && p !in DirtyPages(s1)
      && s1.cnt.dirty == s.cnt.dirty + |Gone(s, p, choice) * DirtyPages(s)|
      && s1.cnt.clean == s.cnt.clean + |Gone(s, p, choice) - DirtyPages(s)|
  {
    hide Good, EvictFrame, Victim;
    if Evicts(s, p) {
      EvictionPays(s, p, choice);
      VictimGone(s, p, choice);
    } else {
      NobodyGone(s, p, choice);
    }
  }

  /** The new page's entry is dirty on the first touch and on a write. */
  lemma PlacedPays(s: Sys, r: Ref, choice: nat)
    requires Good(s) && PageOf(r.vaddr) < NUM_PAGES && FindPhyspage(s, r, choice).Some? && PageOf(r.vaddr) !in Cached(s)
    ensures AllocateFrame(s, PageOf(r.vaddr), choice).Some?
    ensures var s1, s2, p := AllocateFrame(s, PageOf(r.vaddr), choice).value.0, FindPhyspage(s, r, choice).value, PageOf(r.vaddr);
      && p in s2.ptes && s2.ptes == s1.ptes[p := s2.ptes[p]] && s2.ptes[p].valid
      && (s2.ptes[p].dirty <==> IsWrite(r.kind) || !Table.Lookup(s.ptes, p).onswap)
      && s2.cnt.dirty == s1.cnt.dirty && s2.cnt.clean == s1.cnt.clean
  {
    hide Good, Touch, AllocateFrame;
  }

  lemma MissPays(s: Sys, r: Ref, choice: nat)
    requires Good(s) && PageOf(r.vaddr) < NUM_PAGES && FindPhyspage(s, r, choice).Some? && PageOf(r.vaddr) !in Cached(s)
    ensures Pays(s, FindPhyspage(s, r, choice).value, r, choice)
  {
    hide Good, FindPhyspage, AllocateFrame, Gone;
    PlacedPays(s, r, choice);
    AllocationPays(s, PageOf(r.vaddr), choice);
    TouchedIsOnSwap(s, PageOf(r.vaddr));
  }

  lemma HitPays(s: Sys, r: Ref, choice: nat)
    requires Good(s) && PageOf(r.vaddr) < NUM_PAGES && FindPhyspage(s, r, choice).Some? && PageOf(r.vaddr) in Cached(s)
    ensures Pays(s, FindPhyspage(s, r, choice).value, r, choice)
  {
    hide Good, FindPhyspage, Gone, Touch;
    CachedLookup(s, PageOf(r.vaddr));
    FindHit(s, r, choice);
    NobodyGone(s, PageOf(r.vaddr), choice);
  }

  lemma WriteRefPays(s: Sys, s1: Sys, r: Ref, choice: nat)
    requires Good(s) && Pays(s, s1, r, choice) && FrameOf(s1, PageOf(r.vaddr)) < |s1.mem|
    ensures Pays(s, WriteRef(s1, r), r, choice)
  {
    hide Good, Gone;
  }

  lemma ServedFits(s: Sys, s1: Sys, r: Ref)
    requires Good(s) && Served(s, s1, r)
    ensures FrameOf(s1, PageOf(r.vaddr)) < |s1.mem|
  {
    hide SlotsOk, CleanOk, PolicyOk, CountersOk;
  }

  lemma StepPays(s: Sys, r: Ref, choice: nat)
    requires Good(s) && PageOf(r.vaddr) < NUM_PAGES && AccessMem(s, r, choice).Some?
    ensures Pays(s, AccessMem(s, r, choice).value, r, choice)
  {
    hide Good, FindPhyspage, Pays, Served;
    FindPhyspageKeeps(s, r, choice);
    ServedFits(s, FindPhyspage(s, r, choice).value, r);
    if PageOf(r.vaddr) in Cached(s) {
      HitPays(s, r, choice);
    } else {
      MissPays(s, r, choice);
    }
    WriteRefPays(s, FindPhyspage(s, r, choice).value, r, choice);
  }

  // ---------- read off the trace ----------

  /** Page p is written at the i-th reference or later. */
  predicate WrittenFrom(t: seq<Ref>, i: nat, p: nat) {
    exists j :: i <= j < |t| && PageOf(t[j].vaddr) == p && IsWrite(t[j].kind)
  }

  /** Since page p was last loaded it was written, or that load was its first touch. */
  ghost predicate Changed(s: Sys, t: seq<Ref>, choices: nat -> nat, p: nat)
    requires Good(s) && ValidTrace(t) && Run(s, t, choices).Some?
  {
    var i := LastLoad(s, t, choices, p);
    i >= 0 && (p !in Touched(t[..i]) || WrittenFrom(t, i, p))
  }

  lemma WrittenSnoc(t: seq<Ref>, i: nat, p: nat)
    requires t != [] && i < |t|
    ensures var n := |t| - 1;
      WrittenFrom(t, i, p) <==> WrittenFrom(t[..n], i, p) || (PageOf(t[n].vaddr) == p && IsWrite(t[n].kind))
  {
    var n := |t| - 1;
    if j :| i <= j < |t[..n]| && PageOf(t[..n][j].vaddr) == p && IsWrite(t[..n][j].kind) {
      assert t[j] == t[..n][j];
    }
    if j :| i <= j < |t| && PageOf(t[j].vaddr) == p && IsWrite(t[j].kind) {
      assert j < n ==> t[..n][j] == t[j];
    }
  }

  /** A reference that does not load p leaves open only whether it writes p. */
  lemma ChangedLater(s: Sys, t: seq<Ref>, choices: nat -> nat, p: nat)
    requires Good(s) && ValidTrace(t) && t != [] && ValidTrace(t[..|t| - 1]) && Run(s, t, choices).Some? && Run(s, t[..|t| - 1], choices).Some?
    requires PageOf(t[|t| - 1].vaddr) != p || p in Cached(Run(s, t[..|t| - 1], choices).value)
    requires LastLoad(s, t[..|t| - 1], choices, p) >= 0
    ensures var n := |t| - 1;
      Changed(s, t, choices, p) <==> Changed(s, t[..n], choices, p) || (PageOf(t[n].vaddr) == p && IsWrite(t[n].kind))
  {
    hide Good, Run, Cached, ValidTrace, WrittenFrom;
    var n := |t| - 1;
    var i := LastLoad(s, t, choices, p);
    assert i == LastLoad(s, t[..n], choices, p);
    assert t[..n][..i] == t[..i];
    WrittenSnoc(t, i, p);
  }

  /** A reference that loads p. */
  lemma ChangedNow(s: Sys, t: seq<Ref>, choices: nat -> nat)
    requires Good(s) && ValidTrace(t) && t != [] && ValidTrace(t[..|t| - 1]) && Run(s, t, choices).Some? && Run(s, t[..|t| - 1], choices).Some?
    requires PageOf(t[|t| - 1].vaddr) !in Cached(Run(s, t[..|t| - 1], choices).value)
    ensures var n, p := |t| - 1, PageOf(t[|t| - 1].vaddr);
      && LastLoad(s, t, choices, p) == n
      && (Changed(s, t, choices, p) <==> p !in Touched(t[..n]) || IsWrite(t[n].kind))
  {
    hide Good, Run, Cached, ValidTrace;
    var n := |t| - 1;
    WrittenSnoc(t, n, PageOf(t[n].vaddr));
  }

  /** Every page in memory has been loaded, and is marked dirty exactly when it has changed. */
  ghost predicate Marked(s: Sys, t: seq<Ref>, choices: nat -> nat)
    requires Good(s) && ValidTrace(t) && Run(s, t, choices).Some?
  {
    var s1 := Run(s, t, choices).value;
    forall p :: p in Cached(s1) ==>
      LastLoad(s, t, choices, p) >= 0 && (p in DirtyPages(s1) <==> Changed(s, t, choices, p))
  }

  lemma MarkedStep(s: Sys, t: seq<Ref>, choices: nat -> nat, p: nat)
    requires Good(s) && s.ptes == map[] && ValidTrace(t) && t != [] && ValidTrace(t[..|t| - 1])
    requires Run(s, t, choices).Some? && Run(s, t[..|t| - 1], choices).Some? && Marked(s, t[..|t| - 1], choices)
    requires p in Cached(Run(s, t, choices).value)
    ensures LastLoad(s, t, choices, p) >= 0 && (p in DirtyPages(Run(s, t, choices).value) <==> Changed(s, t, choices, p))
  {
    hide Good, Cached, ValidTrace, Changed, AccessMem, Touched, DirtyPages, Evicts, Victim;
    var n := |t| - 1;
    var s1, s2, p0 := Run(s, t[..n], choices).value, Run(s, t, choices).value, PageOf(t[n].vaddr);
    ValidAt(t, n);
    StepPays(s1, t[n], choices(n));
    DemandPaging(s1, t[n], choices(n));
    TouchedAre(s, t[..n], choices);
    if p == p0 && p !in Cached(s1) {
      ChangedNow(s, t, choices);
      NotDirty(s1, p);
    } else {
      StaysIn(s1, t[n], choices(n), p);
      ChangedLater(s, t, choices, p);
      CachedTouched(s1, p);
    }
  }

  lemma CachedTouched(s: Sys, p: nat)
    requires p in Cached(s)
    ensures p in s.ptes
  {}

  lemma NotDirty(s: Sys, p: nat)
    requires p !in Cached(s)
    ensures p !in DirtyPages(s)
  {}

  /** The victim leaves memory, so a page that is in memory afterwards is not it. */
  lemma StaysIn(s: Sys, r: Ref, choice: nat, p: nat)
    requires Good(s) && PageOf(r.vaddr) < NUM_PAGES && AccessMem(s, r, choice).Some?
    requires p in Cached(AccessMem(s, r, choice).value) && (p != PageOf(r.vaddr) || p in Cached(s))
    ensures p in Cached(s) && p !in Gone(s, PageOf(r.vaddr), choice)
  {
    hide Good, FindPhyspage;
    DemandPaging(s, r, choice);
    if Evicts(s, PageOf(r.vaddr)) {
      VictimLeaves(s, r, choice);
    }
  }

  /** The page chosen by the policy is no longer in memory. */
  lemma VictimLeaves(s: Sys, r: Ref, choice: nat)
    requires Good(s) && PageOf(r.vaddr) < NUM_PAGES && AccessMem(s, r, choice).Some? && Evicts(s, PageOf(r.vaddr))
    ensures Victim(s, choice) in Cached(s) && Victim(s, choice) !in Cached(AccessMem(s, r, choice).value)
  {
    hide SlotsOk, CleanOk, CountersOk, PolicyOk, Evict, Victim, EvictFrame;
    FindPhyspageKeeps(s, r, choice);
    hide Good;
    PlacedPays(s, r, choice);
    EvictionPays(s, PageOf(r.vaddr), choice);
    hide FindPhyspage;
  }

  lemma TouchedAre(s: Sys, t: seq<Ref>, choices: nat -> nat)
    requires Good(s) && s.ptes == map[] && ValidTrace(t) && Run(s, t, choices).Some?
    ensures Run(s, t, choices).value.ptes.Keys == Touched(t)
  {
    hide Good, Run, Touched, FlatRun;
    RunRefinesFlat(s, t, choices);
    FlatTouched(t);
    assert Run(s, t, choices).value.ptes.Keys == Contents(Run(s, t, choices).value).Keys;
  }

  /** In every run from empty memory, under every policy, the pages marked dirty are those that were
      first touched or written since they were last loaded. */
  lemma {:induction false} DirtyIsChanged(s: Sys, t: seq<Ref>, choices: nat -> nat)
    requires Good(s) && s.ptes == map[] && ValidTrace(t) && Run(s, t, choices).Some?
    ensures Marked(s, t, choices)
  {
    hide Good, AccessMem, Changed, LastLoad;
    if t == [] {
    } else {
      var n := |t| - 1;
      DirtyIsChanged(s, t[..n], choices);
      forall p | p in Cached(Run(s, t, choices).value)
        ensures LastLoad(s, t, choices, p) >= 0 && (p in DirtyPages(Run(s, t, choices).value) <==> Changed(s, t, choices, p))
      {
        MarkedStep(s, t, choices, p);
      }
    }
  }

  // ---------- the two counters ----------

  /** The last reference evicts a page which has changed since it was loaded, or has not. */
  ghost predicate EvictsLast(s: Sys, t: seq<Ref>, choices: nat -> nat, changed: bool)
    requires Good(s) && ValidTrace(t) && t != [] && ValidTrace(t[..|t| - 1]) && Run(s, t[..|t| - 1], choices).Some?
  {
    var n := |t| - 1;
    var s1 := Run(s, t[..n], choices).value;
    Evicts(s1, PageOf(t[n].vaddr)) && Changed(s, t[..n], choices, Victim(s1, choices(n))) == changed
  }

  /** The run before the last reference. */
  lemma RunsBefore(s: Sys, t: seq<Ref>, choices: nat -> nat)
    requires Good(s) && ValidTrace(t) && t != [] && Run(s, t, choices).Some?
    ensures ValidTrace(t[..|t| - 1]) && Run(s, t[..|t| - 1], choices).Some?
  {
    hide Good, AccessMem;
  }

  /** The references that do so. */
  ghost function Evicting(s: Sys, t: seq<Ref>, choices: nat -> nat, changed: bool): (e: set<int>)
    requires Good(s) && ValidTrace(t) && Run(s, t, choices).Some?
    decreases |t|
  {
    hide Good, Run, EvictsLast, ValidTrace;
    if t == [] then {}
    else
      RunsBefore(s, t, choices);
      var before := Evicting(s, t[..|t| - 1], choices, changed);
      if EvictsLast(s, t, choices, changed) then before + {|t| - 1} else before
  }

  lemma {:induction false} EvictingBelow(s: Sys, t: seq<Ref>, choices: nat -> nat, changed: bool)
    requires Good(s) && ValidTrace(t) && Run(s, t, choices).Some?
    ensures forall i :: i in Evicting(s, t, choices, changed) ==> 0 <= i < |t|
    decreases |t|
  {
    hide Good, Run, EvictsLast, ValidTrace;
    if t == [] {
    } else {
      RunsBefore(s, t, choices);
      EvictingBelow(s, t[..|t| - 1], choices, changed);
    }
  }

  lemma OneMore(e: set<int>, n: nat)
    requires forall i :: i in e ==> 0 <= i < n
    ensures |e + {n}| == |e| + 1
  {}

  lemma VictimIsIn(s: Sys, choice: nat)
    requires Good(s) && FirstFree(s.core) == |s.core|
    ensures Victim(s, choice) in Cached(s)
  {
    hide SlotsOk, CleanOk, CountersOk, PolicyOk, Evict;
    var f := EvictNow(s, choice).0;
    HeldAt(s, f);
  }

  lemma VictimChanged(s: Sys, t: seq<Ref>, choices: nat -> nat, choice: nat)
    requires Good(s) && s.ptes == map[] && ValidTrace(t) && Run(s, t, choices).Some?
    requires FirstFree(Run(s, t, choices).value.core) == |Run(s, t, choices).value.core|
    ensures var s1 := Run(s, t, choices).value;
      && Victim(s1, choice) in Cached(s1)
      && (Victim(s1, choice) in DirtyPages(s1) <==> Changed(s, t, choices, Victim(s1, choice)))
  {
    hide Good, Run, Victim, Changed, LastLoad, DirtyPages, Cached;
    DirtyIsChanged(s, t, choices);
    VictimIsIn(Run(s, t, choices).value, choice);
  }

  /** In every run of every policy the dirty evictions counted are the references that evict a page
      first touched or written since it was loaded, and the clean ones those that evict any other. */
  lemma {:induction false} CountersAreEvictions(s: Sys, t: seq<Ref>, choices: nat -> nat)
    requires Good(s) && s.ptes == map[] && ValidTrace(t) && Run(s, t, choices).Some?
    ensures var c := Run(s, t, choices).value.cnt;
      && c.dirty == s.cnt.dirty + |Evicting(s, t, choices, true)|
      && c.clean == s.cnt.clean + |Evicting(s, t, choices, false)|
  {
    hide Good, AccessMem, Changed, LastLoad, Evicts, Victim, DirtyPages;
    if t == [] {
    } else {
      var n := |t| - 1;
      CountersAreEvictions(s, t[..n], choices);
      var s1 := Run(s, t[..n], choices).value;
      StepPays(s1, t[n], choices(n));
      EvictingBelow(s, t[..n], choices, true);
      EvictingBelow(s, t[..n], choices, false);
      OneMore(Evicting(s, t[..n], choices, true), n);
      OneMore(Evicting(s, t[..n], choices, false), n);
      EvictedIsCounted(s, t, choices);
    }
  }

  /** The last reference of a trace counts its eviction on the right side. */
  lemma EvictedIsCounted(s: Sys, t: seq<Ref>, choices: nat -> nat)
    requires Good(s) && s.ptes == map[] && ValidTrace(t) && t != [] && ValidTrace(t[..|t| - 1]) && Run(s, t[..|t| - 1], choices).Some?
    ensures var n := |t| - 1;
      var s1 := Run(s, t[..n], choices).value;
      var p := PageOf(t[n].vaddr);
      var gone, changed := Gone(s1, p, choices(n)), Evicts(s1, p) && Changed(s, t[..n], choices, Victim(s1, choices(n)));
      && |gone * DirtyPages(s1)| == (if Evicts(s1, p) && changed then 1 else 0)
      && |gone - DirtyPages(s1)| == (if Evicts(s1, p) && !changed then 1 else 0)
  {
    hide Good, Run, Changed, Victim, DirtyPages, Gone;
    var n := |t| - 1;
    var s1, p := Run(s, t[..n], choices).value, PageOf(t[n].vaddr);
    if Evicts(s1, p) {
      VictimGone(s1, p, choices(n));
      VictimChanged(s, t[..n], choices, choices(n));
    } else {
      NobodyGone(s1, p, choices(n));
    }
  }

  /** A victim that has not changed since it was loaded equals its slot, so writing it out again
      changes nothing. */
  lemma UnchangedEqualsSlot(s: Sys, t: seq<Ref>, choices: nat -> nat, choice: nat)
    requires Good(s) && s.ptes == map[] && ValidTrace(t) && Run(s, t, choices).Some?
    requires FirstFree(Run(s, t, choices).value.core) == |Run(s, t, choices).value.core|
    requires !Changed(s, t, choices, Victim(Run(s, t, choices).value, choice))
    ensures var s1 := Run(s, t, choices).value;
      var v := Victim(s1, choice);
      && v in s1.ptes && 0 <= s1.ptes[v].slot < |s1.file| && s1.ptes[v].frame < |s1.mem|
      && s1.file[s1.ptes[v].slot] == s1.mem[s1.ptes[v].frame]
  {
    hide Run, Victim, Changed, PolicyOk, CountersOk;
    VictimChanged(s, t, choices, choice);
    var s1 := Run(s, t, choices).value;
    PteAt(s1, Victim(s1, choice));
  }

  // ---------- a bound ----------

  /** The number of write references. */
  function AllWrites(t: seq<Ref>): nat {
    if t == [] then 0 else AllWrites(t[..|t| - 1]) + if IsWrite(t[|t| - 1].kind) then 1 else 0
  }

  lemma LessGone(d: set<nat>, gone: set<nat>, more: set<nat>)
    ensures |gone * d| + |d - gone + more| <= |d| + |more|
  {
    assert d == (d - gone) + gone * d;
    assert |d| == |d - gone| + |gone * d|;
    assert |d - gone + more| == |d - gone| + |more| - |(d - gone) * more|;
  }

  lemma StepIsPaidFor(s: Sys, s2: Sys, r: Ref, choice: nat, touched: set<nat>)
    requires Good(s) && Pays(s, s2, r, choice) && touched == s.ptes.Keys
    ensures s2.cnt.dirty + |DirtyPages(s2)| + |touched| <=
            s.cnt.dirty + |DirtyPages(s)| + |touched + {PageOf(r.vaddr)}| + if IsWrite(r.kind) then 1 else 0
  {
    hide Good, Gone, DirtyPages;
    var p := PageOf(r.vaddr);
    var more := if IsWrite(r.kind) || p !in s.ptes then {p} else {};
    LessGone(DirtyPages(s), Gone(s, p, choice), more);
    if p in touched {
      assert touched + {p} == touched;
    } else {
      assert |touched + {p}| == |touched| + 1;
    }
  }

  /** Each dirty eviction, and each dirty page still in memory, is paid for by a first touch or by a
      write. */
  lemma {:induction false} DirtyIsPaidFor(s: Sys, t: seq<Ref>, choices: nat -> nat)
    requires Good(s) && s.ptes == map[] && ValidTrace(t) && Run(s, t, choices).Some?
    ensures var s1 := Run(s, t, choices).value; s1.cnt.dirty + |DirtyPages(s1)| <= s.cnt.dirty + |Touched(t)| + AllWrites(t)
  {
    hide Good, AccessMem, Pays, Touched, DirtyPages;
    if t == [] {
      NothingDirty(s);
    } else {
      var n := |t| - 1;
      DirtyIsPaidFor(s, t[..n], choices);
      var s1 := Run(s, t[..n], choices).value;
      StepPays(s1, t[n], choices(n));
      TouchedAre(s, t[..n], choices);
      TouchedSnoc(t[..n], t[n]);
      assert t == t[..n] + [t[n]];
      StepIsPaidFor(s1, Run(s, t, choices).value, t[n], choices(n), Touched(t[..n]));
    }
  }

  lemma NothingDirty(s: Sys)
    requires s.ptes == map[]
    ensures |DirtyPages(s)| == 0
  {
    assert DirtyPages(s) == {};
  }
}
