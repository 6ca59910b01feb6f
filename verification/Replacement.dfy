/** Whole runs of the simulator under LRU, FIFO and arbitrary policies. */
module Replacement {
  import opened Prelude
  import opened PageTable
  import opened Paging
  import opened FlatMemory
  import opened Queues

  function PagesOf(t: seq<Ref>): (ps: seq<nat>)
    ensures |ps| == |t|
  {
    seq(|t|, i requires 0 <= i < |t| => PageOf(t[i].vaddr))
  }

  /** The pages in memory. */
  ghost function Cached(s: Sys): set<nat> {
    set p | p in s.ptes && s.ptes[p].valid
  }

  /** The frame an eviction would free, and the policy state it leaves. */
  ghost function EvictNow(s: Sys, choice: nat): (r: (nat, Policy))
    requires Good(s) && FirstFree(s.core) == |s.core|
    ensures r.0 < |s.core|
  {
    assert Resident(s.core) == Below(|s.core|);
    Evict(s.pol, |s.core|, choice)
  }

  /** The frame that a reference to an absent page is placed in. */
  ghost function PlacedIn(s: Sys, choice: nat): (f: nat)
    requires Good(s)
    ensures f < |s.core|
  {
    if FirstFree(s.core) < |s.core| then FirstFree(s.core) else EvictNow(s, choice).0
  }

  ghost function PolicyBefore(s: Sys, choice: nat): Policy
    requires Good(s)
  {
    if FirstFree(s.core) < |s.core| then s.pol else EvictNow(s, choice).1
  }

  /** What one reference does to the coremap, the policy and the counters. */
  ghost predicate Shape(s: Sys, s2: Sys, p: nat, choice: nat)
    requires Good(s)
  {
    var e := Table.Lookup(s.ptes, p);
    var f := if e.valid then e.frame else PlacedIn(s, choice);
    && f < |s.core| == |s2.core|
    && s2.core == (if e.valid then s.core else s.core[f := Some(p)])
    && (s.pol.Lru? ==> PolicyBefore(s, choice).Lru?)
    && (e.valid && s.pol.Lru? ==> s2.pol == Lru(Without(s.pol.queue, f) + [f]))
    && (!e.valid && s.pol.Lru? ==> s2.pol == Lru(Without(PolicyBefore(s, choice).queue, f) + [f]))
    && (s.pol.Fifo? ==> s2.pol == if e.valid then s.pol else PolicyBefore(s, choice))
    && s2.cnt.misses == s.cnt.misses + (if e.valid then 0 else 1)
    && s2.cnt.hits == s.cnt.hits + (if e.valid then 1 else 0)
  }

  lemma AllocateShape(s: Sys, p: nat, choice: nat)
    requires Good(s) && AllocateFrame(s, p, choice).Some?
    ensures var (s1, f) := AllocateFrame(s, p, choice).value;
      && f == PlacedIn(s, choice) && s1.core == s.core[f := Some(p)] && s1.pol == PolicyBefore(s, choice)
      && s1.cnt.misses == s.cnt.misses && s1.cnt.hits == s.cnt.hits
  {
    hide SlotsOk, CleanOk, PolicyOk, Mapped;
  }

  lemma EvictKeepsKind(s: Sys, choice: nat)
    requires Good(s)
    ensures s.pol.Lru? ==> PolicyBefore(s, choice).Lru?
    ensures s.pol.Fifo? ==> PolicyBefore(s, choice).Fifo?
  {
    hide Mapped, SlotsOk, CleanOk;
  }

  lemma MissShape(s: Sys, r: Ref, choice: nat)
    requires Good(s) && PageOf(r.vaddr) < NUM_PAGES && FindPhyspage(s, r, choice).Some?
    requires !Table.Lookup(s.ptes, PageOf(r.vaddr)).valid
    ensures Shape(s, FindPhyspage(s, r, choice).value, PageOf(r.vaddr), choice)
  {
    AllocateShape(s, PageOf(r.vaddr), choice);
    AllocateKeeps(s, PageOf(r.vaddr), choice);
    EvictKeepsKind(s, choice);
    hide Good, AllocateFrame, PlacedIn, PolicyBefore;
  }

  lemma StepShape(s: Sys, r: Ref, choice: nat)
    requires Good(s) && PageOf(r.vaddr) < NUM_PAGES && AccessMem(s, r, choice).Some?
    ensures Shape(s, AccessMem(s, r, choice).value, PageOf(r.vaddr), choice)
  {
    FindPhyspageKeeps(s, r, choice);
    var s1, s2 := FindPhyspage(s, r, choice).value, AccessMem(s, r, choice).value;
    assert s2.core == s1.core && s2.pol == s1.pol && s2.cnt == s1.cnt;
    hide AccessMem;
    EvictKeepsKind(s, choice);
    if Table.Lookup(s.ptes, PageOf(r.vaddr)).valid {
      FindHit(s, r, choice);
      hide FindPhyspage;
    } else {
      MissShape(s, r, choice);
      hide FindPhyspage;
    }
  }

  /** In a good state the pages in memory are those named in the coremap. */
  lemma CachedInCore(s: Sys, p: nat)
    requires Good(s)
    ensures p in Cached(s) <==> exists f :: 0 <= f < |s.core| && s.core[f] == Some(p)
  {
    if f :| 0 <= f < |s.core| && s.core[f] == Some(p) {
      assert Holds(s, p, f);
    }
    if p in Cached(s) {
      assert s.core[s.ptes[p].frame] == Some(p);
    }
  }

  lemma CachedLookup(s: Sys, p: nat)
    ensures p in Cached(s) <==> Table.Lookup(s.ptes, p).valid
  {}

  lemma CachedFits(s: Sys)
    requires Good(s)
    ensures |Cached(s)| <= |s.core|
  {
    var frameOf := map p | p in s.ptes && s.ptes[p].valid :: s.ptes[p].frame;
    Into(Cached(s), frameOf, |s.core|);
  }

  /** Demand paging, for any policy: a hit changes nothing in memory; a miss brings in the one
      page referenced and may send others out. */
  lemma DemandPaging(s: Sys, r: Ref, choice: nat)
    requires Good(s) && PageOf(r.vaddr) < NUM_PAGES && AccessMem(s, r, choice).Some?
    ensures var s2, p := AccessMem(s, r, choice).value, PageOf(r.vaddr);
      && p in Cached(s2) && Cached(s2) <= Cached(s) + {p}
      && s2.cnt.misses == s.cnt.misses + (if p in Cached(s) then 0 else 1)
      && s2.cnt.hits == s.cnt.hits + (if p in Cached(s) then 1 else 0)
      && (p in Cached(s) ==> Cached(s2) == Cached(s))
  {
    hide AccessMem, Good, PlacedIn, PolicyBefore, Cached;
    AccessKeeps(s, r, choice);
    StepShape(s, r, choice);
    CachedLookup(s, PageOf(r.vaddr));
    var s2, p := AccessMem(s, r, choice).value, PageOf(r.vaddr);
    forall x ensures x in Cached(s2) ==> x in Cached(s) + {p} {
      CachedInCore(s, x);
      CachedInCore(s2, x);
    }
    forall x ensures p in Cached(s) && x in Cached(s) ==> x in Cached(s2) {
      CachedInCore(s, x);
      CachedInCore(s2, x);
    }
    CachedInCore(s2, p);
    if p !in Cached(s) {
      assert s2.core[PlacedIn(s, choice)] == Some(p);
    }
  }

  // ---------- the policies as queues of pages ----------

  ghost function Occupant(core: seq<Option<nat>>, f: nat): nat {
    if f < |core| && core[f].Some? then core[f].value else 0
  }

  ghost function Occupants(core: seq<Option<nat>>, fs: seq<nat>): (r: seq<nat>)
    ensures |r| == |fs| && forall i :: 0 <= i < |fs| ==> r[i] == Occupant(core, fs[i])
  {
    if fs == [] then [] else [Occupant(core, fs[0])] + Occupants(core, fs[1..])
  }

  /** Under FIFO frames fill in order, and afterwards the head is the number of misses so far
      modulo memsize. */
  ghost predicate FifoInv(s: Sys) {
    && s.pol.Fifo? && |s.core| > 0
    && (forall f :: 0 <= f < |s.core| ==> (s.core[f].Some? <==> f < s.cnt.misses))
    && s.pol.head == if s.cnt.misses < |s.core| then 0 else s.cnt.misses % |s.core|
  }

  /** The frames 0, 1, ..., n-1. */
  function Upto(n: nat): (r: seq<nat>)
    ensures |r| == n && forall i :: 0 <= i < n ==> r[i] == i
  {
    seq(n, i => i)
  }

  /** The frames in the order in which the policy would evict them. */
  ghost function EvictionOrder(s: Sys): seq<nat> {
    match s.pol
    case Lru(queue) => queue
    case Fifo(head) =>
      if s.cnt.misses < |s.core| then Upto(s.cnt.misses)
      else if head <= |s.core| then Upto(|s.core|)[head..] + Upto(|s.core|)[..head] else []
    case _ => []
  }

  /** The pages in memory, next victim first. */
  ghost function PageQueue(s: Sys): seq<nat> {
    Occupants(s.core, EvictionOrder(s))
  }

  ghost predicate Queued(s: Sys, kind: Kind) {
    && Good(s)
    && (kind.LruKind? ==> s.pol.Lru?)
    && (kind.FifoKind? ==> FifoInv(s))
  }

  lemma {:induction false} OccupantsConcat(core: seq<Option<nat>>, a: seq<nat>, b: seq<nat>)
    ensures Occupants(core, a + b) == Occupants(core, a) + Occupants(core, b)
  {}

  /** Updating a frame that is not listed changes no listed occupant. */
  lemma OccupantsElsewhere(core: seq<Option<nat>>, fs: seq<nat>, f: nat, p: nat)
    requires f < |core| && f !in fs
    ensures Occupants(core[f := Some(p)], fs) == Occupants(core, fs)
  {}

  /** Removing the frame that holds p removes p. */
  lemma {:induction false} OccupantsWithout(core: seq<Option<nat>>, fs: seq<nat>, f: nat, p: nat)
    requires forall x :: x in fs ==> (Occupant(core, x) == p <==> x == f)
    ensures Occupants(core, Without(fs, f)) == Without(Occupants(core, fs), p)
  {
    if fs == [] {
    } else {
      OccupantsWithout(core, fs[1..], f, p);
      assert Occupants(core, fs)[1..] == Occupants(core, fs[1..]);
      assert fs[0] in fs;
    }
  }

  lemma FifoOrder(s: Sys)
    requires FifoInv(s)
    ensures NoDup(EvictionOrder(s))
    ensures forall f :: f in EvictionOrder(s) <==> f in Resident(s.core)
  {
    var order, n, k, head := EvictionOrder(s), |s.core|, s.cnt.misses, s.pol.head;
    if k >= n {
      forall i, j | 0 <= i < j < |order| ensures order[i] != order[j] {
        assert order[i] == if i < n - head then head + i else i - (n - head);
        assert order[j] == if j < n - head then head + j else j - (n - head);
      }
    }
    forall f ensures f in order <==> f in Resident(s.core) {
      if f in Resident(s.core) {
        var i := if k < n then f else if f >= head then f - head else n - head + f;
        assert order[i] == f;
      }
    }
  }

  /** The eviction order lists exactly the frames in use, each once. */
  lemma OrderListsResident(s: Sys, kind: Kind)
    requires Queued(s, kind)
    ensures NoDup(EvictionOrder(s)) && |EvictionOrder(s)| <= |s.core|
    ensures forall f :: f in EvictionOrder(s) <==> f in Resident(s.core)
    ensures |EvictionOrder(s)| < |s.core| <==> FirstFree(s.core) < |s.core|
  {
    var order := EvictionOrder(s);
    if kind.LruKind? {
      assert forall f :: f in order <==> f in Elements(order);
    } else {
      FifoOrder(s);
    }
    hide EvictionOrder, FifoInv;
    NoDupSize(order);
    BelowSize(|s.core|);
    assert Elements(order) == Resident(s.core) <= Below(|s.core|);
    SubsetSize(Resident(s.core), Below(|s.core|));
    if FirstFree(s.core) < |s.core| {
      assert FirstFree(s.core) !in Resident(s.core);
    } else {
      assert Resident(s.core) == Below(|s.core|);
    }
  }

  /** The queue of pages holds each page in memory once. */
  lemma QueueIsCached(s: Sys, kind: Kind)
    requires Queued(s, kind)
    ensures QOk(PageQueue(s), |s.core|)
    ensures forall p :: p in PageQueue(s) <==> p in Cached(s)
  {
    OrderListsResident(s, kind);
    hide EvictionOrder, FifoInv, PolicyOk, CountersOk, SlotsOk, CleanOk;
    var order, q := EvictionOrder(s), PageQueue(s);
    forall i | 0 <= i < |q| ensures order[i] in Resident(s.core) && Holds(s, q[i], order[i]) {
      assert order[i] in order;
    }
    forall p | p in Cached(s) ensures p in q {
      var f := s.ptes[p].frame;
      assert f in Resident(s.core);
      assert f in order;
      var i :| 0 <= i < |order| && order[i] == f;
      assert q[i] == p;
    }
  }

  lemma LruHit(s: Sys, s2: Sys, p: nat, choice: nat)
    requires Queued(s, LruKind) && Shape(s, s2, p, choice) && p in Cached(s)
    ensures s2.pol.Lru? && PageQueue(s2) == Without(PageQueue(s), p) + [p]
  {
    var f, order := s.ptes[p].frame, s.pol.queue;
    forall x | x in order ensures Occupant(s.core, x) == p <==> x == f {
      assert x in Elements(order);
      assert Holds(s, s.core[x].value, x);
    }
    OccupantsWithout(s.core, order, f, p);
    OccupantsConcat(s.core, Without(order, f), [f]);
    assert Occupants(s.core, [f]) == [p];
  }

  /** Placing p in a frame outside the rest of the order puts p behind the rest. */
  lemma PlacedBehind(core: seq<Option<nat>>, rest: seq<nat>, f: nat, p: nat)
    requires f < |core| && f !in rest
    ensures Occupants(core[f := Some(p)], rest + [f]) == Occupants(core, rest) + [p]
  {
    OccupantsConcat(core[f := Some(p)], rest, [f]);
    OccupantsElsewhere(core, rest, f, p);
  }

  /** The rest of the eviction order when a page comes in: all of it while a frame is free, all
      but its head otherwise; and where the page goes. */
  ghost function Rest(s: Sys): seq<nat> {
    if FirstFree(s.core) < |s.core| || EvictionOrder(s) == [] then EvictionOrder(s) else EvictionOrder(s)[1..]
  }

  lemma PlacedAtHead(s: Sys, kind: Kind, choice: nat)
    requires Queued(s, kind)
    ensures var f := PlacedIn(s, choice);
      && f !in Rest(s)
      && (FirstFree(s.core) == |s.core| ==> EvictionOrder(s) != [] && f == EvictionOrder(s)[0])
  {
    hide Mapped, SlotsOk, CleanOk, CountersOk;
    OrderListsResident(s, kind);
    if FirstFree(s.core) < |s.core| {
      assert FirstFree(s.core) !in Resident(s.core);
    }
  }

  lemma LruMissOrder(s: Sys, s2: Sys, p: nat, choice: nat)
    requires Queued(s, LruKind) && Shape(s, s2, p, choice) && p !in Cached(s)
    ensures s2.pol.Lru? && EvictionOrder(s2) == Rest(s) + [PlacedIn(s, choice)]
  {
    PlacedAtHead(s, LruKind, choice);
    var f := PlacedIn(s, choice);
    WithoutNone(Rest(s), f);
  }

  lemma NextMod(k: nat, n: nat)
    requires 0 < n
    ensures (k + 1) % n == Next(k % n, n)
    ensures k < n ==> k % n == k
    ensures n % n == 0
  {
    var q, r := k / n, k % n;
    assert k == q * n + r;
    if r + 1 == n {
      assert k + 1 == (q + 1) * n;
      ModUnique(k + 1, n, q + 1, 0);
    } else {
      ModUnique(k + 1, n, q, r + 1);
    }
    if k < n { ModUnique(k, n, 0, k); }
    ModUnique(n, n, 1, 0);
  }

  lemma FifoFills(s: Sys, s2: Sys, p: nat, choice: nat)
    requires Queued(s, FifoKind) && Shape(s, s2, p, choice) && p !in Cached(s) && s.cnt.misses < |s.core|
    ensures PlacedIn(s, choice) == s.cnt.misses % |s.core|
    ensures FifoInv(s2) && EvictionOrder(s2) == Rest(s) + [PlacedIn(s, choice)]
  {
    hide Mapped, SlotsOk, CleanOk, PolicyOk, CountersOk;
    var n, k := |s.core|, s.cnt.misses;
    NextMod(k, n);
    assert s.core[k].None?;
    assert FirstFree(s.core) == k;
    if k + 1 == n {
      assert EvictionOrder(s2) == Upto(n);
    }
  }

  lemma FifoReplaces(s: Sys, s2: Sys, p: nat, choice: nat)
    requires Queued(s, FifoKind) && Shape(s, s2, p, choice) && p !in Cached(s) && s.cnt.misses >= |s.core|
    ensures PlacedIn(s, choice) == s.cnt.misses % |s.core|
    ensures FifoInv(s2) && EvictionOrder(s2) == Rest(s) + [PlacedIn(s, choice)]
  {
    hide Mapped, SlotsOk, CleanOk, PolicyOk, CountersOk;
    var n, k := |s.core|, s.cnt.misses;
    NextMod(k, n);
    assert FirstFree(s.core) == n;
    var h := s.pol.head;
    assert PlacedIn(s, choice) == h && PolicyBefore(s, choice) == Fifo(Next(h, n));
    RotateOrder(n, h);
  }

  lemma RotateOrder(n: nat, h: nat)
    requires h < n
    ensures var order, h' := Upto(n)[h..] + Upto(n)[..h], Next(h, n);
      Upto(n)[h'..] + Upto(n)[..h'] == order[1..] + [h]
  {}

  /** Under FIFO a page that misses is placed in frame k mod memsize, k being the number of
      misses before it, and joins the back of the order. */
  lemma FifoMiss(s: Sys, s2: Sys, p: nat, choice: nat)
    requires Queued(s, FifoKind) && Shape(s, s2, p, choice) && p !in Cached(s)
    ensures PlacedIn(s, choice) == s.cnt.misses % |s.core|
    ensures FifoInv(s2) && EvictionOrder(s2) == Rest(s) + [PlacedIn(s, choice)]
  {
    if s.cnt.misses < |s.core| {
      FifoFills(s, s2, p, choice);
    } else {
      FifoReplaces(s, s2, p, choice);
    }
  }

  lemma QueueHit(s: Sys, s2: Sys, p: nat, choice: nat, kind: Kind)
    requires Queued(s, kind) && Shape(s, s2, p, choice) && p in Cached(s)
    ensures (kind.LruKind? ==> s2.pol.Lru?) && (kind.FifoKind? ==> FifoInv(s2))
    ensures PageQueue(s2) == QStep(kind, PageQueue(s), |s.core|, p)
  {
    QueueIsCached(s, kind);
    if kind.LruKind? {
      LruHit(s, s2, p, choice);
    }
  }

  lemma QueueMiss(s: Sys, s2: Sys, p: nat, choice: nat, kind: Kind)
    requires Queued(s, kind) && Shape(s, s2, p, choice) && p !in Cached(s)
    ensures (kind.LruKind? ==> s2.pol.Lru?) && (kind.FifoKind? ==> FifoInv(s2))
    ensures PageQueue(s2) == QStep(kind, PageQueue(s), |s.core|, p)
  {
    QueueIsCached(s, kind);
    OrderListsResident(s, kind);
    PlacedAtHead(s, kind, choice);
    if kind.LruKind? {
      LruMissOrder(s, s2, p, choice);
    } else {
      FifoMiss(s, s2, p, choice);
    }
    PlacedBehind(s.core, Rest(s), PlacedIn(s, choice), p);
    if FirstFree(s.core) == |s.core| {
      assert Occupants(s.core, EvictionOrder(s))[1..] == Occupants(s.core, EvictionOrder(s)[1..]);
    }
    hide Good, EvictionOrder, FifoInv, PlacedIn, PolicyBefore;
  }

  /** The simulator's policy acts as the queue of pages does. */
  lemma QueueStep(s: Sys, r: Ref, choice: nat, kind: Kind)
    requires Queued(s, kind) && PageOf(r.vaddr) < NUM_PAGES && AccessMem(s, r, choice).Some?
    ensures var s2, p := AccessMem(s, r, choice).value, PageOf(r.vaddr);
      && Queued(s2, kind)
      && PageQueue(s2) == QStep(kind, PageQueue(s), |s.core|, p)
      && s2.cnt.misses == s.cnt.misses + (if p in PageQueue(s) then 0 else 1)
      && s2.cnt.hits == s.cnt.hits + (if p in PageQueue(s) then 1 else 0)
  {
    var s2, p := AccessMem(s, r, choice).value, PageOf(r.vaddr);
    AccessKeeps(s, r, choice);
    StepShape(s, r, choice);
    QueueIsCached(s, kind);
    hide AccessMem, Good;
    if p in Cached(s) {
      QueueHit(s, s2, p, choice, kind);
    } else {
      QueueMiss(s, s2, p, choice, kind);
    }
  }

  // ---------- whole runs ----------

  /** From any reachable LRU or FIFO state, the pages in memory after a run and the misses made
      on the way are those of the queue of pages. */
  lemma {:induction false} RunIsQueue(s: Sys, t: seq<Ref>, choices: nat -> nat, kind: Kind)
    requires Queued(s, kind) && ValidTrace(t) && Run(s, t, choices).Some?
    ensures var s1 := Run(s, t, choices).value;
      && Queued(s1, kind)
      && PageQueue(s1) == QRun(kind, PageQueue(s), |s.core|, PagesOf(t))
      && s1.cnt.misses == s.cnt.misses + |QMissed(kind, PageQueue(s), |s.core|, PagesOf(t))|
  {
    hide Good, Run, AccessMem, PageQueue, QStep, ValidTrace;
    if t == [] {
      RunOfNothing(s, choices);
    } else {
      var n := |t| - 1;
      ValidPrefix(t, n);
      ValidAt(t, n);
      RunLast(s, t, choices);
      RunIsQueue(s, t[..n], choices, kind);
      assert PagesOf(t)[..n] == PagesOf(t[..n]);
      QueueStep(Run(s, t[..n], choices).value, t[n], choices(n), kind);
    }
  }

  lemma RunOfNothing(s: Sys, choices: nat -> nat)
    requires Good(s)
    ensures ValidTrace([]) && Run(s, [], choices) == Some(s)
  {}

  lemma InitialQueue(s: Sys, memsize: nat, swapsize: nat, kind: Kind)
    requires Initial(s, memsize, swapsize) && memsize > 0
    requires if kind.LruKind? then s.pol.Lru? else s.pol.Fifo?
    ensures Queued(s, kind) && PageQueue(s) == []
  {
    InitialIsGood(s, memsize, swapsize);
  }

  /** Under LRU memory always holds the memsize most recently used pages, oldest first. */
  lemma LruHoldsMostRecent(s: Sys, memsize: nat, swapsize: nat, t: seq<Ref>, choices: nat -> nat)
    requires Initial(s, memsize, swapsize) && memsize > 0 && s.pol.Lru? && Good(s)
    requires ValidTrace(t) && Run(s, t, choices).Some?
    ensures var s1 := Run(s, t, choices).value;
      && PageQueue(s1) == LastN(Recency(PagesOf(t)), memsize)
      && forall p :: p in Cached(s1) <==> p in LastN(Recency(PagesOf(t)), memsize)
  {
    InitialQueue(s, memsize, swapsize, LruKind);
    RunIsQueue(s, t, choices, LruKind);
    LruIsRecency(memsize, PagesOf(t));
    QueueIsCached(Run(s, t, choices).value, LruKind);
  }

  /** When LRU evicts, the victim is the page in memory whose last use is oldest. */
  lemma LruVictimIsOldest(s: Sys, memsize: nat, swapsize: nat, t: seq<Ref>, choices: nat -> nat, choice: nat)
    requires Initial(s, memsize, swapsize) && memsize > 0 && s.pol.Lru? && Good(s)
    requires ValidTrace(t) && Run(s, t, choices).Some?
    requires FirstFree(Run(s, t, choices).value.core) == memsize
    ensures var s1, ps := Run(s, t, choices).value, PagesOf(t);
      var v := Victim(s1, choice);
      && v in Cached(s1) && v in ps
      && forall p :: p in Cached(s1) && p != v ==> p in ps && LastUse(ps, v) < LastUse(ps, p)
  {
    hide Good, Run, Recency, LastUse, LastN, ValidTrace, Queued, Cached, PageQueue, Victim;
    LruHoldsMostRecent(s, memsize, swapsize, t, choices);
    var s1, ps := Run(s, t, choices).value, PagesOf(t);
    InitialQueue(s, memsize, swapsize, LruKind);
    RunIsQueue(s, t, choices, LruKind);
    VictimIsFirst(s1, choice, LruKind);
    FirstIsOldest(ps, PageQueue(s1), memsize);
  }

  /** With no frame free, the victim is the first page of the queue. */
  lemma VictimIsFirst(s: Sys, choice: nat, kind: Kind)
    requires Queued(s, kind) && FirstFree(s.core) == |s.core|
    ensures PageQueue(s) != [] && Victim(s, choice) == PageQueue(s)[0]
  {
    OrderListsResident(s, kind);
    PlacedAtHead(s, kind, choice);
  }

  /** Of the pages most recently used, the first was last used before all others. */
  lemma FirstIsOldest(ps: seq<nat>, q: seq<nat>, m: nat)
    requires q == LastN(Recency(ps), m) && q != []
    ensures q[0] in ps && forall p :: p in q && p != q[0] ==> p in ps && LastUse(ps, q[0]) < LastUse(ps, p)
  {
    hide LastUse, Recency;
    var rec := Recency(ps);
    RecencyMeaning(ps);
    var cut := |rec| - |q|;
    assert q[0] == rec[cut] && rec[cut] in rec;
    forall p | p in q && p != q[0] ensures p in ps && LastUse(ps, q[0]) < LastUse(ps, p) {
      var i :| 0 <= i < |q| && q[i] == p;
      assert rec[cut + i] == p && rec[cut + i] in rec;
    }
  }

  lemma InitialCount(s: Sys, m: nat, w: nat)
    requires Initial(s, m, w)
    ensures s.cnt.hits == 0
  {}

  lemma LastNWithin<T>(l: seq<T>, m: nat, m': nat)
    requires m <= m'
    ensures forall x :: x in LastN(l, m) ==> x in LastN(l, m')
  {
    assert LastN(l, m) == LastN(LastN(l, m'), m);
  }

  /** The stack property: with more frames LRU holds every page it holds with fewer, and it hits
      at least as often. */
  lemma {:induction false} LruStack(s: Sys, s': Sys, m: nat, m': nat, w: nat, w': nat, t: seq<Ref>, choices: nat -> nat)
    requires Initial(s, m, w) && Initial(s', m', w') && 0 < m <= m' && s.pol.Lru? && s'.pol.Lru? && Good(s) && Good(s')
    requires ValidTrace(t) && Run(s, t, choices).Some? && Run(s', t, choices).Some?
    ensures Cached(Run(s, t, choices).value) <= Cached(Run(s', t, choices).value)
    ensures Run(s, t, choices).value.cnt.hits <= Run(s', t, choices).value.cnt.hits
  {
    hide Good, LastN, Recency, PageQueue, AccessMem, Cached, PagesOf;
    LruHoldsMostRecent(s, m, w, t, choices);
    LruHoldsMostRecent(s', m', w', t, choices);
    LastNWithin(Recency(PagesOf(t)), m, m');
    if t == [] {
      InitialCount(s, m, w);
    } else {
      var n := |t| - 1;
      ValidPrefix(t, n);
      ValidAt(t, n);
      LruStack(s, s', m, m', w, w', t[..n], choices);
      DemandPaging(Run(s, t[..n], choices).value, t[n], choices(n));
      DemandPaging(Run(s', t[..n], choices).value, t[n], choices(n));
    }
  }

  /** LRU and FIFO are conservative: from any reachable state, a stretch of trace that touches
      at most memsize distinct pages misses at most once on each. */
  lemma ConservativeRun(s: Sys, t: seq<Ref>, choices: nat -> nat, kind: Kind)
    requires Queued(s, kind) && ValidTrace(t) && Run(s, t, choices).Some?
    requires |PageSet(PagesOf(t))| <= |s.core|
    ensures var missed := QMissed(kind, PageQueue(s), |s.core|, PagesOf(t));
      && Run(s, t, choices).value.cnt.misses == s.cnt.misses + |missed|
      && NoDup(missed) && |missed| <= |PageSet(PagesOf(t))|
  {
    RunIsQueue(s, t, choices, kind);
    QueueIsCached(s, kind);
    var j := Conservative(kind, PageQueue(s), |s.core|, PagesOf(t));
  }

  /** The reference that last missed on page p and so loaded it, or -1 if none did. */
  ghost function LastLoad(s: Sys, t: seq<Ref>, choices: nat -> nat, p: nat): (i: int)
    requires Good(s) && ValidTrace(t) && Run(s, t, choices).Some?
    ensures -1 <= i < |t|
  {
    if t == [] then -1
    else
      var n := |t| - 1;
      if PageOf(t[n].vaddr) == p && p !in Cached(Run(s, t[..n], choices).value) then n
      else LastLoad(s, t[..n], choices, p)
  }

  /** When the pages of a queue were loaded. */
  ghost function Loads(s: Sys, t: seq<Ref>, choices: nat -> nat, q: seq<nat>): (l: seq<int>)
    requires Good(s) && ValidTrace(t) && Run(s, t, choices).Some?
    ensures |l| == |q| && forall i :: 0 <= i < |q| ==> l[i] == LastLoad(s, t, choices, q[i])
  {
    if q == [] then [] else [LastLoad(s, t, choices, q[0])] + Loads(s, t, choices, q[1..])
  }

  predicate Ascending(l: seq<int>) {
    (forall i :: 0 <= i < |l| ==> 0 <= l[i]) && forall i, j :: 0 <= i < j < |l| ==> l[i] < l[j]
  }

  /** The pages of the queue were loaded one after the other, the front one first. */
  ghost predicate LoadedInOrder(s: Sys, t: seq<Ref>, choices: nat -> nat, q: seq<nat>)
    requires Good(s) && ValidTrace(t) && Run(s, t, choices).Some?
  {
    Ascending(Loads(s, t, choices, q))
  }

  lemma LastLoadOf(s: Sys, t: seq<Ref>, choices: nat -> nat, q: seq<nat>, x: nat)
    requires Good(s) && ValidTrace(t) && t != [] && Run(s, t, choices).Some?
    requires forall p :: p in q <==> p in Cached(Run(s, t[..|t| - 1], choices).value)
    ensures LastLoad(s, t, choices, x) ==
            if x == PageOf(t[|t| - 1].vaddr) && x !in q then |t| - 1 else LastLoad(s, t[..|t| - 1], choices, x)
  {
    hide Good, Cached, Run;
  }

  /** The loads of pages that stay in memory do not change. */
  lemma {:induction false} LoadsStay(s: Sys, t: seq<Ref>, choices: nat -> nat, q: seq<nat>, r: seq<nat>)
    requires Good(s) && ValidTrace(t) && t != [] && ValidTrace(t[..|t| - 1]) && Run(s, t, choices).Some? && Run(s, t[..|t| - 1], choices).Some?
    requires forall p :: p in q <==> p in Cached(Run(s, t[..|t| - 1], choices).value)
    requires forall p :: p in r ==> p in q
    ensures Loads(s, t, choices, r) == Loads(s, t[..|t| - 1], choices, r)
    decreases |r|
  {
    hide Good, Run, Cached, ValidTrace, LastLoad;
    if r == [] {
    } else {
      assert r[0] in r;
      LastLoadOf(s, t, choices, q, r[0]);
      LoadsStay(s, t, choices, q, r[1..]);
    }
  }

  lemma {:induction false} LoadsConcat(s: Sys, t: seq<Ref>, choices: nat -> nat, q: seq<nat>, r: seq<nat>)
    requires Good(s) && ValidTrace(t) && Run(s, t, choices).Some?
    ensures Loads(s, t, choices, q + r) == Loads(s, t, choices, q) + Loads(s, t, choices, r)
    decreases |q|
  {
    hide Good, Run, ValidTrace, LastLoad;
    if q == [] {
      assert q + r == r;
    } else {
      assert (q + r)[1..] == q[1..] + r;
      LoadsConcat(s, t, choices, q[1..], r);
    }
  }

  lemma AscendingGrows(l: seq<int>, k: nat, n: nat)
    requires Ascending(l) && k <= |l| && forall i :: 0 <= i < |l| ==> l[i] < n
    ensures Ascending(l[k..] + [n])
  {}

  /** The queue without its front page, where that is evicted. */
  lemma FifoQueueStep(q: seq<nat>, m: nat, p: nat) returns (k: nat)
    requires p !in q && m > 0
    ensures k <= |q| && QStep(FifoKind, q, m, p) == q[k..] + [p]
  {
    k := if |q| < m || q == [] then 0 else 1;
  }

  lemma LoadsDrop(s: Sys, t: seq<Ref>, choices: nat -> nat, q: seq<nat>, k: nat)
    requires Good(s) && ValidTrace(t) && Run(s, t, choices).Some? && k <= |q|
    ensures Loads(s, t, choices, q[k..]) == Loads(s, t, choices, q)[k..]
  {
    hide Good, Run, ValidTrace, LastLoad, Loads;
  }

  /** A page that misses is loaded last, behind the pages that stay. */
  lemma LoadMiss(s: Sys, t: seq<Ref>, choices: nat -> nat, q: seq<nat>, k: nat)
    requires Good(s) && ValidTrace(t) && t != [] && ValidTrace(t[..|t| - 1]) && Run(s, t, choices).Some? && Run(s, t[..|t| - 1], choices).Some?
    requires forall p :: p in q <==> p in Cached(Run(s, t[..|t| - 1], choices).value)
    requires PageOf(t[|t| - 1].vaddr) !in q && k <= |q|
    ensures Loads(s, t, choices, q[k..] + [PageOf(t[|t| - 1].vaddr)]) == Loads(s, t[..|t| - 1], choices, q)[k..] + [|t| - 1]
  {
    hide Good, Run, Cached, ValidTrace, LastLoad, Loads, PageOf;
    var n, p := |t| - 1, PageOf(t[|t| - 1].vaddr);
    var rest := q[k..];
    assert forall x :: x in rest ==> x in q;
    LoadsConcat(s, t, choices, rest, [p]);
    LoadsStay(s, t, choices, q, rest);
    LoadsDrop(s, t[..n], choices, q, k);
    LoadOne(s, t, choices, q, p);
  }

  lemma LoadOne(s: Sys, t: seq<Ref>, choices: nat -> nat, q: seq<nat>, p: nat)
    requires Good(s) && ValidTrace(t) && t != [] && Run(s, t, choices).Some?
    requires forall p :: p in q <==> p in Cached(Run(s, t[..|t| - 1], choices).value)
    requires PageOf(t[|t| - 1].vaddr) == p && p !in q
    ensures Loads(s, t, choices, [p]) == [|t| - 1]
  {
    hide Good, Run, Cached, ValidTrace, LastLoad, Loads;
    LastLoadOf(s, t, choices, q, p);
  }

  lemma LoadStep(s: Sys, t: seq<Ref>, choices: nat -> nat, q: seq<nat>, m: nat)
    requires Good(s) && ValidTrace(t) && t != [] && ValidTrace(t[..|t| - 1]) && Run(s, t, choices).Some? && Run(s, t[..|t| - 1], choices).Some?
    requires LoadedInOrder(s, t[..|t| - 1], choices, q) && m > 0
    requires forall p :: p in q <==> p in Cached(Run(s, t[..|t| - 1], choices).value)
    ensures LoadedInOrder(s, t, choices, QStep(FifoKind, q, m, PageOf(t[|t| - 1].vaddr)))
  {
    hide Good, Run, Cached, ValidTrace, LastLoad, Ascending, Loads, QStep;
    var n, p := |t| - 1, PageOf(t[|t| - 1].vaddr);
    if p in q {
      LoadsStay(s, t, choices, q, q);
      FifoKeeps(q, m, p);
    } else {
      var k := FifoQueueStep(q, m, p);
      LoadMiss(s, t, choices, q, k);
      LoadsBefore(s, t[..n], choices, q);
      AscendingGrows(Loads(s, t[..n], choices, q), k, n);
    }
  }

  lemma LoadsBefore(s: Sys, t: seq<Ref>, choices: nat -> nat, q: seq<nat>)
    requires Good(s) && ValidTrace(t) && Run(s, t, choices).Some?
    ensures |Loads(s, t, choices, q)| == |q| && forall i :: 0 <= i < |q| ==> Loads(s, t, choices, q)[i] < |t|
  {
    hide Good, Run, ValidTrace, LastLoad, Loads;
  }

  lemma FifoKeeps(q: seq<nat>, m: nat, p: nat)
    requires p in q
    ensures QStep(FifoKind, q, m, p) == q
  {}

  /** Under FIFO the queue lists the pages in memory in the order in which they were loaded. */
  lemma {:induction false} FifoIsLoadOrder(s: Sys, memsize: nat, swapsize: nat, t: seq<Ref>, choices: nat -> nat)
    requires Initial(s, memsize, swapsize) && memsize > 0 && s.pol.Fifo? && Good(s)
    requires ValidTrace(t) && Run(s, t, choices).Some?
    ensures Queued(Run(s, t, choices).value, FifoKind)
    ensures LoadedInOrder(s, t, choices, PageQueue(Run(s, t, choices).value))
  {
    InitialQueue(s, memsize, swapsize, FifoKind);
    if t == [] {
    } else {
      var n := |t| - 1;
      FifoIsLoadOrder(s, memsize, swapsize, t[..n], choices);
      var s1 := Run(s, t[..n], choices).value;
      QueueStep(s1, t[n], choices(n), FifoKind);
      QueueIsCached(s1, FifoKind);
      hide Queued, PageQueue, Cached, LoadedInOrder;
      LoadStep(s, t, choices, PageQueue(s1), memsize);
    }
  }

  /** When FIFO evicts, the victim is the page in memory that was loaded longest ago, however
      recently it was used. */
  lemma FifoVictimIsOldest(s: Sys, memsize: nat, swapsize: nat, t: seq<Ref>, choices: nat -> nat, choice: nat)
    requires Initial(s, memsize, swapsize) && memsize > 0 && s.pol.Fifo? && Good(s)
    requires ValidTrace(t) && Run(s, t, choices).Some?
    requires FirstFree(Run(s, t, choices).value.core) == memsize
    ensures var s1 := Run(s, t, choices).value;
      var v := Victim(s1, choice);
      && v in Cached(s1) && 0 <= LastLoad(s, t, choices, v)
      && forall p :: p in Cached(s1) && p != v ==> LastLoad(s, t, choices, v) < LastLoad(s, t, choices, p)
  {
    FifoIsLoadOrder(s, memsize, swapsize, t, choices);
    hide Good, Run, LastLoad, ValidTrace, Queued, Cached, PageQueue, Victim;
    var s1 := Run(s, t, choices).value;
    VictimIsFirst(s1, choice, FifoKind);
    QueueIsCached(s1, FifoKind);
    assert PageQueue(s1)[0] in PageQueue(s1);
  }

  /** Under FIFO the k-th miss, counting from 0, lands in frame k mod memsize, and when frames
      have run out it replaces the page loaded longest ago, every other page in memory having
      been loaded since. */
  lemma FifoMissLands(s: Sys, memsize: nat, swapsize: nat, t: seq<Ref>, choices: nat -> nat, r: Ref, choice: nat)
    requires Initial(s, memsize, swapsize) && memsize > 0 && s.pol.Fifo? && Good(s)
    requires ValidTrace(t) && Run(s, t, choices).Some? && PageOf(r.vaddr) < NUM_PAGES
    requires AccessMem(Run(s, t, choices).value, r, choice).Some?
    ensures var s1 := Run(s, t, choices).value;
      var s2 := AccessMem(s1, r, choice).value;
      PageOf(r.vaddr) !in Cached(s1) ==>
        && s2.core == s1.core[s1.cnt.misses % memsize := Some(PageOf(r.vaddr))]
        && (FirstFree(s1.core) == memsize ==> s1.core[s1.cnt.misses % memsize] == Some(Victim(s1, choice)))
        && (FirstFree(s1.core) == memsize ==> forall p :: p in Cached(s1) && p != Victim(s1, choice) ==>
             0 <= LastLoad(s, t, choices, Victim(s1, choice)) < LastLoad(s, t, choices, p))
  {
    InitialQueue(s, memsize, swapsize, FifoKind);
    RunIsQueue(s, t, choices, FifoKind);
    var s1 := Run(s, t, choices).value;
    var s2 := AccessMem(s1, r, choice).value;
    StepShape(s1, r, choice);
    if PageOf(r.vaddr) !in Cached(s1) {
      FifoMiss(s1, s2, PageOf(r.vaddr), choice);
      PlacedAtHead(s1, FifoKind, choice);
      OrderListsResident(s1, FifoKind);
      if FirstFree(s1.core) == memsize {
        FifoVictimIsOldest(s, memsize, swapsize, t, choices, choice);
      }
    }
  }
}
