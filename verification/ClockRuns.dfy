/** Whole runs under CLOCK: which page is evicted, read off the trace and the frames its pages were
    given, without a word about reference bits. */
module ClockRuns {
  import opened Prelude
  import opened PageTable
  import opened Paging
  import opened FlatMemory
  import opened Queues
  import opened Replacement
  import opened Evictions
  import opened ClockHand

  // ---------- one scan ----------

  predicate AllSet(bits: seq<bool>) {
    forall i :: 0 <= i < |bits| ==> bits[i]
  }

  /** A scan from the hand that ends at `victim` goes past f. */
  predicate GoesPast(hand: nat, victim: nat, n: nat, round: bool, f: nat)
    requires hand < n && victim < n && f < n
  {
    f != victim && (round || Ahead(hand, f, n) < Ahead(hand, victim, n))
  }

  /** The victim is the hand itself after a full round, else the first clear bit; only the bits gone
      past are cleared. */
  lemma ScanDecides(bits: seq<bool>, hand: nat)
    requires hand < |bits|
    ensures var (v, bits') := Scan(bits, hand);
      && (if AllSet(bits) then v == hand
          else !bits[v] && forall f :: 0 <= f < |bits| && Ahead(hand, f, |bits|) < Ahead(hand, v, |bits|) ==> bits[f])
      && forall f :: 0 <= f < |bits| ==> (bits'[f] <==> f == v || (bits[f] && !GoesPast(hand, v, |bits|, AllSet(bits), f)))
  {
    if AllSet(bits) {
      ScanAllSet(bits, hand);
    } else {
      var v := NearestClear(bits, hand, 0);
      ScanFindsFirstClear(bits, hand, v);
    }
  }

  // ---------- one reference ----------

  /** What a reference does to the coremap, the hand and the bits. */
  ghost predicate Ticks(s: Sys, s2: Sys, p: nat) {
    && s.pol.Clock? && s2.pol.Clock? && |s2.pol.bits| == |s.pol.bits| == |s.core| == |s2.core| && s.pol.hand < |s.core|
    && var f := FrameOf(s2, p);
    && f < |s.core| && s2.core == s.core[f := Some(p)] && p in Cached(s2)
    && (Evicts(s, p) ==> s2.pol == Clock(f, Scan(s.pol.bits, s.pol.hand).1[f := true]) && f == Scan(s.pol.bits, s.pol.hand).0)
    && (!Evicts(s, p) ==> s2.pol == Clock(s.pol.hand, s.pol.bits[f := true]))
  }

  lemma ClockFits(s: Sys)
    requires Good(s) && s.pol.Clock?
    ensures s.pol.hand < |s.pol.bits| == |s.core|
  {
    hide Mapped, SlotsOk, CleanOk;
  }

  lemma HitTicks(s: Sys, r: Ref, choice: nat)
    requires Good(s) && s.pol.Clock? && PageOf(r.vaddr) < NUM_PAGES && FindPhyspage(s, r, choice).Some? && PageOf(r.vaddr) in Cached(s)
    ensures Ticks(s, FindPhyspage(s, r, choice).value, PageOf(r.vaddr))
  {
    hide SlotsOk, CleanOk, FindPhyspage;
    ClockFits(s);
    FindHit(s, r, choice);
    CachedLookup(s, PageOf(r.vaddr));
    var f := s.ptes[PageOf(r.vaddr)].frame;
    assert s.core[f := Some(PageOf(r.vaddr))] == s.core;
  }

  lemma ClockBefore(s: Sys, choice: nat)
    requires Good(s) && s.pol.Clock?
    ensures s.pol.hand < |s.pol.bits|
    ensures if FirstFree(s.core) < |s.core| then PolicyBefore(s, choice) == s.pol
            else PlacedIn(s, choice) == Scan(s.pol.bits, s.pol.hand).0
                 && PolicyBefore(s, choice) == Clock(Scan(s.pol.bits, s.pol.hand).0, Scan(s.pol.bits, s.pol.hand).1)
  {
    hide Mapped, SlotsOk, CleanOk, Scan;
  }

  lemma MissFinds(s: Sys, r: Ref, choice: nat)
    requires Good(s) && PageOf(r.vaddr) < NUM_PAGES && FindPhyspage(s, r, choice).Some? && PageOf(r.vaddr) !in Cached(s)
    ensures AllocateFrame(s, PageOf(r.vaddr), choice).Some?
    ensures var (s1, f) := AllocateFrame(s, PageOf(r.vaddr), choice).value;
      var s2, p := FindPhyspage(s, r, choice).value, PageOf(r.vaddr);
      && (s1.pol.Clock? ==> f < |s1.pol.bits|) && s2.core == s1.core && s2.pol == Touch(s1.pol, f)
      && p in Cached(s2) && FrameOf(s2, p) == f
  {
    AllocateKeeps(s, PageOf(r.vaddr), choice);
    hide Good, Touch, AllocateFrame, Consistent, CountersOk;
  }

  lemma MissTicks(s: Sys, r: Ref, choice: nat)
    requires Good(s) && s.pol.Clock? && PageOf(r.vaddr) < NUM_PAGES && FindPhyspage(s, r, choice).Some? && PageOf(r.vaddr) !in Cached(s)
    ensures Ticks(s, FindPhyspage(s, r, choice).value, PageOf(r.vaddr))
  {
    hide Good, FindPhyspage, AllocateFrame, Scan, Cached, PlacedIn, PolicyBefore;
    ClockFits(s);
    PlacedFits(s, choice);
    MissFinds(s, r, choice);
    AllocateShape(s, PageOf(r.vaddr), choice);
    ClockBefore(s, choice);
  }

  lemma PlacedFits(s: Sys, choice: nat)
    requires Good(s)
    ensures PlacedIn(s, choice) < |s.core| && FirstFree(s.core) <= |s.core|
  {
    hide Good;
  }

  lemma WriteTicks(s: Sys, s1: Sys, r: Ref)
    requires Ticks(s, s1, PageOf(r.vaddr)) && FrameOf(s1, PageOf(r.vaddr)) < |s1.mem|
    ensures Ticks(s, WriteRef(s1, r), PageOf(r.vaddr))
  {
    hide Scan;
  }

  lemma StepTicks(s: Sys, r: Ref, choice: nat)
    requires Good(s) && s.pol.Clock? && PageOf(r.vaddr) < NUM_PAGES && AccessMem(s, r, choice).Some?
    ensures Ticks(s, AccessMem(s, r, choice).value, PageOf(r.vaddr))
  {
    hide Good, FindPhyspage, Ticks, Served, Cached;
    FindPhyspageKeeps(s, r, choice);
    ServedFits(s, FindPhyspage(s, r, choice).value, r);
    if PageOf(r.vaddr) in Cached(s) {
      HitTicks(s, r, choice);
    } else {
      MissTicks(s, r, choice);
    }
    WriteTicks(s, FindPhyspage(s, r, choice).value, r);
  }

  // ---------- read off the trace ----------

  /** The frame that the last reference is served in. */
  ghost function ServedIn(s: Sys, t: seq<Ref>, choices: nat -> nat): nat
    requires Good(s) && ValidTrace(t) && t != [] && Run(s, t, choices).Some?
  {
    FrameOf(Run(s, t, choices).value, PageOf(t[|t| - 1].vaddr))
  }

  /** The last reference is served by an eviction. */
  ghost predicate EvictsThere(s: Sys, t: seq<Ref>, choices: nat -> nat)
    requires Good(s) && ValidTrace(t) && t != [] && Run(s, t, choices).Some?
  {
    Evicts(Run(s, t[..|t| - 1], choices).value, PageOf(t[|t| - 1].vaddr))
  }

  /** At the last reference a hand that starts out there goes past frame f: on its way to the frame
      it frees, or in a full round. */
  ghost predicate PassesLast(s: Sys, t: seq<Ref>, choices: nat -> nat, hand: nat, round: bool, f: nat)
    requires Good(s) && ValidTrace(t) && t != [] && Run(s, t, choices).Some?
  {
    var n, v := |s.core|, ServedIn(s, t, choices);
    EvictsThere(s, t, choices) && f < n && v < n && hand < n && GoesPast(hand, v, n, round, f)
  }

  /** The last reference that was served in frame f, or -1. */
  ghost function LastUsed(s: Sys, t: seq<Ref>, choices: nat -> nat, f: nat): (i: int)
    requires Good(s) && ValidTrace(t) && Run(s, t, choices).Some?
    ensures -1 <= i < |t|
  {
    if t == [] then -1
    else if ServedIn(s, t, choices) == f then |t| - 1
    else LastUsed(s, t[..|t| - 1], choices, f)
  }

  /** Where the hand is: on the frame that was last freed by an eviction, or on frame 0. */
  ghost function HandAt(s: Sys, t: seq<Ref>, choices: nat -> nat): nat
    requires Good(s) && ValidTrace(t) && Run(s, t, choices).Some?
  {
    if t == [] then 0
    else if EvictsThere(s, t, choices) then ServedIn(s, t, choices)
    else HandAt(s, t[..|t| - 1], choices)
  }

  /** The last reference at which the hand went past frame f, or -1. It makes a full round when every
      frame has been used since the hand last went past it. */
  ghost function LastPassed(s: Sys, t: seq<Ref>, choices: nat -> nat, f: nat): (i: int)
    requires Good(s) && ValidTrace(t) && Run(s, t, choices).Some?
    ensures -1 <= i < |t|
    decreases |t|, 0
  {
    if t == [] then -1
    else
      RunLast(s, t, choices);
      var t0 := t[..|t| - 1];
      if PassesLast(s, t, choices, HandAt(s, t0, choices), AllRecent(s, t0, choices), f) then |t| - 1
      else LastPassed(s, t0, choices, f)
  }

  /** Frame f has been used since the hand last went past it. */
  ghost predicate Recent(s: Sys, t: seq<Ref>, choices: nat -> nat, f: nat)
    requires Good(s) && ValidTrace(t) && Run(s, t, choices).Some?
    decreases |t|, 1
  {
    LastUsed(s, t, choices, f) > LastPassed(s, t, choices, f)
  }

  ghost predicate AllRecent(s: Sys, t: seq<Ref>, choices: nat -> nat)
    requires Good(s) && ValidTrace(t) && Run(s, t, choices).Some?
    decreases |t|, 2
  {
    forall f: nat :: f < |s.core| ==> Recent(s, t, choices, f)
  }

  // ---------- the bits and the hand ----------

  /** The hand is where the trace says, and exactly the frames used since it went past them have
      their bits set. */
  ghost predicate BitsTell(s: Sys, t: seq<Ref>, choices: nat -> nat)
    requires Good(s) && ValidTrace(t) && Run(s, t, choices).Some?
  {
    var s1 := Run(s, t, choices).value;
    && s1.pol.Clock? && |s1.pol.bits| == |s1.core| == |s.core| && s1.pol.hand == HandAt(s, t, choices) < |s.core|
    && forall f :: 0 <= f < |s.core| ==> (s1.pol.bits[f] <==> Recent(s, t, choices, f))
  }

  lemma LastSteps(s: Sys, t: seq<Ref>, choices: nat -> nat, f: nat)
    requires Good(s) && ValidTrace(t) && t != [] && Run(s, t, choices).Some?
    ensures ValidTrace(t[..|t| - 1]) && Run(s, t[..|t| - 1], choices).Some?
    ensures var n, t0 := |t| - 1, t[..|t| - 1];
      && LastUsed(s, t, choices, f) == (if ServedIn(s, t, choices) == f then n else LastUsed(s, t0, choices, f))
      && HandAt(s, t, choices) == (if EvictsThere(s, t, choices) then ServedIn(s, t, choices) else HandAt(s, t0, choices))
      && LastPassed(s, t, choices, f) ==
         (if PassesLast(s, t, choices, HandAt(s, t0, choices), AllRecent(s, t0, choices), f) then n else LastPassed(s, t0, choices, f))
  {
    hide Good, AccessMem, ServedIn, EvictsThere, PassesLast, AllRecent;
  }

  /** How one reference changes what is recent. */
  lemma RecentStep(s: Sys, t: seq<Ref>, choices: nat -> nat, f: nat)
    requires Good(s) && ValidTrace(t) && t != [] && Run(s, t, choices).Some?
    ensures ValidTrace(t[..|t| - 1]) && Run(s, t[..|t| - 1], choices).Some?
    ensures var t0 := t[..|t| - 1];
      var past := PassesLast(s, t, choices, HandAt(s, t0, choices), AllRecent(s, t0, choices), f);
      Recent(s, t, choices, f) <==> ServedIn(s, t, choices) == f || (Recent(s, t0, choices, f) && !past)
  {
    hide Good, Run, ServedIn, EvictsThere, AllRecent, LastUsed, LastPassed, HandAt, ValidTrace;
    LastSteps(s, t, choices, f);
    NeverPast(s, t, choices, f);
  }

  /** The hand does not go past the frame that is freed. */
  lemma NeverPast(s: Sys, t: seq<Ref>, choices: nat -> nat, f: nat)
    requires Good(s) && ValidTrace(t) && t != [] && Run(s, t, choices).Some?
    ensures ServedIn(s, t, choices) == f ==> forall hand: nat, round :: !PassesLast(s, t, choices, hand, round, f)
  {
    hide Good, Run, EvictsThere, ValidTrace;
  }

  /** The bits after a reference, in the same terms. */
  lemma BitsStep(s1: Sys, s2: Sys, p: nat, f: nat)
    requires Ticks(s1, s2, p) && f < |s1.core|
    ensures var v, hand, n := FrameOf(s2, p), s1.pol.hand, |s1.core|;
      && v < n && hand < n
      && (s2.pol.bits[f] <==> f == v || (s1.pol.bits[f] && !(Evicts(s1, p) && GoesPast(hand, v, n, AllSet(s1.pol.bits), f))))
      && s2.pol.hand == if Evicts(s1, p) then v else hand
  {
    hide Scan, GoesPast;
    ScanDecides(s1.pol.bits, s1.pol.hand);
  }

  lemma TellStep(s: Sys, t: seq<Ref>, choices: nat -> nat, f: nat)
    requires Good(s) && ValidTrace(t) && t != [] && Run(s, t, choices).Some? && ValidTrace(t[..|t| - 1]) && Run(s, t[..|t| - 1], choices).Some?
    requires Ticks(Run(s, t[..|t| - 1], choices).value, Run(s, t, choices).value, PageOf(t[|t| - 1].vaddr))
    requires BitsTell(s, t[..|t| - 1], choices) && f < |s.core|
    ensures f < |Run(s, t, choices).value.pol.bits|
    ensures Run(s, t, choices).value.pol.bits[f] <==> Recent(s, t, choices, f)
    ensures HandAt(s, t, choices) == Run(s, t, choices).value.pol.hand < |s.core|
  {
    hide Good, Run, GoesPast, Recent, LastUsed, LastPassed, HandAt, ValidTrace, Scan, Evicts, FrameOf;
    var n, t0 := |t| - 1, t[..|t| - 1];
    var s1, s2 := Run(s, t0, choices).value, Run(s, t, choices).value;
    RecentStep(s, t, choices, f);
    LastSteps(s, t, choices, f);
    BitsStep(s1, s2, PageOf(t[n].vaddr), f);
    assert AllSet(s1.pol.bits) <==> AllRecent(s, t0, choices) by {
      forall g: nat | g < |s.core| ensures s1.pol.bits[g] <==> Recent(s, t0, choices, g) {}
    }
  }

  /** In every run under CLOCK a reference bit is set exactly when its frame has been used since the
      hand last went past it, and the hand is on the frame last freed. */
  lemma {:induction false} BitsTellRecency(s: Sys, memsize: nat, swapsize: nat, t: seq<Ref>, choices: nat -> nat)
    requires Initial(s, memsize, swapsize) && memsize > 0 && s.pol.Clock? && Good(s)
    requires ValidTrace(t) && Run(s, t, choices).Some?
    ensures BitsTell(s, t, choices)
  {
    hide Good, AccessMem, Recent, LastUsed, LastPassed, FrameOf, Ticks;
    if t == [] {
      NothingUsed(s, memsize, swapsize, choices);
    } else {
      var n, t0 := |t| - 1, t[..|t| - 1];
      BitsTellRecency(s, memsize, swapsize, t0, choices);
      StepTicks(Run(s, t0, choices).value, t[n], choices(n));
      TicksFit(Run(s, t0, choices).value, Run(s, t, choices).value, PageOf(t[n].vaddr));
      forall f | 0 <= f < |s.core|
        ensures f < |Run(s, t, choices).value.pol.bits| && (Run(s, t, choices).value.pol.bits[f] <==> Recent(s, t, choices, f))
      {
        TellStep(s, t, choices, f);
      }
      TellStep(s, t, choices, 0);
    }
  }

  lemma TicksFit(s: Sys, s2: Sys, p: nat)
    requires Ticks(s, s2, p)
    ensures s2.pol.Clock? && |s2.pol.bits| == |s2.core| == |s.core|
  {
    hide Scan;
  }

  lemma NothingUsed(s: Sys, memsize: nat, swapsize: nat, choices: nat -> nat)
    requires Initial(s, memsize, swapsize) && memsize > 0 && s.pol.Clock? && Good(s)
    ensures ValidTrace([]) && Run(s, [], choices) == Some(s) && BitsTell(s, [], choices)
  {
    hide Good;
  }

  // ---------- frames and pages ----------

  /** The page in a frame is the one it was last used for. */
  ghost predicate UsesAgree(s: Sys, t: seq<Ref>, choices: nat -> nat)
    requires Good(s) && ValidTrace(t) && Run(s, t, choices).Some?
  {
    var core, ps := Run(s, t, choices).value.core, PagesOf(t);
    forall f :: 0 <= f < |core| && core[f].Some? ==> core[f].value in ps && LastUsed(s, t, choices, f) == LastUse(ps, core[f].value)
  }

  lemma UseStep(s: Sys, t: seq<Ref>, choices: nat -> nat, f: nat)
    requires Good(s) && ValidTrace(t) && t != [] && Run(s, t, choices).Some? && ValidTrace(t[..|t| - 1]) && Run(s, t[..|t| - 1], choices).Some?
    requires Ticks(Run(s, t[..|t| - 1], choices).value, Run(s, t, choices).value, PageOf(t[|t| - 1].vaddr))
    requires UsesAgree(s, t[..|t| - 1], choices) && f < |Run(s, t, choices).value.core| && Run(s, t, choices).value.core[f].Some?
    ensures var q := Run(s, t, choices).value.core[f].value; q in PagesOf(t) && LastUsed(s, t, choices, f) == LastUse(PagesOf(t), q)
  {
    hide Good, Run, LastUsed, LastPassed, HandAt, ValidTrace, Scan, Evicts, FrameOf, LastUse, PagesOf;
    var n, t0 := |t| - 1, t[..|t| - 1];
    var s2, p := Run(s, t, choices).value, PageOf(t[n].vaddr);
    LastSteps(s, t, choices, f);
    var q := s2.core[f].value;
    if f == ServedIn(s, t, choices) {
      LastPage(t, p);
    } else {
      InOneFrame(s, t, choices, f, ServedIn(s, t, choices));
      LaterPage(t, q);
    }
  }

  lemma LastPage(t: seq<Ref>, p: nat)
    requires t != [] && PageOf(t[|t| - 1].vaddr) == p
    ensures p in PagesOf(t) && LastUse(PagesOf(t), p) == |t| - 1
  {
    assert PagesOf(t)[|t| - 1] == p;
  }

  lemma LaterPage(t: seq<Ref>, q: nat)
    requires t != [] && q in PagesOf(t[..|t| - 1]) && PageOf(t[|t| - 1].vaddr) != q
    ensures q in PagesOf(t) && LastUse(PagesOf(t), q) == LastUse(PagesOf(t[..|t| - 1]), q)
  {
    var n := |t| - 1;
    assert PagesOf(t)[..n] == PagesOf(t[..n]) && PagesOf(t) == PagesOf(t[..n]) + [PageOf(t[n].vaddr)];
    assert q in PagesOf(t[..n]);
  }

  /** No page is in two frames. */
  lemma InOneFrame(s: Sys, t: seq<Ref>, choices: nat -> nat, f: nat, g: nat)
    requires Good(s) && ValidTrace(t) && Run(s, t, choices).Some?
    requires var core := Run(s, t, choices).value.core; f < |core| && g < |core| && core[f].Some? && core[g].Some? && f != g
    ensures var core := Run(s, t, choices).value.core; core[f].value != core[g].value
  {
    hide Run, SlotsOk, CleanOk, PolicyOk, CountersOk;
    var s1 := Run(s, t, choices).value;
    assert Holds(s1, s1.core[f].value, f) && Holds(s1, s1.core[g].value, g);
  }

  lemma {:induction false} FramesFollowPages(s: Sys, memsize: nat, swapsize: nat, t: seq<Ref>, choices: nat -> nat)
    requires Initial(s, memsize, swapsize) && memsize > 0 && s.pol.Clock? && Good(s)
    requires ValidTrace(t) && Run(s, t, choices).Some?
    ensures UsesAgree(s, t, choices)
  {
    hide Good, AccessMem, LastUsed, LastUse, PagesOf, Ticks;
    if t == [] {
    } else {
      var n, t0 := |t| - 1, t[..|t| - 1];
      FramesFollowPages(s, memsize, swapsize, t0, choices);
      BitsTellRecency(s, memsize, swapsize, t0, choices);
      StepTicks(Run(s, t0, choices).value, t[n], choices(n));
      forall f | 0 <= f < |s.core| && Run(s, t, choices).value.core[f].Some?
        ensures var q := Run(s, t, choices).value.core[f].value; q in PagesOf(t) && LastUsed(s, t, choices, f) == LastUse(PagesOf(t), q)
      {
        UseStep(s, t, choices, f);
      }
    }
  }

  // ---------- the victim ----------

  /** Page q, which is in memory, has been referenced since the hand last went past its frame. */
  ghost predicate Fresh(s: Sys, t: seq<Ref>, choices: nat -> nat, q: nat)
    requires Good(s) && ValidTrace(t) && Run(s, t, choices).Some?
  {
    q in PagesOf(t) && LastUse(PagesOf(t), q) > LastPassed(s, t, choices, FrameOf(Run(s, t, choices).value, q))
  }

  /** How far page q is ahead of the hand. */
  ghost function FromHand(s: Sys, t: seq<Ref>, choices: nat -> nat, q: nat): nat
    requires Good(s) && ValidTrace(t) && Run(s, t, choices).Some?
  {
    var h, f := HandAt(s, t, choices), FrameOf(Run(s, t, choices).value, q);
    if h < |s.core| && f < |s.core| then Ahead(h, f, |s.core|) else 0
  }

  lemma FreshIsRecent(s: Sys, memsize: nat, swapsize: nat, t: seq<Ref>, choices: nat -> nat, q: nat)
    requires Initial(s, memsize, swapsize) && memsize > 0 && s.pol.Clock? && Good(s)
    requires ValidTrace(t) && Run(s, t, choices).Some? && q in Cached(Run(s, t, choices).value)
    ensures var s1 := Run(s, t, choices).value;
      && FrameOf(s1, q) < |s1.core| == |s.core| && s1.core[FrameOf(s1, q)] == Some(q)
      && (Fresh(s, t, choices, q) <==> Recent(s, t, choices, FrameOf(s1, q)))
  {
    hide Run, LastUsed, LastUse, LastPassed, PagesOf, SlotsOk, CleanOk, PolicyOk, CountersOk, Initial, ValidTrace;
    FramesFollowPages(s, memsize, swapsize, t, choices);
    var s1 := Run(s, t, choices).value;
    assert s1.core[FrameOf(s1, q)] == Some(q);
  }

  lemma VictimOfScan(s: Sys, choice: nat)
    requires Good(s) && s.pol.Clock? && FirstFree(s.core) == |s.core|
    ensures s.pol.hand < |s.pol.bits| == |s.core|
    ensures var f, v := Scan(s.pol.bits, s.pol.hand).0, Victim(s, choice);
      && v in Cached(s) && FrameOf(s, v) == f < |s.core|
  {
    hide SlotsOk, CleanOk, CountersOk, Scan;
    HeldAt(s, EvictNow(s, choice).0);
  }

  lemma FrameHolds(s: Sys, f: nat) returns (q: nat)
    requires Good(s) && FirstFree(s.core) == |s.core| && f < |s.core|
    ensures q in Cached(s) && FrameOf(s, q) == f
  {
    hide SlotsOk, CleanOk, CountersOk, PolicyOk;
    q := s.core[f].value;
    HeldAt(s, f);
  }

  /** When CLOCK evicts, the victim is the first page at or ahead of the hand that has not been
      referenced since the hand last went past it: every page in between has been. Only when every
      page in memory has been referenced since is it a fresh one, and then the one under the hand. */
  lemma ClockVictim(s: Sys, memsize: nat, swapsize: nat, t: seq<Ref>, choices: nat -> nat, choice: nat)
    requires Initial(s, memsize, swapsize) && memsize > 0 && s.pol.Clock? && Good(s)
    requires ValidTrace(t) && Run(s, t, choices).Some?
    requires FirstFree(Run(s, t, choices).value.core) == memsize
    ensures var s1 := Run(s, t, choices).value;
      var v := Victim(s1, choice);
      && v in Cached(s1)
      && if forall q :: q in Cached(s1) ==> Fresh(s, t, choices, q) then FrameOf(s1, v) == HandAt(s, t, choices)
         else
           && !Fresh(s, t, choices, v)
           && forall q :: q in Cached(s1) && FromHand(s, t, choices, q) < FromHand(s, t, choices, v) ==> Fresh(s, t, choices, q)
  {
    hide Good, Run, Cached, Fresh, Recent, Initial, Victim, Scan, ValidTrace, FrameOf, HandAt;
    var s1 := Run(s, t, choices).value;
    BitsTellRecency(s, memsize, swapsize, t, choices);
    StartSize(s, memsize, swapsize);
    VictimOfScan(s1, choice);
    ScanDecides(s1.pol.bits, s1.pol.hand);
    var v := Victim(s1, choice);
    forall q | q in Cached(s1) ensures FrameOf(s1, q) < |s1.core| && (Fresh(s, t, choices, q) <==> s1.pol.bits[FrameOf(s1, q)]) {
      FreshIsRecent(s, memsize, swapsize, t, choices, q);
    }
    if forall q :: q in Cached(s1) ==> Fresh(s, t, choices, q) {
      forall f | 0 <= f < |s1.core| ensures s1.pol.bits[f] {
        var q := FrameHolds(s1, f);
      }
    }
  }

  lemma StartSize(s: Sys, memsize: nat, swapsize: nat)
    requires Initial(s, memsize, swapsize)
    ensures |s.core| == memsize
  {}
}
