/** LRU and FIFO against any other policy on the same trace: with m frames against h <= m, the
    misses are within a factor m / (m - h + 1). */
module Competitive {
  import opened Prelude
  import opened PageTable
  import opened Paging
  import opened FlatMemory
  import opened Queues
  import opened Replacement

  /** The misses that any policy with h frames has made before its n-th phase begins to count:
      m + 1 in the first phase, which starts with empty memory, and m + 1 - h in each later one. */
  function Toll(m: nat, h: nat, n: nat): int {
    if n <= 1 then 0 else if n == 2 then m + 1 else Toll(m, h, n - 1) + m + 1 - h
  }

  /** What is known of any policy's run: memory at the start of the phase (c0) and the misses
      since (missed) account for every page seen in the phase and every page in memory. */
  ghost predicate Pays(m: nat, h: nat, ps: seq<nat>, cached: set<nat>, misses: nat, c0: set<nat>, missed: set<nat>) {
    var (n, d) := Phase(ps, m);
    && |c0| <= h && (n <= 1 ==> c0 == {})
    && d <= c0 + missed && cached <= c0 + missed
    && misses >= Toll(m, h, n) + |missed|
  }

  lemma SumSize(a: set<nat>, b: set<nat>, x: set<nat>)
    requires x <= a + b
    ensures |x| <= |a| + |b|
  {
    SubsetSize(x, a + b);
  }

  lemma PaysStep(m: nat, h: nat, ps: seq<nat>, cached: set<nat>, misses: nat, c0: set<nat>, missed: set<nat>,
                 cached': set<nat>, misses': nat) returns (c1: set<nat>, missed1: set<nat>)
    requires 0 < h <= m && ps != [] && Pays(m, h, ps[..|ps| - 1], cached, misses, c0, missed)
    requires var p := ps[|ps| - 1];
      && p in cached' && cached' <= cached + {p} && |cached'| <= h
      && misses' == misses + (if p in cached then 0 else 1)
    ensures Pays(m, h, ps, cached', misses', c1, missed1)
  {
    var p := ps[|ps| - 1];
    var (n, d) := Phase(ps[..|ps| - 1], m);
    PhaseOk(ps[..|ps| - 1], m);
    var missed' := if p in cached then missed else missed + {p};
    assert p in c0 + missed' && cached' <= c0 + missed' && |missed'| - |missed| <= misses' - misses;
    if n == 0 || |d + {p}| <= m {
      assert Phase(ps, m).1 <= d + {p};
      c1, missed1 := c0, missed';
    } else {
      SumSize(c0, missed', d + {p});
      assert Phase(ps, m) == (n + 1, {p});
      c1, missed1 := cached', {};
    }
  }

  /** One reference, whatever the policy chooses. */
  lemma PaysReference(s: Sys, m: nat, ps: seq<nat>, r: Ref, choice: nat, c0: set<nat>, missed: set<nat>)
    returns (c1: set<nat>, missed1: set<nat>)
    requires Good(s) && |s.core| <= m && ps != [] && PageOf(r.vaddr) == ps[|ps| - 1] < NUM_PAGES
    requires AccessMem(s, r, choice).Some?
    requires Pays(m, |s.core|, ps[..|ps| - 1], Cached(s), s.cnt.misses, c0, missed)
    ensures var s1 := AccessMem(s, r, choice).value; Pays(m, |s.core|, ps, Cached(s1), s1.cnt.misses, c1, missed1)
  {
    AccessKeeps(s, r, choice);
    hide Pays, Good, AccessMem;
    DemandPaging(s, r, choice);
    var s1 := AccessMem(s, r, choice).value;
    CachedFits(s1);
    SomeFrame(Cached(s1), PageOf(r.vaddr));
    c1, missed1 := PaysStep(m, |s.core|, ps, Cached(s), s.cnt.misses, c0, missed, Cached(s1), s1.cnt.misses);
  }

  lemma SomeFrame(a: set<nat>, p: nat)
    requires p in a
    ensures |a| > 0
  {}

  lemma PaysStart(s: Sys, m: nat, t: seq<Ref>, choices: nat -> nat)
    requires Good(s) && s.ptes == map[] && s.cnt.misses == 0 && t == [] && ValidTrace(t)
    ensures Run(s, t, choices) == Some(s) && Pays(m, |s.core|, PagesOf(t), Cached(s), s.cnt.misses, {}, {})
  {}

  /** Lower bound: what any policy has missed, with any victims. */
  lemma {:induction false} AnyPolicyPays(s: Sys, m: nat, t: seq<Ref>, choices: nat -> nat)
    returns (c0: set<nat>, missed: set<nat>)
    requires Good(s) && s.ptes == map[] && s.cnt.misses == 0 && |s.core| <= m
    requires ValidTrace(t) && Run(s, t, choices).Some?
    ensures var s1 := Run(s, t, choices).value;
      Pays(m, |s.core|, PagesOf(t), Cached(s1), s1.cnt.misses, c0, missed)
  {
    hide Pays, Good, Run, AccessMem, ValidTrace, Cached;
    if t == [] {
      c0, missed := {}, {};
      PaysStart(s, m, t, choices);
    } else {
      var n := |t| - 1;
      ValidPrefix(t, n);
      ValidAt(t, n);
      RunLast(s, t, choices);
      c0, missed := AnyPolicyPays(s, m, t[..n], choices);
      assert PagesOf(t)[..n] == PagesOf(t[..n]);
      c0, missed := PaysReference(Run(s, t[..n], choices).value, m, PagesOf(t), t[n], choices(n), c0, missed);
    }
  }

  lemma {:induction false} TollValue(m: nat, h: nat, n: nat)
    requires n >= 2
    ensures Toll(m, h, n) == m + 1 + (n - 2) * (m + 1 - h)
  {
    if n == 2 {
    } else {
      TollValue(m, h, n - 1);
      assert (n - 2) * (m + 1 - h) == (n - 3) * (m + 1 - h) + (m + 1 - h);
    }
  }

  /** d pages of a phase, of which at most h were there before it, in the last inequality. */
  lemma LastPhase(m: int, h: int, d: int, e: int)
    requires 1 <= h <= m && 0 <= d <= m && e >= 0 && e >= d - h
    ensures (m + d) * (m - h + 1) <= m * (m + 1 + e)
  {
    var k := m - h + 1;
    Distribute(m, d, k);
    if d <= h {
      Scale(m + d, m + h, k);
      Squares(m, h);
      Scale(m + 1, m + 1 + e, m);
    } else {
      Scale(k, m, d);
      Distribute(k, d, m);
      Scale(k + d, m + 1 + e, m);
    }
  }

  lemma Squares(m: int, h: int)
    requires 1 <= h <= m
    ensures (m + h) * (m - h + 1) <= m * (m + 1)
  {
    assert (m + h) * (m - h + 1) == m * (m + 1) - h * (h - 1);
    Scale(0, h - 1, h);
  }

  lemma Distribute(a: int, b: int, k: int)
    ensures (a + b) * k == a * k + b * k
  {}

  lemma Reassociate(a: int, b: int, c: int)
    ensures a * b * c == a * (b * c)
  {}

  lemma Scale(a: int, b: int, k: int)
    requires a <= b && k >= 0
    ensures a * k <= b * k && k * a <= k * b
  {}

  lemma Combine(m: int, h: int, n: int, d: int, e: int, ours: int, theirs: int)
    requires 1 <= h <= m && n >= 2 && 0 <= d <= m && e >= 0 && e >= d - h
    requires ours <= m * (n - 1) + d
    requires theirs >= m + 1 + (n - 2) * (m + 1 - h) + e
    ensures ours * (m - h + 1) <= m * theirs
  {
    var k := m - h + 1;
    var x := (n - 2) * k;
    LastPhase(m, h, d, e);
    Distribute(m, m * (n - 2), 1);
    assert m * (n - 1) == m * (n - 2) + m;
    Scale(ours, m * (n - 2) + (m + d), k);
    Distribute(m * (n - 2), m + d, k);
    Reassociate(m, n - 2, k);
    Scale(m + 1 + e + x, theirs, m);
    Distribute(m + 1 + e, x, m);
  }

  lemma PaysBound(m: nat, h: nat, ps: seq<nat>, cached: set<nat>, misses: nat, c0: set<nat>, missed: set<nat>)
    requires Pays(m, h, ps, cached, misses, c0, missed)
    ensures var (n, d) := Phase(ps, m);
      |c0| <= h && (n <= 1 ==> |c0| == 0) && |d| <= |c0| + |missed| && misses >= Toll(m, h, n) + |missed|
  {
    hide Phase, Toll;
    SumSize(c0, missed, Phase(ps, m).1);
  }

  lemma OursBound(kind: Kind, m: nat, ps: seq<nat>)
    requires m > 0 && ps != []
    ensures var (n, d) := Phase(ps, m); n > 0 && |d| <= m && |QMissed(kind, [], m, ps)| <= Budget(m, n - 1) + |d|
  {
    hide Phase, Recent, QRun, QMissed, Budget;
    var j := MissesPerPhase(kind, m, ps);
  }

  /** The two bounds together, for a trace of pages. */
  lemma Ratio(kind: Kind, m: nat, h: nat, ps: seq<nat>, cached: set<nat>, theirs: nat, c0: set<nat>, missed: set<nat>)
    requires 0 < h <= m && Pays(m, h, ps, cached, theirs, c0, missed)
    ensures |QMissed(kind, [], m, ps)| * (m - h + 1) <= m * theirs
  {
    hide Pays, Phase, Budget, Toll;
    if ps == [] {
      assert |QMissed(kind, [], m, ps)| == 0;
    } else {
      PaysBound(m, h, ps, cached, theirs, c0, missed);
      OursBound(kind, m, ps);
      var (n, d) := Phase(ps, m);
      Bound(m, h, n, |d|, |c0|, |missed|, |QMissed(kind, [], m, ps)|, theirs);
    }
  }

  /** The main theorem. On every trace, LRU or FIFO with m frames starting empty misses at most
      m / (m - h + 1) times as often as any policy, with any victims, using h <= m frames. */
  lemma LruAndFifoAreCompetitive(s: Sys, s': Sys, m: nat, h: nat, w: nat, w': nat, t: seq<Ref>,
                                 choices: nat -> nat, choices': nat -> nat, kind: Kind)
    requires Initial(s, m, w) && Initial(s', h, w') && 0 < h <= m && Good(s) && Good(s')
    requires if kind.LruKind? then s.pol.Lru? else s.pol.Fifo?
    requires ValidTrace(t) && Run(s, t, choices).Some? && Run(s', t, choices').Some?
    ensures Run(s, t, choices).value.cnt.misses * (m - h + 1) <= m * Run(s', t, choices').value.cnt.misses
  {
    hide Good, Run, Phase, QRun, QMissed, ValidTrace, Pays;
    InitialQueue(s, m, w, kind);
    RunIsQueue(s, t, choices, kind);
    var c0, missed := AnyPolicyPays(s', m, t, choices');
    var s1 := Run(s', t, choices').value;
    Ratio(kind, m, h, PagesOf(t), Cached(s1), s1.cnt.misses, c0, missed);
  }

  /** With equal memories the factor is memsize. */
  lemma SameMemory(s: Sys, s': Sys, m: nat, w: nat, w': nat, t: seq<Ref>,
                   choices: nat -> nat, choices': nat -> nat, kind: Kind)
    requires Initial(s, m, w) && Initial(s', m, w') && 0 < m && Good(s) && Good(s')
    requires if kind.LruKind? then s.pol.Lru? else s.pol.Fifo?
    requires ValidTrace(t) && Run(s, t, choices).Some? && Run(s', t, choices').Some?
    ensures Run(s, t, choices).value.cnt.misses <= m * Run(s', t, choices').value.cnt.misses
  {
    LruAndFifoAreCompetitive(s, s', m, m, w, w', t, choices, choices', kind);
  }

  lemma Bound(m: nat, h: nat, n: nat, d: nat, c0: nat, missed: nat, ours: nat, theirs: nat)
    requires 0 < h <= m && n > 0 && d <= m && c0 <= h && (n == 1 ==> c0 == 0) && d <= c0 + missed
    requires ours <= Budget(m, n - 1) + d && theirs >= Toll(m, h, n) + missed
    ensures ours * (m - h + 1) <= m * theirs
  {
    if n == 1 {
      assert ours <= theirs;
      assert ours * (m - h + 1) <= theirs * (m - h + 1) <= theirs * m;
    } else {
      TollValue(m, h, n);
      Combine(m, h, n, d, missed, ours, theirs);
    }
  }
}
