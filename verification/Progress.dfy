/** Progress of the intersection: no reachable unfinished state is stuck, every run is bounded,
    and a finished run has put every scheduled car on its exit list. */
module Progress {
  import opened Prelude
  import opened Lanes
  import opened Intersection

  predicate AllDone(w: World)
    requires Sized(w)
  {
    forall l :: 0 <= l < LANES ==> w.arrive[l].ADone? && w.cross[l].CDone?
  }

  predicate Enabled(w: World, t: Thread)
    requires Inv(w)
  {
    t.l < LANES && Step(w, t).Some?
  }

  // ---------- no deadlock, no lost wakeup ----------

  /** The holder of a lane lock never waits while it holds it. */
  lemma HolderMoves(w: World, x: nat, t: Thread)
    requires Inv(w) && x < LANES && w.laneLock[x] == Some(t)
    ensures Enabled(w, t)
  {
    hide LanesOk, WaitsOk, CarriedOk, AccountsOk;
    assert HoldsLane(w, t, x);
    InvReady(w, t.l);
  }

  predicate LanesFree(w: World)
    requires Sized(w)
  {
    forall x :: 0 <= x < LANES ==> w.laneLock[x].None?
  }

  /** A car on the road waits for a quadrant only while another waits for a later one: the chain
      of waiting cars climbs the quadrants and ends at a thread that can move. */
  lemma {:induction false} ChaseQuadrant(w: World, l: nat) returns (t: Thread)
    requires Inv(w) && LanesFree(w) && l < LANES && w.cross[l].CPath?
    ensures Enabled(w, t)
    decreases if w.cross[l].k < |w.cross[l].c.route| && w.cross[l].c.route[w.cross[l].k] < QUADS
              then QUADS - w.cross[l].c.route[w.cross[l].k] else 0
  {
    InvReady(w, l);
    var c, k := w.cross[l].c, w.cross[l].k;
    if k == |c.route| || w.quadLock[c.route[k]].None? {
      t := Cross(l);
    } else {
      var q := c.route[k];
      t := w.quadLock[q].value;
      assert HoldsQuad(w, t, q);
      InvReady(w, t.l);
      if w.cross[t.l].CPath? {
        var c', k' := w.cross[t.l].c, w.cross[t.l].k;
        var i :| 0 <= i < k' <= |c'.route| && c'.route[i] == q;
        assert k' < |c'.route| ==> c'.route[i] < c'.route[k'];
        t := ChaseQuadrant(w, t.l);
      }
    }
  }

  /** With all locks free and no car on the road, somebody awake can move: if a lane's buffer is
      full its crossing thread is not asleep, and if it is empty its arrival thread is not. */
  lemma SomebodyAwake(w: World, l: nat) returns (t: Thread)
    requires Inv(w) && LanesFree(w) && l < LANES && !OnRoad(w.cross[l])
    requires !(w.arrive[l].ADone? && w.cross[l].CDone?)
    ensures Enabled(w, t)
  {
    hide AccountsOk, LocksOk;
    InvReady(w, l);
    assert WaitOk(w.lanes[l], w.arrive[l], w.cross[l]);
    t := if Step(w, Arrive(l)).Some? then Arrive(l) else Cross(l);
  }

  /** In every state that satisfies the invariant and is not finished, some thread can move. */
  lemma NeverStuck(w: World) returns (t: Thread)
    requires Inv(w) && !AllDone(w)
    ensures Enabled(w, t)
  {
    if x :| 0 <= x < LANES && w.laneLock[x].Some? {
      HolderMoves(w, x, w.laneLock[x].value);
      t := w.laneLock[x].value;
    } else if l :| 0 <= l < LANES && OnRoad(w.cross[l]) {
      InvReady(w, l);
      if w.cross[l].CPath? {
        t := ChaseQuadrant(w, l);
      } else {
        t := Cross(l);
      }
    } else {
      var l :| 0 <= l < LANES && !(w.arrive[l].ADone? && w.cross[l].CDone?);
      t := SomebodyAwake(w, l);
    }
  }

  // ---------- every run is bounded ----------

  function RankA(a: APc): nat {
    match a
    case ADone => 0
    case AExitUnlock => 1
    case AExitSignal => 2
    case AWait => 3
    case AFull => 4
    case AWoken => 5
    case ALocked => 5
    case AStart => 6
    case ASignalled => 7
    case APut => 10
  }

  function RankC(c: CPc): int {
    match c
    case CDone => 0
    case CExitUnlock => 1
    case CWait => 3
    case CEmpty => 4
    case CWoken => 5
    case CLocked => 5
    case CStart => 6
    case CRelease(c, k) => 7 + |c.route| - k
    case CPushed(c) => 8 + |c.route|
    case CExit(c) => 9 + |c.route|
    case CPath(c, k) => 10 + 2 * |c.route| - k
    case CSignalled(c) => 11 + 2 * |c.route|
    case CTaken(c) => 14 + 2 * |c.route|
  }

  /** What one lane's threads can still do: their places, the cars still to arrive and the cars
      still to be taken. */
  function LaneMeasure(lane: Lane, a: APc, c: CPc): int {
    RankA(a) + RankC(c) + 8 * |lane.inCars| + 30 * (|lane.inCars| + lane.inBuf)
  }

  function Measures(w: World): (s: seq<int>)
    requires Sized(w)
    ensures |s| == LANES
  {
    seq(LANES, l requires 0 <= l < LANES => LaneMeasure(w.lanes[l], w.arrive[l], w.cross[l]))
  }

  function Sum(s: seq<int>): int {
    if s == [] then 0 else s[0] + Sum(s[1..])
  }

  function Measure(w: World): int
    requires Sized(w)
  {
    Sum(Measures(w))
  }

  lemma {:induction false} SumUpdate(s: seq<int>, l: nat, v: int)
    requires l < |s|
    ensures Sum(s[l := v]) == Sum(s) - s[l] + v
  {
    if l == 0 {
      assert s[0 := v][1..] == s[1..];
    } else {
      assert s[l := v][1..] == s[1..][l - 1 := v];
      SumUpdate(s[1..], l - 1, v);
    }
  }

  lemma {:induction false} SumNonNegative(s: seq<int>)
    requires forall i :: 0 <= i < |s| ==> s[i] >= 0
    ensures Sum(s) >= 0
  {
    if s == [] {
    } else {
      SumNonNegative(s[1..]);
    }
  }

  lemma {:induction false} RouteIsShort(route: seq<nat>, n: nat)
    requires Ascending(route) && forall i :: 0 <= i < |route| ==> route[i] < n
    ensures |route| <= n
    decreases n
  {
    if route == [] {
    } else {
      var k := |route| - 1;
      assert Ascending(route[..k]);
      RouteIsShort(route[..k], route[k]);
    }
  }

  /** A step changes one lane's measure, downwards. */
  ghost predicate Lowered(w: World, w2: World, l: nat, drop: int)
    requires Sized(w) && Sized(w2) && l < LANES
  {
    && Measures(w2)[l] <= Measures(w)[l] - drop
    && forall x :: 0 <= x < LANES && x != l ==> Measures(w2)[x] == Measures(w)[x]
  }

  lemma LoweredSum(w: World, w2: World, l: nat, drop: int)
    requires Sized(w) && Sized(w2) && l < LANES && Lowered(w, w2, l, drop)
    ensures Measure(w2) <= Measure(w) - drop
  {
    assert Measures(w2) == Measures(w)[l := Measures(w2)[l]];
    SumUpdate(Measures(w), l, Measures(w2)[l]);
  }

  lemma LockingLowers(w: World, l: nat, w2: World)
    requires ArriveReady(w, l) && ArriveStep(w, l) == Some(w2)
    requires w.arrive[l].AStart? || w.arrive[l].ALocked? || w.arrive[l].AExitSignal? || w.arrive[l].AExitUnlock?
    ensures Lowered(w, w2, l, 1)
  {}

  lemma PuttingLowers(w: World, l: nat, w2: World)
    requires ArriveReady(w, l) && ArriveStep(w, l) == Some(w2)
    requires w.arrive[l].AFull? || w.arrive[l].AWoken?
    ensures Lowered(w, w2, l, 1)
  {}

  lemma SignallingLowers(w: World, l: nat, w2: World)
    requires ArriveReady(w, l) && ArriveStep(w, l) == Some(w2)
    requires w.arrive[l].APut? || w.arrive[l].ASignalled?
    ensures Lowered(w, w2, l, 1)
  {}

  lemma ArriveLowers(w: World, l: nat, w2: World)
    requires ArriveReady(w, l) && ArriveStep(w, l) == Some(w2)
    ensures Lowered(w, w2, l, 1)
  {
    hide LaneOk, Lowered;
    if w.arrive[l].AFull? || w.arrive[l].AWoken? {
      PuttingLowers(w, l, w2);
    } else if w.arrive[l].APut? || w.arrive[l].ASignalled? {
      SignallingLowers(w, l, w2);
    } else {
      LockingLowers(w, l, w2);
    }
  }

  lemma TakingLowers(w: World, l: nat, w2: World)
    requires CrossReady(w, l) && (w.cross[l].CEmpty? || w.cross[l].CWoken?) && CrossInLane(w, l) == Some(w2)
    requires w2.cross[l].CTaken? ==> |w2.cross[l].c.route| <= QUADS
    ensures Lowered(w, w2, l, 1)
  {}

  lemma TestingLowers(w: World, l: nat, w2: World)
    requires CrossReady(w, l) && (w.cross[l].CStart? || w.cross[l].CLocked? || w.cross[l].CExitUnlock?)
    requires CrossInLane(w, l) == Some(w2)
    ensures Lowered(w, w2, l, 1)
  {}

  lemma LeavingLowers(w: World, l: nat, w2: World)
    requires CrossReady(w, l) && (w.cross[l].CTaken? || w.cross[l].CSignalled?) && CrossInLane(w, l) == Some(w2)
    ensures Lowered(w, w2, l, 1)
  {}

  lemma InLaneLowers(w: World, l: nat, w2: World)
    requires CrossReady(w, l) && !OnRoad(w.cross[l]) && CrossInLane(w, l) == Some(w2)
    requires w2.cross[l].CTaken? ==> |w2.cross[l].c.route| <= QUADS
    ensures Lowered(w, w2, l, 1)
  {
    hide LaneOk, Lowered, CarOk;
    if w.cross[l].CWait? || w.cross[l].CDone? {
    } else if w.cross[l].CEmpty? || w.cross[l].CWoken? {
      TakingLowers(w, l, w2);
    } else if w.cross[l].CTaken? || w.cross[l].CSignalled? {
      LeavingLowers(w, l, w2);
    } else {
      TestingLowers(w, l, w2);
    }
  }

  lemma OnRoadLowers(w: World, l: nat, w2: World)
    requires CrossReady(w, l) && OnRoad(w.cross[l]) && CrossOnRoad(w, l) == Some(w2)
    requires w.cross[l].CPath? || w.cross[l].CRelease? ==> w.cross[l].k <= |w.cross[l].c.route|
    ensures Lowered(w, w2, l, 1)
  {}

  /** Every step lowers the measure. */
  lemma StepLowers(w: World, t: Thread)
    requires Inv(w) && Enabled(w, t)
    ensures Measure(Step(w, t).value) < Measure(w)
  {
    hide LocksOk, AccountsOk, LanesOk, WaitsOk;
    InvReady(w, t.l);
    StepKeeps(w, t);
    var w2 := Step(w, t).value;
    match t {
      case Arrive(l) =>
        ArriveLowers(w, l, w2);
      case Cross(l) =>
        CrossLowers(w, l, w2);
    }
    LoweredSum(w, w2, t.l, 1);
  }

  lemma CarriedCar(w: World, l: nat)
    requires Sized(w) && CarriedOk(w) && l < LANES && Carried(w.cross[l]) != []
    ensures CarOk(w.cross[l].c)
  {
    assert Carried(w.cross[l])[0] == w.cross[l].c;
    assert w.cross[l].c in Carried(w.cross[l]);
  }

  lemma CrossLowers(w: World, l: nat, w2: World)
    requires Sized(w) && CarriedOk(w) && CrossReady(w, l) && CrossStep(w, l) == Some(w2) && CarriedOk(w2)
    ensures Lowered(w, w2, l, 1)
  {
    if OnRoad(w.cross[l]) {
      OnRoadLowers(w, l, w2);
    } else {
      if w2.cross[l].CTaken? {
        CarriedCar(w2, l);
        RouteIsShort(w2.cross[l].c.route, QUADS);
      }
      InLaneLowers(w, l, w2);
    }
  }

  /** A wakeup without a signal costs two more steps at most. */
  lemma SpuriousRaises(w: World, t: Thread)
    requires Inv(w) && t.l < LANES
    ensures Measure(Spurious(w, t)) <= Measure(w) + 2
  {
    var w2 := Spurious(w, t);
    assert Lowered(w, w2, t.l, -2);
    LoweredSum(w, w2, t.l, -2);
  }

  lemma MeasureNonNegative(w: World)
    requires Inv(w)
    ensures Measure(w) >= 0
  {
    hide LocksOk, AccountsOk, LanesOk, WaitsOk;
    SumNonNegative(Measures(w));
  }

  // ---------- runs ----------

  datatype Event = Move(t: Thread) | Wake(t: Thread)

  /** The start: cars scheduled, nothing locked, all threads at the top of their loops. The
      buffers' contents are arbitrary. */
  ghost predicate Initial(w: World) {
    && Sized(w)
    && (forall l :: 0 <= l < LANES ==>
          && var lane := w.lanes[l];
          && LaneOk(lane) && lane.inCars == w.schedule[l] && lane.inBuf == 0 && lane.outCars == []
          && w.arrive[l].AStart? && w.cross[l].CStart? && w.crossed[l] == []
          && w.laneLock[l].None?
          && (forall c :: c in w.schedule[l] ==> CarOk(c)))
    && (forall q :: 0 <= q < QUADS ==> w.quadLock[q].None?)
  }

  lemma {:induction false} NothingTallied(lists: seq<seq<Car>>, c: Car)
    requires forall i :: 0 <= i < |lists| ==> c !in lists[i]
    ensures Tally(lists, c) == 0
  {
    if lists == [] {
    } else {
      NothingTallied(lists[1..], c);
    }
  }

  lemma InitialInv(w: World)
    requires Initial(w)
    ensures Inv(w)
  {
    forall c ensures Tally(w.crossed, c) == Tally(Crossings(w.cross), c) + Tally(OutLists(w.lanes), c) {
      NothingTallied(w.crossed, c);
      NothingTallied(Crossings(w.cross), c);
      NothingTallied(OutLists(w.lanes), c);
    }
  }

  /** The state after a sequence of events; None if a thread was asked to move when it could not. */
  ghost function Run(w: World, es: seq<Event>): (r: Option<World>)
    requires Inv(w) && forall e :: e in es ==> e.t.l < LANES
    ensures r.Some? ==> Inv(r.value) && r.value.schedule == w.schedule
  {
    if es == [] then Some(w)
    else
      var e := es[|es| - 1];
      match Run(w, es[..|es| - 1])
      case None => None
      case Some(w1) =>
        if e.Wake? then
          SpuriousKeeps(w1, e.t);
          Some(Spurious(w1, e.t))
        else
          var r := Step(w1, e.t);
          if r.Some? then StepKeeps(w1, e.t); r else None
  }

  function Moves(es: seq<Event>): nat {
    if es == [] then 0 else Moves(es[..|es| - 1]) + if es[|es| - 1].Move? then 1 else 0
  }

  function Wakes(es: seq<Event>): nat {
    if es == [] then 0 else Wakes(es[..|es| - 1]) + if es[|es| - 1].Wake? then 1 else 0
  }

  /** Every run is finite: its moves are at most the initial measure, plus two for each wakeup
      that came without a signal. */
  lemma {:induction false} RunsAreBounded(w: World, es: seq<Event>)
    requires Inv(w) && (forall e :: e in es ==> e.t.l < LANES) && Run(w, es).Some?
    ensures Moves(es) + Measure(Run(w, es).value) <= Measure(w) + 2 * Wakes(es)
    ensures Moves(es) <= Measure(w) + 2 * Wakes(es)
  {
    if es == [] {
    } else {
      var n := |es| - 1;
      RunsAreBounded(w, es[..n]);
      var w1 := Run(w, es[..n]).value;
      if es[n].Wake? {
        SpuriousRaises(w1, es[n].t);
      } else {
        StepLowers(w1, es[n].t);
      }
    }
    MeasureNonNegative(Run(w, es).value);
  }

  lemma {:induction false} TallyOfOne(lists: seq<seq<Car>>, d: nat, c: Car)
    requires d < |lists| && forall i :: 0 <= i < |lists| && i != d ==> c !in lists[i]
    ensures Tally(lists, c) == multiset(lists[d])[c]
  {
    if d == 0 {
      NothingTallied(lists[1..], c);
    } else {
      TallyOfOne(lists[1..], d - 1, c);
    }
  }

  /** What a finished intersection looks like: each exit list holds exactly the scheduled cars
      bound for it, nothing is left behind, and no lock is held. */
  lemma FinishedState(w: World)
    requires Inv(w) && AllDone(w)
    ensures forall d, c :: 0 <= d < LANES ==>
      multiset(w.lanes[d].outCars)[c] == if c.outDir == d then Tally(w.schedule, c) else 0
    ensures forall l :: 0 <= l < LANES ==>
      && w.lanes[l].inCars == [] && w.lanes[l].inBuf == 0 && w.lanes[l].inc == 0
      && w.lanes[l].passed == |w.lanes[l].outCars|
    ensures LanesFree(w) && forall q :: 0 <= q < QUADS ==> w.quadLock[q].None?
  {
    forall l | 0 <= l < LANES
      ensures w.lanes[l].inCars == [] && w.lanes[l].inBuf == 0 && w.crossed[l] == w.schedule[l] && w.lanes[l].inc == 0
    {
      assert WaitOk(w.lanes[l], w.arrive[l], w.cross[l]);
    }
    assert w.crossed == w.schedule;
    forall d, c | 0 <= d < LANES
      ensures multiset(w.lanes[d].outCars)[c] == if c.outDir == d then Tally(w.schedule, c) else 0
    {
      if c.outDir == d {
        NothingTallied(Crossings(w.cross), c);
        TallyOfOne(OutLists(w.lanes), d, c);
      }
    }
    assert forall t, x :: 0 <= x < LANES ==> !HoldsLane(w, t, x);
    assert forall t, q :: 0 <= q < QUADS ==> !HoldsQuad(w, t, q);
  }

  /** The main theorem. From the start, under every scheduling of the eight threads and with any
      spurious wakeups: the run is bounded, it can be continued unless all threads have
      returned, and when they have, every scheduled car is on the exit list of its outDir. */
  lemma EveryCarCrosses(w0: World, es: seq<Event>) returns (t: Thread)
    requires Initial(w0) && Inv(w0) && (forall e :: e in es ==> e.t.l < LANES) && Run(w0, es).Some?
    ensures Moves(es) <= Measure(w0) + 2 * Wakes(es)
    ensures var w := Run(w0, es).value;
      if AllDone(w)
      then forall d, c :: 0 <= d < LANES ==>
             multiset(w.lanes[d].outCars)[c] == if c.outDir == d then Tally(w0.schedule, c) else 0
      else Enabled(w, t)
  {
    RunsAreBounded(w0, es);
    var w := Run(w0, es).value;
    t := Arrive(0);
    if AllDone(w) {
      FinishedState(w);
    } else {
      t := NeverStuck(w);
    }
  }

  /** Whenever a lane's lock is free: inc counts the cars still to be taken, the ring holds the
      pending cars in order of arrival, and the lane's schedule is what has crossed, what is
      pending and what has not arrived, in that order. */
  lemma LaneAtRest(w0: World, es: seq<Event>, l: nat)
    requires Inv(w0) && (forall e :: e in es ==> e.t.l < LANES) && Run(w0, es).Some? && l < LANES
    ensures var w := Run(w0, es).value;
      var lane := w.lanes[l];
      && lane.inc == |lane.inCars| + lane.inBuf && lane.inBuf <= lane.Capacity()
      && lane.tail == (lane.head + lane.inBuf) % lane.Capacity()
      && |Pending(lane)| == lane.inBuf
      && (forall k :: 0 <= k < lane.inBuf ==> Pending(lane)[k] == lane.buffer[(lane.head + k) % lane.Capacity()])
      && w.crossed[l] + Pending(lane) + lane.inCars == w0.schedule[l]
  {
    var lane := Run(w0, es).value.lanes[l];
    forall k: nat | k <= lane.Capacity() ensures Wrap(lane.head, k, lane.Capacity()) == (lane.head + k) % lane.Capacity() {
      WrapIsMod(lane.head, k, lane.Capacity());
    }
  }

  lemma WrapIsMod(i: nat, k: nat, n: nat)
    requires i < n && k <= n
    ensures Wrap(i, k, n) == (i + k) % n
  {
    if i + k < n {
      ModUnique(i + k, n, 0, i + k);
    } else {
      ModUnique(i + k, n, 1, i + k - n);
    }
  }

  /** No quadrant is held by two cars, whether they are still locking, crossing or releasing; a car
      that crosses holds its whole route. */
  lemma QuadrantsAreExclusive(w: World, i: nat, j: nat, q: nat)
    requires Inv(w) && i < LANES && j < LANES && i != j
    ensures !(Holding(w.cross[i], q) && Holding(w.cross[j], q))
    ensures w.cross[i].CExit? || w.cross[i].CPushed? ==> (Holding(w.cross[i], q) <==> q in w.cross[i].c.route)
  {
    InvReady(w, i);
    if Holding(w.cross[i], q) {
      assert q < QUADS;
      assert w.quadLock[q] == Some(Cross(i)) <==> HoldsQuad(w, Cross(i), q);
      assert w.quadLock[q] == Some(Cross(j)) <==> HoldsQuad(w, Cross(j), q);
    }
  }
}
