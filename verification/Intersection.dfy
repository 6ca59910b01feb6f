/** The eight threads of the intersection as a transition system: one step is one lock, unlock,
    test, wait, signal or critical section of one thread, and any thread may go next. */
module Intersection {
  import opened Prelude
  import opened Lanes

  const LANES := 4
  const QUADS := 4

  datatype Thread = Arrive(l: nat) | Cross(l: nat)

  /** Where an arrival thread is. From ALocked to ASignalled, and in the two exit states, it
      holds its lane's lock; in AWait it sleeps on consumer_cv. */
  datatype APc = AStart | ALocked | AFull | AWait | AWoken | APut | ASignalled
               | AExitSignal | AExitUnlock | ADone

  /** Where a crossing thread is. In CPath(c, k) it holds the first k quadrants of c's route; in
      CExit and CPushed all of them and the exit lane's lock; in CRelease(c, k) the quadrants
      from the k-th on. In CWait it sleeps on producer_cv. */
  datatype CPc = CStart | CLocked | CEmpty | CWait | CWoken | CExitUnlock | CDone
               | CTaken(c: Car) | CSignalled(c: Car) | CPath(c: Car, k: nat)
               | CExit(c: Car) | CPushed(c: Car) | CRelease(c: Car, k: nat)

  /** `schedule` is the cars given to each lane and never changes; `crossed` records, for each
      lane, the cars taken from its buffer so far. */
  datatype World = World(lanes: seq<Lane>, laneLock: seq<Option<Thread>>, quadLock: seq<Option<Thread>>,
                         arrive: seq<APc>, cross: seq<CPc>,
                         schedule: seq<seq<Car>>, crossed: seq<seq<Car>>)

  // ---------- steps ----------

  predicate Sized(w: World) {
    && |w.lanes| == |w.laneLock| == |w.arrive| == |w.cross| == |w.schedule| == |w.crossed| == LANES
    && |w.quadLock| == QUADS
  }

  function LockLane(w: World, t: Thread, x: nat): World
    requires Sized(w) && x < LANES
  {
    w.(laneLock := w.laneLock[x := Some(t)])
  }

  function UnlockLane(w: World, x: nat): World
    requires Sized(w) && x < LANES
  {
    w.(laneLock := w.laneLock[x := None])
  }

  function ToA(w: World, l: nat, pc: APc): World
    requires Sized(w) && l < LANES
  {
    w.(arrive := w.arrive[l := pc])
  }

  function ToC(w: World, l: nat, pc: CPc): World
    requires Sized(w) && l < LANES
  {
    w.(cross := w.cross[l := pc])
  }

  /** A signal wakes the one thread that can sleep on the variable, or is lost. */
  function SignalConsumer(w: World, l: nat): World
    requires Sized(w) && l < LANES
  {
    if w.arrive[l].AWait? then ToA(w, l, AWoken) else w
  }

  function SignalProducer(w: World, l: nat): World
    requires Sized(w) && l < LANES
  {
    if w.cross[l].CWait? then ToC(w, l, CWoken) else w
  }

  predicate ArriveReady(w: World, l: nat) {
    Sized(w) && l < LANES && LaneOk(w.lanes[l]) && (w.arrive[l].AFull? ==> w.lanes[l].inCars != [])
  }

  predicate CrossReady(w: World, l: nat) {
    Sized(w) && l < LANES && LaneOk(w.lanes[l]) && (Carried(w.cross[l]) != [] ==> CarOk(w.cross[l].c))
  }

  /** The next step of lane l's arrival thread; None when it cannot move. */
  function ArriveStep(w: World, l: nat): (r: Option<World>)
    requires ArriveReady(w, l)
    ensures r.Some? ==> Sized(r.value)
  {
    var lane := w.lanes[l];
    match w.arrive[l]
    case AStart => if w.laneLock[l].Some? then None else Some(LockLane(ToA(w, l, ALocked), Arrive(l), l))
    case ALocked => Some(ToA(w, l, if lane.inc <= 0 || lane.inCars == [] then AExitSignal else AFull))
    case AExitSignal => Some(ToA(SignalConsumer(w, l), l, AExitUnlock))
    case AExitUnlock => Some(UnlockLane(ToA(w, l, ADone), l))
    case AFull =>
      if lane.inBuf == lane.Capacity() then Some(UnlockLane(ToA(w, l, AWait), l))
      else Some(ToA(w.(lanes := w.lanes[l := PutCar(lane)]), l, APut))
    case AWait => None
    case AWoken => if w.laneLock[l].Some? then None else Some(LockLane(ToA(w, l, AFull), Arrive(l), l))
    case APut => Some(ToA(SignalProducer(w, l), l, ASignalled))
    case ASignalled => Some(UnlockLane(ToA(w, l, AStart), l))
    case ADone => None
  }

  /** The crossing thread at its own lane: testing, waiting, taking a car. */
  function CrossInLane(w: World, l: nat): (r: Option<World>)
    requires CrossReady(w, l) && !OnRoad(w.cross[l])
    ensures r.Some? ==> Sized(r.value)
  {
    var lane := w.lanes[l];
    match w.cross[l]
    case CStart => if w.laneLock[l].Some? then None else Some(LockLane(ToC(w, l, CLocked), Cross(l), l))
    case CLocked => Some(ToC(w, l, if lane.inc <= 0 then CExitUnlock else CEmpty))
    case CExitUnlock => Some(UnlockLane(ToC(w, l, CDone), l))
    case CEmpty =>
      if lane.inBuf == 0 then Some(UnlockLane(ToC(w, l, CWait), l))
      else
        var (lane', c) := TakeCar(lane);
        Some(ToC(w.(lanes := w.lanes[l := lane'], crossed := w.crossed[l := w.crossed[l] + [c]]), l, CTaken(c)))
    case CWait => None
    case CWoken => if w.laneLock[l].Some? then None else Some(LockLane(ToC(w, l, CEmpty), Cross(l), l))
    case CTaken(c) => Some(ToC(SignalConsumer(w, l), l, CSignalled(c)))
    case CSignalled(c) => Some(UnlockLane(ToC(w, l, CPath(c, 0)), l))
    case CDone => None
  }

  predicate OnRoad(pc: CPc) {
    pc.CPath? || pc.CExit? || pc.CPushed? || pc.CRelease?
  }

  /** The crossing thread on the road: quadrants in route order, then the exit lane, then the
      quadrants back in the same order. */
  function CrossOnRoad(w: World, l: nat): (r: Option<World>)
    requires CrossReady(w, l) && OnRoad(w.cross[l])
    ensures r.Some? ==> Sized(r.value)
  {
    match w.cross[l]
    case CPath(c, k) =>
      if k < |c.route| then
        if w.quadLock[c.route[k]].Some? then None
        else Some(ToC(w.(quadLock := w.quadLock[c.route[k] := Some(Cross(l))]), l, CPath(c, k + 1)))
      else if w.laneLock[c.outDir].Some? then None
      else Some(LockLane(ToC(w, l, CExit(c)), Cross(l), c.outDir))
    case CExit(c) => Some(ToC(w.(lanes := w.lanes[c.outDir := PassCar(w.lanes[c.outDir], c)]), l, CPushed(c)))
    case CPushed(c) => Some(UnlockLane(ToC(w, l, CRelease(c, 0)), c.outDir))
    case CRelease(c, k) =>
      if k < |c.route| then
        Some(ToC(w.(quadLock := w.quadLock[c.route[k] := None]), l, CRelease(c, k + 1)))
      else Some(ToC(w, l, CStart))
  }

  /** The next step of lane l's crossing thread; None when it cannot move. */
  function CrossStep(w: World, l: nat): (r: Option<World>)
    requires CrossReady(w, l)
    ensures r.Some? ==> Sized(r.value)
  {
    if OnRoad(w.cross[l]) then CrossOnRoad(w, l) else CrossInLane(w, l)
  }

  function Step(w: World, t: Thread): Option<World>
    requires Inv(w) && t.l < LANES
  {
    InvReady(w, t.l);
    match t
    case Arrive(l) => ArriveStep(w, l)
    case Cross(l) => CrossStep(w, l)
  }

  /** A thread that sleeps may also wake without a signal. */
  function Spurious(w: World, t: Thread): World
    requires Inv(w) && t.l < LANES
  {
    match t
    case Arrive(l) => SignalConsumer(w, l)
    case Cross(l) => SignalProducer(w, l)
  }

  // ---------- the invariant ----------

  predicate Ascending(route: seq<nat>) {
    && (forall i :: 0 <= i < |route| ==> route[i] < QUADS)
    && (forall i, j :: 0 <= i < j < |route| ==> route[i] < route[j])
  }

  predicate CarOk(c: Car) {
    c.outDir < LANES && Ascending(c.route)
  }

  /** The lane lock x is held by the thread at this place in its program. */
  predicate HoldsLane(w: World, t: Thread, x: nat)
    requires Sized(w)
  {
    t.l < LANES &&
    match t
    case Arrive(l) => x == l && !w.arrive[l].AStart? && !w.arrive[l].AWait? && !w.arrive[l].AWoken? && !w.arrive[l].ADone?
    case Cross(l) =>
      match w.cross[l]
      case CLocked => x == l
      case CEmpty => x == l
      case CExitUnlock => x == l
      case CTaken(_) => x == l
      case CSignalled(_) => x == l
      case CExit(c) => x == c.outDir
      case CPushed(c) => x == c.outDir
      case _ => false
  }

  predicate HoldsQuad(w: World, t: Thread, q: nat)
    requires Sized(w)
  {
    t.Cross? && t.l < LANES &&
    Holding(w.cross[t.l], q)
  }

  /** The quadrants held at a place in the program. */
  predicate Holding(pc: CPc, q: nat) {
    match pc
    case CPath(c, k) => q in c.route[..Min(k, |c.route|)]
    case CExit(c) => q in c.route
    case CPushed(c) => q in c.route
    case CRelease(c, k) => q in c.route[Min(k, |c.route|)..]
    case _ => false
  }

  function Min(a: nat, b: nat): nat {
    if a < b then a else b
  }

  /** Each lock is held by exactly the thread whose program says so. */
  ghost predicate LocksOk(w: World)
    requires Sized(w)
  {
    && (forall x, t :: 0 <= x < LANES ==> (w.laneLock[x] == Some(t) <==> HoldsLane(w, t, x)))
    && (forall q, t :: 0 <= q < QUADS ==> (w.quadLock[q] == Some(t) <==> HoldsQuad(w, t, q)))
  }

  /** Every lane is in order, and what has crossed, what is in the buffer and what is still to
      arrive make up the lane's schedule, in that order. */
  ghost predicate LanesOk(w: World)
    requires Sized(w)
  {
    forall l :: 0 <= l < LANES ==>
      && LaneOk(w.lanes[l])
      && w.crossed[l] + Pending(w.lanes[l]) + w.lanes[l].inCars == w.schedule[l]
      && (forall c :: c in w.schedule[l] ==> CarOk(c))
  }

  /** A sleeping thread has reason to sleep, or its partner is about to signal; a finished
      thread has nothing left to do. */
  predicate WaitOk(lane: Lane, a: APc, c: CPc) {
    && (a.AWait? ==> lane.inBuf == lane.Capacity() || c.CTaken?)
    && (a.AFull? || a.AWait? || a.AWoken? ==> lane.inCars != [])
    && (a.AExitSignal? || a.AExitUnlock? || a.ADone? ==> lane.inCars == [])
    && (c.CWait? ==> lane.inBuf == 0 || a.APut?)
    && (c.CEmpty? || c.CWait? || c.CWoken? ==> lane.inc > 0)
    && (c.CExitUnlock? || c.CDone? ==> lane.inc <= 0)
  }

  ghost predicate WaitsOk(w: World)
    requires Sized(w)
  {
    forall l :: 0 <= l < LANES ==> WaitOk(w.lanes[l], w.arrive[l], w.cross[l])
  }

  /** The car a crossing thread carries. */
  function Carried(pc: CPc): seq<Car> {
    if pc.CTaken? || pc.CSignalled? || pc.CPath? || pc.CExit? || pc.CPushed? || pc.CRelease? then [pc.c] else []
  }

  /** The car it carries and has not yet put on an exit list. */
  function Crossing(pc: CPc): seq<Car> {
    if pc.CPushed? || pc.CRelease? then [] else Carried(pc)
  }

  ghost predicate CarriedOk(w: World)
    requires Sized(w)
  {
    && (forall l, c :: 0 <= l < LANES && c in Carried(w.cross[l]) ==> CarOk(c))
    && (forall l :: 0 <= l < LANES && w.cross[l].CPath? ==> w.cross[l].k <= |w.cross[l].c.route|)
    && (forall l :: 0 <= l < LANES && w.cross[l].CRelease? ==> w.cross[l].k <= |w.cross[l].c.route|)
  }

  /** How often c occurs in the lists together. */
  ghost function Tally(lists: seq<seq<Car>>, c: Car): nat {
    if lists == [] then 0 else multiset(lists[0])[c] + Tally(lists[1..], c)
  }

  function Crossings(cross: seq<CPc>): (r: seq<seq<Car>>)
    ensures |r| == |cross|
  {
    seq(|cross|, l requires 0 <= l < |cross| => Crossing(cross[l]))
  }

  function OutLists(lanes: seq<Lane>): (r: seq<seq<Car>>)
    ensures |r| == |lanes|
  {
    seq(|lanes|, l requires 0 <= l < |lanes| => lanes[l].outCars)
  }

  /** No car is lost or duplicated: the cars taken so far are those now crossing and those on
      the exit lists, and each exit list holds only cars bound for it. */
  ghost predicate AccountsOk(w: World)
    requires Sized(w)
  {
    && (forall c :: Tally(w.crossed, c) == Tally(Crossings(w.cross), c) + Tally(OutLists(w.lanes), c))
    && (forall d, c :: 0 <= d < LANES && c in w.lanes[d].outCars ==> c.outDir == d)
  }

  ghost predicate Inv(w: World) {
    && Sized(w) && LocksOk(w) && LanesOk(w) && WaitsOk(w) && CarriedOk(w) && AccountsOk(w)
  }

  lemma InvReady(w: World, l: nat)
    requires Inv(w) && l < LANES
    ensures ArriveReady(w, l) && CrossReady(w, l)
  {
    assert WaitOk(w.lanes[l], w.arrive[l], w.cross[l]);
    assert Carried(w.cross[l]) != [] ==> w.cross[l].c in Carried(w.cross[l]);
  }

  // ---------- every step keeps the invariant ----------

  lemma ArriveTaken(w: World, l: nat, w2: World)
    requires ArriveReady(w, l) && LaneLocksOk(w) && ArriveStep(w, l) == Some(w2) && (w.arrive[l].AStart? || w.arrive[l].AWoken?)
    ensures LaneLocksOk(w2)
  {
    hide LaneOk, PutCar;
    assert w.laneLock[l] == Some(Arrive(l)) <==> HoldsLane(w, Arrive(l), l);
    forall x, t | 0 <= x < LANES ensures w2.laneLock[x] == Some(t) <==> HoldsLane(w2, t, x) {
      assert w.laneLock[x] == Some(t) <==> HoldsLane(w, t, x);
    }
  }

  lemma ArriveGiven(w: World, l: nat, w2: World)
    requires ArriveReady(w, l) && LaneLocksOk(w) && ArriveStep(w, l) == Some(w2) && (w.arrive[l].AExitUnlock? || w.arrive[l].ASignalled? || (w.arrive[l].AFull? && w.lanes[l].inBuf == w.lanes[l].Capacity()))
    ensures LaneLocksOk(w2)
  {
    hide LaneOk, PutCar;
    assert w.laneLock[l] == Some(Arrive(l)) <==> HoldsLane(w, Arrive(l), l);
    forall x, t | 0 <= x < LANES ensures w2.laneLock[x] == Some(t) <==> HoldsLane(w2, t, x) {
      assert w.laneLock[x] == Some(t) <==> HoldsLane(w, t, x);
    }
  }

  lemma ArriveHeld(w: World, l: nat, w2: World)
    requires ArriveReady(w, l) && LaneLocksOk(w) && ArriveStep(w, l) == Some(w2) && (!(w.arrive[l].AStart? || w.arrive[l].AWoken?) && !(w.arrive[l].AExitUnlock? || w.arrive[l].ASignalled? || (w.arrive[l].AFull? && w.lanes[l].inBuf == w.lanes[l].Capacity())))
    ensures LaneLocksOk(w2)
  {
    hide LaneOk, PutCar;
    assert w.laneLock[l] == Some(Arrive(l)) <==> HoldsLane(w, Arrive(l), l);
    forall x, t | 0 <= x < LANES ensures w2.laneLock[x] == Some(t) <==> HoldsLane(w2, t, x) {
      assert w.laneLock[x] == Some(t) <==> HoldsLane(w, t, x);
    }
  }

  lemma ArriveLaneLocks(w: World, l: nat, w2: World)
    requires ArriveReady(w, l) && LaneLocksOk(w) && ArriveStep(w, l) == Some(w2)
    ensures LaneLocksOk(w2)
  {
    hide LaneOk, LaneLocksOk;
    if w.arrive[l].AStart? || w.arrive[l].AWoken? {
      ArriveTaken(w, l, w2);
    } else if w.arrive[l].AExitUnlock? || w.arrive[l].ASignalled? || (w.arrive[l].AFull? && w.lanes[l].inBuf == w.lanes[l].Capacity()) {
      ArriveGiven(w, l, w2);
    } else {
      ArriveHeld(w, l, w2);
    }
  }

  lemma ArriveLocks(w: World, l: nat, w2: World)
    requires ArriveReady(w, l) && LocksOk(w) && ArriveStep(w, l) == Some(w2)
    ensures LocksOk(w2)
  {
    hide HoldsLane;
    ArriveLaneLocks(w, l, w2);
    forall q, t | 0 <= q < QUADS ensures w2.quadLock[q] == Some(t) <==> HoldsQuad(w2, t, q) {
      assert w.quadLock[q] == Some(t) <==> HoldsQuad(w, t, q);
    }
  }

  ghost predicate LaneLocksOk(w: World)
    requires Sized(w)
  {
    forall x, t :: 0 <= x < LANES ==> (w.laneLock[x] == Some(t) <==> HoldsLane(w, t, x))
  }

  ghost predicate QuadLocksOk(w: World)
    requires Sized(w)
  {
    forall q, t :: 0 <= q < QUADS ==> (w.quadLock[q] == Some(t) <==> HoldsQuad(w, t, q))
  }

  lemma LaneTaken(w: World, l: nat, w2: World)
    requires CrossReady(w, l) && LaneLocksOk(w) && !OnRoad(w.cross[l]) && CrossInLane(w, l) == Some(w2)
    requires w.cross[l].CStart? || w.cross[l].CWoken?
    ensures LaneLocksOk(w2)
  {
    hide LaneOk, CarOk, TakeCar;
    assert w.laneLock[l] == Some(Cross(l)) <==> HoldsLane(w, Cross(l), l);
    forall x, t | 0 <= x < LANES ensures w2.laneLock[x] == Some(t) <==> HoldsLane(w2, t, x) {
      assert w.laneLock[x] == Some(t) <==> HoldsLane(w, t, x);
    }
  }

  lemma LaneGiven(w: World, l: nat, w2: World)
    requires CrossReady(w, l) && LaneLocksOk(w) && !OnRoad(w.cross[l]) && CrossInLane(w, l) == Some(w2)
    requires w.cross[l].CExitUnlock? || w.cross[l].CSignalled? || (w.cross[l].CEmpty? && w.lanes[l].inBuf == 0)
    ensures LaneLocksOk(w2)
  {
    hide LaneOk, CarOk, TakeCar;
    assert w.laneLock[l] == Some(Cross(l)) <==> HoldsLane(w, Cross(l), l);
    forall x, t | 0 <= x < LANES ensures w2.laneLock[x] == Some(t) <==> HoldsLane(w2, t, x) {
      assert w.laneLock[x] == Some(t) <==> HoldsLane(w, t, x);
    }
  }

  lemma LaneHeld(w: World, l: nat, w2: World)
    requires CrossReady(w, l) && LaneLocksOk(w) && !OnRoad(w.cross[l]) && CrossInLane(w, l) == Some(w2)
    requires w.cross[l].CLocked? || w.cross[l].CTaken? || (w.cross[l].CEmpty? && w.lanes[l].inBuf != 0)
    ensures LaneLocksOk(w2)
  {
    hide LaneOk, CarOk, TakeCar;
    assert w.laneLock[l] == Some(Cross(l)) <==> HoldsLane(w, Cross(l), l);
    forall x, t | 0 <= x < LANES ensures w2.laneLock[x] == Some(t) <==> HoldsLane(w2, t, x) {
      assert w.laneLock[x] == Some(t) <==> HoldsLane(w, t, x);
    }
  }

  lemma LaneInLocks(w: World, l: nat, w2: World)
    requires CrossReady(w, l) && LaneLocksOk(w) && !OnRoad(w.cross[l]) && CrossInLane(w, l) == Some(w2)
    ensures LaneLocksOk(w2)
  {
    hide LaneLocksOk, LaneOk, CarOk;
    if w.cross[l].CStart? || w.cross[l].CWoken? {
      LaneTaken(w, l, w2);
    } else if w.cross[l].CExitUnlock? || w.cross[l].CSignalled? || (w.cross[l].CEmpty? && w.lanes[l].inBuf == 0) {
      LaneGiven(w, l, w2);
    } else {
      LaneHeld(w, l, w2);
    }
  }

  lemma ExitTaken(w: World, l: nat, w2: World)
    requires CrossReady(w, l) && LaneLocksOk(w) && OnRoad(w.cross[l]) && CrossOnRoad(w, l) == Some(w2)
    requires w.cross[l].CPath?
    ensures LaneLocksOk(w2)
  {
    hide LaneOk, Ascending, PassCar;
    var d := w.cross[l].c.outDir;
    assert w.laneLock[d] == Some(Cross(l)) <==> HoldsLane(w, Cross(l), d);
    forall x, t | 0 <= x < LANES ensures w2.laneLock[x] == Some(t) <==> HoldsLane(w2, t, x) {
      assert w.laneLock[x] == Some(t) <==> HoldsLane(w, t, x);
    }
  }

  lemma ExitHeld(w: World, l: nat, w2: World)
    requires CrossReady(w, l) && LaneLocksOk(w) && OnRoad(w.cross[l]) && CrossOnRoad(w, l) == Some(w2)
    requires !w.cross[l].CPath?
    ensures LaneLocksOk(w2)
  {
    hide LaneOk, Ascending, PassCar;
    var d := w.cross[l].c.outDir;
    assert w.laneLock[d] == Some(Cross(l)) <==> HoldsLane(w, Cross(l), d);
    forall x, t | 0 <= x < LANES ensures w2.laneLock[x] == Some(t) <==> HoldsLane(w2, t, x) {
      assert w.laneLock[x] == Some(t) <==> HoldsLane(w, t, x);
    }
  }

  lemma LaneOutLocks(w: World, l: nat, w2: World)
    requires CrossReady(w, l) && LaneLocksOk(w) && OnRoad(w.cross[l]) && CrossOnRoad(w, l) == Some(w2)
    ensures LaneLocksOk(w2)
  {
    hide LaneLocksOk, LaneOk, CarOk;
    if w.cross[l].CPath? {
      ExitTaken(w, l, w2);
    } else {
      ExitHeld(w, l, w2);
    }
  }

  lemma QuadInLocks(w: World, l: nat, w2: World)
    requires CrossReady(w, l) && QuadLocksOk(w) && !OnRoad(w.cross[l]) && CrossInLane(w, l) == Some(w2)
    ensures QuadLocksOk(w2)
  {
    forall q, t | 0 <= q < QUADS ensures w2.quadLock[q] == Some(t) <==> HoldsQuad(w2, t, q) {
      assert w.quadLock[q] == Some(t) <==> HoldsQuad(w, t, q);
    }
  }

  /** Taking one more quadrant adds it to those held; releasing one removes it alone, because a
      route names no quadrant twice. */
  lemma RouteSteps(route: seq<nat>, k: nat, q: nat)
    requires Ascending(route) && k < |route|
    ensures q in route[..k + 1] <==> q in route[..k] || q == route[k]
    ensures q in route[k..] <==> q in route[k + 1..] || q == route[k]
    ensures route[k] !in route[k + 1..] && route[k] !in route[..k]
  {
    assert route[..k + 1] == route[..k] + [route[k]];
    assert route[k..] == [route[k]] + route[k + 1..];
  }

  /** What crossing thread l holds on its way into the intersection and out of it. */
  lemma QuadRoute(pc: CPc, q: nat)
    requires (pc.CPath? || pc.CRelease?) && pc.k < |pc.c.route| && Ascending(pc.c.route)
    ensures var at, c, k := pc.c.route[pc.k], pc.c, pc.k;
      && (q in c.route[..Min(k + 1, |c.route|)] <==> q in c.route[..Min(k, |c.route|)] || q == at)
      && (q in c.route[Min(k, |c.route|)..] <==> q in c.route[Min(k + 1, |c.route|)..] || q == at)
      && at !in c.route[Min(k + 1, |c.route|)..]
  {
    RouteSteps(pc.c.route, pc.k, q);
  }

  /** A thread's quadrants depend on its own place in the program only. */
  lemma QuadSame(w: World, w2: World, t: Thread, q: nat)
    requires Sized(w) && Sized(w2) && (t.Cross? && t.l < LANES ==> w2.cross[t.l] == w.cross[t.l])
    ensures HoldsQuad(w2, t, q) <==> HoldsQuad(w, t, q)
  {}

  /** The step as seen by a thread that does not take it. */
  lemma QuadOther(w: World, l: nat, w2: World, q: nat, t: Thread)
    requires CrossReady(w, l) && QuadLocksOk(w) && OnRoad(w.cross[l]) && CrossOnRoad(w, l) == Some(w2)
    requires q < QUADS && t != Cross(l)
    ensures w2.quadLock[q] == Some(t) <==> HoldsQuad(w2, t, q)
  {
    hide PassCar, LaneOk, QuadLocksOk, Min, Ascending, HoldsQuad;
    var pc := w.cross[l];
    QuadLock(w, q, t);
    QuadSame(w, w2, t, q);
    if (pc.CPath? || pc.CRelease?) && pc.k < |pc.c.route| {
      OwnQuad(w, l);
      QuadLock(w, pc.c.route[pc.k], t);
      QuadLock(w, pc.c.route[pc.k], Cross(l));
    }
  }

  /** What a step on the road does to the quadrants and to the thread's place. */
  lemma RoadStep(w: World, l: nat, w2: World)
    requires CrossReady(w, l) && OnRoad(w.cross[l]) && CrossOnRoad(w, l) == Some(w2) && Ascending(w.cross[l].c.route)
    ensures Sized(w2)
    ensures var pc := w.cross[l];
      if (pc.CPath? || pc.CRelease?) && pc.k < |pc.c.route| then
        && pc.c.route[pc.k] < QUADS && (pc.CPath? ==> w.quadLock[pc.c.route[pc.k]].None?)
        && w2.quadLock == w.quadLock[pc.c.route[pc.k] := if pc.CPath? then Some(Cross(l)) else None]
        && w2.cross[l] == if pc.CPath? then CPath(pc.c, pc.k + 1) else CRelease(pc.c, pc.k + 1)
      else
        && w2.quadLock == w.quadLock
        && w2.cross[l] ==
          if pc.CPath? then CExit(pc.c) else if pc.CExit? then CPushed(pc.c) else if pc.CPushed? then CRelease(pc.c, 0) else CStart
  {
    hide PassCar, LaneOk;
  }

  lemma QuadOwnRoute(w: World, l: nat, w2: World, q: nat)
    requires CrossReady(w, l) && QuadLocksOk(w) && OnRoad(w.cross[l]) && Ascending(w.cross[l].c.route)
    requires CrossOnRoad(w, l) == Some(w2) && q < QUADS
    requires (w.cross[l].CPath? || w.cross[l].CRelease?) && w.cross[l].k < |w.cross[l].c.route|
    ensures w2.quadLock[q] == Some(Cross(l)) <==> HoldsQuad(w2, Cross(l), q)
  {
    hide LaneOk, QuadLocksOk, Min, Ascending, CrossOnRoad, CarOk;
    QuadLock(w, q, Cross(l));
    RoadStep(w, l, w2);
    QuadRoute(w.cross[l], q);
  }

  lemma QuadOwnWhole(w: World, l: nat, w2: World, q: nat)
    requires CrossReady(w, l) && QuadLocksOk(w) && OnRoad(w.cross[l]) && Ascending(w.cross[l].c.route)
    requires CrossOnRoad(w, l) == Some(w2) && q < QUADS
    requires w.cross[l].CPath? || w.cross[l].CRelease? ==> w.cross[l].k == |w.cross[l].c.route|
    ensures w2.quadLock[q] == Some(Cross(l)) <==> HoldsQuad(w2, Cross(l), q)
  {
    hide LaneOk, QuadLocksOk, Min, Ascending, CrossOnRoad, CarOk;
    QuadLock(w, q, Cross(l));
    RoadStep(w, l, w2);
    QuadWhole(w.cross[l], q);
  }

  lemma CarriedRoute(w: World, l: nat)
    requires CrossReady(w, l) && CarriedOk(w) && OnRoad(w.cross[l])
    ensures Ascending(w.cross[l].c.route)
    ensures w.cross[l].CPath? || w.cross[l].CRelease? ==> w.cross[l].k <= |w.cross[l].c.route|
  {
    hide Ascending, LaneOk;
  }

  /** The step as seen by the thread that takes it. */
  lemma QuadOwn(w: World, l: nat, w2: World, q: nat)
    requires CrossReady(w, l) && QuadLocksOk(w) && CarriedOk(w) && OnRoad(w.cross[l]) && CrossOnRoad(w, l) == Some(w2)
    requires q < QUADS
    ensures w2.quadLock[q] == Some(Cross(l)) <==> HoldsQuad(w2, Cross(l), q)
  {
    hide LaneOk, QuadLocksOk, Min, Ascending, CrossOnRoad, CarOk, CarriedOk, HoldsQuad;
    CarriedRoute(w, l);
    if (w.cross[l].CPath? || w.cross[l].CRelease?) && w.cross[l].k < |w.cross[l].c.route| {
      QuadOwnRoute(w, l, w2, q);
    } else {
      QuadOwnWhole(w, l, w2, q);
    }
  }

  /** At a step of release the thread still holds the quadrant it is about to release. */
  lemma OwnQuad(w: World, l: nat)
    requires Sized(w) && l < LANES && (w.cross[l].CRelease? || w.cross[l].CPath?)
    requires w.cross[l].k < |w.cross[l].c.route| && Ascending(w.cross[l].c.route)
    ensures w.cross[l].c.route[w.cross[l].k] < QUADS
    ensures w.cross[l].CRelease? ==> HoldsQuad(w, Cross(l), w.cross[l].c.route[w.cross[l].k])
  {
    QuadRoute(w.cross[l], w.cross[l].c.route[w.cross[l].k]);
  }

  lemma QuadWhole(pc: CPc, q: nat)
    requires pc.CPath? || pc.CExit? || pc.CPushed? || pc.CRelease?
    ensures pc.c.route[..|pc.c.route|] == pc.c.route && pc.c.route[0..] == pc.c.route && pc.c.route[|pc.c.route|..] == []
    ensures Min(0, |pc.c.route|) == 0
    ensures (pc.CPath? || pc.CRelease?) && pc.k >= |pc.c.route| ==> Min(pc.k, |pc.c.route|) == |pc.c.route|
  {}

  lemma QuadLock(w: World, q: nat, t: Thread)
    requires Sized(w) && QuadLocksOk(w) && q < QUADS
    ensures w.quadLock[q] == Some(t) <==> HoldsQuad(w, t, q)
  {}

  lemma QuadRoadLocks(w: World, l: nat, w2: World)
    requires CrossReady(w, l) && QuadLocksOk(w) && CarriedOk(w) && OnRoad(w.cross[l]) && CrossOnRoad(w, l) == Some(w2)
    ensures QuadLocksOk(w2)
  {
    hide CrossOnRoad, HoldsQuad;
    forall q, t | 0 <= q < QUADS ensures w2.quadLock[q] == Some(t) <==> HoldsQuad(w2, t, q) {
      if t == Cross(l) {
        QuadOwn(w, l, w2, q);
      } else {
        QuadOther(w, l, w2, q, t);
      }
    }
  }

  lemma CrossLocks(w: World, l: nat, w2: World)
    requires CrossReady(w, l) && LocksOk(w) && CarriedOk(w) && CrossStep(w, l) == Some(w2)
    ensures LocksOk(w2)
  {
    assert LaneLocksOk(w) && QuadLocksOk(w);
    if OnRoad(w.cross[l]) {
      LaneOutLocks(w, l, w2);
      QuadRoadLocks(w, l, w2);
    } else {
      LaneInLocks(w, l, w2);
      QuadInLocks(w, l, w2);
    }
    hide HoldsLane, HoldsQuad, CrossStep;
  }

  lemma ArriveLanes(w: World, l: nat, w2: World)
    requires ArriveReady(w, l) && LanesOk(w) && ArriveStep(w, l) == Some(w2)
    ensures LanesOk(w2)
  {
    if w.arrive[l].AFull? && w.lanes[l].inBuf < w.lanes[l].Capacity() {
      PutIsEnqueue(w.lanes[l]);
    }
  }

  /** What LanesOk says of one lane. */
  ghost predicate QueueOk(w: World, l: nat)
    requires Sized(w) && l < LANES
  {
    && LaneOk(w.lanes[l])
    && w.crossed[l] + Pending(w.lanes[l]) + w.lanes[l].inCars == w.schedule[l]
    && (forall c :: c in w.schedule[l] ==> CarOk(c))
  }

  lemma TakingQueue(w: World, l: nat, w2: World, x: nat)
    requires CrossReady(w, l) && CrossStep(w, l) == Some(w2) && w.cross[l].CEmpty? && w.lanes[l].inBuf > 0
    requires x < LANES && QueueOk(w, x)
    ensures QueueOk(w2, x)
  {
    hide CarOk;
    if x == l {
      TakeIsDequeue(w.lanes[l]);
      assert w2.crossed[l] + Pending(w2.lanes[l]) == w.crossed[l] + Pending(w.lanes[l]);
    }
  }

  lemma ExitQueue(w: World, l: nat, w2: World, x: nat)
    requires CrossReady(w, l) && CrossStep(w, l) == Some(w2) && w.cross[l].CExit? && x < LANES && QueueOk(w, x)
    ensures QueueOk(w2, x)
  {
    var c := w.cross[l].c;
    if x == c.outDir {
      PassKeepsQueue(w.lanes[c.outDir], c);
    }
  }

  lemma CrossQueue(w: World, l: nat, w2: World, x: nat)
    requires CrossReady(w, l) && CrossStep(w, l) == Some(w2) && x < LANES && QueueOk(w, x)
    ensures QueueOk(w2, x)
  {
    hide CarOk, CrossStep, LaneOk, Pending;
    if w.cross[l].CEmpty? && w.lanes[l].inBuf > 0 {
      TakingQueue(w, l, w2, x);
    } else if w.cross[l].CExit? {
      ExitQueue(w, l, w2, x);
    } else {
      CrossingsStay(w, l, w2);
      ScheduleStays(w, l, w2);
    }
  }

  lemma QueuesAreLanes(w: World)
    requires Sized(w)
    ensures LanesOk(w) <==> forall l :: 0 <= l < LANES ==> QueueOk(w, l)
  {
    hide CarOk, LaneOk, Pending;
    if forall l :: 0 <= l < LANES ==> QueueOk(w, l) {
      forall l | 0 <= l < LANES
        ensures LaneOk(w.lanes[l]) && w.crossed[l] + Pending(w.lanes[l]) + w.lanes[l].inCars == w.schedule[l]
        ensures forall c :: c in w.schedule[l] ==> CarOk(c)
      {
        assert QueueOk(w, l);
      }
    }
  }

  lemma CrossLanes(w: World, l: nat, w2: World)
    requires CrossReady(w, l) && LanesOk(w) && CrossStep(w, l) == Some(w2)
    ensures LanesOk(w2)
  {
    hide CarOk, CrossStep, LaneOk, QueueOk, LanesOk;
    QueuesAreLanes(w);
    forall x | 0 <= x < LANES ensures QueueOk(w2, x) {
      CrossQueue(w, l, w2, x);
    }
    QueuesAreLanes(w2);
  }

  lemma ScheduleStays(w: World, l: nat, w2: World)
    requires CrossReady(w, l) && CrossStep(w, l) == Some(w2)
    ensures w2.schedule == w.schedule
  {
    hide LaneOk, CarOk, TakeCar, PassCar;
  }

  lemma ArriveOthers(w: World, l: nat, w2: World, x: nat)
    requires ArriveReady(w, l) && ArriveStep(w, l) == Some(w2) && x < LANES && x != l
    ensures w2.lanes[x] == w.lanes[x] && w2.arrive[x] == w.arrive[x] && w2.cross[x] == w.cross[x]
  {
    hide LaneOk, PutCar;
  }

  lemma ArriveOwn(w: World, l: nat, w2: World)
    requires ArriveReady(w, l) && ArriveStep(w, l) == Some(w2) && WaitOk(w.lanes[l], w.arrive[l], w.cross[l])
    ensures WaitOk(w2.lanes[l], w2.arrive[l], w2.cross[l])
  {}

  lemma ArriveWaits(w: World, l: nat, w2: World)
    requires ArriveReady(w, l) && WaitsOk(w) && ArriveStep(w, l) == Some(w2)
    ensures WaitsOk(w2)
  {
    hide LaneOk, ArriveStep, WaitOk;
    forall x | 0 <= x < LANES ensures WaitOk(w2.lanes[x], w2.arrive[x], w2.cross[x]) {
      assert WaitOk(w.lanes[x], w.arrive[x], w.cross[x]);
      if x == l {
        ArriveOwn(w, l, w2);
      } else {
        ArriveOthers(w, l, w2, x);
      }
    }
  }

  /** The other lanes and threads are not touched. */
  lemma InLaneOthers(w: World, l: nat, w2: World, x: nat)
    requires CrossReady(w, l) && !OnRoad(w.cross[l]) && CrossInLane(w, l) == Some(w2) && x < LANES && x != l
    ensures w2.lanes[x] == w.lanes[x] && w2.arrive[x] == w.arrive[x] && w2.cross[x] == w.cross[x]
  {
    hide LaneOk, CarOk, TakeCar;
  }

  lemma InLaneOwn(w: World, l: nat, w2: World)
    requires CrossReady(w, l) && !OnRoad(w.cross[l]) && CrossInLane(w, l) == Some(w2)
    requires WaitOk(w.lanes[l], w.arrive[l], w.cross[l])
    ensures WaitOk(w2.lanes[l], w2.arrive[l], w2.cross[l])
  {}

  lemma InLaneWaits(w: World, l: nat, w2: World)
    requires CrossReady(w, l) && WaitsOk(w) && !OnRoad(w.cross[l]) && CrossInLane(w, l) == Some(w2)
    ensures WaitsOk(w2)
  {
    hide LaneOk, CarOk, CrossInLane, WaitOk;
    forall x | 0 <= x < LANES ensures WaitOk(w2.lanes[x], w2.arrive[x], w2.cross[x]) {
      assert WaitOk(w.lanes[x], w.arrive[x], w.cross[x]);
      if x == l {
        InLaneOwn(w, l, w2);
      } else {
        InLaneOthers(w, l, w2, x);
      }
    }
  }

  lemma OnRoadWaits(w: World, l: nat, w2: World)
    requires CrossReady(w, l) && WaitsOk(w) && OnRoad(w.cross[l]) && CrossOnRoad(w, l) == Some(w2)
    ensures WaitsOk(w2)
  {
    forall x | 0 <= x < LANES ensures WaitOk(w2.lanes[x], w2.arrive[x], w2.cross[x]) {
      assert WaitOk(w.lanes[x], w.arrive[x], w.cross[x]);
    }
  }

  lemma CrossWaits(w: World, l: nat, w2: World)
    requires CrossReady(w, l) && WaitsOk(w) && CrossStep(w, l) == Some(w2)
    ensures WaitsOk(w2)
  {
    if OnRoad(w.cross[l]) {
      OnRoadWaits(w, l, w2);
    } else {
      InLaneWaits(w, l, w2);
    }
    hide CrossOnRoad, CrossInLane, WaitsOk;
  }

  /** Arrival threads never touch the cars on the road. */
  lemma ArriveFrame(w: World, l: nat, w2: World)
    requires ArriveReady(w, l) && ArriveStep(w, l) == Some(w2)
    ensures w2.crossed == w.crossed && OutLists(w2.lanes) == OutLists(w.lanes)
    ensures forall x :: 0 <= x < LANES ==> w2.cross[x] == w.cross[x] || (w.cross[x].CWait? && w2.cross[x].CWoken?)
  {}

  lemma ArriveCarried(w: World, l: nat, w2: World)
    requires ArriveReady(w, l) && CarriedOk(w) && AccountsOk(w) && ArriveStep(w, l) == Some(w2)
    ensures CarriedOk(w2) && AccountsOk(w2)
  {
    ArriveFrame(w, l, w2);
    hide ArriveStep;
    assert Crossings(w2.cross) == Crossings(w.cross);
    assert forall d :: 0 <= d < LANES ==> w2.lanes[d].outCars == OutLists(w2.lanes)[d] == w.lanes[d].outCars;
  }

  lemma CrossCarried(w: World, l: nat, w2: World)
    requires CrossReady(w, l) && LanesOk(w) && CarriedOk(w) && CrossStep(w, l) == Some(w2)
    ensures CarriedOk(w2)
  {
    CarriedFrame(w, l, w2);
    hide CrossStep, LanesOk;
  }

  /** A car taken from the buffer comes from the schedule; otherwise the car carried stays. */
  /** The car taken is the next of the schedule. */
  lemma TakenCar(w: World, l: nat, w2: World)
    requires CrossReady(w, l) && LanesOk(w) && CrossStep(w, l) == Some(w2) && w.cross[l].CEmpty? && w.lanes[l].inBuf > 0
    ensures w2.cross[l].CTaken? && CarOk(w2.cross[l].c)
  {
    hide CarOk;
    TakeIsDequeue(w.lanes[l]);
    var c := w2.cross[l].c;
    assert c == Pending(w.lanes[l])[0];
    assert w.schedule[l][|w.crossed[l]|] == c;
  }

  lemma CarriedOn(w: World, l: nat, w2: World)
    requires CrossReady(w, l) && CrossStep(w, l) == Some(w2) && !(w.cross[l].CEmpty? && w.lanes[l].inBuf > 0)
    requires w.cross[l].CPath? || w.cross[l].CRelease? ==> w.cross[l].k <= |w.cross[l].c.route|
    ensures forall c :: c in Carried(w2.cross[l]) ==> CarOk(c)
    ensures w2.cross[l].CPath? || w2.cross[l].CRelease? ==> w2.cross[l].k <= |w2.cross[l].c.route|
  {
    hide CarOk, LaneOk, PassCar;
  }

  lemma OtherThreads(w: World, l: nat, w2: World)
    requires CrossReady(w, l) && CrossStep(w, l) == Some(w2)
    ensures forall x :: 0 <= x < LANES && x != l ==> w2.cross[x] == w.cross[x]
  {
    hide CarOk, LaneOk, PassCar, TakeCar;
  }

  lemma CarriedFrame(w: World, l: nat, w2: World)
    requires CrossReady(w, l) && LanesOk(w) && CrossStep(w, l) == Some(w2)
    requires w.cross[l].CPath? || w.cross[l].CRelease? ==> w.cross[l].k <= |w.cross[l].c.route|
    ensures forall x :: 0 <= x < LANES && x != l ==> w2.cross[x] == w.cross[x]
    ensures forall c :: c in Carried(w2.cross[l]) ==> CarOk(c)
    ensures w2.cross[l].CPath? || w2.cross[l].CRelease? ==> w2.cross[l].k <= |w2.cross[l].c.route|
  {
    hide CarOk, LaneOk, LanesOk, CrossStep;
    OtherThreads(w, l, w2);
    if w.cross[l].CEmpty? && w.lanes[l].inBuf > 0 {
      TakenCar(w, l, w2);
    } else {
      CarriedOn(w, l, w2);
    }
  }

  lemma {:induction false} TallyUpdate(lists: seq<seq<Car>>, l: nat, list: seq<Car>, c: Car)
    requires l < |lists|
    ensures Tally(lists[l := list], c) + multiset(lists[l])[c] == Tally(lists, c) + multiset(list)[c]
  {
    if l == 0 {
      assert lists[0 := list][1..] == lists[1..];
    } else {
      assert lists[l := list][1..] == lists[1..][l - 1 := list];
      TallyUpdate(lists[1..], l - 1, list, c);
    }
  }

  lemma TakesShape(w: World, l: nat, w2: World)
    requires CrossReady(w, l) && CrossStep(w, l) == Some(w2) && w.cross[l].CEmpty? && w.lanes[l].inBuf > 0
    ensures w2.cross[l].CTaken? && w2.crossed == w.crossed[l := w.crossed[l] + [w2.cross[l].c]]
    ensures Crossings(w.cross)[l] == [] && Crossings(w2.cross) == Crossings(w.cross)[l := [w2.cross[l].c]]
    ensures OutLists(w2.lanes) == OutLists(w.lanes)
    ensures forall d :: 0 <= d < LANES ==> w2.lanes[d].outCars == w.lanes[d].outCars
  {
    hide CarOk;
  }

  lemma CrossTakes(w: World, l: nat, w2: World)
    requires CrossReady(w, l) && AccountsOk(w) && CrossStep(w, l) == Some(w2)
    requires w.cross[l].CEmpty? && w.lanes[l].inBuf > 0
    ensures AccountsOk(w2)
  {
    hide LaneOk, CarOk, CrossStep, Crossings, OutLists, Tally;
    TakesShape(w, l, w2);
    var c0 := w2.cross[l].c;
    assert multiset(w.crossed[l] + [c0]) == multiset(w.crossed[l]) + multiset{c0};
    forall c ensures Tally(w2.crossed, c) == Tally(Crossings(w2.cross), c) + Tally(OutLists(w2.lanes), c) {
      TallyUpdate(w.crossed, l, w.crossed[l] + [c0], c);
      TallyUpdate(Crossings(w.cross), l, [c0], c);
    }
  }

  /** Moving a car from one list to the front of another keeps the total. */
  lemma MovedTally(from: seq<seq<Car>>, to: seq<seq<Car>>, l: nat, d: nat, c0: Car, c: Car)
    requires l < |from| && from[l] == [c0] && d < |to|
    ensures Tally(from[l := []], c) + Tally(to[d := [c0] + to[d]], c) == Tally(from, c) + Tally(to, c)
  {
    TallyUpdate(from, l, [], c);
    TallyUpdate(to, d, [c0] + to[d], c);
    assert multiset([c0] + to[d]) == multiset{c0} + multiset(to[d]);
  }

  lemma CrossLeaves(w: World, l: nat, w2: World)
    requires CrossReady(w, l) && AccountsOk(w) && w.cross[l].CExit? && CrossOnRoad(w, l) == Some(w2)
    ensures AccountsOk(w2)
  {
    var c0 := w.cross[l].c;
    var d := c0.outDir;
    var from, to := Crossings(w.cross), OutLists(w.lanes);
    assert w2.crossed == w.crossed && w2.lanes == w.lanes[d := PassCar(w.lanes[d], c0)] && w2.cross == w.cross[l := CPushed(c0)];
    hide CrossOnRoad, CarOk, LaneOk, Tally;
    assert Crossings(w2.cross) == from[l := []];
    assert OutLists(w2.lanes) == to[d := [c0] + to[d]];
    forall c ensures Tally(w2.crossed, c) == Tally(Crossings(w2.cross), c) + Tally(OutLists(w2.lanes), c) {
      MovedTally(from, to, l, d, c0, c);
    }
  }

  lemma CrossAccounts(w: World, l: nat, w2: World)
    requires CrossReady(w, l) && AccountsOk(w) && CrossStep(w, l) == Some(w2)
    ensures AccountsOk(w2)
  {
    hide LaneOk, CarOk, TakeCar, PassCar, Crossings, OutLists, Tally;
    if w.cross[l].CEmpty? && w.lanes[l].inBuf > 0 {
      CrossTakes(w, l, w2);
    } else if w.cross[l].CExit? {
      CrossLeaves(w, l, w2);
    } else {
      CrossingsStay(w, l, w2);
    }
  }

  /** In all other steps every car stays where it is counted. */
  lemma CrossingsStay(w: World, l: nat, w2: World)
    requires CrossReady(w, l) && CrossStep(w, l) == Some(w2) && !w.cross[l].CExit? && !(w.cross[l].CEmpty? && w.lanes[l].inBuf > 0)
    ensures w2.crossed == w.crossed && w2.lanes == w.lanes && Crossings(w2.cross) == Crossings(w.cross)
  {
    hide LaneOk, CarOk, TakeCar, PassCar;
  }

  lemma ArriveKeeps(w: World, l: nat, w2: World)
    requires Inv(w) && l < LANES && Step(w, Arrive(l)) == Some(w2)
    ensures Inv(w2) && w2.schedule == w.schedule
  {
    InvReady(w, l);
    ArriveLocks(w, l, w2);
    ArriveLanes(w, l, w2);
    ArriveWaits(w, l, w2);
    ArriveCarried(w, l, w2);
    hide LocksOk, LanesOk, WaitsOk, CarriedOk, AccountsOk;
  }

  lemma CrossKeeps(w: World, l: nat, w2: World)
    requires Inv(w) && l < LANES && Step(w, Cross(l)) == Some(w2)
    ensures Inv(w2) && w2.schedule == w.schedule
  {
    InvReady(w, l);
    CrossLocks(w, l, w2);
    CrossLanes(w, l, w2);
    CrossWaits(w, l, w2);
    CrossCarried(w, l, w2);
    CrossAccounts(w, l, w2);
    hide LanesOk, WaitsOk, CarriedOk, AccountsOk;
  }

  /** Safety: whatever thread moves, the invariant is kept. */
  lemma StepKeeps(w: World, t: Thread)
    requires Inv(w) && t.l < LANES && Step(w, t).Some?
    ensures Inv(Step(w, t).value) && Step(w, t).value.schedule == w.schedule
  {
    match t
    case Arrive(l) => ArriveKeeps(w, l, Step(w, t).value);
    case Cross(l) => CrossKeeps(w, l, Step(w, t).value);
  }

  lemma WakeKeepsLocks(w: World, t: Thread)
    requires Inv(w) && t.l < LANES
    ensures LocksOk(Spurious(w, t))
  {
    hide LanesOk, WaitsOk, CarriedOk, AccountsOk;
    var w2 := Spurious(w, t);
    forall x, u | 0 <= x < LANES ensures w2.laneLock[x] == Some(u) <==> HoldsLane(w2, u, x) {
      assert w.laneLock[x] == Some(u) <==> HoldsLane(w, u, x);
    }
    forall q, u | 0 <= q < QUADS ensures w2.quadLock[q] == Some(u) <==> HoldsQuad(w2, u, q) {
      assert w.quadLock[q] == Some(u) <==> HoldsQuad(w, u, q);
    }
  }

  lemma SpuriousWaits(w: World, t: Thread)
    requires Inv(w) && t.l < LANES
    ensures WaitsOk(Spurious(w, t))
  {
    hide LocksOk, LanesOk, CarriedOk, AccountsOk;
    var w2 := Spurious(w, t);
    forall x | 0 <= x < LANES ensures WaitOk(w2.lanes[x], w2.arrive[x], w2.cross[x]) {
      assert WaitOk(w.lanes[x], w.arrive[x], w.cross[x]);
    }
  }

  /** Nothing but the place in a program changes. */
  lemma SpuriousShape(w: World, t: Thread)
    requires Inv(w) && t.l < LANES
    ensures var w2 := Spurious(w, t);
      && Sized(w2) && w2.lanes == w.lanes && w2.crossed == w.crossed && w2.schedule == w.schedule
      && Crossings(w2.cross) == Crossings(w.cross)
      && forall x :: 0 <= x < LANES ==>
        Carried(w2.cross[x]) == Carried(w.cross[x]) && (w2.cross[x].CPath? || w2.cross[x].CRelease? ==> w2.cross[x] == w.cross[x])
  {
    hide LocksOk, LanesOk, CarriedOk, AccountsOk, WaitsOk;
  }

  lemma SpuriousCarried(w: World, w2: World)
    requires Sized(w) && Sized(w2) && CarriedOk(w)
    requires forall x :: 0 <= x < LANES ==>
      Carried(w2.cross[x]) == Carried(w.cross[x]) && (w2.cross[x].CPath? || w2.cross[x].CRelease? ==> w2.cross[x] == w.cross[x])
    ensures CarriedOk(w2)
  {
    hide CarOk, Carried;
  }

  lemma SpuriousKeeps(w: World, t: Thread)
    requires Inv(w) && t.l < LANES
    ensures Inv(Spurious(w, t)) && Spurious(w, t).schedule == w.schedule
  {
    hide LocksOk, Spurious, CarriedOk, WaitsOk, Crossings, Carried, LaneOk, CarOk;
    WakeKeepsLocks(w, t);
    SpuriousWaits(w, t);
    SpuriousShape(w, t);
    SpuriousCarried(w, Spurious(w, t));
  }
}
