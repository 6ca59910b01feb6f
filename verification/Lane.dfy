/** One lane of the intersection: the arrival list, the ring buffer, the counters and the list
    of cars that have left through it, and what each critical section does to them. */
module Lanes {

  /** A car. `route` is the ascending list of quadrants it passes through. */
  datatype Car = Car(id: int, inDir: nat, outDir: nat, route: seq<nat>)

  datatype Lane = Lane(inCars: seq<Car>, outCars: seq<Car>, inc: int, passed: int,
                       buffer: seq<Car>, head: nat, tail: nat, inBuf: nat)
  {
    function Capacity(): nat {
      |buffer|
    }
  }

  /** The position k after i on a ring of n slots. */
  function Wrap(i: nat, k: nat, n: nat): nat
    requires i < n && k <= n
  {
    if i + k < n then i + k else i + k - n
  }

  /** The ring is in order and inc counts the cars still to be taken. */
  predicate LaneOk(l: Lane) {
    && l.head < l.Capacity() && l.inBuf <= l.Capacity()
    && l.tail == Wrap(l.head, l.inBuf, l.Capacity())
    && l.inc == |l.inCars| + l.inBuf
    && l.passed == |l.outCars|
  }

  /** The cars waiting in the buffer, first to leave first. */
  function Pending(l: Lane): (r: seq<Car>)
    requires LaneOk(l)
    ensures |r| == l.inBuf
  {
    seq(l.inBuf, k requires 0 <= k < l.inBuf => l.buffer[Wrap(l.head, k, l.Capacity())])
  }

  /** Putting the first arriving car in the buffer. */
  function PutCar(l: Lane): Lane
    requires LaneOk(l) && l.inBuf < l.Capacity() && l.inCars != []
  {
    l.(buffer := l.buffer[l.tail := l.inCars[0]],
       tail := if l.tail + 1 >= l.Capacity() then 0 else l.tail + 1,
       inBuf := l.inBuf + 1,
       inCars := l.inCars[1..])
  }

  /** Taking the next car from the buffer. */
  function TakeCar(l: Lane): (Lane, Car)
    requires LaneOk(l) && l.inBuf > 0
  {
    (l.(head := if l.head + 1 >= l.Capacity() then 0 else l.head + 1,
        inBuf := l.inBuf - 1,
        inc := l.inc - 1),
     l.buffer[l.head])
  }

  /** A car leaves the intersection through this lane. */
  function PassCar(l: Lane, c: Car): Lane {
    l.(outCars := [c] + l.outCars, passed := l.passed + 1)
  }

  /** The ring buffer is a queue: a car put in goes to the back... */
  lemma PutIsEnqueue(l: Lane)
    requires LaneOk(l) && l.inBuf < l.Capacity() && l.inCars != []
    ensures LaneOk(PutCar(l))
    ensures Pending(PutCar(l)) == Pending(l) + [l.inCars[0]]
    ensures Pending(PutCar(l)) + PutCar(l).inCars == Pending(l) + l.inCars
  {
    var l2 := PutCar(l);
    assert LaneOk(l2);
    forall k | 0 <= k < l.inBuf ensures Pending(l2)[k] == Pending(l)[k] {
      assert Wrap(l.head, k, l.Capacity()) != l.tail;
    }
    assert l.inCars == [l.inCars[0]] + l.inCars[1..];
  }

  /** ...and the car taken out is the one at the front. */
  lemma TakeIsDequeue(l: Lane)
    requires LaneOk(l) && l.inBuf > 0
    ensures LaneOk(TakeCar(l).0)
    ensures Pending(l) == [TakeCar(l).1] + Pending(TakeCar(l).0)
  {
    var l2 := TakeCar(l).0;
    forall k | 0 <= k < l2.inBuf ensures Pending(l2)[k] == Pending(l)[k + 1] {
      assert Wrap(l2.head, k, l.Capacity()) == Wrap(l.head, k + 1, l.Capacity());
    }
  }

  lemma PassKeepsQueue(l: Lane, c: Car)
    requires LaneOk(l)
    ensures LaneOk(PassCar(l, c)) && Pending(PassCar(l, c)) == Pending(l)
  {}

  /** The lane as the threads update it. The caller of each method holds the lane's lock. */
  class LaneRecord {
    var inCars: seq<Car>
    var outCars: seq<Car>
    var inc: int
    var passed: int
    const buffer: array<Car>
    var head: nat
    var tail: nat
    var inBuf: nat

    ghost function Value(): Lane
      reads this, buffer
    {
      Lane(inCars, outCars, inc, passed, buffer[..], head, tail, inBuf)
    }

    /** init_intersection for one lane; the buffer's contents are whatever was there. */
    constructor (capacity: nat, garbage: Car)
      requires capacity > 0
      ensures LaneOk(Value()) && fresh(buffer) && buffer.Length == capacity
      ensures Value().inCars == [] && Value().outCars == [] && Value().inBuf == 0
    {
      inCars, outCars := [], [];
      inc, passed := 0, 0;
      buffer := new Car[capacity](_ => garbage);
      head, tail, inBuf := 0, 0, 0;
    }

    /** parse_schedule adds each car at the head of the arrival list. */
    method Schedule(c: Car)
      requires LaneOk(Value())
      modifies this
      ensures LaneOk(Value())
      ensures Value() == old(Value()).(inCars := [c] + old(inCars), inc := old(inc) + 1)
    {
      inCars := [c] + inCars;
      inc := inc + 1;
    }

    method Put()
      requires LaneOk(Value()) && inBuf < buffer.Length && inCars != []
      modifies this, buffer
      ensures Value() == PutCar(old(Value())) && LaneOk(Value())
    {
      ghost var l := Value();
      buffer[tail] := inCars[0];
      tail := tail + 1;
      if tail >= buffer.Length {
        tail := 0;
      }
      inBuf := inBuf + 1;
      inCars := inCars[1..];
      PutIsEnqueue(l);
    }

    method Take() returns (c: Car)
      requires LaneOk(Value()) && inBuf > 0
      modifies this
      ensures (Value(), c) == TakeCar(old(Value())) && LaneOk(Value())
    {
      TakeIsDequeue(Value());
      c := buffer[head];
      head := head + 1;
      if head >= buffer.Length {
        head := 0;
      }
      inBuf := inBuf - 1;
      inc := inc - 1;
    }

    method Pass(c: Car)
      requires LaneOk(Value())
      modifies this
      ensures Value() == PassCar(old(Value()), c) && LaneOk(Value())
      ensures Value() == old(Value()).(outCars := [c] + old(outCars), passed := old(passed) + 1)
    {
      outCars := [c] + outCars;
      passed := passed + 1;
    }
  }
}
