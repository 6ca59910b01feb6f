/** The second-chance clock: the victims it chooses. */
module ClockHand {
  import opened Paging

  class Hand {
    var hand: nat
    const referenced: array<bool>

    ghost predicate Valid()
      reads this
    {
      hand < referenced.Length
    }

    constructor (memsize: nat)
      requires memsize > 0
      ensures Valid() && fresh(referenced) && referenced.Length == memsize && hand == 0
      ensures forall i :: 0 <= i < memsize ==> !referenced[i]
    {
      hand := 0;
      referenced := new bool[memsize](_ => false);
    }

    /** Clears set bits from the hand onwards until a clear one, which becomes the victim. */
    method Evict() returns (frame: nat)
      requires Valid()
      modifies this, referenced
      ensures Valid() && frame == hand
      ensures (frame, referenced[..]) == Scan(old(referenced[..]), old(hand))
    {
      var i := hand;
      while i < referenced.Length
        invariant 0 <= i < referenced.Length
        invariant Scan(referenced[..], i) == Scan(old(referenced[..]), old(hand))
        decreases |SetBits(referenced[..])|
      {
        ghost var bits := referenced[..];
        if referenced[i] {
          referenced[i] := false;
          assert referenced[..] == bits[i := false];
          assert SetBits(bits) == SetBits(referenced[..]) + {i};
        } else {
          referenced[i] := true;
          assert referenced[..] == bits[i := true];
          hand := i;
          return i;
        }
        i := Next(i, referenced.Length);
      }
      assert false;
    }

    method Ref(frame: nat)
      requires Valid() && frame < referenced.Length
      modifies referenced
      ensures referenced[..] == old(referenced[..])[frame := true]
    {
      referenced[frame] := true;
    }
  }

  // ---------- what the scan does ----------

  /** How far j is ahead of i on a clock face of n positions. */
  function Ahead(i: nat, j: nat, n: nat): nat
    requires i < n && j < n
  {
    if j >= i then j - i else j + n - i
  }

  /** The position k ahead of i. */
  function Along(i: nat, k: nat, n: nat): (r: nat)
    requires i < n && k <= n
    ensures r < n && (k < n ==> Ahead(i, r, n) == k)
  {
    if i + k < n then i + k else i + k - n
  }

  /** The bits with the k positions from i onwards cleared. */
  function Swept(bits: seq<bool>, i: nat, k: nat): (r: seq<bool>)
    requires i < |bits|
    ensures |r| == |bits|
  {
    seq(|bits|, j requires 0 <= j < |bits| => bits[j] && Ahead(i, j, |bits|) >= k)
  }

  /** The number of positions the scan looks at. */
  ghost function Probes(bits: seq<bool>, i: nat): nat
    requires i < |bits|
    decreases |SetBits(bits)|
  {
    if bits[i] then
      assert SetBits(bits) == SetBits(bits[i := false]) + {i};
      1 + Probes(bits[i := false], Next(i, |bits|))
    else 1
  }

  /** One more bit swept. */
  lemma SweptStep(bits: seq<bool>, i: nat, k: nat)
    requires i < |bits| && 0 < k <= |bits|
    requires forall j :: 0 <= j < |bits| && Ahead(i, j, |bits|) < k ==> bits[j]
    ensures Along(i, k - 1, |bits|) < |bits| && Swept(bits, i, k - 1)[Along(i, k - 1, |bits|)]
    ensures Swept(bits, i, k - 1)[Along(i, k - 1, |bits|) := false] == Swept(bits, i, k)
    ensures Next(Along(i, k - 1, |bits|), |bits|) == Along(i, k, |bits|)
  {}

  lemma ScanStep(bits: seq<bool>, i: nat)
    requires i < |bits| && bits[i]
    ensures Scan(bits, i) == Scan(bits[i := false], Next(i, |bits|))
    ensures Probes(bits, i) == 1 + Probes(bits[i := false], Next(i, |bits|))
  {}

  /** While it meets set bits, the scan only moves on and clears them. */
  lemma {:induction false} ScanSweeps(bits: seq<bool>, i: nat, k: nat)
    requires i < |bits| && k <= |bits|
    requires forall j :: 0 <= j < |bits| && Ahead(i, j, |bits|) < k ==> bits[j]
    ensures Scan(bits, i) == Scan(Swept(bits, i, k), Along(i, k, |bits|))
    ensures Probes(bits, i) == k + Probes(Swept(bits, i, k), Along(i, k, |bits|))
    decreases k
  {
    var n := |bits|;
    if k == 0 {
      assert Swept(bits, i, 0) == bits;
    } else {
      assert Ahead(i, i, n) == 0;
      ScanSweeps(bits, i, k - 1);
      SweptStep(bits, i, k);
      ScanStep(Swept(bits, i, k - 1), Along(i, k - 1, n));
    }
  }

  /** The victim is the first clear bit at or after the hand, exactly the bits passed over are
      cleared, and the scan takes one probe more than it passes over. */
  lemma ScanFindsFirstClear(bits: seq<bool>, i: nat, victim: nat)
    requires i < |bits| && victim < |bits| && !bits[victim]
    requires forall j :: 0 <= j < |bits| && Ahead(i, j, |bits|) < Ahead(i, victim, |bits|) ==> bits[j]
    ensures Scan(bits, i) == (victim, Swept(bits, i, Ahead(i, victim, |bits|))[victim := true])
    ensures Probes(bits, i) == Ahead(i, victim, |bits|) + 1 <= |bits|
  {
    ScanSweeps(bits, i, Ahead(i, victim, |bits|));
  }

  /** When every bit is set the scan goes once round, clears them all, and takes the hand's own
      frame on probe number memsize + 1. */
  lemma ScanAllSet(bits: seq<bool>, i: nat)
    requires i < |bits| && forall j :: 0 <= j < |bits| ==> bits[j]
    ensures Scan(bits, i) == (i, seq(|bits|, j => j == i))
    ensures Probes(bits, i) == |bits| + 1
  {
    ScanSweeps(bits, i, |bits|);
    assert Swept(bits, i, |bits|)[i := true] == seq(|bits|, j => j == i);
  }

  /** In every case the scan ends within memsize + 1 probes. */
  lemma ScanEnds(bits: seq<bool>, i: nat)
    requires i < |bits|
    ensures Probes(bits, i) <= |bits| + 1
  {
    if forall j :: 0 <= j < |bits| ==> bits[j] {
      ScanAllSet(bits, i);
    } else {
      var victim := NearestClear(bits, i, 0);
      ScanFindsFirstClear(bits, i, victim);
    }
  }

  lemma {:induction false} NearestClear(bits: seq<bool>, i: nat, d: nat) returns (victim: nat)
    requires i < |bits| && d < |bits|
    requires exists j :: 0 <= j < |bits| && !bits[j]
    requires forall j :: 0 <= j < |bits| && Ahead(i, j, |bits|) < d ==> bits[j]
    ensures victim < |bits| && !bits[victim]
    ensures forall j :: 0 <= j < |bits| && Ahead(i, j, |bits|) < Ahead(i, victim, |bits|) ==> bits[j]
    decreases |bits| - d
  {
    var at := Along(i, d, |bits|);
    if !bits[at] {
      victim := at;
    } else {
      assert forall j :: 0 <= j < |bits| && Ahead(i, j, |bits|) == d ==> j == at;
      victim := NearestClear(bits, i, d + 1);
    }
  }
}
