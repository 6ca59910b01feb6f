/** The block side of an ext2 image: inodes with direct and indirect block pointers, and what
    freeing, reclaiming and copying do to the block map, the inode map and the blocks. */
module Inodes {
  import opened Prelude
  import opened ResourceMap

  const BLOCK_SIZE := 1024
  const DIRECT := 12
  const PTRS := 256
  const SECTORS_PER_BLOCK := 2

  type Block = s: seq<Byte> | |s| == BLOCK_SIZE witness seq(BLOCK_SIZE, i => 0)

  function ZeroBlock(): Block {
    seq(BLOCK_SIZE, i => 0)
  }

  /** The fields of an inode that the tools read or change. */
  datatype InodeRecord = InodeRecord(mode: nat, size: nat, links: nat, sectors: nat, dtime: nat, ptr: seq<nat>)

  const SLOTS := 15

  type Inode = i: InodeRecord | |i.ptr| == SLOTS witness InodeRecord(0, 0, 0, 0, 0, seq(SLOTS, i => 0))

  /** The little-endian 32-bit number at byte p. */
  function U32At(b: Block, p: nat): nat
    requires p + 4 <= BLOCK_SIZE
  {
    Digits(b[p], b[p + 1], b[p + 2], b[p + 3])
  }

  function Digits(b0: nat, b1: nat, b2: nat, b3: nat): nat {
    b0 + 0x100 * (b1 + 0x100 * (b2 + 0x100 * b3))
  }

  /** The four bytes of a 32-bit number. */
  function U32Bytes(x: nat): (s: seq<Byte>)
    requires x < U32
    ensures |s| == 4
  {
    [x % 0x100, x / 0x100 % 0x100, x / 0x100 / 0x100 % 0x100, x / 0x100 / 0x100 / 0x100 % 0x100]
  }

  /** The block with `bytes` written at p. */
  function Splice(b: Block, p: nat, bytes: seq<Byte>): (r: Block)
    requires p + |bytes| <= BLOCK_SIZE
    ensures forall i :: 0 <= i < BLOCK_SIZE ==> r[i] == if p <= i < p + |bytes| then bytes[i - p] else b[i]
  {
    b[..p] + bytes + b[p + |bytes|..]
  }

  lemma U32RoundTrip(x: nat)
    requires x < U32
    ensures var s := U32Bytes(x); Digits(s[0], s[1], s[2], s[3]) == x
  {
    var y := x / 0x100;
    var z := y / 0x100;
    ByteOff(x);
    ByteOff(y);
    ByteOff(z);
    assert z / 0x100 < 0x100;
  }

  lemma ByteOff(x: nat)
    ensures x == x % 0x100 + 0x100 * (x / 0x100)
  {}

  lemma WordWritten(b: Block, k: nat, x: nat)
    requires k < PTRS && x < U32
    ensures U32At(Splice(b, 4 * k, U32Bytes(x)), 4 * k) == x
    ensures forall j :: 0 <= j < PTRS && j != k ==> U32At(Splice(b, 4 * k, U32Bytes(x)), 4 * j) == U32At(b, 4 * j)
  {
    U32RoundTrip(x);
  }

  // ---------- the blocks of an inode ----------

  /** The direct pointers from slot k up to the first that is 0. */
  function Direct(ptr: seq<nat>, k: nat): seq<nat>
    requires |ptr| == SLOTS && k <= DIRECT
    decreases DIRECT - k
  {
    if k == DIRECT || ptr[k] == 0 then [] else [ptr[k]] + Direct(ptr, k + 1)
  }

  lemma DirectFrom(ptr: seq<nat>, k: nat)
    requires |ptr| == SLOTS && k <= DIRECT
    ensures Direct(ptr, k) == if k == DIRECT || ptr[k] == 0 then [] else [ptr[k]] + Direct(ptr, k + 1)
    ensures k < DIRECT && ptr[k] != 0 ==> ptr[k] in Direct(ptr, k) && forall x :: x in Direct(ptr, k + 1) ==> x in Direct(ptr, k)
  {}

  /** The pointers in an indirect block from slot k up to the first that is 0. */
  function Entries(b: Block, k: nat): seq<nat>
    requires k <= PTRS
    decreases PTRS - k
  {
    if k == PTRS || U32At(b, 4 * k) == 0 then [] else [U32At(b, 4 * k)] + Entries(b, k + 1)
  }

  predicate HasIndirect(i: Inode)
  {
    |Direct(i.ptr, 0)| == DIRECT && i.ptr[DIRECT] != 0
  }

  /** Every pointer that will be followed lands inside the image. */
  ghost predicate PointersOk(i: Inode, disk: seq<Block>)
  {
    && (forall n :: n in Direct(i.ptr, 0) ==> n < |disk|)
    && (HasIndirect(i) ==> i.ptr[DIRECT] < |disk| && forall n :: n in Entries(disk[i.ptr[DIRECT]], 0) ==> n < |disk|)
  }

  /** No pointer of the inode follows its first 0, and no word of its indirect block the first 0 there. */
  ghost predicate Trimmed(i: Inode, disk: seq<Block>)
    requires PointersOk(i, disk)
  {
    && (forall k :: |Direct(i.ptr, 0)| <= k < DIRECT ==> i.ptr[k] == 0)
    && (|Direct(i.ptr, 0)| < DIRECT ==> i.ptr[DIRECT] == 0)
    && (HasIndirect(i) ==>
          forall k :: |Entries(disk[i.ptr[DIRECT]], 0)| <= k < PTRS ==> U32At(disk[i.ptr[DIRECT]], 4 * k) == 0)
  }

  /** The blocks of an inode in the order in which they are freed. */
  ghost function FreeOrder(i: Inode, disk: seq<Block>): seq<nat>
    requires PointersOk(i, disk)
  {
    Direct(i.ptr, 0) + if HasIndirect(i) then Entries(disk[i.ptr[DIRECT]], 0) + [i.ptr[DIRECT]] else []
  }

  /** The same blocks in the order in which they are reclaimed. */
  ghost function ClaimOrder(i: Inode, disk: seq<Block>): seq<nat>
    requires PointersOk(i, disk)
  {
    Direct(i.ptr, 0) + if HasIndirect(i) then [i.ptr[DIRECT]] + Entries(disk[i.ptr[DIRECT]], 0) else []
  }

  lemma SameBlocks(i: Inode, disk: seq<Block>)
    requires PointersOk(i, disk)
    ensures |FreeOrder(i, disk)| == |ClaimOrder(i, disk)|
    ensures forall n :: n in FreeOrder(i, disk) <==> n in ClaimOrder(i, disk)
    ensures NoDup(FreeOrder(i, disk)) ==> NoDup(ClaimOrder(i, disk))
  {
    if HasIndirect(i) && NoDup(FreeOrder(i, disk)) {
      RotateNoDup(Direct(i.ptr, 0), Entries(disk[i.ptr[DIRECT]], 0), i.ptr[DIRECT]);
    }
  }

  lemma RotateNoDup(d: seq<nat>, e: seq<nat>, x: nat)
    requires NoDup(d + (e + [x]))
    ensures NoDup(d + ([x] + e))
  {
    var from, to := d + (e + [x]), d + ([x] + e);
    forall i, j | 0 <= i < j < |to| ensures to[i] != to[j] {
      var i' := if i < |d| then i else if i == |d| then |from| - 1 else i - 1;
      var j' := if j < |d| then j else if j == |d| then |from| - 1 else j - 1;
      assert to[i] == from[i'] && to[j] == from[j'] && i' != j';
      assert i' < j' || j' < i';
    }
  }

  lemma UnrotateNoDup(d: seq<nat>, e: seq<nat>, x: nat)
    requires NoDup(d + ([x] + e))
    ensures NoDup(d + (e + [x]))
  {
    var from, to := d + ([x] + e), d + (e + [x]);
    forall i, j | 0 <= i < j < |to| ensures to[i] != to[j] {
      var i' := if i < |d| then i else if i == |to| - 1 then |d| else i + 1;
      var j' := if j < |d| then j else if j == |to| - 1 then |d| else j + 1;
      assert to[i] == from[i'] && to[j] == from[j'] && i' != j';
      assert i' < j' || j' < i';
    }
  }

  // ---------- freeing and taking lists of numbers ----------

  function ReleaseAll(m: Map, ns: seq<nat>): Map
    decreases |ns|
  {
    if ns == [] then m else ReleaseAll(Release(m, ns[0]), ns[1..])
  }

  /** Taking each number in turn; None is the exit when one is already in use. */
  function ClaimAll(m: Map, ns: seq<nat>): Option<Map>
    decreases |ns|
  {
    if ns == [] then Some(m)
    else if ns[0] in m.used then None
    else ClaimAll(Acquire(m, ns[0]), ns[1..])
  }

  /** What taking each number in turn has taken when it ends or exits. */
  function ClaimUpTo(m: Map, ns: seq<nat>): Map
    decreases |ns|
  {
    if ns == [] || ns[0] in m.used then m else ClaimUpTo(Acquire(m, ns[0]), ns[1..])
  }

  /** Without an exit all are taken. */
  lemma {:induction false} ClaimUpToAll(m: Map, ns: seq<nat>)
    ensures ClaimAll(m, ns).Some? ==> ClaimAll(m, ns).value == ClaimUpTo(m, ns)
    decreases |ns|
  {
    if ns == [] || ns[0] in m.used {
    } else {
      ClaimUpToAll(Acquire(m, ns[0]), ns[1..]);
    }
  }

  lemma {:induction false} ClaimUpToConcat(m: Map, a: seq<nat>, b: seq<nat>)
    ensures ClaimUpTo(m, a + b) == if ClaimAll(m, a).Some? then ClaimUpTo(ClaimAll(m, a).value, b) else ClaimUpTo(m, a)
    decreases |a|
  {
    if a == [] {
      assert a + b == b;
    } else if a[0] in m.used {
      assert (a + b)[0] == a[0];
    } else {
      assert (a + b)[1..] == a[1..] + b;
      ClaimUpToConcat(Acquire(m, a[0]), a[1..], b);
    }
  }

  lemma ClaimUpToOne(m: Map, n: nat, rest: seq<nat>)
    ensures ClaimUpTo(m, [n] + rest) == if n in m.used then m else ClaimUpTo(Acquire(m, n), rest)
  {
    assert ([n] + rest)[1..] == rest;
  }

  lemma {:induction false} ReleaseAllConcat(m: Map, a: seq<nat>, b: seq<nat>)
    ensures ReleaseAll(m, a + b) == ReleaseAll(ReleaseAll(m, a), b)
    decreases |a|
  {
    if a == [] {
      assert a + b == b;
    } else {
      assert (a + b)[1..] == a[1..] + b;
      ReleaseAllConcat(Release(m, a[0]), a[1..], b);
    }
  }

  lemma ReleaseOne(m: Map, n: nat, rest: seq<nat>)
    ensures ReleaseAll(m, [n] + rest) == ReleaseAll(Release(m, n), rest)
  {
    assert ([n] + rest)[1..] == rest;
  }

  lemma ReleaseNothing(m: Map)
    ensures ReleaseAll(m, []) == m
  {}

  lemma ReleaseLast(m: Map, n: nat)
    ensures ReleaseAll(m, [n]) == Release(m, n)
  {
    assert [n][1..] == [];
  }

  function IncN(x: nat, n: nat, modulus: nat): nat
    requires modulus > 0
    decreases n
  {
    if n == 0 then x else IncN(Inc(x, modulus), n - 1, modulus)
  }

  function DecN(x: nat, n: nat, modulus: nat): nat
    requires modulus > 0
    decreases n
  {
    if n == 0 then x else DecN(Dec(x, modulus), n - 1, modulus)
  }

  lemma {:induction false} IncNLast(x: nat, n: nat, modulus: nat)
    requires 0 < n && x < modulus
    ensures IncN(x, n, modulus) == Inc(IncN(x, n - 1, modulus), modulus)
    ensures IncN(x, n - 1, modulus) < modulus
    decreases n
  {
    if n == 1 {
    } else {
      ModBound(x + 1, modulus);
      IncNLast(Inc(x, modulus), n - 1, modulus);
    }
  }

  lemma ModBound(x: nat, modulus: nat)
    requires modulus > 0
    ensures x % modulus < modulus
  {}

  lemma DecInc(x: nat, modulus: nat)
    requires x < modulus
    ensures Dec(Inc(x, modulus), modulus) == x
  {
    if x + 1 == modulus {
      ModUnique(modulus, modulus, 1, 0);
      ModUnique(modulus - 1, modulus, 0, modulus - 1);
    } else {
      ModUnique(x + 1, modulus, 0, x + 1);
      ModUnique(x + modulus, modulus, 1, x);
    }
  }

  /** Counting down n times undoes counting up n times, whatever wraps in between. */
  lemma {:induction false} DecNUndoesIncN(x: nat, n: nat, modulus: nat)
    requires x < modulus
    ensures DecN(IncN(x, n, modulus), n, modulus) == x
  {
    if n == 0 {
    } else {
      IncNLast(x, n, modulus);
      DecInc(IncN(x, n - 1, modulus), modulus);
      DecNUndoesIncN(x, n - 1, modulus);
    }
  }

  lemma {:induction false} ReleaseAllValue(m: Map, ns: seq<nat>)
    ensures ReleaseAll(m, ns) == Map(m.used - Elements(ns), IncN(m.sbFree, |ns|, U32), IncN(m.gdFree, |ns|, U16))
    decreases |ns|
  {
    if ns != [] {
      ReleaseAllValue(Release(m, ns[0]), ns[1..]);
      assert m.used - {ns[0]} - Elements(ns[1..]) == m.used - Elements(ns) by {
        assert forall x :: x in Elements(ns) <==> x == ns[0] || x in Elements(ns[1..]);
      }
    } else {
      assert m.used - Elements(ns) == m.used;
    }
  }

  /** Claiming succeeds exactly when the numbers are distinct and free. */
  lemma {:induction false} ClaimAllValue(m: Map, ns: seq<nat>)
    ensures ClaimAll(m, ns).Some? <==> NoDup(ns) && forall n :: n in ns ==> n !in m.used
    ensures ClaimAll(m, ns).Some? ==>
      ClaimAll(m, ns).value == Map(m.used + Elements(ns), DecN(m.sbFree, |ns|, U32), DecN(m.gdFree, |ns|, U16))
    decreases |ns|
  {
    if ns != [] {
      var rest := ns[1..];
      assert ns == [ns[0]] + rest;
      assert forall x :: x in ns <==> x == ns[0] || x in rest;
      if ns[0] !in m.used {
        ClaimAllValue(Acquire(m, ns[0]), rest);
        assert NoDup(ns) <==> NoDup(rest) && ns[0] !in rest by { NoDupCons(ns); }
        assert m.used + {ns[0]} + Elements(rest) == m.used + Elements(ns);
      }
    } else {
      assert m.used + Elements(ns) == m.used;
    }
  }

  lemma NoDupCons(ns: seq<nat>)
    requires ns != []
    ensures NoDup(ns) <==> NoDup(ns[1..]) && ns[0] !in ns[1..]
  {
    if NoDup(ns[1..]) && ns[0] !in ns[1..] {
      forall i, j | 0 <= i < j < |ns| ensures ns[i] != ns[j] {
        assert ns[j] == ns[1..][j - 1];
        if i > 0 { assert ns[i] == ns[1..][i - 1]; }
      }
    }
  }

  /** Releasing a list of distinct numbers in use and claiming them again, in any order, restores
      the map and both counters. */
  lemma ClaimUndoesRelease(m: Map, ns: seq<nat>, ms: seq<nat>)
    requires CountersFit(m) && NoDup(ms) && |ns| == |ms|
    requires forall n :: n in ns <==> n in ms
    requires forall n :: n in ns ==> n in m.used
    ensures ClaimAll(ReleaseAll(m, ns), ms) == Some(m)
  {
    var r := ReleaseAll(m, ns);
    ReleaseAllValue(m, ns);
    assert forall n :: n in ms ==> n in Elements(ns) && n !in r.used;
    ClaimAllValue(r, ms);
    DecNUndoesIncN(m.sbFree, |ns|, U32);
    DecNUndoesIncN(m.gdFree, |ns|, U16);
    assert m.used - Elements(ns) + Elements(ms) == m.used by {
      assert forall n :: n in Elements(ms) <==> n in Elements(ns);
      assert forall n :: n in Elements(ns) ==> n in m.used;
    }
  }

  lemma {:induction false} ClaimAllConcat(m: Map, a: seq<nat>, b: seq<nat>)
    ensures ClaimAll(m, a + b) == match ClaimAll(m, a) case None => None case Some(m1) => ClaimAll(m1, b)
    decreases |a|
  {
    if a == [] {
      assert a + b == b;
    } else {
      assert (a + b)[1..] == a[1..] + b;
      ClaimAllConcat(Acquire(m, a[0]), a[1..], b);
    }
  }

  lemma ClaimOne(m: Map, n: nat, rest: seq<nat>)
    ensures ClaimAll(m, [n] + rest) == if n in m.used then None else ClaimAll(Acquire(m, n), rest)
  {
    assert ([n] + rest)[1..] == rest;
  }

  lemma ClaimNothing(m: Map)
    ensures ClaimAll(m, []) == Some(m) && ClaimUpTo(m, []) == m
  {}

  lemma {:induction false} ClaimUpToGrows(m: Map, ns: seq<nat>)
    ensures m.used <= ClaimUpTo(m, ns).used
    decreases |ns|
  {
    if ns == [] || ns[0] in m.used {
    } else {
      ClaimUpToGrows(Acquire(m, ns[0]), ns[1..]);
    }
  }

  lemma {:induction false} DecNLast(x: nat, n: nat, modulus: nat)
    requires 0 < n && x < modulus
    ensures DecN(x, n, modulus) == Dec(DecN(x, n - 1, modulus), modulus)
    ensures DecN(x, n - 1, modulus) < modulus
    decreases n
  {
    if n == 1 {
    } else {
      ModBound(x + modulus - 1, modulus);
      DecNLast(Dec(x, modulus), n - 1, modulus);
    }
  }

  lemma IncDec(x: nat, modulus: nat)
    requires x < modulus
    ensures Inc(Dec(x, modulus), modulus) == x
  {
    if x == 0 {
      ModUnique(modulus - 1, modulus, 0, modulus - 1);
      ModUnique(modulus, modulus, 1, 0);
    } else {
      ModUnique(x + modulus - 1, modulus, 1, x - 1);
      ModUnique(x, modulus, 0, x);
    }
  }

  lemma {:induction false} IncNUndoesDecN(x: nat, n: nat, modulus: nat)
    requires x < modulus
    ensures IncN(DecN(x, n, modulus), n, modulus) == x
  {
    if n == 0 {
    } else {
      DecNLast(x, n, modulus);
      IncDec(DecN(x, n - 1, modulus), modulus);
      IncNUndoesDecN(x, n - 1, modulus);
    }
  }

  /** Releasing what was claimed, in any order, restores the map and both counters. */
  lemma ReleaseUndoesClaim(m: Map, ns: seq<nat>, ms: seq<nat>)
    requires CountersFit(m) && ClaimAll(m, ns).Some? && |ns| == |ms|
    requires forall n :: n in ns <==> n in ms
    ensures ReleaseAll(ClaimAll(m, ns).value, ms) == m
  {
    ClaimAllValue(m, ns);
    ReleaseAllValue(ClaimAll(m, ns).value, ms);
    IncNUndoesDecN(m.sbFree, |ns|, U32);
    IncNUndoesDecN(m.gdFree, |ns|, U16);
    assert m.used + Elements(ns) - Elements(ms) == m.used by {
      assert forall n :: n in Elements(ms) <==> n in Elements(ns);
      assert forall n :: n in Elements(ns) ==> n !in m.used;
    }
  }
}
