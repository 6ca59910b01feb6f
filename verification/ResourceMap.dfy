/** An ext2 allocation bitmap with its two free counters, one in the superblock (32 bits) and
    one in the group descriptor (16 bits). Resources are numbered from 1. */
module ResourceMap {
  import opened Prelude
  import opened BitWords

  const BYTE_MAX := 0xff
  const U16 := 0x1_0000
  const U32 := 0x1_0000_0000

  type Byte = b: nat | b <= BYTE_MAX

  /** The numbers in use and the two counters of free ones. */
  datatype Map = Map(used: set<nat>, sbFree: nat, gdFree: nat)

  function Inc(x: nat, modulus: nat): nat
    requires modulus > 0
  {
    (x + 1) % modulus
  }

  function Dec(x: nat, modulus: nat): nat
    requires modulus > 0
  {
    (x + modulus - 1) % modulus
  }

  /** One number is released; both counters go up. */
  function Release(m: Map, num: nat): Map {
    Map(m.used - {num}, Inc(m.sbFree, U32), Inc(m.gdFree, U16))
  }

  /** One number is taken; both counters go down. */
  function Acquire(m: Map, num: nat): Map {
    Map(m.used + {num}, Dec(m.sbFree, U32), Dec(m.gdFree, U16))
  }

  /** Both counters equal the number of clear bits among `count` resources. */
  ghost predicate Balanced(m: Map, count: nat) {
    && m.used <= Numbers(count)
    && m.sbFree == m.gdFree == count - |m.used|
  }

  /** The resource numbers 1, ..., count. */
  function Numbers(count: nat): (s: set<nat>)
    ensures forall k :: k in s <==> 1 <= k <= count
  {
    if count == 0 then {} else Numbers(count - 1) + {count}
  }

  lemma {:induction false} NumbersSize(count: nat)
    ensures |Numbers(count)| == count
  {
    if count == 0 {
    } else {
      NumbersSize(count - 1);
    }
  }

  lemma UsedFits(m: Map, count: nat)
    requires m.used <= Numbers(count)
    ensures |m.used| <= count
  {
    NumbersSize(count);
    SubsetSize(m.used, Numbers(count));
  }

  lemma AcquireBalanced(m: Map, num: nat, count: nat)
    requires Balanced(m, count) && num in Numbers(count) - m.used && count < U16
    ensures Balanced(Acquire(m, num), count)
  {
    var m' := Acquire(m, num);
    UsedFits(m', count);
    assert |m'.used| == |m.used| + 1;
    ModUnique(m.sbFree + U32 - 1, U32, 1, m.sbFree - 1);
    ModUnique(m.gdFree + U16 - 1, U16, 1, m.gdFree - 1);
  }

  lemma ReleaseBalanced(m: Map, num: nat, count: nat)
    requires Balanced(m, count) && num in m.used && count < U16
    ensures Balanced(Release(m, num), count)
  {
    var m' := Release(m, num);
    UsedFits(m, count);
    assert m.used == m'.used + {num};
    assert |m.used| == |m'.used| + 1;
  }

  predicate CountersFit(m: Map) {
    m.sbFree < U32 && m.gdFree < U16
  }

  /** Taking back what was released restores the map and both counters, even across a wrap. */
  lemma AcquireUndoesRelease(m: Map, num: nat)
    requires num in m.used && CountersFit(m)
    ensures Acquire(Release(m, num), num) == m && CountersFit(Release(m, num))
  {
    assert m.used - {num} + {num} == m.used;
  }

  lemma ReleaseUndoesAcquire(m: Map, num: nat)
    requires num !in m.used && CountersFit(m)
    ensures Release(Acquire(m, num), num) == m && CountersFit(Acquire(m, num))
  {
    assert m.used + {num} - {num} == m.used;
  }

  function SetByteBit(b: Byte, j: nat): (r: Byte)
    requires j < 8
    ensures r == OrBit(b, j)
  {
    Pow2Values();
    WordBound(b, j, 8);
    OrBit(b, j)
  }

  function ClearByteBit(b: Byte, j: nat): (r: Byte)
    requires j < 8
    ensures r == AndNotBit(b, j)
  {
    Pow2Values();
    WordBound(b, j, 8);
    AndNotBit(b, j)
  }

  class Bitmap {
    const bytes: array<Byte>
    /** s_blocks_count or s_inodes_count: a number of bits, which the allocator uses as its
        number of bytes. */
    const count: nat
    var sbFree: nat
    var gdFree: nat

    /** The bit of resource number num. */
    ghost predicate IsSet(num: nat)
      requires 1 <= num <= 8 * bytes.Length
      reads bytes
    {
      Bit(bytes[(num - 1) / 8], (num - 1) % 8)
    }

    /** The scan stays inside the bitmap, and every bit it sees past the last resource is set. */
    ghost predicate Valid()
      reads this, bytes
    {
      && count <= bytes.Length
      && (forall num :: count < num <= 8 * count ==> IsSet(num))
      && sbFree < U32 && gdFree < U16
    }

    /** A map in which all numbers are free, and the bits past the last of them set. */
    constructor (count: nat)
      requires count < U16
      ensures Valid() && fresh(bytes) && this.count == count && Value() == Map({}, count, count)
    {
      this.count, sbFree, gdFree := count, count, count;
      bytes := new Byte[count](i => 0);
      new;
      forall k | 1 <= k <= 8 * count ensures !IsSet(k) {
        NoBits((k - 1) % 8);
      }
      for num := count to 8 * count
        invariant sbFree == gdFree == count
        invariant forall k :: 1 <= k <= 8 * count ==> (IsSet(k) <==> count < k <= num)
      {
        label Before:
        bytes[num / 8] := SetByteBit(bytes[num / 8], num % 8);
        SetExactly@Before(num + 1);
      }
    }

    ghost function Value(): (m: Map)
      requires Valid()
      reads this, bytes
      ensures m.used <= Numbers(count) && CountersFit(m)
    {
      Map((set num | num in Numbers(count) && IsSet(num)), sbFree, gdFree)
    }

    /** is_resource_in_use. */
    method IsInUse(num: nat) returns (r: bool)
      requires Valid() && 1 <= num <= count
      ensures r <==> num in Value().used
    {
      var index := num - 1;
      r := Bit(bytes[index / 8], index % 8);
    }

    /** After the byte update for num, exactly num has become set. */
    twostate lemma SetExactly(num: nat)
      requires 1 <= num <= 8 * bytes.Length
      requires bytes[..] == old(bytes[..])[(num - 1) / 8 := SetByteBit(old(bytes[(num - 1) / 8]), (num - 1) % 8)]
      ensures forall k :: 1 <= k <= 8 * bytes.Length ==> (IsSet(k) <==> k == num || old(IsSet(k)))
    {
      forall k | 1 <= k <= 8 * bytes.Length ensures IsSet(k) <==> k == num || old(IsSet(k)) {
        assert bytes[(k - 1) / 8] == bytes[..][(k - 1) / 8];
        BitOfOr(old(bytes[(num - 1) / 8]), (num - 1) % 8, (k - 1) % 8);
      }
    }

    /** After the byte update for num, exactly num has become clear. */
    twostate lemma ClearedExactly(num: nat)
      requires 1 <= num <= 8 * bytes.Length
      requires bytes[..] == old(bytes[..])[(num - 1) / 8 := ClearByteBit(old(bytes[(num - 1) / 8]), (num - 1) % 8)]
      ensures forall k :: 1 <= k <= 8 * bytes.Length ==> (IsSet(k) <==> k != num && old(IsSet(k)))
    {
      forall k | 1 <= k <= 8 * bytes.Length ensures IsSet(k) <==> k != num && old(IsSet(k)) {
        assert bytes[(k - 1) / 8] == bytes[..][(k - 1) / 8];
        BitOfAndNot(old(bytes[(num - 1) / 8]), (num - 1) % 8, (k - 1) % 8);
      }
    }

    /** set_resource_in_use and the two decrements. */
    method Take(num: nat)
      requires Valid() && 1 <= num <= count
      modifies this, bytes
      ensures Valid() && Value() == Acquire(old(Value()), num)
    {
      var i, j := (num - 1) / 8, (num - 1) % 8;
      bytes[i] := SetByteBit(bytes[i], j);
      SetExactly(num);
      gdFree := Dec(gdFree, U16);
      sbFree := Dec(sbFree, U32);
    }

    /** set_inode_in_use and set_block_in_use: exit when the number is already in use. */
    method SetInUse(num: nat) returns (ok: bool)
      requires Valid() && 1 <= num <= count
      modifies this, bytes
      ensures Valid() && (ok <==> num !in old(Value()).used)
      ensures Value() == if ok then Acquire(old(Value()), num) else old(Value())
    {
      var inUse := IsInUse(num);
      ok := !inUse;
      if ok {
        Take(num);
      }
    }

    /** free_inode and free_block: the bit is cleared whatever it was. */
    method Free(num: nat)
      requires Valid() && 1 <= num <= count
      modifies this, bytes
      ensures Valid() && Value() == Release(old(Value()), num)
    {
      var i, j := (num - 1) / 8, (num - 1) % 8;
      bytes[i] := ClearByteBit(bytes[i], j);
      ClearedExactly(num);
      gdFree := Inc(gdFree, U16);
      sbFree := Inc(sbFree, U32);
    }

    /** allocate_resource and the two decrements: the least free number, or the exit when there
        is none. The scan runs over `count` bytes. */
    method Allocate() returns (num: Option<nat>)
      requires Valid()
      modifies this, bytes
      ensures Valid()
      ensures num.None? <==> old(Value()).used == Numbers(count)
      ensures num.None? ==> Value() == old(Value())
      ensures num.Some? ==>
        && 1 <= num.value <= count && num.value !in old(Value()).used
        && Numbers(num.value - 1) <= old(Value()).used
        && Value() == Acquire(old(Value()), num.value)
    {
      for i := 0 to count
        invariant unchanged(this) && unchanged(bytes)
        invariant forall k :: 1 <= k <= 8 * i ==> IsSet(k)
      {
        for j := 0 to 8
          invariant unchanged(this) && unchanged(bytes)
          invariant forall k :: 1 <= k <= 8 * i + j ==> IsSet(k)
        {
          if !Bit(bytes[i], j) {
            var n := 8 * i + j + 1;
            assert (n - 1) / 8 == i && (n - 1) % 8 == j;
            assert !IsSet(n);
            assert n <= count && n !in Value().used && Numbers(n - 1) <= Value().used;
            Take(n);
            return Some(n);
          }
          assert (8 * i + j) / 8 == i && (8 * i + j) % 8 == j;
          assert IsSet(8 * i + j + 1);
        }
      }
      num := None;
    }
  }
}
