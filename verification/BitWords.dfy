/** Machine words as naturals, read through their binary digits. `w & (1 << j)` is
    Bit(w, j), `w | (1 << j)` is OrBit(w, j), `w & ~(1 << j)` is AndNotBit(w, j),
    `w >> n` is Shr(w, n) and `w << n` is Shl(w, n). */
module BitWords {

  function Pow2(n: nat): nat {
    if n == 0 then 1 else 2 * Pow2(n - 1)
  }

  lemma Pow2Values()
    ensures Pow2(8) == 0x100 && Pow2(32) == 0x1_0000_0000
  {
    assert Pow2(8) == 0x100;
    assert Pow2(16) == 0x1_0000;
    assert Pow2(24) == 0x100_0000;
  }

  predicate Bit(w: nat, j: nat) {
    if j == 0 then w % 2 == 1 else Bit(w / 2, j - 1)
  }

  function OrBit(w: nat, j: nat): nat {
    if j == 0 then w / 2 * 2 + 1 else w % 2 + 2 * OrBit(w / 2, j - 1)
  }

  function AndNotBit(w: nat, j: nat): nat {
    if j == 0 then w / 2 * 2 else w % 2 + 2 * AndNotBit(w / 2, j - 1)
  }

  function Shr(w: nat, n: nat): nat {
    if n == 0 then w else Shr(w / 2, n - 1)
  }

  function Shl(w: nat, n: nat): nat {
    if n == 0 then w else 2 * Shl(w, n - 1)
  }

  lemma {:induction false} ShlIsMultiply(w: nat, n: nat)
    ensures Shl(w, n) == w * Pow2(n)
  {
    if n == 0 {
    } else {
      ShlIsMultiply(w, n - 1);
    }
  }

  lemma {:induction false} ShiftRoundTrip(w: nat, n: nat)
    ensures Shr(Shl(w, n), n) == w
  {
    if n == 0 {
    } else {
      ShiftRoundTrip(w, n - 1);
    }
  }

  lemma {:induction false} ShiftedInZeros(w: nat, n: nat, j: nat)
    requires j < n
    ensures !Bit(Shl(w, n), j)
  {
    if j == 0 {
    } else {
      ShiftedInZeros(w, n - 1, j - 1);
    }
  }

  /** Changing a digit below n does not change the word shifted right by n. */
  lemma {:induction false} LowDigitsShiftOut(w: nat, j: nat, n: nat)
    requires j < n
    ensures Shr(OrBit(w, j), n) == Shr(w, n)
    ensures Shr(AndNotBit(w, j), n) == Shr(w, n)
  {
    if j == 0 {
    } else {
      LowDigitsShiftOut(w / 2, j - 1, n - 1);
    }
  }

  lemma {:induction false} BitOfOr(w: nat, j: nat, k: nat)
    ensures Bit(OrBit(w, j), k) == (j == k || Bit(w, k))
  {
    if j == 0 || k == 0 {
    } else {
      BitOfOr(w / 2, j - 1, k - 1);
    }
  }

  lemma {:induction false} BitOfAndNot(w: nat, j: nat, k: nat)
    ensures Bit(AndNotBit(w, j), k) == (j != k && Bit(w, k))
  {
    if j == 0 || k == 0 {
    } else {
      BitOfAndNot(w / 2, j - 1, k - 1);
    }
  }

  /** The digit operations are the arithmetic ones: a clear digit j is worth Pow2(j). */
  lemma {:induction false} OrBitAdds(w: nat, j: nat)
    ensures OrBit(w, j) == if Bit(w, j) then w else w + Pow2(j)
    ensures AndNotBit(w, j) == if Bit(w, j) then w - Pow2(j) else w
  {
    if j == 0 {
    } else {
      OrBitAdds(w / 2, j - 1);
    }
  }

  lemma {:induction false} WordBound(w: nat, j: nat, n: nat)
    requires w < Pow2(n) && j < n
    ensures OrBit(w, j) < Pow2(n) && AndNotBit(w, j) < Pow2(n)
  {
    assert Pow2(n) == 2 * Pow2(n - 1) && w / 2 < Pow2(n - 1);
    if j == 0 {
    } else {
      WordBound(w / 2, j - 1, n - 1);
    }
  }

  /** Every digit of the all-ones word is set... */
  lemma {:induction false} OnesHaveAllBits(n: nat, j: nat)
    requires j < n
    ensures Pow2(n) >= 1 && Bit(Pow2(n) - 1, j)
  {
    Pow2Positive(n - 1);
    assert (Pow2(n) - 1) % 2 == 1 && (Pow2(n) - 1) / 2 == Pow2(n - 1) - 1;
    if j == 0 {
    } else {
      OnesHaveAllBits(n - 1, j - 1);
    }
  }

  /** ...and no other word of that width has that property. */
  lemma {:induction false} AllBitsMakeOnes(w: nat, n: nat)
    requires w < Pow2(n)
    requires forall j: nat :: j < n ==> Bit(w, j)
    ensures w == Pow2(n) - 1
  {
    if n == 0 {
    } else {
      assert Bit(w, 0);
      forall j: nat | j < n - 1 ensures Bit(w / 2, j) { assert Bit(w, j + 1); }
      AllBitsMakeOnes(w / 2, n - 1);
    }
  }

  lemma {:induction false} Pow2Positive(n: nat)
    ensures Pow2(n) >= 1
  {
    if n == 0 {
    } else {
      Pow2Positive(n - 1);
    }
  }

  lemma {:induction false} NoBits(j: nat)
    ensures !Bit(0, j)
  {
    if j == 0 {
    } else {
      NoBits(j - 1);
    }
  }

  /** A 32-bit word. */
  const BITS_PER_WORD := 32
  const WORD_ALLBITS := 0xffff_ffff

  type Word = w: nat | w <= WORD_ALLBITS

  function SetWordBit(w: Word, j: nat): (r: Word)
    requires j < BITS_PER_WORD
    ensures r == OrBit(w, j)
  {
    Pow2Values();
    WordBound(w, j, BITS_PER_WORD);
    OrBit(w, j)
  }

  function ClearWordBit(w: Word, j: nat): (r: Word)
    requires j < BITS_PER_WORD
    ensures r == AndNotBit(w, j)
  {
    Pow2Values();
    WordBound(w, j, BITS_PER_WORD);
    AndNotBit(w, j)
  }
}
