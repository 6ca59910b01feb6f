/** The bitmap that manages space in the swap file: an array of 32-bit words
    that refines the set of marked indices below nbits. */
module SwapBitmap {
  import opened Prelude
  import opened BitWords

  class Bitmap {
    const nbits: nat
    const v: array<Word>

    ghost predicate IsSet(n: nat)
      requires n < BITS_PER_WORD * v.Length
      reads v
    {
      Bit(v[n / BITS_PER_WORD], n % BITS_PER_WORD)
    }

    /** The words cover nbits exactly, and the leftover bits of the last word are in use. */
    ghost predicate Valid()
      reads v
    {
      && v.Length == (nbits + BITS_PER_WORD - 1) / BITS_PER_WORD
      && (forall n :: nbits <= n < BITS_PER_WORD * v.Length ==> IsSet(n))
    }

    ghost function Marked(): (s: set<nat>)
      requires Valid()
      reads v
      ensures s <= Below(nbits)
    {
      set n | n in Below(nbits) && IsSet(n)
    }

    constructor (nbits: nat)
      ensures Valid() && fresh(v) && this.nbits == nbits
      ensures Marked() == {}
    {
      var words := (nbits + BITS_PER_WORD - 1) / BITS_PER_WORD;
      this.nbits := nbits;
      this.v := new Word[words](_ => 0);
      new;
      forall n: nat | n < BITS_PER_WORD * words ensures !IsSet(n) { NoBits(n % BITS_PER_WORD); }
      if words > nbits / BITS_PER_WORD {
        var ix := words - 1;
        var overbits := nbits - ix * BITS_PER_WORD;
        assert nbits / BITS_PER_WORD == words - 1;
        assert 0 < overbits < BITS_PER_WORD;
        for j := overbits to BITS_PER_WORD
          invariant forall n: nat :: n < BITS_PER_WORD * words ==> (IsSet(n) <==> nbits <= n < BITS_PER_WORD * ix + j)
        {
          label before:
          v[ix] := SetWordBit(v[ix], j);
          SetExactly@before(BITS_PER_WORD * ix + j);
        }
      }
    }

    /** After the word update at k, exactly k has become set. */
    twostate lemma SetExactly(k: nat)
      requires k < BITS_PER_WORD * v.Length
      requires v[..] == old(v[..])[k / BITS_PER_WORD := OrBit(old(v[k / BITS_PER_WORD]), k % BITS_PER_WORD)]
      ensures forall n: nat :: n < BITS_PER_WORD * v.Length ==> (IsSet(n) <==> n == k || old(IsSet(n)))
    {
      forall n: nat | n < BITS_PER_WORD * v.Length ensures IsSet(n) <==> n == k || old(IsSet(n)) {
        BitOfOr(old(v[k / BITS_PER_WORD]), k % BITS_PER_WORD, n % BITS_PER_WORD);
        assert v[n / BITS_PER_WORD] == v[..][n / BITS_PER_WORD];
      }
    }

    /** Marks the least unmarked index; fails exactly when every index is marked. */
    method Alloc() returns (index: Option<nat>)
      requires Valid()
      modifies v
      ensures Valid()
      ensures index.None? <==> old(Marked()) == Below(nbits)
      ensures index.None? ==> Marked() == old(Marked())
      ensures index.Some? ==> index.value < nbits && index.value !in old(Marked())
      ensures index.Some? ==> Below(index.value) <= old(Marked())
      ensures index.Some? ==> Marked() == old(Marked()) + {index.value}
    {
      hide Bit, OrBit;
      var maxix := (nbits + BITS_PER_WORD - 1) / BITS_PER_WORD;
      for ix := 0 to maxix
        invariant unchanged(v)
        invariant forall n: nat :: n < BITS_PER_WORD * ix ==> IsSet(n)
      {
        if v[ix] != WORD_ALLBITS {
          var offset := FirstClear(v[ix]);
          var k := ix * BITS_PER_WORD + offset;
          LeastUnmarked(ix, offset);
          v[ix] := SetWordBit(v[ix], offset);
          SetExactly(k);
          return Some(k);
        }
        FullWord(ix);
      }
      index := None;
    }

    lemma FullWord(ix: nat)
      requires ix < v.Length && v[ix] == WORD_ALLBITS
      ensures forall n: nat :: BITS_PER_WORD * ix <= n < BITS_PER_WORD * (ix + 1) ==> IsSet(n)
    {
      Pow2Values();
      forall n: nat | BITS_PER_WORD * ix <= n < BITS_PER_WORD * (ix + 1) ensures IsSet(n) {
        OnesHaveAllBits(BITS_PER_WORD, n % BITS_PER_WORD);
      }
    }

    /** The first clear bit of the first word with one is the least unmarked index. */
    lemma LeastUnmarked(ix: nat, offset: nat)
      requires Valid() && ix < v.Length && offset < BITS_PER_WORD && !Bit(v[ix], offset)
      requires forall n: nat :: n < BITS_PER_WORD * ix ==> IsSet(n)
      requires forall j: nat :: j < offset ==> Bit(v[ix], j)
      ensures var k := ix * BITS_PER_WORD + offset; k < nbits && k !in Marked() && Below(k) <= Marked()
    {
      var k := ix * BITS_PER_WORD + offset;
      assert k / BITS_PER_WORD == ix && k % BITS_PER_WORD == offset;
      assert !IsSet(k);
      forall n: nat | BITS_PER_WORD * ix <= n < k ensures IsSet(n) {
        assert n / BITS_PER_WORD == ix && Bit(v[ix], n % BITS_PER_WORD);
      }
    }

    /** The inner loop of the allocator: a word that is not all ones has a clear bit. */
    static method FirstClear(word: Word) returns (offset: nat)
      requires word != WORD_ALLBITS
      ensures offset < BITS_PER_WORD && !Bit(word, offset)
      ensures forall j: nat :: j < offset ==> Bit(word, j)
    {
      for i := 0 to BITS_PER_WORD
        invariant forall j: nat :: j < i ==> Bit(word, j)
      {
        if !Bit(word, i) {
          return i;
        }
      }
      Pow2Values();
      AllBitsMakeOnes(word, BITS_PER_WORD);
      assert false;
    }

    method Mark(index: nat)
      requires Valid() && index < nbits && index !in Marked()
      modifies v
      ensures Valid() && Marked() == old(Marked()) + {index}
    {
      var ix, offset := index / BITS_PER_WORD, index % BITS_PER_WORD;
      v[ix] := SetWordBit(v[ix], offset);
      SetExactly(index);
    }

    method Unmark(index: nat)
      requires Valid() && index in Marked()
      modifies v
      ensures Valid() && Marked() == old(Marked()) - {index}
    {
      var ix, offset := index / BITS_PER_WORD, index % BITS_PER_WORD;
      ghost var before := v[ix];
      v[ix] := ClearWordBit(v[ix], offset);
      forall n: nat | n < BITS_PER_WORD * v.Length ensures IsSet(n) <==> n != index && old(IsSet(n)) {
        BitOfAndNot(before, offset, n % BITS_PER_WORD);
      }
    }

    method IsMarked(index: nat) returns (r: bool)
      requires Valid() && index < nbits
      ensures r <==> index in Marked()
    {
      r := Bit(v[index / BITS_PER_WORD], index % BITS_PER_WORD);
    }
  }
}
