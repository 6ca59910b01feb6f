/** The swap file with its bitmap, updated in place. */
module SwapSpace {
  import opened SwapBitmap
  import opened PageTable
  import opened Paging

  class Swap {
    const swapmap: Bitmap
    const file: array<Page>

    ghost predicate Valid()
      reads swapmap.v
    {
      swapmap.Valid() && swapmap.nbits == file.Length
    }

    constructor (swapsize: nat)
      ensures Valid() && fresh(swapmap) && fresh(swapmap.v) && fresh(file)
      ensures file.Length == swapsize && swapmap.Marked() == {}
    {
      swapmap := new Bitmap(swapsize);
      file := new Page[swapsize](_ => Page(0, 0));
    }

    /** Writes the frame to its slot, allocating the least free slot when it has none. */
    method PageOut(physmem: array<Page>, frame: nat, off: int) returns (r: int)
      requires Valid() && physmem != file && frame < physmem.Length
      requires OffsetOk(off) && (off != INVALID_SWAP ==> off / SIMPAGESIZE in swapmap.Marked())
      modifies swapmap.v, file
      ensures Valid() && OffsetOk(r)
      ensures r == INVALID_SWAP <==> off == INVALID_SWAP && LeastAbsent(old(swapmap.Marked()), 0, file.Length) == file.Length
      ensures r != INVALID_SWAP ==>
        && SlotAt(r) == (if off != INVALID_SWAP then SlotAt(off) else LeastAbsent(old(swapmap.Marked()), 0, file.Length))
        && 0 <= SlotAt(r) < file.Length
        && swapmap.Marked() == old(swapmap.Marked()) + {SlotAt(r)}
        && file[..] == old(file[..])[SlotAt(r) := physmem[frame]]
    {
      r := off;
      if r == INVALID_SWAP {
        var idx := swapmap.Alloc();
        if idx.None? {
          return INVALID_SWAP;
        }
        r := idx.value * SIMPAGESIZE;
      }
      file[r / SIMPAGESIZE] := physmem[frame];
    }

    /** Reads the slot back into the frame. */
    method PageIn(physmem: array<Page>, frame: nat, off: int)
      requires Valid() && physmem != file && frame < physmem.Length
      requires off != INVALID_SWAP && OffsetOk(off) && SlotAt(off) < file.Length
      modifies physmem
      ensures physmem[..] == old(physmem[..])[frame := file[SlotAt(off)]]
    {
      physmem[frame] := file[off / SIMPAGESIZE];
    }
  }
}
