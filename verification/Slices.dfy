/** Slices and the pool they circulate through (src/slice.h, src/slice.cc), and the reader that
    fills them (src/InputFilter.cc). Sizes are in 32-bit words. */
module Slices {
  import opened Basics

  /** A buffer of fixed capacity and its logical end. */
  class Slice {
    const data: array<Word>
    var size: nat
    var counts: nat

    ghost predicate Valid()
      reads this
    {
      size <= data.Length
    }

    function Words(): seq<Word>
      requires Valid()
      reads this, data
    {
      data[..size]
    }

    constructor Allocate(maxSize: nat)
      ensures fresh(data) && data.Length == maxSize && size == 0 && counts == 0
    {
      data := new Word[maxSize];
      size, counts := 0, 0;
    }

    method SetEnd(end: nat)
      requires end <= data.Length
      modifies this`size
      ensures size == end
    {
      size := end;
    }
  }

  /** Pairwise different slices over pairwise different memory, all empty. */
  ghost predicate AllFree(slices: seq<Slice>)
    reads slices
  {
    && (forall i :: 0 <= i < |slices| ==> slices[i].size == 0)
    && (forall i, j :: 0 <= i < j < |slices| ==> slices[i] != slices[j] && slices[i].data != slices[j].data)
  }

  class SlicePool {
    var free: seq<Slice>

    constructor ()
      ensures free == []
    {
      free := [];
    }

    /** None means that the pop blocks. */
    method PreAllocate(maxSize: nat, count: nat) returns (t: Option<Slice>)
      requires AllFree(free)
      modifies this
      ensures t.None? <==> old(free) == [] && count == 0
      ensures t.Some? ==> AllFree([t.value] + free)
      ensures old(free) != [] ==> [t.value] + free == old(free)
      ensures old(free) == [] && count > 0 ==>
                |free| == count - 1 && forall s :: s in [t.value] + free ==>
                  fresh(s) && fresh(s.data) && s.data.Length == maxSize
    {
      if free == [] {
        for i := 0 to count
          invariant |free| == i && AllFree(free)
          invariant forall s :: s in free ==> fresh(s) && fresh(s.data) && s.data.Length == maxSize
        {
          var s := new Slice.Allocate(maxSize);
          free := free + [s];
        }
      }
      t := GetAllocated();
    }

    method GetAllocated() returns (t: Option<Slice>)
      modifies this
      ensures t.None? <==> old(free) == []
      ensures old(free) == if t.Some? then [t.value] + free else free
    {
      if free == [] {
        return None;
      }
      t := Some(free[0]);
      free := free[1..];
    }

    method GiveAllocated(t: Slice)
      requires AllFree(free) && forall s :: s in free ==> s != t && s.data != t.data
      modifies this, t`size
      ensures free == old(free) + [t] && AllFree(free)
    {
      t.SetEnd(0);
      free := free + [t];
    }
  }

  class InputFilter {
    const pool: SlicePool
    var nextSlice: Slice
    var nbReads: nat
    var nbWordsRead: nat

    /** The reader holds one empty slice; the pool holds others, all empty. */
    ghost predicate Valid()
      reads this, pool, pool.free, nextSlice
    {
      AllFree([nextSlice] + pool.free)
    }

    constructor (pool: SlicePool, first: Slice)
      requires AllFree([first] + pool.free)
      ensures Valid() && this.pool == pool && nextSlice == first && nbReads == 0 && nbWordsRead == 0
    {
      this.pool, nextSlice, nbReads, nbWordsRead := pool, first, 0, 0;
    }

    /** One call with a packet that fits: the filled slice leaves, the next one is taken from the
        pool. None means that the pool is empty and the call blocks in the pop, with the packet in the
        slice it holds; it goes on with `HandOver`. */
    method Read(packet: seq<Word>) returns (filled: Option<Slice>)
      requires Valid() && 0 < |packet| <= nextSlice.data.Length
      modifies this, pool, nextSlice, nextSlice.data
      ensures filled.None? <==> old(pool.free) == []
      ensures filled.None? ==> Valid() && nextSlice == old(nextSlice) && pool.free == []
      ensures filled.None? ==> nextSlice.data[..|packet|] == packet
      ensures filled.Some? ==> filled.value == old(nextSlice) && filled.value.Valid() && filled.value.Words() == packet
      ensures filled.Some? ==> [nextSlice] + pool.free == old(pool.free) && Valid()
      ensures filled.Some? ==> filled.value !in [nextSlice] + pool.free
      ensures nbReads == old(nbReads) + 1 && nbWordsRead == old(nbWordsRead) + |packet|
    {
      nbReads := nbReads + 1;
      forall i | 0 <= i < |packet| {
        nextSlice.data[i] := packet[i];
      }
      nbWordsRead := nbWordsRead + |packet|;
      filled := HandOver(|packet|);
    }

    /** The pop and what follows it, for `length` words read into the held slice. */
    method HandOver(length: nat) returns (filled: Option<Slice>)
      requires Valid() && length <= nextSlice.data.Length
      modifies this`nextSlice, pool, nextSlice`size
      ensures filled.None? <==> old(pool.free) == []
      ensures filled.None? ==> Valid() && nextSlice == old(nextSlice) && pool.free == []
      ensures filled.Some? ==> filled.value == old(nextSlice) && filled.value.size == length
      ensures filled.Some? ==> [nextSlice] + pool.free == old(pool.free) && Valid()
      ensures filled.Some? ==> filled.value !in [nextSlice] + pool.free
    {
      ghost var all := [nextSlice] + pool.free;
      assert all[0].size == 0 && forall i :: 0 <= i < |pool.free| ==> pool.free[i] == all[i + 1];
      var thisSlice := nextSlice;
      var next := pool.GetAllocated();
      if next.None? {
        return None;
      }
      nextSlice := next.value;
      thisSlice.SetEnd(thisSlice.size + length);
      filled := Some(thisSlice);
    }
  }
}
