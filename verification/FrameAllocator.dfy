/** The page allocator as the page tables use it: addresses with NULL for nothing, and the clear bits as a set of free
    frames. */
module FrameAllocator {
  import opened Base
  import opened Bitmap
  import opened Pmm

  /** The allocator is sound and page 0, whose address reads as NULL, is in use. */
  ghost predicate Serves(a: Allocator)
    reads a, a.bitmap
  {
    a.Valid() && 0 !in FreeSet(a.Bits())
  }

  ghost function Free(a: Allocator): (s: set<nat>)
    requires Serves(a)
    reads a, a.bitmap
  {
    FreeSet(a.Bits())
  }

  /** The pages that can be handed out. */
  ghost function Pages(a: Allocator): (s: set<nat>) { Run(0, a.totalPages) - {0} }

  lemma FreeInPages(a: Allocator)
    requires Serves(a)
    ensures Free(a) <= Pages(a)
  {
    hide Unpack, Count, Run;
  }

  lemma NoNull(a: Allocator)
    ensures 0 !in Pages(a)
  {
  }

  /** The free pages determine the bitmap. */
  lemma SameBits(b: seq<bool>, c: seq<bool>)
    requires |b| == |c| && FreeSet(b) == FreeSet(c)
    ensures b == c
  {
    forall k | 0 <= k < |b| ensures b[k] == c[k] { assert k in FreeSet(b) <==> k in FreeSet(c); }
  }

  method PmmAlloc(a: Allocator) returns (f: Option<nat>)
    requires Serves(a)
    modifies a, a.bitmap
    ensures Serves(a)
    ensures old(Free(a)) == {} ==> f.None? && Free(a) == {}
    ensures old(Free(a)) != {} ==> f.Some? && f.value in old(Free(a)) && Free(a) == old(Free(a)) - {f.value}
  {
    hide Bit, Unpack, Count, Wrap;
    ghost var at;
    var addr;
    addr, at := a.Alloc();
    return if addr == 0 then None else Some(addr / 4096);
  }

  method PmmAllocPages(a: Allocator, count: nat) returns (f: Option<nat>)
    requires Serves(a)
    modifies a, a.bitmap
    ensures Serves(a)
    ensures f.None? ==> Free(a) == old(Free(a))
    ensures f.Some? ==>
            count > 0 && Run(f.value, count) <= old(Free(a)) && Free(a) == old(Free(a)) - Run(f.value, count)
  {
    hide Bit, Unpack, Count, Wrap, MarkRun, Run;
    ghost var at;
    var addr;
    addr, at := a.AllocPages(count);
    return if addr == 0 then None else Some(addr / 4096);
  }

  method PmmFree(a: Allocator, f: nat)
    requires Serves(a) && f in Pages(a) && f !in Free(a)
    modifies a, a.bitmap
    ensures Serves(a) && Free(a) == old(Free(a)) + {f}
  {
    hide Bit, Unpack, Count;
    PageNumber(f);
    a.Free(f * 4096);
  }

  method PmmFreePages(a: Allocator, f: nat, count: nat)
    requires Serves(a) && count > 0 && Run(f, count) <= Pages(a) && Free(a) !! Run(f, count)
    modifies a, a.bitmap
    ensures Serves(a) && Free(a) == old(Free(a)) + Run(f, count)
  {
    hide Bit, Unpack, Count, Run;
    PageNumber(f);
    assert f in Run(f, count) && f + count - 1 in Run(f, count);
    a.FreePages(f * 4096, count);
  }

  lemma PageNumber(f: nat)
    ensures f * 4096 / 4096 == f && (f > 0 ==> f * 4096 != 0)
  {
  }

  /** Sixteen pages of which four are free. */
  method SixteenPages() returns (a: Allocator)
    ensures fresh(a) && fresh(a.bitmap) && Serves(a) && Free(a) == {2, 3, 4, 5} && a.totalPages == 16
  {
    hide Unpack, Count;
    FourFree();
    a := new Allocator([0xC3, 0xFF], 16);
  }

  lemma FourFree()
    ensures FreeSet(Unpack([0xC3, 0xFF], 16)) == {2, 3, 4, 5}
  {
    var s: seq<bv8> := [0xC3, 0xFF];
    assert Bit(s, 0) && Bit(s, 1) && !Bit(s, 2) && !Bit(s, 3) && !Bit(s, 4) && !Bit(s, 5) && Bit(s, 6) && Bit(s, 7);
    assert Bit(s, 8) && Bit(s, 9) && Bit(s, 10) && Bit(s, 11) && Bit(s, 12) && Bit(s, 13) && Bit(s, 14) && Bit(s, 15);
  }
}
