/** pmm.c: physical pages handed out from a bitmap. Addresses are byte addresses and 0 is NULL, so an
    allocation that lands on page 0 reads as a failure; the contracts keep the two apart. */
module Pmm {
  import opened Base
  import opened Bitmap

  /** Pages i .. i+n-1 are all free. */
  ghost predicate FreeRun(b: seq<bool>, i: nat, n: nat) { i + n <= |b| && forall j :: i <= j < i + n ==> !b[j] }

  ghost function MarkRun(b: seq<bool>, i: nat, n: nat, v: bool): (r: seq<bool>)
    requires i + n <= |b|
    ensures |r| == |b| && forall j :: 0 <= j < |b| ==> r[j] == if i <= j < i + n then v else b[j]
  {
    if n == 0 then b else MarkRun(b, i, n - 1, v)[i + n - 1 := v]
  }

  lemma {:induction false} CountMark(b: seq<bool>, i: nat, n: nat)
    requires FreeRun(b, i, n)
    ensures Count(MarkRun(b, i, n, true)) == Count(b) + n
  {
    hide Count;
    if n > 0 {
      CountMark(b, i, n - 1);
      CountUpdate(MarkRun(b, i, n - 1, true), i + n - 1, true);
    }
  }

  /** A run of free pages on one side of the search cursor: the only runs pmm_alloc_pages looks at. */
  ghost predicate RunBesideCursor(b: seq<bool>, cursor: nat, count: nat, k: nat) {
    FreeRun(b, k, count) && (cursor <= k || k + count <= cursor)
  }

  /** `count` consecutive pages. */
  function Run(base: nat, count: nat): (r: set<nat>)
    ensures forall x :: x in r <==> base <= x < base + count
  {
    if count == 0 then {} else Run(base, count - 1) + {base + count - 1}
  }

  /** The free pages as a set: what the page tables see of the allocator. */
  ghost function FreeSet(b: seq<bool>): (s: set<nat>) { set k: nat | k < |b| && !b[k] }

  lemma FreeSetUpdate(b: seq<bool>, i: nat)
    requires i < |b|
    ensures FreeSet(b[i := true]) == FreeSet(b) - {i} && FreeSet(b[i := false]) == FreeSet(b) + {i}
  {
  }

  lemma FreeSetMark(b: seq<bool>, i: nat, n: nat)
    requires i + n <= |b|
    ensures FreeSet(MarkRun(b, i, n, true)) == FreeSet(b) - Run(i, n)
  {
    hide MarkRun, Run;
  }

  lemma FreeSetClear(b: seq<bool>, c: seq<bool>, i: nat, n: nat)
    requires |b| == |c| && i + n <= |b| && forall k :: 0 <= k < |b| ==> c[k] == (b[k] && !(i <= k < i + n))
    ensures FreeSet(c) == FreeSet(b) + Run(i, n)
  {
    hide Run;
  }

  /** `x % n`, for positions that go round the bitmap. */
  function Wrap(x: nat, n: nat): (r: nat)
    requires n > 0
    ensures r < n
    ensures x < n ==> r == x
    ensures n <= x < 2 * n ==> r == x - n
  {
    RoundOnce(x, n);
    x % n
  }

  lemma RoundOnce(x: nat, n: nat)
    requires n > 0
    ensures x % n < n && (x < n ==> x % n == x) && (n <= x < 2 * n ==> x % n == x - n)
  {
    var q := x / n;
    assert x == q * n + x % n;
    if n <= x < 2 * n {
      if q >= 2 { MulMono(2, q, n); }
      assert q <= 1;
    }
  }

  class Allocator {
    const bitmap: array<bv8>
    const totalPages: nat
    var usedPages: nat
    var cursor: nat

    ghost predicate Fits() { totalPages <= 8 * bitmap.Length }

    ghost function Bits(): (b: seq<bool>)
      requires Fits()
      reads bitmap
    {
      Unpack(bitmap[..], totalPages)
    }

    /** used_pages counts the set bits, and the search cursor is a page. */
    ghost predicate Valid()
      reads this, bitmap
    {
      Fits() && usedPages == Count(Bits()) && (totalPages > 0 ==> cursor < totalPages)
    }

    /** What pmm_init leaves: some bitmap, its set bits counted, and the search at page 0. */
    constructor (bytes: seq<bv8>, pages: nat)
      requires pages <= 8 * |bytes|
      ensures Valid() && fresh(bitmap) && totalPages == pages && cursor == 0 && Bits() == Unpack(bytes, pages)
    {
      hide Bit, Unpack, Count;
      bitmap := new bv8[|bytes|](i requires 0 <= i < |bytes| => bytes[i]);
      totalPages, usedPages, cursor := pages, 0, 0;
      new;
      assert bitmap[..] == bytes;
      CountNone(Bits()[..0]);
      for i := 0 to pages
        invariant bitmap[..] == bytes && totalPages == pages && cursor == 0 && fresh(bitmap)
        invariant usedPages == Count(Bits()[..i])
      {
        var used := BitmapTest(i);
        CountNext(Bits(), i);
        if used {
          usedPages := usedPages + 1;
        }
      }
      assert Bits()[..pages] == Bits();
    }

    static lemma CountNone(b: seq<bool>)
      requires b == []
      ensures Count(b) == 0
    {
    }

    static lemma CountNext(b: seq<bool>, i: nat)
      requires i < |b|
      ensures Count(b[..i + 1]) == Count(b[..i]) + if b[i] then 1 else 0
    {
      assert b[..i + 1][..i] == b[..i];
    }

    method BitmapSet(i: nat)
      requires Fits() && i < totalPages
      modifies bitmap
      ensures Bits() == old(Bits())[i := true]
    {
      UnpackSet(bitmap[..], totalPages, i);
      ghost var s := bitmap[..];
      bitmap[i / 8] := bitmap[i / 8] | Mask(i % 8);
      assert bitmap[..] == s[i / 8 := s[i / 8] | Mask(i % 8)];
    }

    method BitmapClear(i: nat)
      requires Fits() && i < totalPages
      modifies bitmap
      ensures Bits() == old(Bits())[i := false]
    {
      UnpackClear(bitmap[..], totalPages, i);
      ghost var s := bitmap[..];
      bitmap[i / 8] := bitmap[i / 8] & !Mask(i % 8);
      assert bitmap[..] == s[i / 8 := s[i / 8] & !Mask(i % 8)];
    }

    method BitmapTest(i: nat) returns (b: bool)
      requires Fits() && i < totalPages
      ensures b == Bits()[i]
    {
      b := bitmap[i / 8] & Mask(i % 8) != 0;
    }

    /** allocate_run_from: the lowest run of `count` free pages inside [start, end), or none exactly when there
        is none. `at` is where the run starts. */
    method AllocateRunFrom(start: nat, end: nat, count: nat) returns (addr: nat, ghost at: Option<nat>)
      requires Valid() && end <= totalPages && count > 0
      modifies this, bitmap
      ensures Valid()
      ensures at.None? ==> addr == 0 && Bits() == old(Bits()) && usedPages == old(usedPages) && cursor == old(cursor)
      ensures at.None? ==> forall k :: start <= k && k + count <= end ==> !FreeRun(old(Bits()), k, count)
      ensures at.Some? ==> start <= at.value && at.value + count <= end && FreeRun(old(Bits()), at.value, count)
      ensures at.Some? ==> forall k :: start <= k < at.value ==> !FreeRun(old(Bits()), k, count)
      ensures at.Some? ==> addr == at.value * 4096 && Bits() == MarkRun(old(Bits()), at.value, count, true)
      ensures at.Some? ==> cursor == Wrap(at.value + count, totalPages) && usedPages == old(usedPages) + count
    {
      hide Bit, Unpack, Count, MarkRun, Wrap;
      ghost var b := Bits();
      var idx := start;
      while idx + count <= end
        invariant start <= idx && Valid() && Bits() == b && usedPages == old(usedPages) && cursor == old(cursor)
        invariant forall k :: start <= k < idx && k + count <= end ==> !FreeRun(b, k, count)
        decreases end - idx
      {
        var run := RunLength(idx, end, count);
        if run == count {
          MarkUsed(idx, count);
          CountMark(b, idx, count);
          usedPages := usedPages + count;
          cursor := Wrap(idx + count, totalPages);
          return idx * 4096, Some(idx);
        }
        assert b[idx + run];
        forall k | start <= k < idx + run + 1 && k + count <= end ensures !FreeRun(b, k, count) {
          if k >= idx { assert k <= idx + run < k + count; }
        }
        idx := idx + run + 1;
      }
      return 0, None;
    }

    /** The inner loop: how many free pages follow idx, up to count. */
    method RunLength(idx: nat, end: nat, count: nat) returns (run: nat)
      requires Fits() && idx + count <= end <= totalPages
      ensures run <= count && FreeRun(Bits(), idx, run) && (run < count ==> Bits()[idx + run])
    {
      hide Bit, Unpack;
      run := 0;
      while run < count
        invariant run <= count && FreeRun(Bits(), idx, run)
      {
        var used := BitmapTest(idx + run);
        if used {
          return;
        }
        run := run + 1;
      }
    }

    method MarkUsed(idx: nat, count: nat)
      requires Fits() && idx + count <= totalPages
      modifies bitmap
      ensures Bits() == MarkRun(old(Bits()), idx, count, true)
    {
      hide Bit, Unpack;
      ghost var b := Bits();
      for j := 0 to count
        invariant Bits() == MarkRun(b, idx, j, true)
      {
        BitmapSet(idx + j);
      }
    }

    /** pmm_alloc: the first free page at or after the cursor, going round; nothing exactly when every page is used. */
    method Alloc() returns (addr: nat, ghost at: Option<nat>)
      requires Valid()
      modifies this, bitmap
      ensures Valid()
      ensures at.None? ==> addr == 0 && Bits() == old(Bits()) && usedPages == old(usedPages) && cursor == old(cursor)
      ensures at.None? <==> forall k :: 0 <= k < totalPages ==> old(Bits())[k]
      ensures at.None? <==> FreeSet(old(Bits())) == {}
      ensures at.Some? ==> FreeSet(Bits()) == FreeSet(old(Bits())) - {at.value}
      ensures at.Some? ==> at.value < totalPages && !old(Bits())[at.value] && Bits() == old(Bits())[at.value := true]
      ensures at.Some? ==> addr == at.value * 4096 && usedPages == old(usedPages) + 1
                           && cursor == Wrap(at.value + 1, totalPages)
      ensures at.Some? ==> forall k :: (if at.value >= old(cursor) then old(cursor) <= k < at.value
                                        else old(cursor) <= k < totalPages || 0 <= k < at.value) ==> old(Bits())[k]
    {
      hide Bit, Unpack, Count, Wrap;
      ghost var b := Bits();
      if totalPages == 0 {
        return 0, None;
      }
      var scanned := 0;
      while scanned < totalPages
        invariant 0 <= scanned <= totalPages
        invariant Valid() && Bits() == b && usedPages == old(usedPages) && cursor == old(cursor)
        invariant forall k :: cursor <= k < totalPages && k < cursor + scanned ==> b[k]
        invariant forall k :: 0 <= k < totalPages && k < cursor + scanned - totalPages ==> b[k]
      {
        var idx := Wrap(cursor + scanned, totalPages);
        var used := BitmapTest(idx);
        if !used {
          BitmapSet(idx);
          CountUpdate(b, idx, true);
          FreeSetUpdate(b, idx);
          usedPages := usedPages + 1;
          cursor := Wrap(idx + 1, totalPages);
          return idx * 4096, Some(idx);
        }
        scanned := scanned + 1;
      }
      return 0, None;
    }

    /** pmm_free: clears the page if it was in use; NULL, unknown and already free pages are ignored. */
    method Free(addr: nat)
      requires Valid()
      modifies this, bitmap
      ensures Valid()
      ensures var p := addr / 4096;
              Bits() == (if addr != 0 && p < totalPages then old(Bits())[p := false] else old(Bits()))
              && FreeSet(Bits()) == FreeSet(old(Bits())) + (if addr != 0 && p < totalPages then {p} else {})
              && cursor == if addr != 0 && p < old(cursor) && p < totalPages && old(Bits())[p] then p else old(cursor)
    {
      hide Bit, Unpack, Count;
      ghost var b := Bits();
      if addr == 0 {
        return;
      }
      var p := addr / 4096;
      if p >= totalPages {
        return;
      }
      FreeSetUpdate(b, p);
      var used := BitmapTest(p);
      if !used {
        assert b == b[p := false];
        return;
      }
      CountUpdate(b, p, false);
      CountPositive(b, p);
      BitmapClear(p);
      usedPages := usedPages - 1;
      if p < cursor {
        cursor := p;
      }
    }

    static lemma CountPositive(b: seq<bool>, i: nat)
      requires i < |b| && b[i]
      ensures Count(b) > 0
    {
      CountUpdate(b, i, false);
    }

    /** pmm_alloc_below: a free page under the limit, or none exactly when there is none. */
    method AllocBelow(limit: nat) returns (addr: nat, ghost at: Option<nat>)
      requires Valid()
      modifies this, bitmap
      ensures Valid()
      ensures at.None? ==> addr == 0 && Bits() == old(Bits()) && usedPages == old(usedPages) && cursor == old(cursor)
      ensures at.None? <==> limit <= 4096 || forall k :: 0 <= k < totalPages && k < limit / 4096 ==> old(Bits())[k]
      ensures at.Some? ==> at.value < totalPages && at.value < limit / 4096 && !old(Bits())[at.value]
      ensures at.Some? ==> addr == at.value * 4096 && Bits() == old(Bits())[at.value := true]
                           && usedPages == old(usedPages) + 1 && cursor == Wrap(at.value + 1, totalPages)
    {
      hide Bit, Unpack, Count, Wrap, MarkRun;
      ghost var b := Bits();
      if totalPages == 0 || limit <= 4096 {
        return 0, None;
      }
      var end := limit / 4096;
      if end > totalPages {
        end := totalPages;
      }
      var start := if cursor < end then cursor else 0;
      addr, at := AllocateRunFrom(start, end, 1);
      if addr == 0 && start > 0 {
        addr, at := AllocateRunFrom(0, start, 1);
      }
      OnePage(b, start, end, at);
    }

    /** Runs of length one are pages. */
    static lemma OnePage(b: seq<bool>, start: nat, end: nat, at: Option<nat>)
      requires start <= end <= |b|
      ensures forall k :: 0 <= k < |b| ==> (FreeRun(b, k, 1) <==> !b[k])
      ensures at.Some? && at.value < |b| ==> MarkRun(b, at.value, 1, true) == b[at.value := true]
    {
    }

    /** pmm_alloc_pages: the run it marked, if any. It fails exactly when neither side of the cursor holds a run. */
    method AllocPages(count: nat) returns (addr: nat, ghost at: Option<nat>)
      requires Valid()
      modifies this, bitmap
      ensures Valid()
      ensures at.None? ==> addr == 0 && Bits() == old(Bits()) && usedPages == old(usedPages) && cursor == old(cursor)
      ensures at.None? <==> count == 0 || forall k: nat :: !RunBesideCursor(old(Bits()), old(cursor), count, k)
      ensures at.Some? ==> RunBesideCursor(old(Bits()), old(cursor), count, at.value) && addr == at.value * 4096
                           && Bits() == MarkRun(old(Bits()), at.value, count, true)
      ensures at.Some? ==> usedPages == old(usedPages) + count && cursor == Wrap(at.value + count, totalPages)
      ensures at.Some? ==> Run(at.value, count) <= FreeSet(old(Bits()))
                           && FreeSet(Bits()) == FreeSet(old(Bits())) - Run(at.value, count)
      ensures at.Some? ==> forall k: nat :: (if at.value >= old(cursor) then old(cursor) <= k < at.value
                                             else old(cursor) <= k || k < at.value)
                             ==> !RunBesideCursor(old(Bits()), old(cursor), count, k)
    {
      hide Bit, Unpack, Count, Wrap, MarkRun, Run;
      ghost var b := Bits();
      if count == 0 || count > totalPages {
        return 0, None;
      }
      if count == 1 {
        addr, at := Alloc();
        OnePage(b, 0, 0, at);
        if at.Some? { FreeSetMark(b, at.value, count); }
        assert at.Some? ==> RunBesideCursor(b, old(cursor), count, at.value);
        return;
      }
      addr, at := AllocateRunFrom(cursor, totalPages, count);
      if addr == 0 && cursor > 0 {
        ghost var again;
        addr, again := AllocateRunFrom(0, cursor, count);
        if at.None? { at := again; }
      }
      assert at.Some? ==> RunBesideCursor(b, old(cursor), count, at.value);
      if at.Some? { FreeSetMark(b, at.value, count); }
    }

    /** pmm_free_pages: clears the pages of the run that exist. */
    method FreePages(addr: nat, count: nat)
      requires Valid()
      modifies this, bitmap
      ensures Valid()
      ensures |Bits()| == |old(Bits())|
      ensures forall k :: 0 <= k < totalPages ==>
                Bits()[k] == (old(Bits())[k] && !(addr != 0 && addr / 4096 <= k < addr / 4096 + count))
      ensures addr != 0 && addr / 4096 + count <= totalPages ==>
                FreeSet(Bits()) == FreeSet(old(Bits())) + Run(addr / 4096, count)
      ensures cursor <= old(cursor)
      ensures forall k :: 0 <= k < totalPages && old(Bits())[k] && !Bits()[k] ==> cursor <= k
      ensures cursor < old(cursor) ==> cursor < totalPages && old(Bits())[cursor] && !Bits()[cursor]
    {
      hide Bit, Unpack, Count, Run;
      ghost var b := Bits();
      if addr == 0 || count == 0 {
        return;
      }
      var first := addr / 4096;
      var i := 0;
      while i < count && first + i < totalPages
        invariant 0 <= i <= count && Valid()
        invariant forall k :: 0 <= k < totalPages ==> Bits()[k] == (b[k] && !(first <= k < first + i))
        invariant cursor <= old(cursor) && forall k :: first <= k < first + i && k < totalPages && b[k] ==> cursor <= k
        invariant cursor < old(cursor) ==> first <= cursor < first + i && cursor < totalPages && b[cursor]
      {
        var used := BitmapTest(first + i);
        if used {
          CountUpdate(Bits(), first + i, false);
          CountPositive(Bits(), first + i);
          BitmapClear(first + i);
          usedPages := usedPages - 1;
          if first + i < cursor {
            cursor := first + i;
          }
        }
        i := i + 1;
      }
      if first + count <= totalPages { FreeSetClear(b, Bits(), first, count); }
    }
  }

  /** Six pages with only page 0 in use: after five calls pages 1 and 2 are free and pmm_alloc_pages(2) fails, because
      the search cursor stands between them. */
  method StraddlingRunMissed() returns (a: Allocator, addr: nat, ghost at: Option<nat>)
    ensures a.Valid() && FreeRun(a.Bits(), 1, 2) && a.cursor == 2
    ensures addr == 0 && at.None?
  {
    hide Wrap, Bit, Unpack, Count, MarkRun;
    a := FragmentedPages();
    OnlyRun(a.Bits());
    addr, at := a.AllocPages(2);
  }

  lemma OnlyRun(b: seq<bool>)
    requires b == [true, false, false, true, true, false]
    ensures forall k: nat :: FreeRun(b, k, 2) <==> k == 1
  {
    forall k: nat | FreeRun(b, k, 2) ensures k == 1 { assert !b[k] && !b[k + 1]; }
  }

  method FragmentedPages() returns (a: Allocator)
    ensures fresh(a) && fresh(a.bitmap) && a.Valid()
    ensures a.Bits() == [true, false, false, true, true, false] && a.cursor == 2
  {
    hide Wrap, Bit, Unpack, Count, MarkRun;
    FirstPageUsed();
    a := new Allocator([1], 6);
    assert !a.Bits()[1];
    var p, _ := a.Alloc();
    assert a.Bits() == [true, true, false, false, false, false] && !a.Bits()[2];
    var q, _ := a.Alloc();
    assert a.Bits() == [true, true, true, false, false, false];
    a.Free(p);
    assert a.Bits() == [true, false, true, false, false, false] && RunBesideCursor(a.Bits(), 1, 2, 3);
    var _, _ := a.AllocPages(2);
    assert a.Bits() == [true, false, true, true, true, false];
    a.Free(q);
  }

  lemma FirstPageUsed()
    ensures Unpack([1], 6) == [true, false, false, false, false, false]
  {
    var s: seq<bv8> := [1];
    assert Bit(s, 0) && !Bit(s, 1) && !Bit(s, 2) && !Bit(s, 3) && !Bit(s, 4) && !Bit(s, 5);
  }
}
