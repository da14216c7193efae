/** syscall.c: sys_brk over a process's address space, in pages. */
module ProcessBrk {
  import opened Base
  import opened PageTableModel
  import opened PageTableSteps
  import opened PageTableAccess
  import opened PageTableCost
  import opened FrameOwnership
  import opened Pmm
  import opened Vmm
  import opened ProcessMemory
  import FA = FrameAllocator

  // ---------------------------------------------------------------- what a growth does, read off the state before it

  /** Pages from lo up to hi are mapped; every other page is as in s. */
  ghost predicate HeapPages(r: Space, s: Space, lo: nat, hi: nat) {
    forall m :: 0 <= m < USER_PAGES ==>
      if lo <= m < hi then Translate(r, m).Some? else Translate(r, m) == Translate(s, m)
  }

  const HEAP_FLAGS: set<Flag> := {Present, User, Writable}

  /** A page the program can read and write, on one of the given frames. */
  ghost predicate UserPage(r: Space, m: nat, frames: set<Frame>) {
    Translate(r, m).Some? && Translate(r, m).value.flags == HEAP_FLAGS && Translate(r, m).value.frame in frames
  }

  /** Pages from lo up to hi are such pages, each with a frame of its own and reached through every table above it. */
  ghost predicate Usable(r: Space, lo: nat, hi: nat, frames: set<Frame>) {
    && (forall m :: lo <= m < hi ==> UserPage(r, m, frames) && Grants(r, m, 1))
    && forall m, n :: lo <= m < n < hi && Translate(r, m).Some? && Translate(r, n).Some? ==>
         Translate(r, m).value.frame != Translate(r, n).value.frame
  }

  /** Pages from lo up to hi are not mapped; every other page is as in s. */
  ghost predicate Released(r: Space, s: Space, lo: nat, hi: nat) {
    forall m :: 0 <= m < USER_PAGES ==> Translate(r, m) == if lo <= m < hi then None else Translate(s, m)
  }

  /** How many of `pages` pages from lo on can be mapped with the given number of frames. */
  ghost function Afford(s: Space, lo: nat, pages: nat, frames: nat): (k: nat)
    ensures k <= pages && Cost(s, lo, k) <= frames
    ensures k < pages ==> frames < Cost(s, lo, k + 1)
  {
    if Cost(s, lo, pages) <= frames then pages else Afford(s, lo, pages - 1, frames)
  }

  lemma AffordIs(s: Space, lo: nat, pages: nat, frames: nat, k: nat)
    requires k <= pages && Cost(s, lo, k) <= frames && (k < pages ==> frames < Cost(s, lo, k + 1))
    ensures Afford(s, lo, pages, frames) == k
  {
    hide Cost;
    var a := Afford(s, lo, pages, frames);
    if a < k { CostMono(s, lo, a + 1, k); }
    if k < a { CostMono(s, lo, k + 1, a); }
  }

  lemma CostMono(s: Space, lo: nat, j: nat, k: nat)
    requires j <= k
    ensures Cost(s, lo, j) <= Cost(s, lo, k)
  {
    if j < k { CostGrows(s, lo, j, k); }
  }

  /** The frames that pages lo .. hi-1 show. */
  ghost function Frames(s: Space, lo: nat, hi: nat): (r: set<Frame>) {
    if hi <= lo then {} else Frames(s, lo, hi - 1) + Shown(s, hi - 1)
  }

  // ---------------------------------------------------------------- growing

  datatype Grown = Mapped | NoFrame | NoTable

  /** One page of the growth loop: a frame, then a mapping; a frame that cannot be mapped goes back. */
  method GrowPage(p: Process, page: nat) returns (g: Grown)
    requires p.Valid() && page < USER_PAGES
    modifies p, p.space, p.space.pmm, p.space.pmm.bitmap
    ensures p.Valid()
    ensures g.NoFrame? <==> old(p.space.free) == {}
    ensures g.Mapped? <==> |old(p.space.free)| >= 1 + Missing(old(p.space.S()), page)
    ensures g.Mapped? ==> |p.space.free| == |old(p.space.free)| - 1 - Missing(old(p.space.S()), page)
                          && Added(p.space.S(), old(p.space.S()), page, 1)
    ensures p.Total() == if g.Mapped? then old(p.Total()) - Shown(old(p.space.S()), page) else old(p.Total())
    ensures HeapPages(p.space.S(), old(p.space.S()), page, if g.Mapped? then page + 1 else page)
    ensures p.space.free <= old(p.space.free) && (g.Mapped? ==> UserPage(p.space.S(), page, old(p.space.free)))
  {
    hide AddressSpace.Backed, FA.Pages, LeafOk, Translate, TreeOk, Run, Missing, Added, Shown, Remapped, Process.Valid,
         Process.Total, Process.Unheld;
    var f := p.TakeFrame();
    if f.None? {
      return NoFrame;
    }
    p.NotShown(page, f.value);
    var ok := p.MapOwned(page, f.value, {Present, User, Writable});
    if !ok {
      p.FreeFrame(f.value);
      return NoTable;
    }
    return Mapped;
  }

  lemma HeapStart(s: Space, lo: nat)
    ensures HeapPages(s, s, lo, lo)
  {
    hide Translate;
  }

  lemma HeapNext(r: Space, q: Space, s: Space, lo: nat, hi: nat)
    requires HeapPages(q, s, lo, hi) && HeapPages(r, q, hi, hi + 1) && lo <= hi
    ensures HeapPages(r, s, lo, hi + 1)
  {
    hide Translate;
  }

  lemma HeapSame(r: Space, q: Space, s: Space, lo: nat, hi: nat)
    requires HeapPages(q, s, lo, hi) && HeapPages(r, q, hi, hi)
    ensures HeapPages(r, s, lo, hi)
  {
    hide Translate;
  }

  lemma HeapTaken(r: Space, q: Space, s: Space, lo: nat, hi: nat)
    requires HeapPages(q, s, lo, hi) && Released(r, q, lo, hi)
    ensures Released(r, s, lo, hi)
  {
    hide Translate;
  }

  lemma NextShown(q: Space, s: Space, lo: nat, hi: nat)
    requires HeapPages(q, s, lo, hi) && lo <= hi < USER_PAGES
    ensures Shown(q, hi) == Shown(s, hi)
  {
    hide Translate;
  }

  /** The growth of sys_brk. It maps as many pages as the frames allow. When the next page gets a frame but no table,
      the pages are taken back; when it gets no frame they stay mapped, although the break does not move. A page that
      was mapped before loses its frame for good. */
  method Grow(p: Process, oldTop: nat, newTop: nat) returns (ok: bool)
    requires p.Valid() && oldTop <= newTop <= USER_PAGES
    modifies p, p.space, p.space.pmm, p.space.pmm.bitmap
    ensures p.Valid()
    ensures var s, k := old(p.space.S()), Afford(old(p.space.S()), oldTop, newTop - oldTop, |old(p.space.free)|);
            && (ok <==> k == newTop - oldTop)
            && p.Total() == old(p.Total()) - Frames(s, oldTop, oldTop + k)
            && (if ok || Cost(s, oldTop, k) == |old(p.space.free)| then
                  HeapPages(p.space.S(), s, oldTop, oldTop + k)
                  && Usable(p.space.S(), oldTop, oldTop + k, old(p.space.free))
                else Released(p.space.S(), s, oldTop, oldTop + k))
  {
    hide AddressSpace.Backed, FA.Pages, LeafOk, Translate, TreeOk, Run, HeapPages, Usable, Paged, UserPage, Released,
         Process.Valid, Process.Total, Missing, Added, Shown, GrownTo, Cost, Afford;
    ghost var s, free := p.space.S(), |p.space.free|;
    HeapStart(s, oldTop);
    GrownNone(s, oldTop);
    NoCost(s, oldTop);
    PagedNone(s, oldTop, oldTop, p.space.free);
    var va := oldTop;
    while va < newTop
      invariant oldTop <= va <= newTop && p.Valid() && p.Total() == old(p.Total()) - Frames(s, oldTop, va)
      invariant HeapPages(p.space.S(), s, oldTop, va) && GrownTo(p.space.S(), s, oldTop, va)
      invariant |p.space.free| == free - Cost(s, oldTop, va - oldTop) && p.space.free <= old(p.space.free)
      invariant Paged(p.space.S(), oldTop, va, old(p.space.free))
    {
      ghost var q, few := p.space.S(), p.space.free;
      NextCost(q, s, oldTop, va);
      NextShown(q, s, oldTop, va);
      var g := GrowPage(p, va);
      if !g.Mapped? {
        HeapSame(p.space.S(), q, s, oldTop, va);
        AffordIs(s, oldTop, newTop - oldTop, free, va - oldTop);
        PagedSame(p.space.S(), q, oldTop, va, old(p.space.free));
        OneFrameEach(p, oldTop, va, old(p.space.free));
        if g.NoTable? {
          ghost var t := p.space.S();
          ReleaseRange(p, oldTop, va);
          HeapTaken(p.space.S(), t, s, oldTop, va);
        }
        return false;
      }
      HeapNext(p.space.S(), q, s, oldTop, va);
      GrownStep(p.space.S(), q, s, oldTop, va);
      PagedNext(p.space.S(), q, oldTop, va, few, old(p.space.free));
      va := va + 1;
    }
    OneFrameEach(p, oldTop, newTop, old(p.space.free));
    AffordIs(s, oldTop, newTop - oldTop, free, newTop - oldTop);
    return true;
  }

  ghost predicate Paged(r: Space, lo: nat, hi: nat, frames: set<Frame>) {
    forall m :: lo <= m < hi ==> UserPage(r, m, frames)
  }

  lemma PagedNext(r: Space, q: Space, lo: nat, hi: nat, few: set<Frame>, frames: set<Frame>)
    requires Paged(q, lo, hi, frames) && HeapPages(r, q, hi, hi + 1) && UserPage(r, hi, few) && hi < USER_PAGES
    requires few <= frames
    ensures Paged(r, lo, hi + 1, frames)
  {
    hide Translate;
    forall m | lo <= m < hi ensures UserPage(r, m, frames) { assert UserPage(q, m, frames); }
  }

  lemma PagedNone(r: Space, lo: nat, hi: nat, frames: set<Frame>)
    requires hi <= lo
    ensures Paged(r, lo, hi, frames) && Usable(r, lo, hi, frames)
  {
  }

  lemma PagedSame(r: Space, q: Space, lo: nat, hi: nat, frames: set<Frame>)
    requires Paged(q, lo, hi, frames) && HeapPages(r, q, hi, hi) && hi <= USER_PAGES
    ensures Paged(r, lo, hi, frames)
  {
    hide Translate;
    forall m | lo <= m < hi ensures UserPage(r, m, frames) { assert UserPage(q, m, frames); }
  }

  /** A process has no frame on two pages. */
  lemma OneFrameEach(p: Process, lo: nat, hi: nat, frames: set<Frame>)
    requires p.Valid() && Paged(p.space.S(), lo, hi, frames) && hi <= USER_PAGES
    ensures Usable(p.space.S(), lo, hi, frames)
  {
    hide Translate, TreeOk, Grants;
    var r := p.space.S();
    forall m | lo <= m < hi ensures Grants(r, m, 1) {
      assert UserPage(r, m, frames);
    }
    forall m | lo <= m < hi
      ensures Translate(r, m).Some? && Translate(r, m).value.frame in p.leaf && p.leaf[Translate(r, m).value.frame] == m
    {
      assert UserPage(r, m, frames);
      p.LeafOfPage(m);
    }
    assert forall m :: lo <= m < hi ==> UserPage(r, m, frames);
  }

  lemma NoCost(s: Space, lo: nat)
    ensures Cost(s, lo, 0) == 0
  {
  }

  // ---------------------------------------------------------------- shrinking

  lemma ReleasedNext(r: Space, q: Space, s: Space, lo: nat, va: nat)
    requires Released(q, s, lo, va) && lo <= va < USER_PAGES
    requires forall m :: 0 <= m < USER_PAGES ==> Translate(r, m) == if m == va then None else Translate(q, m)
    ensures Released(r, s, lo, va + 1)
  {
    hide Translate;
  }

  lemma ReleasedNone(s: Space, lo: nat)
    ensures Released(s, s, lo, lo)
  {
    hide Translate;
  }

  /** The loop of the shrinking and of the rollback: page by page, unmapped and freed. */
  method ReleaseRange(p: Process, lo: nat, hi: nat)
    requires p.Valid() && lo <= hi <= USER_PAGES
    modifies p, p.space, p.space.pmm, p.space.pmm.bitmap
    ensures p.Valid() && p.Total() == old(p.Total()) && Released(p.space.S(), old(p.space.S()), lo, hi)
  {
    hide AddressSpace.Backed, FA.Pages, LeafOk, Translate, TreeOk, Run, Released, Process.Valid, Process.Total;
    ghost var s := p.space.S();
    ReleasedNone(s, lo);
    for va := lo to hi
      invariant p.Valid() && p.Total() == old(p.Total()) && Released(p.space.S(), s, lo, va)
    {
      ghost var q := p.space.S();
      p.ReleasePage(va);
      ReleasedNext(p.space.S(), q, s, lo, va);
    }
  }

  // ---------------------------------------------------------------- the call

  const HEAP_MAX := 0x7F_0000
  const HEAP_PAGES := 0x7F0

  function TopPage(brk: nat): (n: nat) { (brk + 4095) / 4096 }

  /** The heap of a process ends at its break: nothing is mapped from there up to the stack. */
  ghost predicate HeapOk(s: Space, brk: nat) {
    forall m :: TopPage(brk) <= m < HEAP_PAGES ==> Translate(s, m).None?
  }

  predicate InHeap(base: nat, addr: nat) { addr != 0 && base <= addr <= HEAP_MAX }

  /** The frames run out between two pages of the growth. */
  ghost predicate RunsOutBetween(s: Space, frames: nat, brk: nat, addr: nat) {
    exists k :: 0 < k < TopPage(addr) - TopPage(brk) && Cost(s, TopPage(brk), k) == frames
  }

  /** sys_brk, from any state of the process. The break moves exactly when the address is in the heap and the frames
      suffice. */
  method SysBrk(p: Process, base: nat, current: nat, addr: nat) returns (brk: nat)
    requires p.Valid() && base <= current <= HEAP_MAX
    modifies p, p.space, p.space.pmm, p.space.pmm.bitmap
    ensures p.Valid() && base <= brk <= HEAP_MAX
    ensures var s, lo, hi := old(p.space.S()), TopPage(current), TopPage(addr);
            brk == if InHeap(base, addr) && (hi <= lo || Cost(s, lo, hi - lo) <= |old(p.space.free)|)
                   then addr else current
    ensures var s, lo, hi := old(p.space.S()), TopPage(current), TopPage(addr);
            if !InHeap(base, addr) then p.Total() == old(p.Total()) && HeapPages(p.space.S(), s, lo, lo)
            else if hi <= lo then p.Total() == old(p.Total()) && Released(p.space.S(), s, hi, lo)
            else
              var k := Afford(s, lo, hi - lo, |old(p.space.free)|);
              p.Total() == old(p.Total()) - Frames(s, lo, lo + k)
              && if k == hi - lo || Cost(s, lo, k) == |old(p.space.free)| then
                   HeapPages(p.space.S(), s, lo, lo + k) && Usable(p.space.S(), lo, lo + k, old(p.space.free))
                 else Released(p.space.S(), s, lo, lo + k)
  {
    hide AddressSpace.Backed, FA.Pages, LeafOk, Translate, TreeOk, Run, Process.Valid, Process.Total, HeapPages, Usable,
         Paged, UserPage, Released, Cost, Afford, Frames;
    ghost var s := p.space.S();
    HeapStart(s, TopPage(current));
    if !InHeap(base, addr) {
      return current;
    }
    var oldTop, newTop := TopPage(current), TopPage(addr);
    if newTop > oldTop {
      AffordAll(s, oldTop, newTop - oldTop, |p.space.free|);
      var ok := Grow(p, oldTop, newTop);
      if !ok {
        return current;
      }
    } else if newTop < oldTop {
      ReleaseRange(p, newTop, oldTop);
    } else {
      ReleasedNone(s, oldTop);
    }
    return addr;
  }

  lemma AffordAll(s: Space, lo: nat, pages: nat, frames: nat)
    ensures Afford(s, lo, pages, frames) == pages <==> Cost(s, lo, pages) <= frames
  {
    hide Cost;
  }

  /** sys_brk on a heap that ends at its break. No frame is lost, and the heap still ends at its break unless the frames
      ran out between two pages: then pages stay mapped above it. */
  method BrkOnHeap(p: Process, base: nat, current: nat, addr: nat) returns (brk: nat)
    requires p.Valid() && base <= current <= HEAP_MAX && HeapOk(p.space.S(), current)
    modifies p, p.space, p.space.pmm, p.space.pmm.bitmap
    ensures p.Valid() && base <= brk <= HEAP_MAX && p.Total() == old(p.Total())
    ensures HeapOk(p.space.S(), brk)
            <==> !(InHeap(base, addr) && RunsOutBetween(old(p.space.S()), |old(p.space.free)|, current, addr))
    ensures brk > current ==> Usable(p.space.S(), TopPage(current), TopPage(brk), old(p.space.free))
  {
    hide AddressSpace.Backed, FA.Pages, LeafOk, Translate, TreeOk, Run, Process.Valid, Process.Total, HeapPages, Usable,
         Paged, UserPage, Released, Cost, Afford, Frames, HeapOk, RunsOutBetween;
    ghost var s, free := p.space.S(), |p.space.free|;
    ghost var lo, hi := TopPage(current), TopPage(addr);
    brk := SysBrk(p, base, current, addr);
    ghost var r := p.space.S();
    if !InHeap(base, addr) {
      HeapKept(r, s, current);
    } else if hi <= lo {
      PagedNone(r, lo, hi, old(p.space.free));
      HeapShrunk(r, s, current, addr);
      NoRoomBetween(s, free, current, addr);
    } else {
      ghost var k := Afford(s, lo, hi - lo, free);
      NoFrames(s, current, lo + k);
      BetweenIff(s, free, current, addr);
      AffordAll(s, lo, hi - lo, free);
      HeapGrown(r, s, current, addr, free);
    }
  }

  lemma HeapKept(r: Space, s: Space, brk: nat)
    requires HeapOk(s, brk) && HeapPages(r, s, TopPage(brk), TopPage(brk))
    ensures HeapOk(r, brk)
  {
    hide Translate;
  }

  lemma HeapShrunk(r: Space, s: Space, brk: nat, addr: nat)
    requires HeapOk(s, brk) && TopPage(addr) <= TopPage(brk) && Released(r, s, TopPage(addr), TopPage(brk))
    ensures HeapOk(r, addr)
  {
    hide Translate;
  }

  lemma NoRoomBetween(s: Space, free: nat, brk: nat, addr: nat)
    requires TopPage(addr) <= TopPage(brk)
    ensures !RunsOutBetween(s, free, brk, addr)
  {
    hide Cost;
  }

  /** Above the break there is nothing to lose. */
  lemma {:induction false} NoFrames(s: Space, brk: nat, hi: nat)
    requires HeapOk(s, brk) && hi <= HEAP_PAGES
    ensures Frames(s, TopPage(brk), hi) == {}
    decreases hi
  {
    hide Translate;
    if TopPage(brk) < hi { NoFrames(s, brk, hi - 1); }
  }

  lemma BetweenIff(s: Space, free: nat, brk: nat, addr: nat)
    requires TopPage(brk) < TopPage(addr)
    ensures var lo, pages := TopPage(brk), TopPage(addr) - TopPage(brk);
            var k := Afford(s, lo, pages, free);
            RunsOutBetween(s, free, brk, addr) <==> 0 < k < pages && Cost(s, lo, k) == free
  {
    hide Cost;
    var lo, pages := TopPage(brk), TopPage(addr) - TopPage(brk);
    if RunsOutBetween(s, free, brk, addr) {
      var k :| 0 < k < pages && Cost(s, lo, k) == free;
      CostGrows(s, lo, k, k + 1);
      AffordIs(s, lo, pages, free, k);
    }
  }

  lemma HeapGrown(r: Space, s: Space, brk: nat, addr: nat, free: nat)
    requires HeapOk(s, brk) && TopPage(brk) < TopPage(addr) <= HEAP_PAGES
    requires var lo, pages := TopPage(brk), TopPage(addr) - TopPage(brk);
             var k := Afford(s, lo, pages, free);
             if k == pages || Cost(s, lo, k) == free then HeapPages(r, s, lo, lo + k) else Released(r, s, lo, lo + k)
    ensures var lo, pages := TopPage(brk), TopPage(addr) - TopPage(brk);
            var k := Afford(s, lo, pages, free);
            HeapOk(r, if k == pages then addr else brk) <==> k == pages || k == 0 || Cost(s, lo, k) != free
  {
    hide Translate, Cost, Afford;
    var lo, pages := TopPage(brk), TopPage(addr) - TopPage(brk);
    var k := Afford(s, lo, pages, free);
    if k < pages && k > 0 && Cost(s, lo, k) == free { assert Translate(r, lo).Some?; }
  }

  /** Growing and shrinking back by as much restores every translation and every frame. */
  method GrowThenShrink(p: Process, base: nat, current: nat, addr: nat)
    requires p.Valid() && base <= current <= addr <= HEAP_MAX && current > 0 && HeapOk(p.space.S(), current)
    requires Cost(p.space.S(), TopPage(current), TopPage(addr) - TopPage(current)) <= |p.space.free|
    modifies p, p.space, p.space.pmm, p.space.pmm.bitmap
    ensures p.Valid() && p.Total() == old(p.Total())
    ensures forall m :: 0 <= m < USER_PAGES ==> Translate(p.space.S(), m) == Translate(old(p.space.S()), m)
  {
    hide AddressSpace.Backed, FA.Pages, LeafOk, Translate, TreeOk, Run, Process.Valid, Process.Total, HeapPages, Usable,
         Paged, UserPage, Released, Cost, Afford, Frames, HeapOk;
    ghost var s, lo, hi := p.space.S(), TopPage(current), TopPage(addr);
    AffordAll(s, lo, hi - lo, |p.space.free|);
    NoFrames(s, current, hi);
    var brk := SysBrk(p, base, current, addr);
    ghost var g := p.space.S();
    brk := SysBrk(p, base, brk, current);
    Restored(p.space.S(), g, s, current, addr);
  }

  lemma Restored(r: Space, g: Space, s: Space, current: nat, addr: nat)
    requires HeapOk(s, current) && current <= addr <= HEAP_MAX && Released(r, g, TopPage(current), TopPage(addr))
    requires if TopPage(addr) <= TopPage(current) then Released(g, s, TopPage(addr), TopPage(current))
             else HeapPages(g, s, TopPage(current), TopPage(addr))
    ensures forall m :: 0 <= m < USER_PAGES ==> Translate(r, m) == Translate(s, m)
  {
    hide Translate;
  }

  // ---------------------------------------------------------------- a run that loses a frame

  /** Page 1024, with no table below the PML4: the first page costs four frames and the second one. */
  lemma FirstPages(s: Space)
    requires forall n, l :: 0 <= n < USER_PAGES && 1 <= l <= 3 ==> !HasTable(s, n, l)
    ensures Cost(s, 1024, 0) == 0 && Cost(s, 1024, 1) == 4 && Cost(s, 1024, 2) == 5
  {
    hide HasTable;
    assert SamePath(1024, 1025, 3) && SamePath(1024, 1025, 2) && SamePath(1024, 1025, 1);
    assert Cost(s, 1024, 1) == Cost(s, 1024, 0) + 4;
    assert Cost(s, 1024, 2) == Cost(s, 1024, 1) + 1;
  }

  /** A mapped page costs one frame, and mapping over it loses the one it shows. */
  lemma CostOfMapped(s: Space, n: nat, frames: nat)
    requires Translate(s, n).Some? && frames >= 1
    ensures Cost(s, n, 1) == 1 && Afford(s, n, 1, frames) == 1 && Frames(s, n, n + 1) == Shown(s, n)
  {
    MappedLacksNone(s, n);
    AffordIs(s, n, 1, frames, 1);
    hide Translate;
    assert Frames(s, n, n) == {};
  }

  lemma NothingThere(s: Space, n: nat)
    requires Translate(s, n).None?
    ensures Frames(s, n, n + 1) == {}
  {
    assert Frames(s, n, n) == {};
  }

  /** A process with an empty user half on that machine, with frame 1 for its PML4 and frames 8 to 11 for its stack. */
  method PoorProcess() returns (p: Process)
    ensures fresh(p) && fresh(p.space) && fresh(p.space.pmm) && fresh(p.space.pmm.bitmap)
    ensures p.Valid() && p.space.free == {2, 3, 4, 5} && p.space.pmm.totalPages == 16
    ensures p.space.root == 1 && p.kernelStack == 8 && p.Total() == {1, 2, 3, 4, 5} + p.StackFrames()
    ensures Translate(p.space.S(), 1024).None?
    ensures forall n, l :: 0 <= n < USER_PAGES && 1 <= l <= 3 ==> !HasTable(p.space.S(), n, l)
  {
    hide AddressSpace.Backed, FA.Pages, LeafOk, Translate, TreeOk, Run, HasTable;
    var a := FA.SixteenPages();
    SomePages(a);
    var space := new AddressSpace(1, ZeroTable(), a);
    p := new Process(space, 8);
  }

  lemma SomePages(a: Allocator)
    requires a.totalPages == 16
    ensures {1, 6} + Run(8, PROC_KERNEL_STACK_PAGES) <= FA.Pages(a)
  {
    hide Run;
  }

  /** The page left mapped shows one of the four frames. */
  lemma LeftMapped(p: Process, n: nat) returns (f: Frame)
    requires p.Valid() && p.space.root == 1 && p.Total() == {1, 2, 3, 4, 5} + p.StackFrames()
    requires n < USER_PAGES && Translate(p.space.S(), n).Some?
    ensures Shown(p.space.S(), n) == {f} && f in {2, 3, 4, 5}
  {
    hide Translate, LeafOk, Run;
    f := Translate(p.space.S(), n).value.frame;
    p.ShownOwned(n);
  }

  lemma Tops(start: nat)
    requires start == 1024 * 4096
    ensures TopPage(start) == 1024 && TopPage(start + 4096) == 1025 && TopPage(start + 8192) == 1026
  {
  }

  /** A process with four free frames asks for two pages: the first is mapped, the second finds no frame, and the break
      stays where it was. */
  method FailedGrowth(start: nat) returns (p: Process, brk: nat, ghost f: Frame)
    requires start == 1024 * 4096
    ensures fresh(p) && fresh(p.space) && fresh(p.space.pmm) && fresh(p.space.pmm.bitmap)
    ensures p.Valid() && brk == start && p.kernelStack == 8 && p.space.pmm.totalPages == 16
    ensures p.Total() == {1, 2, 3, 4, 5} + p.StackFrames()
    ensures Translate(p.space.S(), 1024).Some? && Shown(p.space.S(), 1024) == {f} && f in {2, 3, 4, 5}
  {
    hide AddressSpace.Backed, FA.Pages, LeafOk, Translate, TreeOk, Run, Process.Valid, HeapPages, Usable, Paged,
         UserPage, Released, Cost, Afford, HasTable, Frames, Process.Total, Shown, TopPage;
    Tops(start);
    p := PoorProcess();
    ghost var s := p.space.S();
    FirstPages(s);
    AffordIs(s, 1024, 2, 4, 1);
    NothingThere(s, 1024);
    brk := SysBrk(p, start, start, start + 8192);
    PageMapped(p.space.S(), s, 1024);
    f := LeftMapped(p, 1024);
  }

  /** One page asked for at a break above which a page is mapped: its frame is lost. */
  method GrowOver(p: Process, start: nat)
    requires p.Valid() && start == 1024 * 4096 && p.space.free != {} && Translate(p.space.S(), 1024).Some?
    modifies p, p.space, p.space.pmm, p.space.pmm.bitmap
    ensures p.Valid() && p.Total() == old(p.Total()) - Shown(old(p.space.S()), 1024)
  {
    hide AddressSpace.Backed, FA.Pages, LeafOk, Translate, TreeOk, Run, Process.Valid, HeapPages, Usable, Paged,
         UserPage, Released, Cost, Afford, Frames, Process.Total, Shown, TopPage;
    Tops(start);
    SomeFree(p.space.free);
    CostOfMapped(p.space.S(), 1024, |p.space.free|);
    var _ := SysBrk(p, start, start, start + 4096);
  }

  lemma SomeFree(s: set<Frame>)
    requires s != {}
    ensures |s| >= 1
  {
  }

  /** After the failed growth another process gives frame 6 back and the process asks for one page: it is mapped over,
      and when the process is destroyed a frame is missing. */
  method BrkLosesFrame() returns (a: Allocator, ghost lost: Frame)
    ensures FA.Serves(a) && lost in {2, 3, 4, 5}
    ensures FA.Free(a) == {1, 2, 3, 4, 5} + Run(8, PROC_KERNEL_STACK_PAGES) + {6} - {lost}
  {
    hide AddressSpace.Backed, FA.Pages, LeafOk, Translate, TreeOk, Run, Process.Valid, Process.Total, Shown;
    var start := 1024 * 4096;
    var p, brk;
    p, brk, lost := FailedGrowth(start);
    SomePages(p.space.pmm);
    SixUnheld(p);
    p.FreeFrame(6);
    GrowOver(p, brk);
    p.Destroy();
    a := p.space.pmm;
    BackedBy(p.space);
  }

  lemma PageMapped(r: Space, s: Space, n: nat)
    requires HeapPages(r, s, n, n + 1) && n < USER_PAGES
    ensures Translate(r, n).Some?
  {
    hide Translate;
  }

  lemma BackedBy(s: AddressSpace)
    requires s.Backed()
    ensures FA.Serves(s.pmm) && s.free == FA.Free(s.pmm)
  {
  }

  lemma SixUnheld(p: Process)
    requires p.kernelStack == 8 && 6 in p.Pages() && p.Total() == {1, 2, 3, 4, 5} + p.StackFrames()
    ensures p.Unheld(6)
  {
  }
}
