/** process.c and the mapping loops of kxe.c and sys_brk: every frame a process takes comes back. */
module ProcessMemory {
  import opened Base
  import opened PageTableModel
  import opened PageTableCost
  import opened FrameOwnership
  import opened Bitmap
  import opened Pmm
  import opened Vmm
  import FA = FrameAllocator

  const PROC_KERNEL_STACK_PAGES := 4

  class Process {
    const space: AddressSpace
    const kernelStack: Frame
    ghost var leaf: map<Frame, nat>      // each user frame and the page mapped to it

    ghost function StackFrames(): (r: set<Frame>) { Run(kernelStack, PROC_KERNEL_STACK_PAGES) }

    /** Tables, user frames, kernel stack and free frames are four disjoint sets. */
    ghost predicate Valid()
      reads this, space, space.pmm, space.pmm.bitmap
    {
      && space.Valid() && LeafOk(space.S(), leaf)
      && Apart(space.free, space.level.Keys, leaf.Keys, StackFrames())
      && Total() <= Pages()
    }

    ghost function Pages(): (r: set<Frame>) { FA.Pages(space.pmm) }

    static ghost predicate Apart(a: set<Frame>, b: set<Frame>, c: set<Frame>, d: set<Frame>) {
      a !! b && a !! c && a !! d && b !! c && b !! d && c !! d
    }

    /** All frames the process can reach: its own and the free ones. */
    ghost function Total(): (r: set<Frame>)
      reads this, space
    {
      space.free + space.level.Keys + leaf.Keys + StackFrames()
    }

    ghost predicate Unmapped(page: nat, count: nat)
      reads space
    {
      page + count <= USER_PAGES && forall m :: page <= m < page + count ==> Translate(space.S(), m).None?
    }

    constructor (s: AddressSpace, stack: Frame)
      requires s.Valid() && s.level.Keys !! Run(stack, PROC_KERNEL_STACK_PAGES)
               && s.free !! Run(stack, PROC_KERNEL_STACK_PAGES)
               && s.level.Keys + Run(stack, PROC_KERNEL_STACK_PAGES) <= FA.Pages(s.pmm)
      requires forall n :: 0 <= n < USER_PAGES ==> Translate(s.S(), n).None?
      ensures Valid() && space == s && kernelStack == stack && leaf == map[]
    {
      FA.FreeInPages(s.pmm);
      space, kernelStack, leaf := s, stack, map[];
    }

    /** vmm_map_page with a frame the process has just allocated. A frame that the page showed before is then held by
        nobody: the process has lost it. */
    method MapOwned(page: nat, frame: Frame, flags: set<Flag>) returns (ok: bool)
      requires Valid() && page < USER_PAGES
      requires Unheld(frame)
      modifies `leaf, space, space.pmm, space.pmm.bitmap
      ensures Valid()
      ensures ok <==> |old(space.free)| >= Missing(old(space.S()), page)
      ensures ok ==> |space.free| == |old(space.free)| - Missing(old(space.S()), page)
                     && Added(space.S(), old(space.S()), page, 1)
      ensures space.free <= old(space.free)
      ensures leaf == if ok then Remapped(old(leaf), old(space.S()), page, frame) else old(leaf)
      ensures Total() == if ok then old(Total()) - Shown(old(space.S()), page) + {frame} else old(Total())
      ensures !ok ==> Unheld(frame)
      ensures forall m :: 0 <= m < USER_PAGES ==>
                Translate(space.S(), m) == if ok && m == page then Some(Entry(frame, flags + {Present}))
                                           else old(Translate(space.S(), m))
    {
      hide AddressSpace.Backed, FA.Pages, LeafOk, Translate, TreeOk, Run, Missing, Added, Shown, Apart, PageOf,
           Remapped;
      ShownOwned(page);
      ghost var s, a, b := space.S(), space.free, space.level.Keys;
      PageAddress(page);
      PageAddress(frame);
      ok := space.MapPage(page * 4096, frame * 4096, flags);
      Traded(a, b, space.free, space.level.Keys, leaf, StackFrames(), s, frame, page);
      if ok {
        LeafOkMap(s, space.S(), leaf, page, Entry(frame, flags + {Present}));
        leaf := Remapped(leaf, s, page, frame);
      } else {
        LeafOkSame(s, space.S(), leaf);
      }
    }

    static lemma PageAddress(n: nat)
      ensures n * 4096 / 4096 == n && PageOf(n * 4096) == n
    {
    }

    /** Frames that became tables, a frame that became a leaf in place of others: the four sets stay apart. */
    static lemma Traded(a: set<Frame>, b: set<Frame>, a': set<Frame>, b': set<Frame>, leaf: map<Frame, nat>,
                        d: set<Frame>, s: Space, f: Frame, n: nat)
      requires Apart(a, b, leaf.Keys, d) && a' + b' == a + b && a' !! b' && Shown(s, n) <= leaf.Keys
      requires f !in a && f !in b && f !in leaf && f !in d
      ensures Apart(a', b', leaf.Keys, d) && a' + b' + leaf.Keys + d == a + b + leaf.Keys + d && f !in a' && f !in b'
      ensures var q := Remapped(leaf, s, n, f);
              Apart(a', b', q.Keys, d) && a' + b' + q.Keys + d == a + b + leaf.Keys + d - Shown(s, n) + {f}
    {
      hide Shown;
    }

    /** What a page shows is a user frame of the process. */
    lemma ShownOwned(page: nat)
      requires Valid() && page < USER_PAGES
      ensures Shown(space.S(), page) <= leaf.Keys
      ensures forall f :: f in Shown(space.S(), page) ==> leaf[f] == page && f != 0
    {
      hide Translate;
    }

    /** vmm_unmap_page on the page of an owned frame; the frame is then held by nobody. */
    method Unmap(page: nat, ghost frame: Frame)
      requires Valid() && frame in leaf && leaf[frame] == page
      modifies `leaf, space`tables
      ensures Valid() && leaf == old(leaf) - {frame} && space.free == old(space.free)
      ensures Unheld(frame) && frame !in Total() && Total() + {frame} == old(Total())
      ensures forall m :: 0 <= m < USER_PAGES ==>
                Translate(space.S(), m) == if m == page then None else old(Translate(space.S(), m))
    {
      hide AddressSpace.Backed, FA.Pages;
      LeafPage(frame);
      NoZeroLeaf();
      DropLeaf(space.free, space.level.Keys, leaf, StackFrames(), frame);
      hide AddressSpace.Backed, FA.Pages, LeafOk, Translate, TreeOk, Run, Apart;
      ghost var s := space.S();
      space.UnmapPage(page * 4096);
      LeafOkUnmap(s, space.S(), leaf, page, frame);
      leaf := leaf - {frame};
    }

    static lemma DropLeaf(a: set<Frame>, b: set<Frame>, leaf: map<Frame, nat>, d: set<Frame>, f: Frame)
      requires Apart(a, b, leaf.Keys, d) && f in leaf
      ensures Apart(a, b, (leaf - {f}).Keys, d)
      ensures f !in a + b + (leaf - {f}).Keys + d && a + b + (leaf - {f}).Keys + d + {f} == a + b + leaf.Keys + d
    {
    }

    /** pmm_free of a frame nobody holds any more. */
    method FreeFrame(f: Frame)
      requires Valid() && Unheld(f)
      modifies space`free, space.pmm, space.pmm.bitmap
      ensures Valid() && Total() == old(Total()) + {f} && space.S() == old(space.S())
      ensures space.free == old(space.free) + {f}
    {
      hide AddressSpace.Backed, FA.Pages, LeafOk, Translate, TreeOk, Run;
      space.PmmFree(f);
    }

    lemma LeafPage(frame: Frame)
      requires Valid() && frame in leaf
      ensures leaf[frame] < USER_PAGES && Translate(space.S(), leaf[frame]).Some?
              && Translate(space.S(), leaf[frame]).value.frame == frame
    {
    }

    /** The leaf map after the first i pages of a region are mapped. */
    static ghost function WithRegion(leaf: map<Frame, nat>, frame: Frame, page: nat, i: nat): (r: map<Frame, nat>)
      ensures r.Keys == leaf.Keys + Run(frame, i)
      ensures forall f :: f in r ==> r[f] == if frame <= f < frame + i then page + (f - frame) else leaf[f]
    {
      if i == 0 then leaf else WithRegion(leaf, frame, page, i - 1)[frame + i - 1 := page + i - 1]
    }

    /** What page m translates to once the first i pages of a region are mapped. */
    static ghost function RegionEntry(before: Option<Entry>, m: nat, frame: Frame, page: nat, i: nat,
        flags: set<Flag>): (r: Option<Entry>) {
      if page <= m < page + i then Some(Entry(frame + (m - page), flags + {Present})) else before
    }

    /** Space r translates like s, except that i pages from `page` on show the frames from `frame` on. */
    static ghost predicate Shows(r: Space, s: Space, frame: Frame, page: nat, i: nat, flags: set<Flag>) {
      forall m :: 0 <= m < USER_PAGES ==> Translate(r, m) == RegionEntry(Translate(s, m), m, frame, page, i, flags)
    }

    static lemma ShowsNext(r: Space, q: Space, s: Space, frame: Frame, page: nat, i: nat, flags: set<Flag>)
      requires Shows(r, s, frame, page, i, flags)
      requires forall m :: 0 <= m < USER_PAGES ==>
                 Translate(q, m) == if m == page + i then Some(Entry(frame + i, flags + {Present})) else Translate(r, m)
      ensures Shows(q, s, frame, page, i + 1, flags)
    {
      hide Translate;
    }

    static lemma ShowsUndone(r: Space, q: Space, s: Space, frame: Frame, page: nat, i: nat, flags: set<Flag>)
      requires Shows(r, s, frame, page, i, flags) && i > 0 && Translate(s, page).None?
      requires forall m :: 0 <= m < USER_PAGES ==> Translate(q, m) == if m == page then None else Translate(r, m)
      ensures Shows(q, s, frame + 1, page + 1, i - 1, flags)
    {
      hide Translate;
    }

    static lemma RegionShift(leaf: map<Frame, nat>, frame: Frame, page: nat, i: nat)
      requires i > 0 && leaf.Keys !! Run(frame, i)
      ensures WithRegion(leaf, frame, page, i) - {frame} == WithRegion(leaf, frame + 1, page + 1, i - 1)
    {
      hide WithRegion, Run;
    }

    /** The frames of a run are in use by nobody but the caller. */
    ghost predicate HeldRun(b: Frame, count: nat)
      reads this, space
    {
      0 !in Run(b, count) && Run(b, count) !! Total() && Run(b, count) <= Pages()
    }

    /** pmm_alloc. */
    method TakeFrame() returns (f: Option<Frame>)
      requires Valid()
      modifies space`free, space.pmm, space.pmm.bitmap
      ensures Valid() && space.S() == old(space.S())
      ensures f.None? <==> old(space.free) == {}
      ensures f.None? ==> space.free == old(space.free)
      ensures f.Some? ==>
              |space.free| == |old(space.free)| - 1 && Unheld(f.value) && Total() + {f.value} == old(Total())
              && f.value in old(space.free) && space.free <= old(space.free)
    {
      hide AddressSpace.Backed, FA.Pages, LeafOk, Translate, TreeOk, Run, Apart;
      ghost var a, s := space.free, space.S();
      f := space.PmmAlloc();
      assert space.S() == s && space.Valid();
      if f.Some? { Taken(a, space.level.Keys, leaf.Keys, StackFrames(), Pages(), f.value); }
    }

    static lemma Taken(a: set<Frame>, b: set<Frame>, c: set<Frame>, d: set<Frame>, all: set<Frame>, f: Frame)
      requires Apart(a, b, c, d) && a + b + c + d <= all && f in a
      ensures Apart(a - {f}, b, c, d) && a - {f} + b + c + d <= all && a - {f} + b + c + d + {f} == a + b + c + d
      ensures f in all && f !in b && f !in c && f !in d && |a - {f}| == |a| - 1
    {
    }

    /** A frame in use by nobody but the caller. */
    ghost predicate Unheld(f: Frame)
      reads this, space
    {
      f != 0 && f in Pages() && f !in space.free && f !in space.level && f !in leaf && f !in StackFrames()
    }

    lemma NotShown(page: nat, f: Frame)
      requires Valid() && page < USER_PAGES && Unheld(f)
      ensures f !in Shown(space.S(), page)
    {
      hide AddressSpace.Backed, FA.Pages, LeafOk, Translate, TreeOk, Run, Shown;
      ShownOwned(page);
    }

    /** pmm_alloc_pages. */
    method TakeRun(count: nat) returns (b: Option<Frame>)
      requires Valid()
      modifies space`free, space.pmm, space.pmm.bitmap
      ensures Valid()
      ensures b.None? ==> space.free == old(space.free)
      ensures b.Some? ==> HeldRun(b.value, count) && space.free + Run(b.value, count) == old(space.free)
    {
      hide AddressSpace.Backed, FA.Pages, LeafOk, Translate, TreeOk, Run;
      b := space.PmmAllocPages(count);
    }

    /** pmm_free_pages. */
    method GiveBack(b: Frame, count: nat)
      requires Valid() && count > 0 && HeldRun(b, count)
      modifies space`free, space.pmm, space.pmm.bitmap
      ensures Valid() && space.free == old(space.free) + Run(b, count)
    {
      hide AddressSpace.Backed, FA.Pages, LeafOk, Translate, TreeOk, Run;
      space.PmmFreePages(b, count);
    }

    /** Of a region under construction, i pages are mapped and the rest of the run is held. */
    ghost predicate Building(leaf0: map<Frame, nat>, s: Space, b: Frame, page: nat, i: nat, count: nat,
        flags: set<Flag>)
      reads this, space
    {
      && i <= count && page + count <= USER_PAGES
      && leaf == WithRegion(leaf0, b, page, i) && leaf0.Keys !! Run(b, count)
      && HeldRun(b + i, count - i)
      && Shows(space.S(), s, b, page, i, flags)
      && NonePages(s, page, count)
    }

    /** The undo path: unmap the i pages mapped so far and free the whole run. */
    method Rollback(page: nat, b: Frame, i: nat, count: nat, ghost leaf0: map<Frame, nat>, ghost s: Space,
        flags: set<Flag>)
      requires Valid() && count > 0 && Building(leaf0, s, b, page, i, count, flags)
      modifies `leaf, space`tables, space`free, space.pmm, space.pmm.bitmap
      ensures Valid() && leaf == leaf0 && Total() == old(Total()) + Run(b, count)
      ensures Shows(space.S(), s, b, page, 0, flags)
    {
      hide AddressSpace.Backed, FA.Pages, LeafOk, Translate, TreeOk, Run, Valid, Shows, WithRegion;
      WholeRunHeld(leaf0, b, page, i, count);
      RunTail(b, count, b, i);
      UnmapAll(page, b, i, leaf0, s, flags);
      GiveBack(b, count);
    }

    method UnmapAll(page: nat, b: Frame, i: nat, ghost leaf0: map<Frame, nat>, ghost s: Space, flags: set<Flag>)
      requires Valid() && leaf == WithRegion(leaf0, b, page, i) && leaf0.Keys !! Run(b, i) && page + i <= USER_PAGES
      requires Shows(space.S(), s, b, page, i, flags) && NonePages(s, page, i)
      modifies `leaf, space`tables
      ensures Valid() && leaf == leaf0 && Shows(space.S(), s, b, page, 0, flags)
    {
      hide AddressSpace.Backed, FA.Pages, LeafOk, Translate, TreeOk, Run, Valid, Shows, WithRegion;
      ghost var f, p, left := b, page, i;
      var j := 0;
      while j < i
        invariant 0 <= j <= i && p == page + j && left == i - j && NonePages(s, p, left) && leaf0.Keys !! Run(f, left)
        invariant Valid() && leaf == WithRegion(leaf0, f, p, left)
        invariant Shows(space.S(), s, f, p, left, flags)
      {
        ghost var before := space.S();
        UndoStep(leaf0, f, p, left);
        Unmap(page + j, f);
        ShowsUndone(before, space.S(), s, f, p, left, flags);
        RunTail(f, left, f + 1, left - 1);
        f, p, left, j := f + 1, p + 1, left - 1, j + 1;
      }
      ShowsNothing(space.S(), s, f, p, b, page, flags);
      NoRegion(leaf0, f, p);
    }

    static ghost predicate NonePages(s: Space, page: nat, count: nat) {
      forall m :: page <= m < page + count ==> Translate(s, m).None?
    }

    static lemma NoRegion(leaf: map<Frame, nat>, f: Frame, p: nat)
      ensures WithRegion(leaf, f, p, 0) == leaf
    {
    }

    static lemma RunTail(b: Frame, count: nat, f: Frame, left: nat)
      requires b <= f && f + left <= b + count
      ensures Run(f, left) <= Run(b, count)
    {
      hide Run;
    }

    lemma UndoStep(leaf0: map<Frame, nat>, f: Frame, p: nat, left: nat)
      requires leaf == WithRegion(leaf0, f, p, left) && left > 0 && leaf0.Keys !! Run(f, left)
      ensures f in leaf && leaf[f] == p && leaf - {f} == WithRegion(leaf0, f + 1, p + 1, left - 1)
    {
      RegionShift(leaf0, f, p, left);
    }

    static lemma ShowsNothing(r: Space, s: Space, b: Frame, page: nat, b': Frame, page': nat, flags: set<Flag>)
      requires Shows(r, s, b, page, 0, flags)
      ensures Shows(r, s, b', page', 0, flags)
    {
      hide Translate;
    }

    /** Mapped or not, no frame of the run is free, a table, a stack frame or one of the earlier leaves. */
    lemma WholeRunHeld(leaf0: map<Frame, nat>, b: Frame, page: nat, i: nat, count: nat)
      requires Valid() && i <= count && leaf == WithRegion(leaf0, b, page, i) && leaf0.Keys !! Run(b, count)
      requires HeldRun(b + i, count - i)
      ensures 0 !in Run(b, count) && Run(b, count) !! space.free && Run(b, count) !! space.level.Keys
      ensures Run(b, count) !! leaf0.Keys && Run(b, count) !! StackFrames() && Run(b, count) <= Pages()
    {
    }

    lemma NoZeroLeaf()
      requires Valid()
      ensures 0 !in leaf
    {
    }

    /** The loop of kxe_load_section and process_map_user_stack: take a run of frames and map it page by page;
        if a page cannot be mapped, undo the pages already mapped and give the run back. */
    method MapRegion(page: nat, count: nat, flags: set<Flag>) returns (base: Option<Frame>)
      requires Valid() && Unmapped(page, count)
      modifies `leaf, space, space.pmm, space.pmm.bitmap
      ensures Valid() && Total() == old(Total())
      ensures base.None? ==> leaf == old(leaf) && Shows(space.S(), old(space.S()), 0, 0, 0, flags)
      ensures base.Some? ==> leaf == WithRegion(old(leaf), base.value, page, count)
                             && Shows(space.S(), old(space.S()), base.value, page, count, flags)
    {
      hide AddressSpace.Backed, FA.Pages, LeafOk, Translate, TreeOk, Run, Valid, Shows, WithRegion;
      ghost var s := space.S();
      ShowsSelf(s, 0, 0, flags);
      base := TakeRun(count);
      if base.Some? {
        ShowsSelf(s, base.value, page, flags);
        NoRegion(leaf, base.value, page);
        var ok := MapRun(page, base.value, count, leaf, s, flags);
        if !ok {
          ShowsNothing(space.S(), s, base.value, page, 0, 0, flags);
          return None;
        }
      }
    }

    method MapRun(page: nat, b: Frame, count: nat, ghost leaf0: map<Frame, nat>, ghost s: Space, flags: set<Flag>)
        returns (ok: bool)
      requires Valid() && Building(leaf0, s, b, page, 0, count, flags)
      modifies `leaf, space, space.pmm, space.pmm.bitmap
      ensures Valid() && Total() == old(Total()) + Run(b, count)
      ensures ok ==> leaf == WithRegion(leaf0, b, page, count) && Shows(space.S(), s, b, page, count, flags)
      ensures !ok ==> leaf == leaf0 && Shows(space.S(), s, b, page, 0, flags)
    {
      hide AddressSpace.Backed, FA.Pages, LeafOk, Translate, TreeOk, Run, Valid, Shows, HeldRun, WithRegion, Total;
      ghost var total := Total();
      var i := 0;
      while i < count
        invariant 0 <= i <= count && Valid() && Building(leaf0, s, b, page, i, count, flags)
        invariant Total() == total + Run(b, i)
      {
        RunGrows(total, b, i, count);
        ok := MapNext(page, b, i, count, leaf0, s, flags);
        if !ok {
          Rollback(page, b, i, count, leaf0, s, flags);
          return;
        }
        i := i + 1;
      }
      ok := true;
    }

    static lemma RunGrows(t: set<Frame>, b: Frame, i: nat, count: nat)
      requires i < count
      ensures t + Run(b, i) + {b + i} == t + Run(b, i + 1) && t + Run(b, i) + Run(b, count) == t + Run(b, count)
    {
      hide Run;
    }

    static lemma ShowsSelf(s: Space, b: Frame, page: nat, flags: set<Flag>)
      ensures Shows(s, s, b, page, 0, flags)
    {
    }

    static lemma NotYetMapped(r: Space, s: Space, b: Frame, page: nat, i: nat, count: nat, flags: set<Flag>)
      requires Shows(r, s, b, page, i, flags) && NonePages(s, page, count) && i < count && page + count <= USER_PAGES
      ensures Translate(r, page + i).None?
    {
      hide Translate;
    }

    static lemma RunHead(b: Frame, count: nat)
      requires count > 0
      ensures b in Run(b, count) && Run(b, count) == {b} + Run(b + 1, count - 1)
    {
      hide Run;
    }

    static lemma RegionGrows(leaf: map<Frame, nat>, b: Frame, page: nat, i: nat)
      ensures WithRegion(leaf, b, page, i)[b + i := page + i] == WithRegion(leaf, b, page, i + 1)
    {
    }

    static lemma ShowsSame(r: Space, q: Space, s: Space, b: Frame, page: nat, i: nat, flags: set<Flag>)
      requires Shows(r, s, b, page, i, flags) && forall m :: 0 <= m < USER_PAGES ==> Translate(q, m) == Translate(r, m)
      ensures Shows(q, s, b, page, i, flags)
    {
      hide Translate;
    }

    static lemma NothingShown(s: Space, page: nat, leaf: map<Frame, nat>)
      requires Translate(s, page).None?
      ensures Shown(s, page) == {} && forall f :: Remapped(leaf, s, page, f) == leaf[f := page]
    {
    }

    /** On a page that shows nothing no frame is lost. */
    method MapFresh(page: nat, frame: Frame, flags: set<Flag>) returns (ok: bool)
      requires Valid() && page < USER_PAGES && Translate(space.S(), page).None?
      requires Unheld(frame)
      modifies `leaf, space, space.pmm, space.pmm.bitmap
      ensures Valid()
      ensures leaf == if ok then old(leaf)[frame := page] else old(leaf)
      ensures Total() == old(Total()) + if ok then {frame} else {}
      ensures forall m :: 0 <= m < USER_PAGES ==>
                Translate(space.S(), m) == if ok && m == page then Some(Entry(frame, flags + {Present}))
                                           else old(Translate(space.S(), m))
    {
      hide AddressSpace.Backed, FA.Pages, LeafOk, Translate, TreeOk, Run, Valid, Missing, Added, Shown, Total, Remapped;
      NothingShown(space.S(), page, leaf);
      ok := MapOwned(page, frame, flags);
    }

    /** One turn of the mapping loop. */
    method MapNext(page: nat, b: Frame, i: nat, count: nat, ghost leaf0: map<Frame, nat>, ghost s: Space,
        flags: set<Flag>) returns (ok: bool)
      requires Valid() && i < count && Building(leaf0, s, b, page, i, count, flags)
      modifies `leaf, space, space.pmm, space.pmm.bitmap
      ensures Valid() && Building(leaf0, s, b, page, if ok then i + 1 else i, count, flags)
      ensures Total() == old(Total()) + if ok then {b + i} else {}
    {
      hide AddressSpace.Backed, FA.Pages, LeafOk, Translate, TreeOk, Run, Valid, Shows, WithRegion;
      ghost var r := space.S();
      RunHead(b + i, count - i);
      NotYetMapped(r, s, b, page, i, count, flags);
      ok := MapFresh(page + i, b + i, flags);
      if ok {
        ShowsNext(r, space.S(), s, b, page, i, flags);
        RegionGrows(leaf0, b, page, i);
      } else {
        ShowsSame(r, space.S(), s, b, page, i, flags);
      }
    }

    // -------------------------------------------------------------- teardown

    /** Tables of the original tree that teardown has not reached are as they were. */
    ghost predicate Untouched(s: Space, frames: set<Frame>)
      reads space`tables
    {
      s.tables.Keys <= space.tables.Keys && forall t :: t in s.tables && t in frames ==> space.tables[t] == s.tables[t]
    }

    /** destroy_pt_level: gives back every frame below table f exactly once and no other. */
    method DestroyLevel(ghost s: Space, f: Frame, l: nat)
      requires TreeOk(s, 0) && f in s.tables && s.level[f] == l && 1 <= l <= 3
      requires Untouched(s, {f} + Under(s, f)) && space.free !! Under(s, f)
      requires space.Backed() && Under(s, f) <= Pages()
      modifies space`tables, space`free, space.pmm, space.pmm.bitmap
      ensures space.Backed() && space.free == old(space.free) + Under(s, f)
      ensures space.tables.Keys == old(space.tables.Keys)
      ensures forall t :: t in space.tables && t != f && t !in Under(s, f) ==> space.tables[t] == old(space.tables[t])
      decreases l, 0
    {
      hide AddressSpace.Backed, FA.Pages;
      UnderAll(s, f);
      hide AddressSpace.Backed, FA.Pages, TreeOk, Under, UnderUpTo;
      ghost var tables0 := space.tables;
      var i := 0;
      while i < ENTRIES
        invariant 0 <= i <= ENTRIES && space.tables.Keys == tables0.Keys
        invariant space.Backed() && space.free == old(space.free) + UnderUpTo(s, f, i)
        invariant Untouched(s, Under(s, f) - UnderUpTo(s, f, i))
        invariant forall j :: i <= j < ENTRIES ==> space.tables[f][j] == s.tables[f][j]
        invariant forall t :: t in tables0 && t != f && t !in Under(s, f) ==> space.tables[t] == tables0[t]
      {
        DestroySlot(s, f, l, i, tables0);
        i := i + 1;
      }
    }

    /** One turn of the loop of destroy_pt_level. */
    method DestroySlot(ghost s: Space, f: Frame, l: nat, i: nat, ghost tables0: map<Frame, Table>)
      requires TreeOk(s, 0) && f in s.tables && s.level[f] == l && 1 <= l <= 3 && i < ENTRIES
      requires Untouched(s, Under(s, f) - UnderUpTo(s, f, i)) && f in space.tables
      requires forall j :: i <= j < ENTRIES ==> space.tables[f][j] == s.tables[f][j]
      requires space.free !! (Under(s, f) - UnderUpTo(s, f, i)) && space.Backed() && Under(s, f) <= Pages()
      modifies space`tables, space`free, space.pmm, space.pmm.bitmap
      ensures space.Backed() && space.free == old(space.free) + (UnderUpTo(s, f, i + 1) - UnderUpTo(s, f, i))
      ensures space.tables.Keys == old(space.tables.Keys)
      ensures Untouched(s, Under(s, f) - UnderUpTo(s, f, i + 1))
      ensures forall j :: i < j < ENTRIES ==> space.tables[f][j] == s.tables[f][j]
      ensures forall t :: t in space.tables && t != f && t !in Under(s, f) ==> space.tables[t] == old(space.tables[t])
      decreases l - 1, 2
    {
      hide AddressSpace.Backed, FA.Pages;
      UnderSlot(s, f, i);
      if Used(s.tables[f][i]) { UnderChild(s, f, i); ChildIsTable(s, f, i); }
      hide AddressSpace.Backed, FA.Pages, TreeOk, Under, UnderUpTo;
      var entry := space.tables[f][i];
      if !IsPresent(entry) {
        return;
      }
      if entry.frame == 0 {
        space.tables := space.tables[f := space.tables[f][i := ZeroEntry]];
        return;
      }
      Release(s, entry.frame, l - 1);
      space.tables := space.tables[f := space.tables[f][i := ZeroEntry]];
    }

    /** Give back frame c at level l together with everything below it. */
    method Release(ghost s: Space, c: Frame, l: nat)
      requires TreeOk(s, 0) && c in s.level && s.level[c] == l && l <= 3 && (l > 0 ==> c in s.tables)
      requires Untouched(s, {c} + Under(s, c)) && space.free !! Under(s, c) && c !in space.free && c !in Under(s, c)
      requires space.Backed() && c in Pages() && Under(s, c) <= Pages()
      modifies space`tables, space`free, space.pmm, space.pmm.bitmap
      ensures space.Backed() && space.free == old(space.free) + {c} + Under(s, c)
      ensures space.tables.Keys == old(space.tables.Keys)
      ensures forall t :: t in space.tables && t != c && t !in Under(s, c) ==> space.tables[t] == old(space.tables[t])
      decreases l, 1
    {
      hide AddressSpace.Backed, FA.Pages;
      if l == 0 {
        NothingUnder(s, c);
      } else {
        DestroyLevel(s, c, l);
      }
      space.PmmFree(c);
    }

    static lemma NothingUnder(s: Space, f: Frame)
      requires TreeOk(s, 0) && f in s.level && s.level[f] == 0
      ensures Under(s, f) == {}
    {
    }

    static lemma ChildIsTable(s: Space, f: Frame, i: nat)
      requires TreeOk(s, 0) && f in s.tables && OwnSlot(s.level[f], i) && Used(s.tables[f][i])
      ensures s.level[f] > 1 ==> s.tables[f][i].frame in s.tables
    {
    }

    /** One turn of the loop of process_destroy over the user half of the PML4. */
    method DestroyTop(ghost s: Space, i: nat)
      requires TreeOk(s, 0) && s.root == space.root && i < USER_SLOTS && s.root in space.tables
      requires Untouched(s, Under(s, s.root) - UnderUpTo(s, s.root, i))
      requires forall j :: i <= j < USER_SLOTS ==> space.tables[s.root][j] == s.tables[s.root][j]
      requires space.free !! (Under(s, s.root) - UnderUpTo(s, s.root, i))
      requires space.Backed() && Under(s, s.root) <= Pages()
      modifies space`tables, space`free, space.pmm, space.pmm.bitmap
      ensures space.Backed()
      ensures space.free == old(space.free) + (UnderUpTo(s, s.root, i + 1) - UnderUpTo(s, s.root, i))
      ensures space.tables.Keys == old(space.tables.Keys)
      ensures Untouched(s, Under(s, s.root) - UnderUpTo(s, s.root, i + 1))
      ensures forall j :: i < j < USER_SLOTS ==> space.tables[s.root][j] == s.tables[s.root][j]
    {
      hide AddressSpace.Backed, FA.Pages;
      UnderSlot(s, s.root, i);
      if Used(s.tables[s.root][i]) { UnderChild(s, s.root, i); ChildIsTable(s, s.root, i); }
      hide AddressSpace.Backed, FA.Pages, TreeOk, Under, UnderUpTo;
      var root := space.root;
      var entry := space.tables[root][i];
      if !IsPresent(entry) {
        return;
      }
      if entry.frame != 0 {
        Release(s, entry.frame, 3);
      }
      space.tables := space.tables[root := space.tables[root][i := ZeroEntry]];
    }

    method DestroyUserHalf(ghost s: Space)
      requires TreeOk(s, 0) && s.root == space.root && s.tables == space.tables && s.root in s.tables
               && s.level[s.root] == 4
      requires space.free !! Under(s, s.root) && space.Backed() && Under(s, s.root) <= Pages()
      modifies space`tables, space`free, space.pmm, space.pmm.bitmap
      ensures space.Backed() && space.free == old(space.free) + Under(s, s.root)
    {
      hide AddressSpace.Backed, FA.Pages;
      UnderAll(s, s.root);
      hide AddressSpace.Backed, FA.Pages, TreeOk, Under, UnderUpTo;
      var i := 0;
      while i < USER_SLOTS
        invariant 0 <= i <= USER_SLOTS && s.root in space.tables
        invariant space.Backed() && space.free == old(space.free) + UnderUpTo(s, s.root, i)
        invariant Untouched(s, Under(s, s.root) - UnderUpTo(s, s.root, i))
        invariant forall j :: i <= j < USER_SLOTS ==> space.tables[s.root][j] == s.tables[s.root][j]
      {
        DestroyTop(s, i);
        i := i + 1;
      }
    }

    /** process_destroy: the free frames afterwards are the free frames before plus everything the process owned,
        each given back exactly once. */
    method Destroy()
      requires Valid()
      modifies space`tables, space`free, space.pmm, space.pmm.bitmap
      ensures space.Backed() && space.free == old(Total())
    {
      hide AddressSpace.Backed, FA.Pages, TreeOk, LeafOk, Translate, Under, Run;
      ghost var s := Full0();
      UnderRoot(s);
      ghost var below := Under(s, s.root);
      assert below !! space.free && s.root !in space.free && below + {s.root} == space.level.Keys + leaf.Keys;
      assert StackFrames() !! space.free + below + {s.root};
      DestroyUserHalf(s);
      space.PmmFree(space.root);
      space.PmmFreePages(kernelStack, PROC_KERNEL_STACK_PAGES);
    }

    /** The tree with the user frames as its lowest level. */
    ghost function Full0(): (s: Space)
      requires Valid()
      reads this, space, space.pmm, space.pmm.bitmap
      ensures TreeOk(s, 0) && s.tables == space.tables && s.root == space.root && s.root in s.tables
              && s.level[s.root] == 4
      ensures s.level.Keys == space.level.Keys + leaf.Keys && s.root in space.level
    {
      FullTree(space.S(), leaf);
      Full(space.S(), leaf)
    }

    // -------------------------------------------------------------- shrinking the heap, and whole lives

    /** One turn of the shrink loop of sys_brk. */
    method ReleasePage(page: nat)
      requires Valid() && page < USER_PAGES
      modifies `leaf, space, space.pmm, space.pmm.bitmap
      ensures Valid() && Total() == old(Total())
      ensures forall m :: 0 <= m < USER_PAGES ==>
                Translate(space.S(), m) == if m == page then None else old(Translate(space.S(), m))
    {
      hide AddressSpace.Backed, FA.Pages, LeafOk, Translate, TreeOk, Run, Total;
      var phys := space.GetPhysical(page * 4096);
      if phys == 0 {
        assert Translate(space.S(), page).Some? ==> Translate(space.S(), page).value.frame == 0;
        NoZeroPage(page);
        return;
      }
      LeafOfPage(page);
      ReleaseLeaf(page, phys / 4096);
    }

    /** An owned page unmapped and its frame freed. */
    method ReleaseLeaf(page: nat, f: Frame)
      requires Valid() && f in leaf && leaf[f] == page && f != 0
      modifies `leaf, space, space.pmm, space.pmm.bitmap
      ensures Valid() && Total() == old(Total())
      ensures forall m :: 0 <= m < USER_PAGES ==>
                Translate(space.S(), m) == if m == page then None else old(Translate(space.S(), m))
    {
      hide AddressSpace.Backed, FA.Pages, LeafOk, Translate, TreeOk, Run, Valid, Total;
      Unmap(page, f);
      FreeFrame(f);
    }

    lemma NoZeroPage(page: nat)
      requires Valid() && page < USER_PAGES
      ensures Translate(space.S(), page).Some? ==> Translate(space.S(), page).value.frame != 0
    {
    }

    lemma LeafOfPage(page: nat)
      requires Valid() && page < USER_PAGES && Translate(space.S(), page).Some?
      ensures var f := Translate(space.S(), page).value.frame; f in leaf && leaf[f] == page && f != 0
    {
    }

    /** True when no page of the region is mapped. */
    method IsUnmapped(page: nat, count: nat) returns (b: bool)
      requires Valid()
      ensures b == Unmapped(page, count)
    {
      hide AddressSpace.Backed, FA.Pages, LeafOk, TreeOk, Translate, PageOf, Run, Apart;
      if page + count > USER_PAGES {
        return false;
      }
      for i := 0 to count
        invariant forall m :: page <= m < page + i ==> Translate(space.S(), m).None?
      {
        PageAddress(page + i);
        var e := space.GetMapping((page + i) * 4096);
        if e.Some? {
          return false;
        }
      }
      return true;
    }
  }

  /** What a process does with its address space between creation and destruction: map a region nobody has mapped
      (a program section, the user stack, heap pages), or release a page. */
  datatype MemOp = MapOp(page: nat, count: nat, flags: set<Flag>) | ReleaseOp(page: nat)

  method Perform(p: Process, op: MemOp)
    requires p.Valid()
    modifies p, p.space, p.space.pmm, p.space.pmm.bitmap
    ensures p.Valid() && p.Total() == old(p.Total())
  {
    match op
    case MapOp(page, count, flags) =>
      var ok := p.IsUnmapped(page, count);
      if ok {
        var _ := p.MapRegion(page, count, flags);
      }
    case ReleaseOp(page) =>
      if page < USER_PAGES {
        p.ReleasePage(page);
      }
  }

  /** process_create: one frame for the PML4 and a run for the kernel stack. A creation that fails gives back what it
      took. */
  method Create(a: Allocator, kernelHalf: Table) returns (p: Process?)
    requires FA.Serves(a)
    modifies a, a.bitmap
    ensures FA.Serves(a)
    ensures p == null ==> FA.Free(a) == old(FA.Free(a))
    ensures p != null ==> fresh(p) && fresh(p.space) && p.Valid() && p.space.pmm == a && p.Total() == old(FA.Free(a))
  {
    hide TreeOk, Translate, Run, LeafOk, FA.Serves, FA.Free, FA.Pages;
    FA.FreeInPages(a);
    FA.NoNull(a);
    var pml4 := FA.PmmAlloc(a);
    if pml4.None? {
      return null;
    }
    var space := new AddressSpace(pml4.value, kernelHalf, a);
    var stack := space.PmmAllocPages(PROC_KERNEL_STACK_PAGES);
    if stack.None? {
      space.PmmFree(pml4.value);
      return null;
    }
    p := new Process(space, stack.value);
  }

  /** Frame conservation: whatever a process maps and releases, and however often an allocation fails, when it has
      been destroyed every bit of the page allocator is as it was before the process was created. */
  method WholeLife(a: Allocator, kernelHalf: Table, ops: seq<MemOp>)
    requires FA.Serves(a)
    modifies a, a.bitmap
    ensures FA.Serves(a) && a.Bits() == old(a.Bits())
  {
    hide Process.Valid, Process.Total, Unpack, Count;
    var p := Create(a, kernelHalf);
    if p != null {
      for i := 0 to |ops|
        invariant p.Valid() && p.Total() == old(FA.Free(a)) && fresh(p) && fresh(p.space) && p.space.pmm == a
      {
        Perform(p, ops[i]);
      }
      p.Destroy();
    }
    FA.SameBits(a.Bits(), old(a.Bits()));
  }
}
