/** vmm.c over physical frames: map, unmap and look up pages of one address space, in place. */
module Vmm {
  import opened Base
  import opened PageTableModel
  import opened PageTableSteps
  import opened PageTableAccess
  import opened PageTableCost
  import opened Pmm
  import FA = FrameAllocator

  class AddressSpace {
    var tables: map<Frame, Table>     // the frames in use as tables, as the kernel reads them
    const root: Frame                 // pml4_phys
    const pmm: Allocator
    ghost var free: set<Frame>        // the frames whose bits are clear
    ghost var level: map<Frame, nat>
    ghost var parent: map<Frame, (Frame, nat)>

    ghost function S(): (s: Space)
      reads this
    {
      Space(tables, root, level, parent)
    }

    /** The free frames are the clear bits of the page allocator. */
    ghost predicate Backed()
      reads `free, pmm, pmm.bitmap
    {
      FA.Serves(pmm) && free == FA.Free(pmm)
    }

    /** The page tables form a tree of frames that are not free, and a page marked for the program is one it reaches;
        page 0 is never handed out. */
    ghost predicate Valid()
      reads this, pmm, pmm.bitmap
    {
      TreeOk(S(), 1) && Granted(S()) && free !! level.Keys && 0 !in free && Backed()
    }

    /** vmm_create_page_table on a frame just taken from the allocator: an empty user half. */
    constructor (pml4: Frame, kernelHalf: Table, a: Allocator)
      requires FA.Serves(a) && pml4 != 0 && pml4 !in FA.Free(a)
      ensures Valid() && root == pml4 && pmm == a && free == FA.Free(a) && level.Keys == {pml4}
      ensures forall n :: 0 <= n < USER_PAGES ==> Translate(S(), n).None?
      ensures forall n, l :: 0 <= n < USER_PAGES && 1 <= l <= 3 ==> !HasTable(S(), n, l)
      ensures forall i :: USER_SLOTS <= i < ENTRIES ==> tables[root][i] == kernelHalf[i]
    {
      root := pml4;
      tables := map[pml4 := seq(ENTRIES,
        i requires 0 <= i < ENTRIES => if i < USER_SLOTS then ZeroEntry else kernelHalf[i])];
      pmm, free := a, FA.Free(a);
      level := map[pml4 := 4];
      parent := map[];
      new;
      forall n | 0 <= n < USER_PAGES ensures Translate(S(), n).None? {
        Digits(n);
        NothingBelow(S(), n, 1);
      }
      NoneGranted(S());
      forall n, l | 0 <= n < USER_PAGES && 1 <= l <= 3 ensures !HasTable(S(), n, l) {
        Digits(n);
        NothingBelow(S(), n, l);
      }
    }

    static lemma NothingBelow(s: Space, n: nat, l: nat)
      requires s.root in s.tables && !IsPresent(s.tables[s.root][Idx(n, 4)]) && 1 <= l < 4
      ensures TableAt(s, n, l).None?
      decreases 4 - l
    {
    }

    /** pmm_alloc. */
    method PmmAlloc() returns (f: Option<Frame>)
      requires Backed()
      modifies `free, pmm, pmm.bitmap
      ensures Backed()
      ensures old(free) == {} ==> f.None? && free == {}
      ensures old(free) != {} ==> f.Some? && f.value in old(free) && free == old(free) - {f.value}
    {
      hide FA.Serves, FA.Free;
      f := FA.PmmAlloc(pmm);
      free := FA.Free(pmm);
    }

    /** pmm_alloc_pages. */
    method PmmAllocPages(count: nat) returns (f: Option<Frame>)
      requires Backed()
      modifies `free, pmm, pmm.bitmap
      ensures Backed()
      ensures f.None? ==> free == old(free)
      ensures f.Some? ==> count > 0 && Run(f.value, count) <= old(free) && free == old(free) - Run(f.value, count)
    {
      hide FA.Serves, FA.Free, Run;
      f := FA.PmmAllocPages(pmm, count);
      free := FA.Free(pmm);
    }

    /** pmm_free of a frame that is in use: it is given back exactly once. */
    method PmmFree(f: Frame)
      requires Backed() && f in FA.Pages(pmm) && f !in free
      modifies `free, pmm, pmm.bitmap
      ensures Backed() && free == old(free) + {f}
    {
      hide FA.Serves, FA.Free, FA.Pages;
      FA.PmmFree(pmm, f);
      free := FA.Free(pmm);
    }

    /** pmm_free_pages of a run that is in use. */
    method PmmFreePages(f: Frame, count: nat)
      requires Backed() && count > 0 && Run(f, count) <= FA.Pages(pmm) && free !! Run(f, count)
      modifies `free, pmm, pmm.bitmap
      ensures Backed() && free == old(free) + Run(f, count)
    {
      hide FA.Serves, FA.Free, FA.Pages, Run;
      FA.PmmFreePages(pmm, f, count);
      free := FA.Free(pmm);
    }

    static lemma TableInSpace(s: Space, t: Frame)
      requires TreeOk(s, 1)
      ensures t in s.level ==> t in s.tables
    {
    }

    static lemma NextTable(s: Space, t: Frame, n: nat, l: nat)
      requires 1 <= l < 4 && TableAt(s, n, l + 1) == Some(t) && t in s.tables
      ensures TableAt(s, n, l) == var e := s.tables[t][Idx(n, l + 1)]; if IsPresent(e) then Some(e.frame) else None
    {
    }

    /** The branch of get_or_create_table that takes a frame for a new table. */
    method CreateTable(t: Frame, index: nat, user: bool) returns (c: Option<Frame>)
      requires Valid() && UpperSlot(S(), t, index) && !IsPresent(tables[t][index])
      modifies `tables, `free, `level, `parent, pmm, pmm.bitmap
      ensures Valid()
      ensures forall n :: 0 <= n < USER_PAGES ==> Translate(S(), n) == Translate(old(S()), n)
      ensures free + level.Keys == old(free + level.Keys) && free <= old(free)
      ensures c.None? <==> old(free) == {}
      ensures c.None? ==> S() == old(S()) && free == old(free)
      ensures c.Some? ==> IsPresent(tables[t][index]) && tables[t][index].frame == c.value
                          && {Present, Writable} <= tables[t][index].flags && |free| == |old(free)| - 1
      ensures c.Some? ==> Widened(S(), old(S())) && (user ==> User in tables[t][index].flags)
      ensures c.Some? ==> forall n, l :: 0 <= n < USER_PAGES && 1 <= l <= 4 ==>
                TableAt(S(), n, l) == if NewHere(old(S()), t, index, n, l) then c else TableAt(old(S()), n, l)
    {
      hide Backed, TreeOk, Granted, Widened, TableAt, Translate, NewHere;
      ghost var s := S();
      TableInSpace(s, t);
      c := PmmAlloc();
      if c.None? {
        return;
      }
      var flags := if user then {Present, Writable, User} else {Present, Writable};
      tables := tables[t := tables[t][index := Entry(c.value, flags)]][c.value := ZeroTable()];
      level := level[c.value := level[t] - 1];
      parent := parent[c.value := (t, index)];
      assert S() == AddTable(s, t, index, c.value, flags);
      AddTableTree(s, t, index, c.value, flags);
      AddTableWidens(s, t, index, c.value, flags);
      forall n | 0 <= n < USER_PAGES ensures Translate(S(), n) == Translate(s, n) {
        AddTableTranslate(s, t, index, c.value, flags, n);
      }
      GrantedKept(S(), s);
      forall n, l | 0 <= n < USER_PAGES && 1 <= l <= 4
        ensures TableAt(S(), n, l) == if NewHere(s, t, index, n, l) then c else TableAt(s, n, l)
      {
        AddTablePath(s, t, index, c.value, flags, n, l);
      }
    }

    static lemma UpperWritable(s: Space, t: Frame, i: nat)
      requires TreeOk(s, 1) && UpperSlot(s, t, i) && IsPresent(s.tables[t][i])
      ensures Writable in s.tables[t][i].flags
    {
      assert ChildOk(s, t, i);
    }

    static lemma Same(s: Space)
      ensures Widened(s, s)
    {
    }

    /** get_or_create_table. */
    method GetOrCreateTable(t: Frame, index: nat, user: bool) returns (r: Option<Frame>)
      requires Valid() && UpperSlot(S(), t, index)
      modifies `tables, `free, `level, `parent, pmm, pmm.bitmap
      ensures Valid()
      ensures forall n :: 0 <= n < USER_PAGES ==> Translate(S(), n) == Translate(old(S()), n)
      ensures free + level.Keys == old(free + level.Keys) && free <= old(free)
      ensures r.None? <==> !IsPresent(old(tables)[t][index]) && old(free) == {}
      ensures r.None? ==> S() == old(S()) && free == old(free)
      ensures r.Some? ==> IsPresent(tables[t][index]) && tables[t][index].frame == r.value
      ensures r.Some? ==> Widened(S(), old(S())) && (user ==> PASS <= tables[t][index].flags)
      ensures r.Some? ==> |free| == |old(free)| - if IsPresent(old(tables)[t][index]) then 0 else 1
      ensures r.Some? ==> forall n, l :: 0 <= n < USER_PAGES && 1 <= l <= 4 ==>
                TableAt(S(), n, l) == if NewHere(old(S()), t, index, n, l) then r else TableAt(old(S()), n, l)
    {
      hide Backed, TreeOk, Granted, Widened, Grants, TableAt, Translate;
      ghost var s := S();
      TableInSpace(s, t);
      var entry := tables[t][index];
      if IsPresent(entry) {
        UpperWritable(s, t, index);
        Same(s);
        if user && User !in entry.flags {
          var e := Entry(entry.frame, entry.flags + {User});
          tables := tables[t := tables[t][index := e]];
          assert S() == SetEntry(s, t, index, e);
          UpgradeTree(s, t, index, e);
          UpgradeWidens(s, t, index, e);
          forall n | 0 <= n < USER_PAGES ensures Translate(S(), n) == Translate(s, n) {
            UpgradeTranslate(s, t, index, e, n);
          }
          GrantedKept(S(), s);
          forall n, l | 0 <= n < USER_PAGES && 1 <= l <= 4 ensures TableAt(S(), n, l) == TableAt(s, n, l) {
            UpgradePath(s, t, index, e, n, l);
          }
        }
        forall n, l | 0 <= n < USER_PAGES && 1 <= l <= 4 && NewHere(s, t, index, n, l)
          ensures TableAt(s, n, l) == Some(entry.frame)
        {
          NextTable(s, t, n, l);
        }
        return Some(entry.frame);
      }
      r := CreateTable(t, index, user);
    }

    /** The next table on the path of page n, created if need be. */
    method Descend(t: Frame, n: nat, l: nat, user: bool) returns (r: Option<Frame>)
      requires Valid() && n < USER_PAGES && 2 <= l <= 4 && TableAt(S(), n, l) == Some(t)
      modifies `tables, `free, `level, `parent, pmm, pmm.bitmap
      ensures Valid()
      ensures forall m :: 0 <= m < USER_PAGES ==> Translate(S(), m) == Translate(old(S()), m)
      ensures free + level.Keys == old(free + level.Keys) && free <= old(free)
      ensures r.None? <==> !HasTable(old(S()), n, l - 1) && old(free) == {}
      ensures r.None? ==> S() == old(S()) && free == old(free)
      ensures r.Some? ==> TableAt(S(), n, l - 1) == r && |free| == |old(free)| - Lacks(old(S()), n, l - 1)
      ensures r.Some? && user && Grants(old(S()), n, l) ==> Grants(S(), n, l - 1)
      ensures r.Some? ==> forall m, k :: 0 <= m < USER_PAGES && 1 <= k <= 3 ==>
                (HasTable(S(), m, k) <==> HasTable(old(S()), m, k) || (k == l - 1 && SamePath(m, n, k)))
    {
      hide Backed, TreeOk, Granted, Grants, Translate, TableAt;
      ghost var s := S();
      TableInPath(s, n, l, t);
      Digits(n);
      NextTable(s, t, n, l - 1);
      r := GetOrCreateTable(t, Idx(n, l), user);
      if r.Some? {
        StepAdds(S(), s, t, n, l, r);
        assert NewHere(s, t, Idx(n, l), n, l - 1);
        if user && Grants(s, n, l) {
          assert TableAt(S(), n, l) == Some(t);
          TableInPath(S(), n, l, t);
          StepGrants(S(), n, l, t);
        }
      }
    }

    static lemma TableInPath(s: Space, n: nat, l: nat, t: Frame)
      requires TreeOk(s, 1) && n < USER_PAGES && 1 <= l <= 4 && TableAt(s, n, l) == Some(t)
      ensures t in s.tables && t in s.level && s.level[t] == l
    {
      TableAtLevel(s, n, l);
    }

    static lemma AtRoot(s: Space, n: nat)
      ensures TableAt(s, n, 4) == Some(s.root)
    {
    }

    /** Writing a leaf neither adds nor removes tables. */
    static lemma LeafAdded(s: Space, s0: Space, t: Frame, e: Entry, n: nat)
      requires TreeOk(s, 1) && LeafTable(s, t) && n < USER_PAGES && Added(s, s0, n, 1)
      ensures Added(SetEntry(s, t, Idx(n, 1), e), s0, n, 1)
    {
      hide TreeOk, TableAt, SamePath;
      forall m, l | 0 <= m < USER_PAGES && 1 <= l <= 3
        ensures HasTable(SetEntry(s, t, Idx(n, 1), e), m, l) == HasTable(s, m, l)
      {
        LeafPath(s, t, Idx(n, 1), e, m, l);
      }
    }

    /** The walk of vmm_map_page: the leaf table of page n, created with its upper tables if need be. */
    method CreatePath(n: nat, user: bool) returns (pt: Option<Frame>)
      requires Valid() && n < USER_PAGES
      modifies `tables, `free, `level, `parent, pmm, pmm.bitmap
      ensures Valid()
      ensures forall m :: 0 <= m < USER_PAGES ==> Translate(S(), m) == Translate(old(S()), m)
      ensures free + level.Keys == old(free + level.Keys) && free <= old(free)
      ensures pt.Some? <==> |old(free)| >= Missing(old(S()), n)
      ensures pt.None? ==> free == {}
      ensures pt.Some? ==> |free| == |old(free)| - Missing(old(S()), n) && Added(S(), old(S()), n, 1)
                           && TableAt(S(), n, 1) == pt
      ensures pt.Some? && user ==> Grants(S(), n, 1)
    {
      hide Backed, TreeOk, Granted, Grants, Translate, TableAt, HasTable, Added, SamePath;
      ghost var s := S();
      AtRoot(s, n);
      RootGrants(s, n);
      var pdpt := Descend(root, n, 4, user);
      if pdpt.None? { return None; }
      ghost var s1 := S();
      AddedNone(s, n);
      AddedStep(s1, s, s, n, 4);
      var pd := Descend(pdpt.value, n, 3, user);
      if pd.None? { return None; }
      ghost var s2 := S();
      AddedStep(s2, s1, s, n, 3);
      pt := Descend(pd.value, n, 2, user);
      if pt.Some? { AddedStep(S(), s2, s, n, 2); }
    }

    /** vmm_map_page. It succeeds exactly when the tables its path lacks can be had. On success exactly one page changes
        its translation; a failure part-way leaves every translation as it was, and either way no frame is lost. */
    method MapPage(virt: nat, phys: nat, flags: set<Flag>) returns (ok: bool)
      requires Valid() && PageOf(virt) < USER_PAGES
      modifies `tables, `free, `level, `parent, pmm, pmm.bitmap
      ensures Valid()
      ensures free + level.Keys == old(free + level.Keys) && free <= old(free)
      ensures ok <==> |old(free)| >= Missing(old(S()), PageOf(virt))
      ensures ok ==> |free| == |old(free)| - Missing(old(S()), PageOf(virt)) && Added(S(), old(S()), PageOf(virt), 1)
      ensures ok ==> forall m :: 0 <= m < USER_PAGES ==>
                Translate(S(), m) == if m == PageOf(virt) then Some(Entry(phys / 4096, flags + {Present}))
                                     else Translate(old(S()), m)
      ensures !ok ==> free == {} && forall m :: 0 <= m < USER_PAGES ==> Translate(S(), m) == Translate(old(S()), m)
    {
      hide Backed, TreeOk, Granted, Grants, Translate, TableAt, Missing, Added;
      var n := virt / 4096;
      ghost var s0 := S();
      var pt := CreatePath(n, User in flags);
      if pt.None? { return false; }
      var e := Entry(phys / 4096, flags + {Present});
      ghost var s := S();
      TableInPath(s, n, 1, pt.value);
      tables := tables[pt.value := tables[pt.value][Idx(n, 1) := e]];
      assert S() == SetEntry(s, pt.value, Idx(n, 1), e);
      LeafTree(s, pt.value, Idx(n, 1), e);
      LeafGranted(s, pt.value, e, n);
      LeafAdded(s, s0, pt.value, e, n);
      forall m | 0 <= m < USER_PAGES
        ensures Translate(S(), m) == if m == n then Some(e) else Translate(s, m)
      {
        LeafTranslate(s, pt.value, e, n, m);
      }
      return true;
    }

    /** The leaf table of page n, walking without creating. */
    method FindLeafTable(n: nat) returns (t: Option<Frame>)
      requires Valid() && n < USER_PAGES
      ensures t == TableAt(S(), n, 1)
    {
      hide Backed, TreeOk;
      TableInPath(S(), n, 4, root);
      var e := tables[root][Idx(n, 4)];
      if !IsPresent(e) { return None; }
      TableInPath(S(), n, 3, e.frame);
      e := tables[e.frame][Idx(n, 3)];
      if !IsPresent(e) { return None; }
      TableInPath(S(), n, 2, e.frame);
      e := tables[e.frame][Idx(n, 2)];
      if !IsPresent(e) { return None; }
      return Some(e.frame);
    }

    /** vmm_unmap_page: exactly one page loses its translation. */
    method UnmapPage(virt: nat)
      requires Valid() && PageOf(virt) < USER_PAGES
      modifies `tables
      ensures Valid()
      ensures forall m :: 0 <= m < USER_PAGES ==>
                Translate(S(), m) == if m == PageOf(virt) then None else Translate(old(S()), m)
    {
      var n := virt / 4096;
      ghost var s := S();
      var t := FindLeafTable(n);
      if t.None? { return; }
      TableInPath(s, n, 1, t.value);
      tables := tables[t.value := tables[t.value][Idx(n, 1) := ZeroEntry]];
      hide Backed, TreeOk, Granted, Grants, Translate;
      LeafTree(s, t.value, Idx(n, 1), ZeroEntry);
      LeafGranted(s, t.value, ZeroEntry, n);
      forall m | 0 <= m < USER_PAGES ensures Translate(S(), m) == if m == n then None else Translate(s, m) {
        LeafTranslate(s, t.value, ZeroEntry, n, m);
      }
    }

    /** vmm_get_mapping: reads the translation. */
    method GetMapping(virt: nat) returns (r: Option<Entry>)
      requires Valid() && PageOf(virt) < USER_PAGES
      ensures r == Translate(S(), PageOf(virt))
    {
      hide Backed, TreeOk;
      var t := FindLeafTable(virt / 4096);
      if t.None? { return None; }
      TableInPath(S(), virt / 4096, 1, t.value);
      var e := tables[t.value][Idx(virt / 4096, 1)];
      return if IsPresent(e) then Some(e) else None;
    }

    /** vmm_get_physical: the mapped frame's address, or 0. */
    method GetPhysical(virt: nat) returns (phys: nat)
      requires Valid() && PageOf(virt) < USER_PAGES
      ensures phys == var e := Translate(S(), PageOf(virt)); if e.Some? then e.value.frame * 4096 else 0
      ensures phys != 0 ==>
              Translate(S(), PageOf(virt)).Some? && phys / 4096 == Translate(S(), PageOf(virt)).value.frame
    {
      var e := GetMapping(virt);
      return if e.Some? then e.value.frame * 4096 else 0;
    }
  }
}
