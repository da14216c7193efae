/** heap.c: kmalloc, kfree, kcalloc and krealloc over block headers linked through memory. Sizes and addresses are
    64-bit words and wrap where the source wraps. */
module Heap {
  import opened Base
  import opened HeapModel

  /** heap_block_t; address 0 is NULL. */
  datatype Header = Header(size: nat, isFree: bool, next: nat, prev: nat)

  /** The largest request that the size arithmetic serves without wrapping. */
  const MAX_REQUEST: nat := WORD - 32

  function AddrAt(bs: seq<Block>, i: int): (a: nat) { if 0 <= i < |bs| then bs[i].addr else 0 }

  function HeaderOf(bs: seq<Block>, i: nat): (h: Header)
    requires i < |bs|
  {
    Header(bs[i].size, bs[i].free, AddrAt(bs, i + 1), AddrAt(bs, i - 1))
  }

  ghost predicate At(headers: map<nat, Header>, bs: seq<Block>, i: nat) {
    i < |bs| ==> bs[i].addr in headers && headers[bs[i].addr] == HeaderOf(bs, i)
  }

  /** The headers spell the list. */
  ghost predicate Spells(headers: map<nat, Header>, bs: seq<Block>) { forall i: nat :: At(headers, bs, i) }

  /** Headers left behind by merging say free. */
  ghost predicate StaleFree(headers: map<nat, Header>, bs: seq<Block>) {
    forall a :: a in headers && !headers[a].isFree ==> exists i :: 0 <= i < |bs| && bs[i].addr == a
  }

  ghost predicate Distinct(bs: seq<Block>) { forall i, j :: 0 <= i < j < |bs| ==> bs[i].addr != bs[j].addr }

  lemma DisjointDistinct(bs: seq<Block>)
    requires Disjoint(bs)
    ensures Distinct(bs)
  {
    forall i, j | 0 <= i < j < |bs| ensures bs[i].addr != bs[j].addr { assert Apart(bs[i], bs[j]); }
  }

  /** align_size on 64-bit words. */
  function Align(size: nat): (a: nat)
    requires size < WORD
    ensures a % 16 == 0
    ensures size <= WORD - 16 ==> size <= a < size + 16
    ensures size > WORD - 16 ==> a == 0
  {
    ((size + 15) % WORD) / 16 * 16
  }

  /** How many pages expand_heap asks for. */
  function PagesFor(size: nat): (n: nat)
    requires size < WORD
    ensures n > 0 && size <= WORD - 32 ==> size + 32 <= n * 4096 < size + 32 + 4096 && n * 4096 < WORD
    ensures size == WORD - 16 ==> n == 1
  {
    ((size + 32) % WORD + 4095) % WORD / 4096
  }

  /** A run that pmm_alloc_pages may hand out: none, or fresh pages. */
  ghost predicate Grantable(grant: nat, pages: nat, runs: seq<Run>) {
    grant != 0 ==>
      pages > 0 && grant % 4096 == 0 && grant + pages * 4096 <= WORD
      && forall x: nat :: grant <= x < grant + pages * 4096 ==> !Granted(runs, x)
  }

  // ---------- pointer updates ----------

  /** Writing one header field of list block i. */
  lemma LinkMark(h: map<nat, Header>, g: map<nat, Header>, bs: seq<Block>, i: nat, free: bool)
    requires Spells(h, bs) && Distinct(bs) && i < |bs| && bs[i].addr in h
    requires g == h[bs[i].addr := h[bs[i].addr].(isFree := free)]
    ensures Spells(g, Mark(bs, i, free))
  {
    var r := Mark(bs, i, free);
    forall j: nat ensures At(g, r, j) {
      assert At(h, bs, j);
      assert j < |r| && j < i ==> r[j].addr != bs[i].addr;
      assert j < |r| && j > i ==> r[j].addr != bs[i].addr;
    }
  }

  lemma StaleMark(h: map<nat, Header>, g: map<nat, Header>, bs: seq<Block>, i: nat, free: bool)
    requires StaleFree(h, bs) && i < |bs| && bs[i].addr in h
    requires g == h[bs[i].addr := h[bs[i].addr].(isFree := free)]
    ensures StaleFree(g, Mark(bs, i, free))
  {
    var r := Mark(bs, i, free);
    forall a | a in g && !g[a].isFree ensures exists j :: 0 <= j < |r| && r[j].addr == a {
      assert r[i].addr == bs[i].addr;
      if a != bs[i].addr { var j :| 0 <= j < |bs| && bs[j].addr == a; assert r[j].addr == a; }
    }
  }

  /** The header stores of split_block. */
  function SplitHeaders(h: map<nat, Header>, addr: nat, size: nat): (g: map<nat, Header>)
    requires addr in h && h[addr].size >= size + 32 && (h[addr].next != 0 ==> h[addr].next in h)
  {
    var b, at := h[addr], addr + 32 + size;
    var g := h[at := Header(b.size - size - 32, true, b.next, addr)];
    var g1 := if b.next != 0 then g[b.next := g[b.next].(prev := at)] else g;
    g1[addr := b.(next := at, size := size)]
  }

  /** What each header of the split list says. */
  lemma SplitHeader(bs: seq<Block>, i: nat, size: nat, j: nat)
    requires i < |bs| && bs[i].size >= size + 48 && j <= |bs|
    ensures var r, at := Split(bs, i, size), bs[i].addr + 32 + size;
            |r| == |bs| + 1 && r[j].addr == (if j == i + 1 then at else bs[if j <= i then j else j - 1].addr)
            && HeaderOf(r, j) ==
               if j < i then HeaderOf(bs, j)
               else if j == i then HeaderOf(bs, i).(size := size, next := at)
               else if j == i + 1 then Header(bs[i].size - size - 32, true, AddrAt(bs, i + 1), bs[i].addr)
               else if j == i + 2 then HeaderOf(bs, i + 1).(prev := at)
               else HeaderOf(bs, j - 1)
  {
  }

  lemma LinkSplit(h: map<nat, Header>, bs: seq<Block>, i: nat, size: nat)
    requires Spells(h, bs) && AllShaped(bs) && i < |bs| && bs[i].size >= size + 48 && Distinct(Split(bs, i, size))
    ensures At(h, bs, i) && At(h, bs, i + 1)
    ensures Spells(SplitHeaders(h, bs[i].addr, size), Split(bs, i, size))
  {
    hide Split;
    assert At(h, bs, i) && At(h, bs, i + 1);
    assert i + 1 < |bs| ==> Shaped(bs[i + 1]);
    var r, g := Split(bs, i, size), SplitHeaders(h, bs[i].addr, size);
    SplitHeader(bs, i, size, i);
    SplitHeader(bs, i, size, i + 1);
    if i + 2 <= |bs| { SplitHeader(bs, i, size, i + 2); }
    forall j: nat | j < |r| ensures At(g, r, j) {
      hide HeaderOf, AddrAt, AllShaped;
      SplitHeader(bs, i, size, j);
      assert At(h, bs, if j <= i then j else j - 1);
    }
  }

  /** The header stores of one merge in merge_free_blocks. */
  function JoinHeaders(h: map<nat, Header>, addr: nat): (g: map<nat, Header>)
    requires addr in h && h[addr].next in h && addr != h[addr].next
    requires h[h[addr].next].next != 0 ==> h[h[addr].next].next in h
  {
    var b := h[addr];
    var n := h[b.next];
    var g := h[addr := b.(size := b.size + 32 + n.size, next := n.next)];
    if n.next != 0 then g[n.next := g[n.next].(prev := addr)] else g
  }

  /** What each header of the joined list says. */
  lemma JoinHeader(bs: seq<Block>, i: nat, j: nat)
    requires i + 1 < |bs| && j + 1 < |bs|
    ensures var r := Join(bs, i);
            |r| == |bs| - 1 && r[j].addr == bs[if j <= i then j else j + 1].addr
            && HeaderOf(r, j) ==
               if j < i then HeaderOf(bs, j)
               else if j == i then HeaderOf(bs, i).(size := bs[i].size + 32 + bs[i + 1].size, next := AddrAt(bs, i + 2))
               else if j == i + 1 then HeaderOf(bs, i + 2).(prev := bs[i].addr)
               else HeaderOf(bs, j + 1)
  {
  }

  lemma LinkJoin(h: map<nat, Header>, bs: seq<Block>, i: nat)
    requires Spells(h, bs) && AllShaped(bs) && i + 1 < |bs| && Distinct(bs)
    ensures At(h, bs, i) && At(h, bs, i + 1) && At(h, bs, i + 2)
    ensures Spells(JoinHeaders(h, bs[i].addr), Join(bs, i))
  {
    hide Join;
    assert At(h, bs, i) && At(h, bs, i + 1) && At(h, bs, i + 2);
    assert Shaped(bs[i + 1]) && (i + 2 < |bs| ==> Shaped(bs[i + 2]));
    var r, g := Join(bs, i), JoinHeaders(h, bs[i].addr);
    JoinHeader(bs, i, i);
    forall j: nat | j < |r| ensures At(g, r, j) {
      hide HeaderOf, AddrAt, AllShaped;
      JoinHeader(bs, i, j);
      assert At(h, bs, if j <= i then j else j + 1);
    }
  }

  /** Linking a new last block. */
  lemma LinkAppend(h: map<nat, Header>, bs: seq<Block>, b: Block, g: map<nat, Header>)
    requires Spells(h, bs) && Distinct(bs + [b])
    requires var last := AddrAt(bs, |bs| - 1);
             if bs == [] then g == h[b.addr := Header(b.size, b.free, 0, 0)]
             else last in h && g == h[b.addr := Header(b.size, b.free, 0, last)][last := h[last].(next := b.addr)]
    ensures Spells(g, bs + [b])
  {
    var r := bs + [b];
    assert At(h, bs, |bs|) && (bs != [] ==> At(h, bs, |bs| - 1));
    forall j: nat ensures At(g, r, j) {
      if j < |r| {
        assert At(h, bs, j);
        assert j < |bs| ==> r[j] == bs[j] && AddrAt(r, j - 1) == AddrAt(bs, j - 1) && r[j].addr != r[|bs|].addr;
        assert j < |bs| - 1 ==> AddrAt(r, j + 1) == AddrAt(bs, j + 1) && r[j].addr != r[|bs| - 1].addr;
      }
    }
  }

  lemma StaleSplit(h: map<nat, Header>, bs: seq<Block>, i: nat, size: nat)
    requires Spells(h, bs) && StaleFree(h, bs) && AllShaped(bs) && i < |bs| && bs[i].size >= size + 48
    ensures At(h, bs, i) && At(h, bs, i + 1) && StaleFree(SplitHeaders(h, bs[i].addr, size), Split(bs, i, size))
  {
    assert At(h, bs, i) && At(h, bs, i + 1);
    assert i + 1 < |bs| ==> Shaped(bs[i + 1]);
    var r, g := Split(bs, i, size), SplitHeaders(h, bs[i].addr, size);
    forall a | a in g && !g[a].isFree ensures exists j :: 0 <= j < |r| && r[j].addr == a {
      var k :| 0 <= k < |bs| && bs[k].addr == a;
      assert r[if k <= i then k else k + 1].addr == a;
    }
  }

  lemma StaleJoin(h: map<nat, Header>, bs: seq<Block>, i: nat)
    requires Spells(h, bs) && StaleFree(h, bs) && AllShaped(bs) && Distinct(bs) && i + 1 < |bs| && bs[i + 1].free
    ensures At(h, bs, i) && At(h, bs, i + 1) && At(h, bs, i + 2)
    ensures StaleFree(JoinHeaders(h, bs[i].addr), Join(bs, i))
  {
    assert At(h, bs, i) && At(h, bs, i + 1) && At(h, bs, i + 2);
    assert Shaped(bs[i + 1]) && (i + 2 < |bs| ==> Shaped(bs[i + 2]));
    var r, g := Join(bs, i), JoinHeaders(h, bs[i].addr);
    forall a | a in g && !g[a].isFree ensures exists j :: 0 <= j < |r| && r[j].addr == a {
      var k :| 0 <= k < |bs| && bs[k].addr == a;
      assert k != i + 1;
      assert r[if k <= i then k else k - 1].addr == a;
    }
  }

  lemma SplitWhole(bs: seq<Block>, i: nat, size: nat)
    requires i < |bs| && bs[i].size < size + 48
    ensures Split(bs, i, size) == bs
  {
  }

  lemma LinkedSplit(h: map<nat, Header>, bs: seq<Block>, i: nat, size: nat)
    requires Spells(h, bs) && StaleFree(h, bs) && AllShaped(bs) && Disjoint(bs) && i < |bs| && bs[i].size >= size + 48
    ensures At(h, bs, i) && At(h, bs, i + 1) && AddrAt(Split(bs, i, size), 0) == AddrAt(bs, 0)
    ensures Spells(SplitHeaders(h, bs[i].addr, size), Split(bs, i, size))
    ensures StaleFree(SplitHeaders(h, bs[i].addr, size), Split(bs, i, size))
  {
    hide Spells, StaleFree, Cut, Disjoint, Distinct;
    SplitCuts(bs, i, size);
    CutDisjoint(bs, Split(bs, i, size), i);
    DisjointDistinct(Split(bs, i, size));
    LinkSplit(h, bs, i, size);
    StaleSplit(h, bs, i, size);
  }

  lemma LinkedJoin(h: map<nat, Header>, bs: seq<Block>, i: nat)
    requires Spells(h, bs) && StaleFree(h, bs) && AllShaped(bs) && Disjoint(bs) && i + 1 < |bs| && bs[i + 1].free
    ensures At(h, bs, i) && At(h, bs, i + 1) && At(h, bs, i + 2) && AddrAt(Join(bs, i), 0) == AddrAt(bs, 0)
    ensures bs[i].addr != bs[i + 1].addr && (i + 2 < |bs| ==> bs[i + 2].addr != 0)
    ensures Spells(JoinHeaders(h, bs[i].addr), Join(bs, i))
    ensures StaleFree(JoinHeaders(h, bs[i].addr), Join(bs, i))
  {
    hide Spells, StaleFree, Disjoint;
    DisjointDistinct(bs);
    assert i + 2 < |bs| ==> Shaped(bs[i + 2]);
    LinkJoin(h, bs, i);
    StaleJoin(h, bs, i);
  }

  class Kheap {
    var headers: map<nat, Header>
    var heapStart: nat
    var totalHeapSize: nat
    var totalAllocated: nat
    var numAllocations: nat
    var memory: nat -> bv8
    ghost var blocks: seq<Block>
    ghost var runs: seq<Run>

    ghost predicate Linked()
      reads `headers, `heapStart, `blocks
    {
      Spells(headers, blocks) && StaleFree(headers, blocks) && heapStart == AddrAt(blocks, 0)
    }

    ghost predicate Counted()
      reads `blocks, `totalHeapSize, `totalAllocated, `numAllocations
    {
      totalHeapSize == Sum(blocks, Bytes) && totalAllocated == Sum(blocks, InUse)
      && numAllocations == Sum(blocks, Calls)
    }

    ghost predicate Valid()
      reads `headers, `heapStart, `blocks, `runs, `totalHeapSize, `totalAllocated, `numAllocations
    {
      Ok(blocks, runs) && Linked() && Counted()
    }

    /** heap_init: four pages and a header, so five pages, when they are granted. */
    constructor (grant: nat)
      requires Grantable(grant, PagesFor(16384), [])
      ensures Valid() && numAllocations == 0
      ensures blocks == if grant == 0 then [] else [Block(grant, 20448, true)]
    {
      headers, heapStart, totalHeapSize, totalAllocated, numAllocations := map[], 0, 0, 0, 0;
      memory := x => 0;
      blocks, runs := [], [];
      new;
      if grant != 0 {
        Append(16384, grant);
      }
    }

    /** split_block. A size that the block holds is carved as the list says; a larger one, which only a wrapped
        request can bring here, is not promised anything. */
    method SplitBlock(addr: nat, size: nat, ghost i: nat)
      requires Linked() && i < |blocks| && addr == blocks[i].addr && AllShaped(blocks) && Disjoint(blocks)
      requires size < WORD && size % 16 == 0
      modifies `headers, `blocks
      ensures addr in headers
      ensures size <= old(blocks[i].size) && size >= MIN_ALLOC ==> Linked() && blocks == Split(old(blocks), i, size)
    {
      hide Split, StaleFree;
      assert At(headers, blocks, i) && At(headers, blocks, i + 1);
      assert Shaped(blocks[i]) && (i + 1 < |blocks| ==> Shaped(blocks[i + 1]));
      var b := headers[addr];
      if b.size >= (size + 48) % WORD {
        var at := (addr + 32 + size) % WORD;
        ghost var h0 := headers;
        headers := headers[at := Header((b.size + WORD - size - 32 + WORD) % WORD, true, b.next, addr)];
        if b.next != 0 {
          headers := headers[b.next := headers[b.next].(prev := at)];
        }
        headers := headers[addr := headers[addr].(next := at, size := size)];
        if size <= b.size && size >= MIN_ALLOC {
          LinkedSplit(h0, blocks, i, size);
          assert headers == SplitHeaders(h0, addr, size);
          blocks := Split(blocks, i, size);
        }
      } else if size <= b.size {
        assert Split(blocks, i, size) == blocks by { SplitWhole(blocks, i, size); }
      }
    }

    /** merge_free_blocks: first with the next block, then with the one before. */
    method MergeFreeBlocks(addr: nat, ghost i: nat)
      requires Linked() && AllShaped(blocks) && Disjoint(blocks) && i < |blocks| && addr == blocks[i].addr
      requires blocks[i].free
      modifies `headers, `blocks
      ensures Linked() && blocks == MergePrev(MergeNext(old(blocks), i), i)
    {
      hide Join, StaleFree, Disjoint;
      assert At(headers, blocks, i) && At(headers, blocks, i + 1) && At(headers, blocks, i - 1 + 1);
      assert i + 1 < |blocks| ==> Shaped(blocks[i + 1]);
      var b := headers[addr];
      if b.next != 0 && addr + 32 + b.size == b.next && headers[b.next].isFree {
        LinkedJoin(headers, blocks, i);
        JoinDisjoint(blocks, i);
        headers := JoinStore(headers, addr);
        blocks := Join(blocks, i);
      }
      assert At(headers, blocks, i);
      MergePrevious(addr, i);
    }

    method MergePrevious(addr: nat, ghost i: nat)
      requires Linked() && AllShaped(blocks) && Disjoint(blocks) && i < |blocks| && addr == blocks[i].addr
      requires blocks[i].free
      modifies `headers, `blocks
      ensures Linked() && blocks == MergePrev(old(blocks), i)
    {
      hide Join, StaleFree, Disjoint;
      assert At(headers, blocks, i);
      if i > 0 {
        assert At(headers, blocks, i - 1) && Shaped(blocks[i - 1]);
      }
      var b := headers[addr];
      if b.prev != 0 && b.prev + 32 + headers[b.prev].size == addr && headers[b.prev].isFree {
        LinkedJoin(headers, blocks, i - 1);
        headers := JoinStore(headers, b.prev);
        blocks := Join(blocks, i - 1);
      }
    }

    /** The header stores of a merge, in the order the source makes them. */
    static method JoinStore(h: map<nat, Header>, addr: nat) returns (g: map<nat, Header>)
      requires addr in h && h[addr].next in h && addr != h[addr].next
      requires h[h[addr].next].next != 0 ==> h[h[addr].next].next in h
      ensures g == JoinHeaders(h, addr)
    {
      var next := h[addr].next;
      g := h[addr := h[addr].(size := h[addr].size + 32 + h[next].size)];
      g := g[addr := g[addr].(next := g[next].next)];
      if g[addr].next != 0 {
        g := g[g[addr].next := g[g[addr].next].(prev := addr)];
      }
    }

    static lemma JoinDisjoint(bs: seq<Block>, i: nat)
      requires i + 1 < |bs| && AllShaped(bs) && Disjoint(bs) && End(bs[i]) == bs[i + 1].addr
      ensures AllShaped(Join(bs, i)) && Disjoint(Join(bs, i)) && |Join(bs, i)| == |bs| - 1
      ensures Join(bs, i)[i].addr == bs[i].addr && Join(bs, i)[i].free == bs[i].free
    {
      hide Disjoint, Cut;
      JoinFuses(bs, i);
      FuseDisjoint(Join(bs, i), bs, i);
      JoinShaped(bs, i);
    }

    static lemma SplitHead(bs: seq<Block>, i: nat, size: nat)
      requires i < |bs| && AllShaped(bs) && Disjoint(bs) && size <= bs[i].size
      ensures i < |Split(bs, i, size)| && Split(bs, i, size)[i].addr == bs[i].addr && Distinct(Split(bs, i, size))
    {
      hide Disjoint, Cut;
      SplitCuts(bs, i, size);
      if Split(bs, i, size) != bs {
        CutDisjoint(bs, Split(bs, i, size), i);
      }
      DisjointDistinct(Split(bs, i, size));
    }

    static lemma ClaimLinks(h: map<nat, Header>, g: map<nat, Header>, bs: seq<Block>, i: nat)
      requires Spells(h, bs) && StaleFree(h, bs) && Distinct(bs) && i < |bs| && bs[i].addr in h
      requires g == h[bs[i].addr := h[bs[i].addr].(isFree := false)]
      ensures Spells(g, Mark(bs, i, false)) && StaleFree(g, Mark(bs, i, false))
      ensures g[bs[i].addr].size == bs[i].size && AddrAt(Mark(bs, i, false), 0) == AddrAt(bs, 0)
    {
      assert At(h, bs, i);
      LinkMark(h, g, bs, i, false);
      StaleMark(h, g, bs, i, false);
    }

    /** kmalloc's last steps on a block that was found or made: carve, mark, count. */
    method Claim(addr: nat, size: nat, ghost i: nat)
      requires Linked() && Counted() && AllShaped(blocks) && Disjoint(blocks)
      requires i < |blocks| && addr == blocks[i].addr && blocks[i].free && size < WORD && size % 16 == 0
      modifies `headers, `blocks, `totalAllocated, `numAllocations
      ensures MIN_ALLOC <= size <= old(blocks[i].size) ==>
                Linked() && Counted() && blocks == Take(old(blocks), i, size)
    {
      hide Spells, StaleFree, Split, Sum, Disjoint, AllShaped;
      ghost var bs := blocks;
      SplitBlock(addr, size, i);
      label Mid:
      headers := headers[addr := headers[addr].(isFree := false)];
      totalAllocated := totalAllocated + headers[addr].size;
      numAllocations := numAllocations + 1;
      if MIN_ALLOC <= size <= bs[i].size {
        SplitHead(bs, i, size);
        ClaimLinks(old@Mid(headers), headers, blocks, i);
        TakeSums(bs, i, size);
        blocks := Mark(blocks, i, false);
      }
    }

    /** expand_heap and the append to the list: the granted run becomes one free block at the end. */
    method Append(size: nat, grant: nat)
      requires Valid() && size < WORD && grant != 0 && Grantable(grant, PagesFor(size), runs)
      modifies `headers, `heapStart, `totalHeapSize, `blocks, `runs
      ensures Linked() && Counted() && blocks == Grow(old(blocks), grant, PagesFor(size) * 4096)
      ensures runs == old(runs) + [Run(grant, PagesFor(size) * 4096)]
      ensures AllShaped(blocks) && Disjoint(blocks) && Tiles(blocks, runs) && CoalescedBut(blocks, |blocks| - 2)
    {
      hide Sum, StaleFree, Tiles, CoalescedBut, PagesFor, Spells;
      var bytes := PagesFor(size) * 4096;
      ghost var h0, bs := headers, blocks;
      GrowKeeps(blocks, runs, grant, bytes);
      GrowSums(blocks, grant, bytes);
      headers := headers[grant := Header(bytes - 32, true, 0, 0)];
      totalHeapSize := totalHeapSize + bytes;
      if heapStart == 0 {
        heapStart := grant;
      } else {
        NewAddress(bs, Block(grant, bytes - 32, true));
        var last := LastBlock(grant, h0);
        headers := headers[last := headers[last].(next := grant)];
        headers := headers[grant := headers[grant].(prev := last)];
      }
      AppendLinks(h0, bs, Block(grant, bytes - 32, true), headers);
      blocks := Grow(blocks, grant, bytes);
      runs := runs + [Run(grant, bytes)];
    }

    static lemma NewAddress(bs: seq<Block>, b: Block)
      requires Disjoint(bs + [b])
      ensures forall i :: 0 <= i < |bs| ==> bs[i].addr != b.addr
    {
      forall i | 0 <= i < |bs| ensures bs[i].addr != b.addr { assert Apart((bs + [b])[i], (bs + [b])[|bs|]); }
    }

    /** The walk to the end of the list. */
    method LastBlock(grant: nat, ghost h0: map<nat, Header>) returns (last: nat)
      requires Spells(h0, blocks) && AllShaped(blocks) && heapStart == AddrAt(blocks, 0) && heapStart != 0
      requires forall i :: 0 <= i < |blocks| ==> blocks[i].addr != grant
      requires grant in headers && headers == h0[grant := headers[grant]]
      ensures blocks != [] && last == AddrAt(blocks, |blocks| - 1) && last in h0 && last != grant
    {
      last := heapStart;
      ghost var k := 0;
      assert At(h0, blocks, 0);
      while headers[last].next != 0
        invariant k < |blocks| && last == blocks[k].addr && At(h0, blocks, k) && last in headers
        decreases |blocks| - k
      {
        last := headers[last].next;
        k := k + 1;
        assert At(h0, blocks, k);
      }
      assert k + 1 < |blocks| ==> Shaped(blocks[k + 1]);
    }

    static lemma AppendLinks(h: map<nat, Header>, bs: seq<Block>, b: Block, g: map<nat, Header>)
      requires Spells(h, bs) && StaleFree(h, bs) && Disjoint(bs + [b]) && b.free
      requires var last := AddrAt(bs, |bs| - 1);
               if bs == [] then g == h[b.addr := Header(b.size, b.free, 0, 0)]
               else last in h && g == h[b.addr := Header(b.size, b.free, 0, last)][last := h[last].(next := b.addr)]
      ensures Spells(g, bs + [b]) && StaleFree(g, bs + [b])
    {
      DisjointDistinct(bs + [b]);
      LinkAppend(h, bs, b, g);
      forall a | a in g && !g[a].isFree ensures exists j :: 0 <= j < |bs + [b]| && (bs + [b])[j].addr == a {
        assert a in h && !h[a].isFree;
        var j :| 0 <= j < |bs| && bs[j].addr == a;
        assert (bs + [b])[j].addr == a;
      }
    }

    static ghost predicate FirstFit(bs: seq<Block>, need: nat, k: nat) {
      k < |bs| && bs[k].free && bs[k].size >= need && forall j :: 0 <= j < k && bs[j].free ==> bs[j].size < need
    }

    /** kmalloc's search: the first free block that holds the size. */
    method FindFit(need: nat) returns (current: nat, ghost k: nat)
      requires Spells(headers, blocks) && AllShaped(blocks) && heapStart == AddrAt(blocks, 0)
      ensures current == 0 <==> NoFit(blocks, need)
      ensures current != 0 ==> current == AddrAt(blocks, k) && FirstFit(blocks, need, k)
    {
      hide Spells;
      current, k := heapStart, 0;
      while current != 0
        invariant k <= |blocks| && current == AddrAt(blocks, k)
        invariant forall j :: 0 <= j < k && blocks[j].free ==> blocks[j].size < need
        decreases |blocks| - k
      {
        Reading(k);
        if headers[current].isFree && headers[current].size >= need {
          return;
        }
        current := headers[current].next;
        k := k + 1;
      }
      assert k < |blocks| ==> Shaped(blocks[k]);
    }

    /** The rest of kmalloc once a block is at hand. */
    method ServeFrom(addr: nat, need: nat, ghost i: nat) returns (ghost n: nat)
      requires Linked() && Counted() && AllShaped(blocks) && Disjoint(blocks) && Tiles(blocks, runs)
      requires CoalescedBut(blocks, i - 1)
      requires i < |blocks| && addr == blocks[i].addr && blocks[i].free && need < WORD && need % 16 == 0
      modifies `headers, `blocks, `totalAllocated, `numAllocations
      ensures MIN_ALLOC <= need <= old(blocks[i].size) ==>
                Valid() && Snug(n, need, old(blocks[i].size)) && AddsOnly(old(blocks), blocks, addr + 32, n)
                && Dead(old(blocks), addr + 32)
    {
      hide Spells, StaleFree, Sum, Tiles, Disjoint, CoalescedBut, Live, Take, AllShaped;
      ghost var bs := blocks;
      n := 0;
      Claim(addr, need, i);
      if MIN_ALLOC <= need <= bs[i].size {
        Claimed(bs, runs, i, need);
        n := blocks[i].size;
      }
    }

    /** kmalloc on fresh pages. */
    method ServeFresh(need: nat, grant: nat) returns (ghost n: nat)
      requires Valid() && need < WORD && need % 16 == 0 && grant != 0 && Grantable(grant, PagesFor(need), runs)
      modifies `headers, `heapStart, `totalHeapSize, `totalAllocated, `numAllocations, `blocks, `runs
      ensures MIN_ALLOC <= need <= WORD - 32 ==>
                Valid() && Snug(n, need, PagesFor(need) * 4096 - 32) && AddsOnly(old(blocks), blocks, grant + 32, n)
                && Dead(old(blocks), grant + 32) && runs == old(runs) + [Run(grant, PagesFor(need) * 4096)]
    {
      hide Spells, StaleFree, Sum, Tiles, Disjoint, CoalescedBut, PagesFor, Live, Dead;
      ghost var bs := blocks;
      Append(need, grant);
      GrownLive(bs, grant, PagesFor(need) * 4096);
      n := ServeFrom(grant, need, |bs|);
    }

    /** kmalloc. The first free block that fits the aligned size, or a block made of fresh pages. A request beyond the
        largest is answered like any other, although no block can hold it: its aligned size has wrapped. */
    method Kmalloc(size: nat, grant: nat) returns (ptr: nat, ghost n: nat)
      requires Valid() && size < WORD && Grantable(grant, PagesFor(Align(size)), runs)
      modifies `headers, `heapStart, `totalHeapSize, `totalAllocated, `numAllocations, `blocks, `runs
      ensures ptr == 0 <==> size == 0 || (NoFit(old(blocks), Align(size)) && grant == 0)
      ensures ptr != 0 ==> if NoFit(old(blocks), Align(size)) then ptr == grant + 32
                           else exists k: nat ::
                             FirstFit(old(blocks), Align(size), k) && ptr == old(blocks)[k].addr + 32
      ensures ptr != 0 ==> (ptr + size <= WORD <==> size <= MAX_REQUEST)
      ensures size <= MAX_REQUEST ==> Valid()
      ensures size <= MAX_REQUEST && ptr == 0 ==> blocks == old(blocks) && runs == old(runs)
      ensures size <= MAX_REQUEST && ptr != 0 ==>
                ptr % 16 == 0 && n >= size && AddsOnly(old(blocks), blocks, ptr, n) && Dead(old(blocks), ptr)
      ensures size <= MAX_REQUEST && !NoFit(old(blocks), Align(size)) ==> runs == old(runs)
      ensures size <= MAX_REQUEST && ptr != 0 && NoFit(old(blocks), Align(size)) ==>
                Snug(n, Align(size), PagesFor(Align(size)) * 4096 - 32)
                && runs == old(runs) + [Run(grant, PagesFor(Align(size)) * 4096)]
      ensures size <= MAX_REQUEST && ptr != 0 && !NoFit(old(blocks), Align(size)) ==>
                exists k: nat :: FirstFit(old(blocks), Align(size), k) && Snug(n, Align(size), old(blocks)[k].size)
    {
      hide Spells, StaleFree, Sum, Tiles, Disjoint, CoalescedBut, Align, PagesFor, Live, NoFit, Dead;
      n := 0;
      if size == 0 {
        return 0, 0;
      }
      var need := Align(size);
      var current;
      ghost var k;
      current, k := FindFit(need);
      if current != 0 {
        assert Shaped(blocks[k]);
        Relax(blocks, k as int - 1);
        n := ServeFrom(current, need, k);
        InAddressSpace(blocks, current + 32, n, size);
        return current + 32, n;
      }
      if grant == 0 {
        return 0, 0;
      }
      n := ServeFresh(need, grant);
      InAddressSpace(blocks, grant + 32, n, size);
      return grant + 32, n;
    }

    /** An allocation ends within the address space. */
    static lemma InAddressSpace(bs: seq<Block>, p: nat, n: nat, size: nat)
      ensures AllShaped(bs) && Live(bs, p, n) && n >= size ==> p + size <= WORD
    {
    }

    /** The header that the walk reads. */
    lemma Reading(k: nat)
      requires Spells(headers, blocks) && AllShaped(blocks) && k < |blocks|
      ensures blocks[k].addr in headers && headers[blocks[k].addr] == HeaderOf(blocks, k)
    {
      assert At(headers, blocks, k);
    }

    static lemma Claimed(bs: seq<Block>, runs: seq<Run>, i: nat, size: nat)
      requires i < |bs| && AllShaped(bs) && Disjoint(bs) && Tiles(bs, runs) && CoalescedBut(bs, i - 1)
      requires bs[i].free && bs[i].size >= size >= MIN_ALLOC && size % 16 == 0
      ensures Ok(Take(bs, i, size), runs) && i < |Take(bs, i, size)| && bs[i].addr % 16 == 0
      ensures AddsOnly(bs, Take(bs, i, size), bs[i].addr + 32, Take(bs, i, size)[i].size)
      ensures Snug(Take(bs, i, size)[i].size, size, bs[i].size) && Dead(bs, bs[i].addr + 32)
    {
      hide Tiles, CoalescedBut, Disjoint, Live;
      assert Shaped(bs[i]);
      TakeKeeps(bs, runs, i, size);
      TakeLive(bs, i, size);
      FreeNotLive(bs, i);
    }

    static lemma GrownLive(bs: seq<Block>, base: nat, bytes: nat)
      requires bytes >= 32
      ensures forall p: nat, n: nat :: Live(Grow(bs, base, bytes), p, n) <==> Live(bs, p, n)
      ensures forall p: nat :: Dead(Grow(bs, base, bytes), p) <==> Dead(bs, p)
    {
      hide Live, Grow;
      forall p: nat, n: nat ensures Live(Grow(bs, base, bytes), p, n) <==> Live(bs, p, n) {
        GrowLive(bs, base, bytes, p, n);
      }
    }

    /** kfree: exactly one allocation ends; a second free of the same block changes nothing. */
    method Kfree(ptr: nat)
      requires Valid() && (ptr != 0 ==> ptr >= 32 && ptr - 32 in headers)
      modifies `headers, `totalAllocated, `numAllocations, `blocks
      ensures Valid() && DropsOnly(old(blocks), blocks, ptr)
      ensures Dead(old(blocks), ptr) ==> blocks == old(blocks)
    {
      hide Spells, Sum, Tiles, Disjoint, CoalescedBut, Live, MergeNext, MergePrev, AllShaped;
      if ptr == 0 {
        NullNotLive(blocks);
        return;
      }
      var addr := ptr - 32;
      if headers[addr].isFree {
        NotLive(addr);
        return;
      }
      ghost var i :| 0 <= i < |blocks| && blocks[i].addr == addr;
      Reading(i);
      ghost var bs := blocks;
      FreeSteps(bs, runs, headers, i);
      totalAllocated := totalAllocated - headers[addr].size;
      numAllocations := numAllocations - 1;
      headers := headers[addr := headers[addr].(isFree := true)];
      blocks := Mark(blocks, i, true);
      MergeFreeBlocks(addr, i);
    }

    static lemma NullNotLive(bs: seq<Block>)
      ensures Dead(bs, 0)
    {
    }

    lemma NotLive(addr: nat)
      requires Valid() && addr in headers && headers[addr].isFree
      ensures Dead(blocks, addr + 32)
    {
      forall m: nat, j: nat | j < |blocks| ensures blocks[j] != Block(addr, m, false) { assert At(headers, blocks, j); }
    }

    static lemma FreeSteps(bs: seq<Block>, runs: seq<Run>, h: map<nat, Header>, i: nat)
      requires Ok(bs, runs) && i < |bs| && !bs[i].free && Spells(h, bs) && StaleFree(h, bs)
      ensures At(h, bs, i) && Spells(h[bs[i].addr := h[bs[i].addr].(isFree := true)], Mark(bs, i, true))
      ensures StaleFree(h[bs[i].addr := h[bs[i].addr].(isFree := true)], Mark(bs, i, true))
      ensures AllShaped(Mark(bs, i, true)) && Disjoint(Mark(bs, i, true))
              && AddrAt(Mark(bs, i, true), 0) == AddrAt(bs, 0)
      ensures Ok(Release(bs, i), runs) && DropsOnly(bs, Release(bs, i), bs[i].addr + 32)
      ensures Sum(Release(bs, i), Bytes) == Sum(bs, Bytes) && Sum(Release(bs, i), Calls) == Sum(bs, Calls) - 1
      ensures Sum(Release(bs, i), InUse) == Sum(bs, InUse) - bs[i].size && Live(bs, bs[i].addr + 32, bs[i].size)
    {
      hide Tiles, CoalescedBut, Disjoint, Sum, Release, StaleFree;
      assert At(h, bs, i);
      var g := h[bs[i].addr := h[bs[i].addr].(isFree := true)];
      DisjointDistinct(bs);
      LinkMark(h, g, bs, i, true);
      StaleMark(h, g, bs, i, true);
      MarkKeeps(bs, runs, i, true);
      ReleaseKeeps(bs, runs, i);
      ReleaseLive(bs, i);
      ReleaseSums(bs, i);
      assert bs[i] == Block(bs[i].addr, bs[i].size, false);
    }

    /** Payload bytes of the allocations other than one are untouched. */
    ghost predicate KeepsOthers(bs: seq<Block>, before: nat -> bv8, p: nat)
      reads `memory
    {
      forall q: nat, m: nat, x: nat :: Live(bs, q, m) && q != p && InPayload(q, m, x) ==> memory(x) == before(x)
    }

    /** kcalloc: zeroed, and refused when the product does not fit a word. */
    method Kcalloc(num: nat, size: nat, grant: nat) returns (ptr: nat, ghost n: nat)
      requires Valid() && num < WORD && size < WORD
      requires num * size < WORD ==> Grantable(grant, PagesFor(Align(num * size)), runs)
      modifies this
      ensures num * size >= WORD ==> ptr == 0 && Valid() && blocks == old(blocks) && memory == old(memory)
      ensures num * size < WORD ==>
                (ptr == 0 <==> num * size == 0 || (NoFit(old(blocks), Align(num * size)) && grant == 0))
      ensures ptr != 0 ==> (ptr + num * size <= WORD <==> num * size <= MAX_REQUEST)
      ensures num * size < WORD && ptr != 0 ==>
                if NoFit(old(blocks), Align(num * size)) then ptr == grant + 32
                else exists k: nat ::
                  FirstFit(old(blocks), Align(num * size), k) && ptr == old(blocks)[k].addr + 32
      ensures num * size <= MAX_REQUEST ==> Valid() && (ptr == 0 ==> blocks == old(blocks) && memory == old(memory))
      ensures num * size <= MAX_REQUEST && ptr != 0 ==>
                n >= num * size && AddsOnly(old(blocks), blocks, ptr, n)
                && (forall x: nat :: ptr <= x < ptr + num * size ==> memory(x) == 0)
                && KeepsOthers(old(blocks), old(memory), ptr)
    {
      hide Valid, Grantable, Align, PagesFor, Live;
      n := 0;
      FitsWord(num, size);
      if num != 0 && size > (WORD - 1) / num {
        return 0, 0;
      }
      var total := num * size;
      ghost var bs := blocks;
      ptr, n := Kmalloc(total, grant);
      if ptr != 0 {
        var was, at := memory, ptr;
        memory := (x: nat) => if at <= x < at + total then 0 else was(x);
        if total <= MAX_REQUEST {
          ApartFrom(bs, ptr, n);
        }
      }
    }

    /** The overflow test of kcalloc is exact. */
    static lemma FitsWord(num: nat, size: nat)
      ensures num * size < WORD <==> num == 0 || size <= (WORD - 1) / num
    {
      if num != 0 {
        var q, r := (WORD - 1) / num, (WORD - 1) % num;
        assert q * num + r == WORD - 1 && r < num;
        if size <= q {
          assert num * size <= num * q;
        } else {
          assert num * size >= num * (q + 1);
        }
      }
    }

    /** The bytes of the new allocation belong to no old one. */
    lemma ApartFrom(before: seq<Block>, p: nat, n: nat)
      requires Valid() && AddsOnly(before, blocks, p, n) && Dead(before, p)
      ensures forall q: nat, m: nat, x: nat :: Live(before, q, m) && InPayload(q, m, x) ==> !InPayload(p, n, x)
    {
      forall q: nat, m: nat, x: nat | Live(before, q, m) && InPayload(q, m, x) ensures !InPayload(p, n, x) {
        assert !Live(before, p, m);
        assert Live(blocks, q, m) && Live(blocks, p, n);
        LiveApart(blocks, p, n, q, m);
      }
    }

    /** An allocation in the list, from its pointer. */
    lemma LiveHeader(ptr: nat) returns (i: nat)
      requires Valid() && !Dead(blocks, ptr)
      ensures i < |blocks| && ptr == blocks[i].addr + 32 && ptr >= 4128 && ptr - 32 in headers
      ensures headers[ptr - 32].size == blocks[i].size && Live(blocks, ptr, blocks[i].size)
      ensures forall m: nat :: Live(blocks, ptr, m) ==> m == blocks[i].size
    {
      var n: nat :| Live(blocks, ptr, n);
      i :| 0 <= i < |blocks| && blocks[i] == Block(ptr - 32, n, false);
      assert At(headers, blocks, i) && Shaped(blocks[i]);
      forall m: nat | Live(blocks, ptr, m) ensures m == n { LiveApart(blocks, ptr, n, ptr, m); }
    }

    /** The copy and the free at the end of krealloc. */
    method Relocate(ptr: nat, dst: nat, count: nat, ghost before: seq<Block>, ghost n: nat)
      requires Valid() && AddsOnly(before, blocks, dst, n) && Dead(before, dst) && !Dead(before, ptr)
      requires count <= n && forall m: nat :: Live(before, ptr, m) ==> count <= m
      modifies this
      ensures Valid() && Moves(before, blocks, ptr, dst, n) && KeepsOthers(before, old(memory), ptr)
      ensures forall x: nat :: InPayload(ptr, count, x) ==> memory(dst + (x - ptr)) == old(memory)(x)
    {
      hide Valid, Live;
      ApartFrom(before, dst, n);
      var was := memory;
      memory := (x: nat) => if dst <= x < dst + count then was(ptr + (x - dst)) else was(x);
      ghost var m: nat :| Live(before, ptr, m);
      assert Live(blocks, ptr, m);
      ghost var i := LiveHeader(ptr);
      Kfree(ptr);
    }

    /** krealloc: the contents move with the allocation and nothing else moves. */
    method Krealloc(ptr: nat, newSize: nat, grant: nat) returns (r: nat, ghost n: nat)
      requires Valid() && newSize < WORD && Grantable(grant, PagesFor(Align(newSize)), runs)
      requires ptr != 0 ==> !Dead(blocks, ptr)
      modifies this
      ensures r != 0 ==> (r + newSize <= WORD <==> newSize <= MAX_REQUEST)
      ensures ptr == 0 && newSize != 0 ==> (r == 0 <==> NoFit(old(blocks), Align(newSize)) && grant == 0)
      ensures ptr != 0 && newSize != 0 ==>
                forall m: nat :: Live(old(blocks), ptr, m) ==>
                  if Align(newSize) <= m then r == ptr
                  else r == 0 <==> NoFit(old(blocks), Align(newSize)) && grant == 0
      ensures newSize <= MAX_REQUEST ==> Valid()
      ensures newSize == 0 ==> r == 0 && DropsOnly(old(blocks), blocks, ptr)
      ensures 0 < newSize <= MAX_REQUEST && r == 0 ==> blocks == old(blocks) && memory == old(memory)
      ensures newSize <= MAX_REQUEST && r != 0 ==> n >= newSize && Moves(old(blocks), blocks, ptr, r, n)
      ensures newSize <= MAX_REQUEST && r != 0 ==>
                forall m: nat, x: nat :: Live(old(blocks), ptr, m) && InPayload(ptr, m, x) && x < ptr + newSize ==>
                  memory(r + (x - ptr)) == old(memory)(x)
      ensures newSize <= MAX_REQUEST ==> KeepsOthers(old(blocks), old(memory), ptr)
    {
      hide Valid, Grantable, Align, PagesFor, Live;
      n := 0;
      ghost var bs := blocks;
      if ptr == 0 {
        NullNotLive(bs);
        r, n := Kmalloc(newSize, grant);
        return;
      }
      ghost var i := LiveHeader(ptr);
      if newSize == 0 {
        Kfree(ptr);
        return 0, 0;
      }
      var oldSize := headers[ptr - 32].size;
      if Align(newSize) <= oldSize {
        InAddressSpaceNow(ptr, oldSize);
        return ptr, oldSize;
      }
      r, n := Kmalloc(newSize, grant);
      if r == 0 {
        return;
      }
      if newSize > MAX_REQUEST {
        // The request wrapped; the list is no longer promised and what follows is not modelled.
        return;
      }
      Relocate(ptr, r, if oldSize < newSize then oldSize else newSize, bs, n);
    }

    lemma InAddressSpaceNow(p: nat, n: nat)
      requires Valid() && Live(blocks, p, n)
      ensures p + n <= WORD
    {
    }
  }

  /** A fresh heap of one block asked for all but one byte of the address space: the aligned size is 0, the block of
      20448 bytes is handed out, and the range that was asked for ends beyond the address space. */
  method WrappedRequestServed(grant: nat) returns (ptr: nat)
    requires grant != 0 && Grantable(grant, PagesFor(16384), [])
    ensures ptr == grant + 32 && ptr + (WORD - 1) > WORD
  {
    hide PagesFor;
    var heap := new Kheap(grant);
    assert Align(WORD - 1) == 0;
    NoGrant(PagesFor(0), heap.runs);
    ghost var n;
    ptr, n := heap.Kmalloc(WORD - 1, 0);
  }

  lemma NoGrant(pages: nat, runs: seq<Run>)
    ensures Grantable(0, pages, runs)
  {
  }
}
