/** The kernel heap on values: the block list in list order, the pages it was granted, and what carving, joining and
    growing keep. */
module HeapModel {
  import opened Base

  const HEADER := 32
  const MIN_ALLOC := 16

  datatype Block = Block(addr: nat, size: nat, free: bool)

  datatype Run = Run(base: nat, bytes: nat)

  function End(b: Block): (e: nat) { b.addr + 32 + b.size }

  predicate Has(b: Block, x: nat) { b.addr <= x < End(b) }

  ghost predicate Covered(bs: seq<Block>, x: nat) { exists i :: 0 <= i < |bs| && Has(bs[i], x) }

  ghost predicate Granted(runs: seq<Run>, x: nat) {
    exists i :: 0 <= i < |runs| && runs[i].base <= x < runs[i].base + runs[i].bytes
  }

  predicate Shaped(b: Block) {
    b.addr >= 4096 && b.addr % 16 == 0 && b.size % 16 == 0 && b.size >= MIN_ALLOC && End(b) <= WORD
  }

  predicate Apart(a: Block, b: Block) { End(a) <= b.addr || End(b) <= a.addr }

  ghost predicate AllShaped(bs: seq<Block>) { forall i :: 0 <= i < |bs| ==> Shaped(bs[i]) }

  ghost predicate Disjoint(bs: seq<Block>) { forall i, j :: 0 <= i < j < |bs| ==> Apart(bs[i], bs[j]) }

  /** The blocks, headers included, are exactly the granted bytes. */
  ghost predicate Tiles(bs: seq<Block>, runs: seq<Run>) { forall x: nat :: Covered(bs, x) <==> Granted(runs, x) }

  predicate Touching(a: Block, b: Block) { End(a) == b.addr && a.free && b.free }

  /** No two list neighbours are free and touch, but for a pair at `skip`. */
  ghost predicate CoalescedBut(bs: seq<Block>, skip: int) {
    forall i, j :: 0 <= i < j < |bs| && j == i + 1 && i != skip ==> !Touching(bs[i], bs[j])
  }

  ghost predicate Coalesced(bs: seq<Block>) { CoalescedBut(bs, -1) }

  /** The heap's structure. */
  ghost predicate Ok(bs: seq<Block>, runs: seq<Run>) {
    AllShaped(bs) && Disjoint(bs) && Tiles(bs, runs) && Coalesced(bs)
  }

  /** The allocations in force: payload address and size. */
  ghost predicate Live(bs: seq<Block>, p: nat, n: nat) { p >= HEADER && Block(p - HEADER, n, false) in bs }

  // ---------- sums ----------

  datatype Tally = Bytes | InUse | Calls

  function Weight(b: Block, t: Tally): (w: nat) {
    match t
    case Bytes => 32 + b.size
    case InUse => if b.free then 0 else b.size
    case Calls => if b.free then 0 else 1
  }

  function Sum(bs: seq<Block>, t: Tally): (s: nat) {
    if bs == [] then 0 else Weight(bs[0], t) + Sum(bs[1..], t)
  }

  lemma {:induction false} SumConcat(a: seq<Block>, b: seq<Block>, t: Tally)
    ensures Sum(a + b, t) == Sum(a, t) + Sum(b, t)
  {
    if a == [] {
      assert a + b == b;
    } else {
      assert (a + b)[0] == a[0] && (a + b)[1..] == a[1..] + b;
      SumConcat(a[1..], b, t);
    }
  }

  /** A sum in three parts. */
  lemma SumParts(a: seq<Block>, m: seq<Block>, c: seq<Block>, t: Tally)
    ensures Sum(a + m + c, t) == Sum(a, t) + Sum(m, t) + Sum(c, t)
  {
    SumConcat(a + m, c, t);
    SumConcat(a, m, t);
  }

  lemma SumTwo(x: Block, y: Block, t: Tally)
    ensures Sum([x], t) == Weight(x, t) && Sum([x, y], t) == Weight(x, t) + Weight(y, t)
  {
    assert [x][1..] == [] && [x, y][1..] == [y];
    assert Sum([y], t) == Weight(y, t);
  }

  // ---------- the operations ----------

  /** split_block: the rest becomes a free block when it can hold a header and the least allocation. */
  function Split(bs: seq<Block>, i: nat, size: nat): (r: seq<Block>)
    requires i < |bs|
  {
    var b := bs[i];
    if b.size >= size + HEADER + MIN_ALLOC then
      bs[..i] + [b.(size := size), Block(b.addr + HEADER + size, b.size - size - HEADER, true)] + bs[i + 1..]
    else bs
  }

  function Mark(bs: seq<Block>, i: nat, free: bool): (r: seq<Block>)
    requires i < |bs|
  {
    bs[i := bs[i].(free := free)]
  }

  /** A block and its touching successor made one. */
  function Join(bs: seq<Block>, i: nat): (r: seq<Block>)
    requires i + 1 < |bs|
  {
    bs[..i] + [bs[i].(size := bs[i].size + HEADER + bs[i + 1].size)] + bs[i + 2..]
  }

  /** kmalloc from block i. */
  function Take(bs: seq<Block>, i: nat, size: nat): (r: seq<Block>)
    requires i < |bs|
  {
    Mark(Split(bs, i, size), i, false)
  }

  function Grow(bs: seq<Block>, base: nat, bytes: nat): (r: seq<Block>)
    requires bytes >= HEADER
  {
    bs + [Block(base, bytes - HEADER, true)]
  }

  function MergeNext(bs: seq<Block>, i: nat): (r: seq<Block>)
    requires i < |bs|
  {
    if i + 1 < |bs| && End(bs[i]) == bs[i + 1].addr && bs[i + 1].free then Join(bs, i) else bs
  }

  function MergePrev(bs: seq<Block>, i: nat): (r: seq<Block>)
    requires i < |bs|
  {
    if i > 0 && End(bs[i - 1]) == bs[i].addr && bs[i - 1].free then Join(bs, i - 1) else bs
  }

  /** kfree of block i. */
  function Release(bs: seq<Block>, i: nat): (r: seq<Block>)
    requires i < |bs|
  {
    MergePrev(MergeNext(Mark(bs, i, true), i), i)
  }

  // ---------- what they keep ----------

  /** The fine list is the coarse one with block i cut in two. */
  ghost predicate Cut(coarse: seq<Block>, fine: seq<Block>, i: nat) {
    i < |coarse| && |fine| == |coarse| + 1
    && fine[i].addr == coarse[i].addr && End(fine[i]) == fine[i + 1].addr && End(fine[i + 1]) == End(coarse[i])
    && (forall j :: 0 <= j < i ==> fine[j] == coarse[j])
    && (forall j :: i < j < |coarse| ==> coarse[j] == fine[j + 1])
  }

  lemma CutCovers(coarse: seq<Block>, fine: seq<Block>, i: nat, x: nat)
    requires Cut(coarse, fine, i)
    ensures Covered(fine, x) <==> Covered(coarse, x)
  {
    if Covered(fine, x) {
      var j :| 0 <= j < |fine| && Has(fine[j], x);
      var k := if j <= i then j else j - 1;
      assert k > i ==> coarse[k] == fine[k + 1];
      assert Has(coarse[k], x);
    }
    if Covered(coarse, x) {
      var j :| 0 <= j < |coarse| && Has(coarse[j], x);
      assert Has(fine[if j < i then j else if j > i then j + 1 else if Has(fine[i], x) then i else i + 1], x);
    }
  }

  /** Where a fine block lies in the coarse list. */
  function Coarser(i: nat, j: nat): nat { if j <= i then j else j - 1 }

  lemma Inside(coarse: seq<Block>, fine: seq<Block>, i: nat, j: nat)
    requires Cut(coarse, fine, i) && j < |fine|
    ensures coarse[Coarser(i, j)].addr <= fine[j].addr && End(fine[j]) <= End(coarse[Coarser(i, j)])
  {
    assert j > i + 1 ==> coarse[j - 1] == fine[j - 1 + 1];
  }

  lemma CutDisjoint(coarse: seq<Block>, fine: seq<Block>, i: nat)
    requires Cut(coarse, fine, i) && Disjoint(coarse)
    ensures Disjoint(fine)
  {
    hide Cut;
    forall j, k | 0 <= j < k < |fine| ensures Apart(fine[j], fine[k]) {
      CutPair(coarse, fine, i);
      Inside(coarse, fine, i, j);
      Inside(coarse, fine, i, k);
      if Coarser(i, j) != Coarser(i, k) {
        assert Apart(coarse[Coarser(i, j)], coarse[Coarser(i, k)]);
      }
    }
  }

  lemma CutPair(coarse: seq<Block>, fine: seq<Block>, i: nat)
    requires Cut(coarse, fine, i)
    ensures |fine| == |coarse| + 1 && i < |coarse| && End(fine[i]) == fine[i + 1].addr
  {
  }

  lemma FuseDisjoint(coarse: seq<Block>, fine: seq<Block>, i: nat)
    requires Cut(coarse, fine, i) && Disjoint(fine)
    ensures Disjoint(coarse)
  {
    forall j, k | 0 <= j < k < |coarse| ensures Apart(coarse[j], coarse[k]) {
      FuseApart(coarse, fine, i, j, k);
    }
  }

  lemma FuseApart(coarse: seq<Block>, fine: seq<Block>, i: nat, j: nat, k: nat)
    requires Cut(coarse, fine, i) && Disjoint(fine) && j < k < |coarse|
    ensures Apart(coarse[j], coarse[k])
  {
    if j < i {
      assert Apart(fine[j], fine[if k < i then k else k + 1]);
      if k == i { assert Apart(fine[j], fine[i]); }
    } else if j == i {
      assert Apart(fine[i], fine[k + 1]) && Apart(fine[i + 1], fine[k + 1]);
    } else {
      assert Apart(fine[j + 1], fine[k + 1]);
    }
  }

  lemma SplitCuts(bs: seq<Block>, i: nat, size: nat)
    requires i < |bs|
    ensures Split(bs, i, size) == bs || Cut(bs, Split(bs, i, size), i)
  {
  }

  lemma JoinFuses(bs: seq<Block>, i: nat)
    requires i + 1 < |bs| && End(bs[i]) == bs[i + 1].addr
    ensures Cut(Join(bs, i), bs, i)
  {
  }

  lemma SplitShaped(bs: seq<Block>, i: nat, size: nat)
    requires i < |bs| && AllShaped(bs) && size % 16 == 0 && size >= MIN_ALLOC
    ensures AllShaped(Split(bs, i, size))
  {
    var r := Split(bs, i, size);
    if r != bs {
      assert Shaped(bs[i]) && Shaped(r[i]) && Shaped(r[i + 1]);
      forall j | 0 <= j < |r| ensures Shaped(r[j]) { assert j > i + 1 ==> r[j] == bs[j - 1]; }
    }
  }

  lemma SplitKeeps(bs: seq<Block>, runs: seq<Run>, i: nat, size: nat)
    requires i < |bs| && AllShaped(bs) && Disjoint(bs) && Tiles(bs, runs)
    requires size % 16 == 0 && size >= MIN_ALLOC
    ensures AllShaped(Split(bs, i, size)) && Disjoint(Split(bs, i, size)) && Tiles(Split(bs, i, size), runs)
  {
    hide Granted, Disjoint, Covered, Cut, AllShaped;
    var r := Split(bs, i, size);
    SplitCuts(bs, i, size);
    if r != bs {
      CutDisjoint(bs, r, i);
      forall x: nat ensures Covered(r, x) <==> Covered(bs, x) { CutCovers(bs, r, i, x); }
    }
    SplitShaped(bs, i, size);
  }

  lemma MarkKeeps(bs: seq<Block>, runs: seq<Run>, i: nat, free: bool)
    requires i < |bs| && AllShaped(bs) && Disjoint(bs) && Tiles(bs, runs)
    ensures AllShaped(Mark(bs, i, free)) && Disjoint(Mark(bs, i, free)) && Tiles(Mark(bs, i, free), runs)
  {
    hide Granted;
    var r := Mark(bs, i, free);
    forall x: nat ensures Covered(r, x) <==> Covered(bs, x) {
      if Covered(r, x) { var j :| 0 <= j < |r| && Has(r[j], x); assert Has(bs[j], x); }
      if Covered(bs, x) { var j :| 0 <= j < |bs| && Has(bs[j], x); assert Has(r[j], x); }
    }
  }

  lemma JoinShaped(bs: seq<Block>, i: nat)
    requires i + 1 < |bs| && AllShaped(bs) && End(bs[i]) == bs[i + 1].addr
    ensures AllShaped(Join(bs, i))
  {
    var r := Join(bs, i);
    assert Shaped(bs[i]) && Shaped(bs[i + 1]) && Shaped(r[i]);
    forall j | 0 <= j < |r| ensures Shaped(r[j]) { assert j > i ==> r[j] == bs[j + 1]; }
  }

  lemma JoinKeeps(bs: seq<Block>, runs: seq<Run>, i: nat)
    requires i + 1 < |bs| && AllShaped(bs) && Disjoint(bs) && Tiles(bs, runs) && End(bs[i]) == bs[i + 1].addr
    ensures AllShaped(Join(bs, i)) && Disjoint(Join(bs, i)) && Tiles(Join(bs, i), runs)
  {
    hide Granted, Disjoint, Covered, Cut, AllShaped;
    var r := Join(bs, i);
    JoinFuses(bs, i);
    FuseDisjoint(r, bs, i);
    forall x: nat ensures Covered(r, x) <==> Covered(bs, x) { CutCovers(r, bs, i, x); }
    JoinShaped(bs, i);
  }

  /** Taking a free block leaves no two touching free neighbours, even if it touched the one before it. */
  lemma TakeCoalesced(bs: seq<Block>, i: nat, size: nat)
    requires i < |bs| && CoalescedBut(bs, i - 1) && bs[i].free
    ensures Coalesced(Take(bs, i, size))
  {
    var r := Take(bs, i, size);
    forall j, k | 0 <= j < k < |r| && k == j + 1 ensures !Touching(r[j], r[k]) {
      if r != Mark(bs, i, false) && j > i {
        assert r[k] == bs[k - 1] && (j > i + 1 ==> r[j] == bs[j - 1]);
        assert j == i + 1 ==> End(r[j]) == End(bs[i]);
      }
    }
  }

  lemma TakeKeeps(bs: seq<Block>, runs: seq<Run>, i: nat, size: nat)
    requires i < |bs| && AllShaped(bs) && Disjoint(bs) && Tiles(bs, runs) && CoalescedBut(bs, i - 1)
    requires bs[i].free && size % 16 == 0 && size >= MIN_ALLOC
    ensures Ok(Take(bs, i, size), runs)
  {
    SplitKeeps(bs, runs, i, size);
    MarkKeeps(Split(bs, i, size), runs, i, false);
    TakeCoalesced(bs, i, size);
  }

  /** A grant that meets no earlier one keeps everything but coalescing at the seam. */
  lemma GrowKeeps(bs: seq<Block>, runs: seq<Run>, base: nat, bytes: nat)
    requires Ok(bs, runs) && base >= 4096 && base % 16 == 0 && bytes % 16 == 0 && bytes >= 48 && base + bytes <= WORD
    requires forall x: nat :: base <= x < base + bytes ==> !Granted(runs, x)
    ensures AllShaped(Grow(bs, base, bytes)) && Disjoint(Grow(bs, base, bytes))
    ensures Tiles(Grow(bs, base, bytes), runs + [Run(base, bytes)])
    ensures CoalescedBut(Grow(bs, base, bytes), |bs| - 1)
  {
    var r, rs := Grow(bs, base, bytes), runs + [Run(base, bytes)];
    forall j | 0 <= j < |bs| ensures Apart(r[j], r[|bs|]) {
      var b := bs[j];
      if !Apart(b, r[|bs|]) {
        var x := if b.addr < base then base else b.addr;
        assert Has(b, x) && Covered(bs, x);
      }
    }
    forall x: nat ensures Covered(r, x) <==> Granted(rs, x) {
      if Covered(r, x) {
        var j :| 0 <= j < |r| && Has(r[j], x);
        if j < |bs| {
          assert Covered(bs, x);
          var k :| 0 <= k < |runs| && runs[k].base <= x < runs[k].base + runs[k].bytes;
          assert rs[k] == runs[k];
        } else {
          assert rs[|runs|] == Run(base, bytes);
        }
      }
      if Granted(rs, x) {
        var k :| 0 <= k < |rs| && rs[k].base <= x < rs[k].base + rs[k].bytes;
        if k < |runs| {
          assert Granted(runs, x) && Covered(bs, x);
          var j :| 0 <= j < |bs| && Has(bs[j], x);
          assert Has(r[j], x);
        } else {
          assert Has(r[|bs|], x);
        }
      }
    }
  }

  lemma MergeNextKeeps(bs: seq<Block>, runs: seq<Run>, i: nat)
    requires i < |bs| && AllShaped(bs) && Disjoint(bs) && Tiles(bs, runs) && bs[i].free
    requires forall j, k :: 0 <= j < k < |bs| && k == j + 1 && j != i && j != i - 1 ==> !Touching(bs[j], bs[k])
    ensures AllShaped(MergeNext(bs, i)) && Disjoint(MergeNext(bs, i)) && Tiles(MergeNext(bs, i), runs)
    ensures i < |MergeNext(bs, i)| && MergeNext(bs, i)[i].free && CoalescedBut(MergeNext(bs, i), i - 1)
  {
    var r := MergeNext(bs, i);
    if r != bs {
      JoinKeeps(bs, runs, i);
      forall j, k | 0 <= j < k < |r| && k == j + 1 && j != i - 1 ensures !Touching(r[j], r[k]) {
        assert k > i ==> r[k] == bs[k + 1];
        assert j > i ==> r[j] == bs[j + 1];
        assert j == i ==> End(r[j]) == End(bs[i + 1]);
      }
    }
  }

  lemma MergePrevKeeps(bs: seq<Block>, runs: seq<Run>, i: nat)
    requires i < |bs| && AllShaped(bs) && Disjoint(bs) && Tiles(bs, runs) && bs[i].free && CoalescedBut(bs, i - 1)
    ensures Ok(MergePrev(bs, i), runs)
  {
    var r := MergePrev(bs, i);
    if r != bs {
      JoinKeeps(bs, runs, i - 1);
      forall j, k | 0 <= j < k < |r| && k == j + 1 ensures !Touching(r[j], r[k]) {
        assert k > i - 1 ==> r[k] == bs[k + 1];
        assert j > i - 1 ==> r[j] == bs[j + 1];
        assert j == i - 1 ==> End(r[j]) == End(bs[i]);
      }
    }
  }

  /** Freeing keeps the structure and coalesces fully. */
  lemma ReleaseKeeps(bs: seq<Block>, runs: seq<Run>, i: nat)
    requires i < |bs| && Ok(bs, runs)
    ensures Ok(Release(bs, i), runs)
  {
    hide Tiles, Disjoint, AllShaped;
    MarkKeeps(bs, runs, i, true);
    MergeNextKeeps(Mark(bs, i, true), runs, i);
    MergePrevKeeps(MergeNext(Mark(bs, i, true), i), runs, i);
  }

  // ---------- the allocations ----------

  /** Cutting a free block changes no allocation. */
  lemma SplitLive(bs: seq<Block>, i: nat, size: nat, p: nat, n: nat)
    requires i < |bs| && bs[i].free
    ensures Live(Split(bs, i, size), p, n) <==> Live(bs, p, n)
  {
    var r := Split(bs, i, size);
    if r != bs && Live(r, p, n) {
      var j :| 0 <= j < |r| && r[j] == Block(p - HEADER, n, false);
      assert j < i ==> bs[j] == r[j];
      assert j > i + 1 ==> bs[j - 1] == r[j];
    }
    if r != bs && Live(bs, p, n) {
      var j :| 0 <= j < |bs| && bs[j] == Block(p - HEADER, n, false);
      assert r[if j < i then j else j + 1] == bs[j];
    }
  }

  lemma MarkLive(bs: seq<Block>, i: nat, p: nat, n: nat)
    requires i < |bs| && bs[i].free
    ensures Live(Mark(bs, i, false), p, n) <==> Live(bs, p, n) || (p == bs[i].addr + HEADER && n == bs[i].size)
  {
    var r := Mark(bs, i, false);
    if Live(r, p, n) {
      var j :| 0 <= j < |r| && r[j] == Block(p - HEADER, n, false);
      assert j != i ==> bs[j] == r[j];
    }
    if Live(bs, p, n) {
      var j :| 0 <= j < |bs| && bs[j] == Block(p - HEADER, n, false);
      assert r[j] == bs[j];
    }
    if p == bs[i].addr + HEADER && n == bs[i].size { assert r[i] == Block(p - HEADER, n, false); }
  }

  /** An allocation of n bytes wastes less than a header and the least allocation, and is the whole of the block it
      came from unless it is just what was asked. */
  predicate Snug(n: nat, size: nat, whole: nat) { size <= n < size + HEADER + MIN_ALLOC && (n == size || n == whole) }

  /** Taking adds exactly one allocation, and a snug one. */
  lemma TakeLive(bs: seq<Block>, i: nat, size: nat)
    requires i < |bs| && bs[i].free && bs[i].size >= size
    ensures Take(bs, i, size)[i].addr == bs[i].addr && Snug(Take(bs, i, size)[i].size, size, bs[i].size)
    ensures forall p: nat, n: nat :: Live(Take(bs, i, size), p, n) <==>
              Live(bs, p, n) || (p == bs[i].addr + HEADER && n == Take(bs, i, size)[i].size)
  {
    hide Live;
    var m := Split(bs, i, size);
    forall p: nat, n: nat
      ensures Live(Take(bs, i, size), p, n) <==> Live(bs, p, n) || (p == bs[i].addr + HEADER && n == m[i].size)
    {
      SplitLive(bs, i, size, p, n);
      MarkLive(m, i, p, n);
    }
  }

  /** Merging free blocks changes no allocation. */
  lemma JoinLive(bs: seq<Block>, i: nat)
    requires i + 1 < |bs| && bs[i].free && bs[i + 1].free
    ensures forall p: nat, n: nat :: Live(Join(bs, i), p, n) <==> Live(bs, p, n)
  {
    var r := Join(bs, i);
    forall p: nat, n: nat ensures Live(r, p, n) <==> Live(bs, p, n) {
      if Live(r, p, n) {
        var j :| 0 <= j < |r| && r[j] == Block(p - HEADER, n, false);
        assert bs[if j < i then j else j + 1] == r[j];
      }
      if Live(bs, p, n) {
        var j :| 0 <= j < |bs| && bs[j] == Block(p - HEADER, n, false);
        assert r[if j < i then j else j - 1] == bs[j];
      }
    }
  }

  /** Freeing removes exactly one allocation. */
  lemma ReleaseLive(bs: seq<Block>, i: nat)
    requires i < |bs| && Disjoint(bs)
    ensures forall p: nat, n: nat :: Live(Release(bs, i), p, n) <==>
              Live(bs, p, n) && p != bs[i].addr + HEADER
  {
    var m := Mark(bs, i, true);
    forall p: nat, n: nat ensures Live(m, p, n) <==> Live(bs, p, n) && p != bs[i].addr + HEADER {
      if Live(m, p, n) {
        var j :| 0 <= j < |m| && m[j] == Block(p - HEADER, n, false);
        assert bs[j] == m[j] && Apart(bs[if j < i then j else i], bs[if j < i then i else j]);
      }
      if Live(bs, p, n) && p != bs[i].addr + HEADER {
        var j :| 0 <= j < |bs| && bs[j] == Block(p - HEADER, n, false);
        assert m[j] == bs[j];
      }
    }
    var q := MergeNext(m, i);
    if q != m { JoinLive(m, i); }
    if MergePrev(q, i) != q { JoinLive(q, i - 1); }
  }

  // ---------- the counters ----------

  /** A block apart from the rest of the sum. */
  lemma SumAt(bs: seq<Block>, i: nat, t: Tally)
    requires i < |bs|
    ensures Sum(bs, t) == Sum(bs[..i], t) + Weight(bs[i], t) + Sum(bs[i + 1..], t)
  {
    assert bs == bs[..i] + [bs[i]] + bs[i + 1..];
    SumParts(bs[..i], [bs[i]], bs[i + 1..], t);
    SumTwo(bs[i], bs[i], t);
  }

  lemma SplitSums(bs: seq<Block>, i: nat, size: nat, t: Tally)
    requires i < |bs| && bs[i].free
    ensures Sum(Split(bs, i, size), t) == Sum(bs, t)
  {
    var r := Split(bs, i, size);
    if r != bs {
      SumAt(bs, i, t);
      assert r == bs[..i] + [r[i], r[i + 1]] + bs[i + 1..];
      SumParts(bs[..i], [r[i], r[i + 1]], bs[i + 1..], t);
      SumTwo(r[i], r[i + 1], t);
    }
  }

  lemma MarkSums(bs: seq<Block>, i: nat, free: bool, t: Tally)
    requires i < |bs|
    ensures Sum(Mark(bs, i, free), t) == Sum(bs, t) - Weight(bs[i], t) + Weight(bs[i].(free := free), t)
  {
    var m := Mark(bs, i, free);
    assert m[..i] == bs[..i] && m[i + 1..] == bs[i + 1..];
    SumAt(bs, i, t);
    SumAt(m, i, t);
  }

  lemma TakeSums(bs: seq<Block>, i: nat, size: nat)
    requires i < |bs| && bs[i].free
    ensures Sum(Take(bs, i, size), Bytes) == Sum(bs, Bytes)
    ensures Sum(Take(bs, i, size), InUse) == Sum(bs, InUse) + Take(bs, i, size)[i].size
    ensures Sum(Take(bs, i, size), Calls) == Sum(bs, Calls) + 1
  {
    hide Sum;
    var m := Split(bs, i, size);
    SplitSums(bs, i, size, Bytes);
    SplitSums(bs, i, size, InUse);
    SplitSums(bs, i, size, Calls);
    MarkSums(m, i, false, Bytes);
    MarkSums(m, i, false, InUse);
    MarkSums(m, i, false, Calls);
  }

  lemma JoinSums(bs: seq<Block>, i: nat, t: Tally)
    requires i + 1 < |bs| && bs[i].free && bs[i + 1].free
    ensures Sum(Join(bs, i), t) == Sum(bs, t)
  {
    var r := Join(bs, i);
    assert bs == bs[..i] + [bs[i], bs[i + 1]] + bs[i + 2..];
    SumParts(bs[..i], [bs[i], bs[i + 1]], bs[i + 2..], t);
    SumParts(bs[..i], [r[i]], bs[i + 2..], t);
    SumTwo(bs[i], bs[i + 1], t);
    SumTwo(r[i], r[i], t);
  }

  lemma ReleaseSums(bs: seq<Block>, i: nat)
    requires i < |bs| && !bs[i].free
    ensures Sum(Release(bs, i), Bytes) == Sum(bs, Bytes)
    ensures Sum(Release(bs, i), InUse) == Sum(bs, InUse) - bs[i].size
    ensures Sum(Release(bs, i), Calls) == Sum(bs, Calls) - 1
  {
    var m := Mark(bs, i, true);
    MarkSums(bs, i, true, Bytes);
    MarkSums(bs, i, true, InUse);
    MarkSums(bs, i, true, Calls);
    var q := MergeNext(m, i);
    forall t: Tally ensures Sum(q, t) == Sum(m, t) { if q != m { JoinSums(m, i, t); } }
    forall t: Tally ensures Sum(MergePrev(q, i), t) == Sum(q, t) {
      if MergePrev(q, i) != q { JoinSums(q, i - 1, t); }
    }
  }

  lemma GrowSums(bs: seq<Block>, base: nat, bytes: nat)
    requires bytes >= HEADER
    ensures Sum(Grow(bs, base, bytes), Bytes) == Sum(bs, Bytes) + bytes
    ensures Sum(Grow(bs, base, bytes), InUse) == Sum(bs, InUse) && Sum(Grow(bs, base, bytes), Calls) == Sum(bs, Calls)
  {
    var b := Block(base, bytes - HEADER, true);
    forall t: Tally ensures Sum(bs + [b], t) == Sum(bs, t) + Weight(b, t) {
      SumConcat(bs, [b], t);
      SumTwo(b, b, t);
    }
  }

  lemma GrowLive(bs: seq<Block>, base: nat, bytes: nat, p: nat, n: nat)
    requires bytes >= HEADER
    ensures Live(Grow(bs, base, bytes), p, n) <==> Live(bs, p, n)
  {
  }

  predicate InPayload(p: nat, n: nat, x: nat) { p <= x < p + n }

  /** The allocations are the old ones and one more. */
  ghost predicate AddsOnly(before: seq<Block>, after: seq<Block>, p: nat, n: nat) {
    forall q: nat, m: nat :: Live(after, q, m) <==> Live(before, q, m) || (q == p && m == n)
  }

  /** The allocations are the old ones but for one address. */
  ghost predicate DropsOnly(before: seq<Block>, after: seq<Block>, p: nat) {
    forall q: nat, m: nat :: Live(after, q, m) <==> Live(before, q, m) && q != p
  }

  /** One address is exchanged for another; nothing else changes. */
  ghost predicate Moves(before: seq<Block>, after: seq<Block>, p: nat, q: nat, n: nat) {
    forall a: nat, m: nat :: Live(after, a, m) <==> (Live(before, a, m) && a != p) || (a == q && m == n)
  }

  /** No allocation is in force at an address. */
  ghost predicate Dead(bs: seq<Block>, p: nat) { forall m: nat :: !Live(bs, p, m) }

  lemma Relax(bs: seq<Block>, i: int)
    requires Coalesced(bs)
    ensures CoalescedBut(bs, i)
  {
  }

  ghost predicate NoFit(bs: seq<Block>, size: nat) { forall i :: 0 <= i < |bs| && bs[i].free ==> bs[i].size < size }

  lemma FreeNotLive(bs: seq<Block>, i: nat)
    requires i < |bs| && Disjoint(bs) && bs[i].free
    ensures Dead(bs, bs[i].addr + HEADER)
  {
    forall m: nat, j | 0 <= j < |bs| ensures bs[j] != Block(bs[i].addr, m, false) {
      assert i < j ==> Apart(bs[i], bs[j]);
      assert j < i ==> Apart(bs[j], bs[i]);
    }
  }

  /** Two allocations never overlap: a header lies between them. */
  lemma LiveApart(bs: seq<Block>, p: nat, n: nat, q: nat, m: nat)
    requires Disjoint(bs) && Live(bs, p, n) && Live(bs, q, m)
    ensures (p == q && n == m) || p + n + HEADER <= q || q + m + HEADER <= p
  {
    var i :| 0 <= i < |bs| && bs[i] == Block(p - HEADER, n, false);
    var j :| 0 <= j < |bs| && bs[j] == Block(q - HEADER, m, false);
    if i != j { assert Apart(bs[if i < j then i else j], bs[if i < j then j else i]); }
  }

  lemma {:induction false} NoCalls(bs: seq<Block>, i: nat)
    requires Sum(bs, Calls) == 0 && i < |bs|
    ensures bs[i].free
  {
    if i > 0 { NoCalls(bs[1..], i - 1); }
  }

  /** Once every allocation is freed, no list neighbour continues another: fragmentation is gone. */
  lemma AllFreed(bs: seq<Block>, runs: seq<Run>, i: nat)
    requires Ok(bs, runs) && Sum(bs, Calls) == 0 && i + 1 < |bs|
    ensures bs[i].free && bs[i + 1].free && End(bs[i]) != bs[i + 1].addr
  {
    NoCalls(bs, i);
    NoCalls(bs, i + 1);
  }
}
