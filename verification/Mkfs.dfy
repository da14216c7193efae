/** mkfs_kifs.c: the layout of a new file system, its bitmaps, inodes and directories. */
module Mkfs {
  import opened Base
  import Bm = Bitmap
  import opened KifsBitmap
  import opened KifsModel
  import opened KifsCopy
  import D = DirRecords
  import B = DirBlock

  /** The superblock fields that place things. */
  datatype Super = Super(total: nat, usable: nat, journalStart: nat, journalBlocks: nat, bbStart: nat, bbBlocks: nat,
                         ibStart: nat, ibBlocks: nat, itStart: nat, itBlocks: nat, dataStart: nat, dataBlocks: nat,
                         inodeCount: nat, rootIno: nat)

  /** sb_layout_sane. */
  predicate LayoutSane(sb: Super, devBlocks: nat) {
    0 < sb.total <= devBlocks && sb.usable <= sb.total && sb.journalStart == sb.usable
    && sb.journalStart + sb.journalBlocks == sb.total
    && sb.bbStart >= 2 && sb.bbStart + sb.bbBlocks <= sb.usable
    && sb.ibStart >= sb.bbStart + sb.bbBlocks && sb.ibStart + sb.ibBlocks <= sb.usable
    && sb.itStart >= sb.ibStart + sb.ibBlocks && sb.itStart + sb.itBlocks <= sb.usable
    && sb.dataStart >= sb.itStart + sb.itBlocks && sb.dataStart + sb.dataBlocks == sb.usable
    && (sb.inodeCount + 15) / 16 == sb.itBlocks && sb.rootIno == 1 && sb.inodeCount > 1
  }

  function BitmapBlocks(n: nat): (b: nat)
    ensures n <= b * 32608 < n + 32608
  {
    (n + 32607) / 32608
  }

  /** The fields for one inode count. */
  function LayoutFor(total: nat, inodeCount: nat): (sb: Super) {
    var usable := total - total / 100;
    var bb, ib, it := BitmapBlocks(usable), BitmapBlocks(inodeCount), (inodeCount + 15) / 16;
    var start := 2 + bb + ib + it;
    Super(total, usable, usable, total / 100, 2, bb, 2 + bb, ib, 2 + bb + ib, it, start,
          if usable >= start then usable - start else 0, inodeCount, 1)
  }

  predicate LayoutFits(sb: Super, needed: nat) { sb.dataStart + needed <= sb.usable }

  /** Few inodes always fit. */
  lemma SmallFits(total: nat, n: nat, needed: nat)
    requires total >= 64 && n <= 16 && needed <= 6
    ensures LayoutFits(LayoutFor(total, n), needed)
  {
  }

  lemma FittingIsSane(total: nat, n: nat, needed: nat)
    requires total > 0 && n > 1 && LayoutFits(LayoutFor(total, n), needed)
    ensures LayoutSane(LayoutFor(total, n), total)
  {
  }

  function Within(start: nat, n: nat, b: nat): (k: nat) { if start <= b < start + n then 1 else 0 }

  /** Superblocks, bitmaps, inode table, data and journal: each block of the partition belongs to exactly one. */
  lemma OneRegion(total: nat, n: nat, needed: nat, b: nat)
    requires LayoutFits(LayoutFor(total, n), needed) && b < total
    ensures var sb := LayoutFor(total, n);
            Within(0, 2, b) + Within(sb.bbStart, sb.bbBlocks, b) + Within(sb.ibStart, sb.ibBlocks, b)
            + Within(sb.itStart, sb.itBlocks, b) + Within(sb.dataStart, sb.dataBlocks, b)
            + Within(sb.journalStart, sb.journalBlocks, b) == 1
    ensures var sb := LayoutFor(total, n); sb.journalBlocks * 100 <= total < sb.journalBlocks * 100 + 100
  {
  }

  /** The inode count asked for: 1024 when none is given, and never fewer than 16. */
  function Wanted(inodes: nat): (n: nat) { if inodes == 0 then 1024 else if inodes < 16 then 16 else inodes }

  function Halved(n: nat, k: nat): (r: nat) { if k == 0 then n else Halved(n, k - 1) / 2 }

  /** The count is the wanted one halved as often as it takes to fit, and no more often. */
  ghost predicate MostInodes(total: nat, inodes: nat, needed: nat, count: nat) {
    exists k: nat :: count == Halved(Wanted(inodes), k)
                     && forall j: nat :: j < k ==> !LayoutFits(LayoutFor(total, Halved(Wanted(inodes), j)), needed)
  }

  /** The retry loop of mkfs_partition: it ends, it succeeds for every partition of 64 blocks or more, and it gives up
      no more inodes than it must. */
  method ChooseLayout(total: nat, inodes: nat, needed: nat) returns (ok: bool, sb: Super)
    requires total + 32607 < 0x1_0000_0000 && inodes + 32607 < 0x1_0000_0000 && 1 <= needed <= 6
    ensures ok <==> total >= 64
    ensures ok ==> MostInodes(total, inodes, needed, sb.inodeCount)
    ensures ok ==> sb == LayoutFor(total, sb.inodeCount) && LayoutSane(sb, total) && LayoutFits(sb, needed)
    ensures ok ==> 8 <= sb.inodeCount && (sb.inodeCount <= inodes || sb.inodeCount <= 1024)
  {
    var count := inodes;
    sb := LayoutFor(total, count);
    if total < 64 {
      return false, sb;
    }
    if count == 0 {
      count := 1024;
    }
    if count < 16 {
      count := 16;
    }
    sb := LayoutFor(total, count);
    ghost var k := 0;
    while !LayoutFits(sb, needed)
      invariant 8 <= count && (count <= inodes || count <= 1024) && sb == LayoutFor(total, count)
      invariant count == Halved(Wanted(inodes), k)
      invariant forall j: nat :: j < k ==> !LayoutFits(LayoutFor(total, Halved(Wanted(inodes), j)), needed)
      decreases count
    {
      if count <= 16 {
        SmallFits(total, count, needed);
        return false, sb;
      }
      count, k := count / 2, k + 1;
      sb := LayoutFor(total, count);
    }
    FittingIsSane(total, count, needed);
    return true, sb;
  }

  // ---------- bitmaps ----------

  /** Exactly the first n bits are set. */
  ghost predicate Prefix(bits: seq<bool>, n: nat) { forall b: nat :: b < |bits| ==> (bits[b] <==> b < n) }

  /** A bitmap block buffer with nothing marked; its header bytes hold no bits. */
  method EmptyBitmap(blocks: nat) returns (bm: BitmapMem)
    ensures fresh(bm) && fresh(bm.mem) && bm.Valid() && bm.blocks == blocks && Prefix(bm.View(), 0)
  {
    var zero: bv8 := 0;
    var bytes := seq(blocks * 4096, i => zero);
    bm := new BitmapMem(blocks, bytes);
    ZeroBits(bytes, blocks);
  }

  lemma ZeroBits(bytes: seq<bv8>, blocks: nat)
    requires |bytes| == blocks * 4096 && forall i :: 0 <= i < |bytes| ==> bytes[i] == 0
    ensures Prefix(Bits(bytes, blocks), 0)
  {
  }

  /** Marks that continue a prefix. */
  method MarkRun(bm: BitmapMem, start: nat, n: nat)
    requires bm.Valid() && Prefix(bm.View(), start) && start + n <= bm.blocks * 32608
    modifies bm.mem
    ensures Prefix(bm.View(), start + n)
  {
    hide Bits;
    for i := 0 to n
      invariant Prefix(bm.View(), start + i)
    {
      bm.Set(start + i);
    }
  }

  // ---------- inodes ----------

  /** What mkfs puts into the inode table: the root, the orphan file and the base directories. */
  function InodeFor(dataStart: nat, base: nat, i: nat): (f: Inode) {
    if i == 1 then Inode(false, 4096, [Extent(0, dataStart, 1)])
    else if i == 2 then Inode(true, 0, [])
    else if 3 <= i < 3 + base then Inode(false, 4096, [Extent(0, dataStart + 1 + (i - 3), 1)])
    else Inode(false, 0, [])
  }

  ghost predicate FreshFs(fs: Fs, lay: Layout, base: nat) {
    base <= 5 && lay.inodeCount >= 8 && |fs.inodes| == lay.inodeCount <= |fs.inoUsed|
    && (forall i: nat :: i < lay.inodeCount ==> fs.inodes[i] == InodeFor(lay.dataStart, base, i))
    && Prefix(fs.used, lay.dataStart + 1 + base) && Prefix(fs.inoUsed, 3 + base)
    && DataEnd(lay) <= |fs.used| && 1 + base <= lay.dataBlocks
    && DataEnd(lay) <= |fs.disk| && forall b: nat :: b < |fs.disk| ==> |fs.disk[b]| == 4096
  }

  /** The blocks of each inode: one for a directory, none else. */
  lemma FreshOwns(fs: Fs, lay: Layout, base: nat, i: nat)
    requires FreshFs(fs, lay, base) && InUse(fs, i)
    ensures i < 3 + base && InOrder(fs.inodes[i].extents) && |fs.inodes[i].extents| <= MAX_EXTENTS
    ensures OwnBlocks(fs, i) == if i == 1 then [lay.dataStart] else if i >= 3 then [lay.dataStart + 1 + (i - 3)] else []
    ensures fs.inodes[i].size <= |OwnBlocks(fs, i)| * 4096
  {
  }

  lemma FreshBitmap(fs: Fs, lay: Layout, base: nat, b: nat)
    requires FreshFs(fs, lay, base) && b < |fs.used|
    ensures fs.used[b] <==> b < lay.dataStart || Owned(fs, b)
  {
    hide Expand;
    if lay.dataStart <= b < lay.dataStart + 1 + base {
      var i := if b == lay.dataStart then 1 else b - lay.dataStart + 2;
      assert InUse(fs, i);
      FreshOwns(fs, lay, base, i);
      assert b in OwnBlocks(fs, i);
    }
    if Owned(fs, b) {
      var i: nat :| InUse(fs, i) && b in OwnBlocks(fs, i);
      FreshOwns(fs, lay, base, i);
    }
  }

  /** A new file system is consistent. */
  lemma FreshConsistent(fs: Fs, lay: Layout, base: nat)
    requires FreshFs(fs, lay, base)
    ensures Consistent(fs, lay)
  {
    hide Expand, InOrder;
    forall i: nat | InUse(fs, i)
      ensures NoDup(OwnBlocks(fs, i)) && fs.inodes[i].size <= |OwnBlocks(fs, i)| * 4096
      ensures |fs.inodes[i].extents| <= MAX_EXTENTS && InOrder(fs.inodes[i].extents)
      ensures forall k :: 0 <= k < |OwnBlocks(fs, i)| ==> InArea(fs, lay, OwnBlocks(fs, i)[k])
    {
      FreshOwns(fs, lay, base, i);
    }
    forall i: nat, j: nat, b: nat | InUse(fs, i) && InUse(fs, j) && i != j && b in OwnBlocks(fs, i)
      ensures b !in OwnBlocks(fs, j) {
      FreshOwns(fs, lay, base, i);
      FreshOwns(fs, lay, base, j);
    }
    forall b: nat | b < |fs.used| ensures fs.used[b] <==> b < lay.dataStart || Owned(fs, b) {
      FreshBitmap(fs, lay, base, b);
    }
  }
}
