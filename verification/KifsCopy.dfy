/** kifs_cp.c: copying one file into an image. The metadata is edited in memory and written back at the end. */
module KifsCopy {
  import opened Base
  import opened KifsBitmap
  import opened KifsModel
  import D = DirRecords
  import B = DirBlock

  ghost predicate HasFreeInode(inoUsed: seq<bool>, count: nat) {
    exists i: nat :: 1 <= i < count && !UsedAt(inoUsed, i)
  }

  class Image {
    const lay: Layout
    const blockBitmap: BitmapMem
    const inodeBitmap: BitmapMem
    var inodes: seq<Inode>
    var disk: seq<Bytes>
    var diskUsed: seq<bv8>
    var diskInoUsed: seq<bv8>
    var diskInodes: seq<Inode>

    ghost predicate Valid()
      reads this
    {
      blockBitmap.Valid() && inodeBitmap.Valid() && blockBitmap.mem != inodeBitmap.mem
      && |diskUsed| == blockBitmap.blocks * 4096 && |diskInoUsed| == inodeBitmap.blocks * 4096
      && |inodes| == lay.inodeCount && |diskInodes| == lay.inodeCount
    }

    /** The image with the metadata as it is in memory. */
    ghost function InMemory(): (fs: Fs)
      requires Valid()
      reads this, blockBitmap.mem, inodeBitmap.mem
    {
      Fs(blockBitmap.View(), inodeBitmap.View(), inodes, disk)
    }

    /** The image as a later mount finds it. */
    ghost function OnDisk(): (fs: Fs)
      requires Valid()
      reads this
    {
      Fs(Bits(diskUsed, blockBitmap.blocks), Bits(diskInoUsed, inodeBitmap.blocks), diskInodes, disk)
    }

    /** kifs_open_image: the metadata read into memory. */
    constructor (lay: Layout, blocks: nat, inoBlocks: nat, used: seq<bv8>, inoUsed: seq<bv8>, table: seq<Inode>,
                 disk: seq<Bytes>)
      requires |used| == blocks * 4096 && |inoUsed| == inoBlocks * 4096 && |table| == lay.inodeCount
      ensures Valid() && fresh(blockBitmap.mem) && fresh(inodeBitmap.mem) && this.lay == lay && InMemory() == OnDisk()
      ensures OnDisk() == Fs(Bits(used, blocks), Bits(inoUsed, inoBlocks), table, disk)
    {
      this.lay := lay;
      blockBitmap := new BitmapMem(blocks, used);
      inodeBitmap := new BitmapMem(inoBlocks, inoUsed);
      inodes, this.disk, diskUsed, diskInoUsed, diskInodes := table, disk, used, inoUsed, table;
    }

    /** free_inode_blocks. */
    method FreeInodeBlocks(f: Inode)
      requires blockBitmap.Valid() && |f.extents| <= MAX_EXTENTS
      modifies blockBitmap.mem
      ensures blockBitmap.View() == MarkAll(old(blockBitmap.View()), Expand(f.extents), false)
    {
      hide Bits, Marked, MarkAll, Expand;
      ghost var v := blockBitmap.View();
      var i := 0;
      ExpandNone();
      assert f.extents[..0] == [];
      while i < |f.extents| && i < 8
        invariant i <= |f.extents| && blockBitmap.View() == MarkAll(v, Expand(f.extents[..i]), false)
      {
        var e := f.extents[i];
        ghost var done := Expand(f.extents[..i]);
        assert done + Blocks(e.diskStart, 0) == done;
        for j := 0 to e.count
          invariant blockBitmap.View() == MarkAll(v, done + Blocks(e.diskStart, j), false)
        {
          MarkAllPush(v, done + Blocks(e.diskStart, j), e.diskStart + j, false);
          assert done + Blocks(e.diskStart, j + 1) == done + Blocks(e.diskStart, j) + [e.diskStart + j];
          blockBitmap.Clear(e.diskStart + j);
        }
        assert f.extents[..i + 1] == f.extents[..i] + [e];
        ExpandPush(f.extents[..i], e);
        i := i + 1;
      }
      assert f.extents[..|f.extents|] == f.extents;
    }

    /** The last loop of allocate_extents. */
    method MarkExtents(extents: seq<Extent>)
      requires blockBitmap.Valid()
      modifies blockBitmap.mem
      ensures blockBitmap.View() == MarkAll(old(blockBitmap.View()), Expand(extents), true)
    {
      hide Bits, Marked, MarkAll, Expand;
      ghost var v := blockBitmap.View();
      ExpandNone();
      assert extents[..0] == [];
      for i := 0 to |extents|
        invariant blockBitmap.View() == MarkAll(v, Expand(extents[..i]), true)
      {
        var e := extents[i];
        ghost var done := Expand(extents[..i]);
        assert done + Blocks(e.diskStart, 0) == done;
        for j := 0 to e.count
          invariant blockBitmap.View() == MarkAll(v, done + Blocks(e.diskStart, j), true)
        {
          MarkAllPush(v, done + Blocks(e.diskStart, j), e.diskStart + j, true);
          assert done + Blocks(e.diskStart, j + 1) == done + Blocks(e.diskStart, j) + [e.diskStart + j];
          blockBitmap.Set(e.diskStart + j);
        }
        assert extents[..i + 1] == extents[..i] + [e];
        ExpandPush(extents[..i], e);
      }
      assert extents[..|extents|] == extents;
    }

    static lemma ExpandNone()
      ensures Expand([]) == [] && forall bits, v :: MarkAll(bits, [], v) == bits
    {
    }

    /** What the scan holds after looking at the blocks below blk: finished extents and a run still open. */
    static ghost predicate Gathered(used: seq<bool>, lo: nat, blk: nat, es: seq<Extent>, start: nat, len: nat) {
      var taken := FreeList(used, lo, blk);
      lo <= blk && taken == Expand(es) + Blocks(start, len) && InOrder(es) && |es| <= MAX_EXTENTS
      && (len > 0 ==> start + len == blk) && (len == 0 && taken != [] ==> taken[|taken| - 1] + 1 < blk)
      && Runs(taken) == |es| + if len > 0 then 1 else 0
    }

    /** A used block closes the open run. */
    static lemma GatherClose(used: seq<bool>, lo: nat, blk: nat, es: seq<Extent>, start: nat, len: nat, e: Extent)
      requires Gathered(used, lo, blk, es, start, len) && len > 0 && |es| < MAX_EXTENTS
      requires e == Extent(|FreeList(used, lo, blk)| - len, start, len)
      ensures Expand(es + [e]) == FreeList(used, lo, blk) && InOrder(es + [e])
              && Runs(FreeList(used, lo, blk)) == |es| + 1
      ensures UsedAt(used, blk) ==> Gathered(used, lo, blk + 1, es + [e], start, 0)
    {
      ExpandPush(es, e);
      FreeListSkipIf(used, lo, blk);
      var taken := FreeList(used, lo, blk);
      assert taken[|taken| - 1] == Blocks(start, len)[len - 1];
      assert Expand(es + [e]) + Blocks(start, 0) == Expand(es + [e]);
    }

    static lemma FreeListSkipIf(used: seq<bool>, lo: nat, blk: nat)
      requires lo <= blk
      ensures UsedAt(used, blk) ==> FreeList(used, lo, blk + 1) == FreeList(used, lo, blk)
    {
    }

    static lemma GatherSkip(used: seq<bool>, lo: nat, blk: nat, es: seq<Extent>, start: nat)
      requires Gathered(used, lo, blk, es, start, 0) && UsedAt(used, blk)
      ensures Gathered(used, lo, blk + 1, es, start, 0)
    {
    }

    /** A free block opens a run or extends it. */
    static lemma GatherTake(used: seq<bool>, lo: nat, blk: nat, es: seq<Extent>, start: nat, len: nat)
      requires Gathered(used, lo, blk, es, start, len) && !UsedAt(used, blk)
      ensures |FreeList(used, lo, blk + 1)| == |FreeList(used, lo, blk)| + 1
      ensures Gathered(used, lo, blk + 1, es, if len == 0 then blk else start, len + 1)
    {
      hide Runs, Expand, InOrder, FreeList;
      var taken, first := FreeList(used, lo, blk), if len == 0 then blk else start;
      RunsPush(taken, blk);
      FreeListTake(used, lo, blk);
      BlocksGrow(start, len, blk);
      assert len > 0 ==> taken[|taken| - 1] == Blocks(start, len)[len - 1];
      assert taken + [blk] == Expand(es) + Blocks(first, len + 1);
    }

    static lemma FreeListTake(used: seq<bool>, lo: nat, blk: nat)
      requires lo <= blk && !UsedAt(used, blk)
      ensures FreeList(used, lo, blk + 1) == FreeList(used, lo, blk) + [blk]
    {
    }

    static lemma BlocksGrow(start: nat, len: nat, blk: nat)
      requires len > 0 ==> start + len == blk
      ensures Blocks(if len == 0 then blk else start, len + 1) == Blocks(start, len) + [blk]
    {
    }

    static lemma GatherStart(used: seq<bool>, lo: nat)
      ensures Gathered(used, lo, lo, [], 0, 0) && FreeList(used, lo, lo) == []
    {
    }

    /** The scan of allocate_extents: the first free blocks, gathered into runs. */
    method GatherExtents(need: nat) returns (ok: bool, extents: seq<Extent>)
      requires blockBitmap.Valid() && need > 0
      ensures var free := FreeList(blockBitmap.View(), lay.dataStart, DataEnd(lay));
              (ok <==> need <= |free| && Runs(free[..need]) <= MAX_EXTENTS)
              && (ok ==> Expand(extents) == free[..need] && InOrder(extents) && |extents| <= MAX_EXTENTS)
    {
      hide Bits, FreeList, Expand, Runs, InOrder, Gathered;
      ghost var used, lo, hi := blockBitmap.View(), lay.dataStart, DataEnd(lay);
      extents := [];
      var remaining, blk := need, lay.dataStart;
      var start: nat, len: nat := 0, 0;
      GatherStart(used, lo);
      while blk < lay.dataStart + lay.dataBlocks && remaining > 0
        invariant blk <= hi && remaining <= need && |FreeList(used, lo, blk)| == need - remaining
        invariant Gathered(used, lo, blk, extents, start, len)
      {
        GatheredFacts(used, lo, blk, extents, start, len);
        var inUse := blockBitmap.Get(blk);
        if inUse {
          if len != 0 {
            if |extents| >= MAX_EXTENTS {
              TooMany(used, lo, blk, hi, need);
              return false, [];
            }
            var e := Extent(need - remaining - len, start, len);
            GatherClose(used, lo, blk, extents, start, len, e);
            extents := extents + [e];
            len := 0;
          } else {
            GatherSkip(used, lo, blk, extents, start);
          }
          FreeListSkipIf(used, lo, blk);
        } else {
          GatherTake(used, lo, blk, extents, start, len);
          if len == 0 {
            start, len := blk, 1;
          } else {
            len := len + 1;
          }
          remaining := remaining - 1;
        }
        blk := blk + 1;
      }
      FreeListPrefix(used, lo, blk, hi);
      GatheredFacts(used, lo, blk, extents, start, len);
      if len != 0 {
        if |extents| >= MAX_EXTENTS {
          TooMany(used, lo, blk, hi, need);
          return false, [];
        }
        var e := Extent(need - remaining - len, start, len);
        GatherClose(used, lo, blk, extents, start, len, e);
        extents := extents + [e];
      }
      ok := remaining == 0;
      assert ok ==> FreeList(used, lo, hi)[..need] == FreeList(used, lo, blk);
    }

    static lemma GatheredFacts(used: seq<bool>, lo: nat, blk: nat, es: seq<Extent>, start: nat, len: nat)
      requires Gathered(used, lo, blk, es, start, len)
      ensures lo <= blk && len <= |FreeList(used, lo, blk)| && |es| <= MAX_EXTENTS
      ensures len > 0 ==> start + len == blk && Runs(FreeList(used, lo, blk)) == |es| + 1
      ensures len == 0 ==> Expand(es) == FreeList(used, lo, blk) && InOrder(es) && Runs(FreeList(used, lo, blk)) == |es|
    {
    }

    /** More than eight runs so far means too many in all, or too few blocks. */
    static lemma TooMany(used: seq<bool>, lo: nat, blk: nat, hi: nat, need: nat)
      requires blk <= hi && |FreeList(used, lo, blk)| <= need && Runs(FreeList(used, lo, blk)) > MAX_EXTENTS
      ensures var free := FreeList(used, lo, hi); need > |free| || Runs(free[..need]) > MAX_EXTENTS
    {
      var free, taken := FreeList(used, lo, hi), FreeList(used, lo, blk);
      FreeListPrefix(used, lo, blk, hi);
      if need <= |free| {
        RunsPrefix(free[..need], |taken|);
        assert free[..need][..|taken|] == taken;
      }
    }

    /** allocate_extents: the first free blocks of the data area, marked used; or nothing changes. */
    method AllocateExtents(need: nat) returns (ok: bool, extents: seq<Extent>)
      requires blockBitmap.Valid()
      modifies blockBitmap.mem
      ensures ok <==> Fits(old(blockBitmap.View()), lay, need)
      ensures ok ==> Expand(extents) == FreeList(old(blockBitmap.View()), lay.dataStart, DataEnd(lay))[..need]
      ensures ok ==> InOrder(extents) && |extents| <= MAX_EXTENTS
      ensures blockBitmap.View() == if ok then MarkAll(old(blockBitmap.View()), Expand(extents), true)
                                    else old(blockBitmap.View())
    {
      hide Bits, FreeList, MarkAll, Marked;
      if need == 0 {
        ExpandNone();
        return true, [];
      }
      ok, extents := GatherExtents(need);
      if ok {
        MarkExtents(extents);
      }
    }

    /** Enough free blocks, in few enough runs. */
    static predicate Fits(used: seq<bool>, lay: Layout, need: nat) {
      var free := FreeList(used, lay.dataStart, DataEnd(lay));
      need <= |free| && Runs(free[..need]) <= MAX_EXTENTS
    }

    /** write_file_data: the data block by block, zero padded. */
    method WriteFileData(data: Bytes, extents: seq<Extent>)
      requires NoDup(Expand(extents)) && forall b: nat :: b in Expand(extents) ==> b < |disk|
      modifies `disk
      ensures |disk| == |old(disk)|
      ensures forall i: nat :: i < |Expand(extents)| ==>
              Expand(extents)[i] < |disk| && disk[Expand(extents)[i]] == Chunk(data, i)
      ensures forall b: nat :: b < |disk| && b !in Expand(extents) ==> disk[b] == old(disk)[b]
    {
      hide Expand, Chunk, Laid;
      ghost var all, d0 := Expand(extents), disk;
      var written := 0;
      LaidStart(disk, all, data);
      ExpandNone();
      assert extents[..0] == [];
      for i := 0 to |extents|
        invariant written <= |data| && Laid(disk, d0, all, data, |Expand(extents[..i])|)
        invariant Expand(extents[..i]) <= all && written == Min(|data|, |Expand(extents[..i])| * 4096)
      {
        var e := extents[i];
        ghost var done := Expand(extents[..i]);
        assert extents[..i + 1] == extents[..i] + [e];
        ExpandPush(extents[..i], e);
        ExpandMono(extents, i + 1);
        for j := 0 to e.count
          invariant written <= |data| && Laid(disk, d0, all, data, |done| + j)
          invariant written == Min(|data|, (|done| + j) * 4096)
        {
          ghost var n := |done| + j;
          assert all[n] == e.diskStart + j;
          var chunk := |data| - written;
          if chunk > 4096 {
            chunk := 4096;
          }
          var blk := data[written..written + chunk] + Zeros(4096 - chunk);
          ChunkIs(data, n, written, blk);
          LaidNext(disk, d0, all, data, n, blk);
          disk := disk[e.diskStart + j := blk];
          written := written + chunk;
        }
      }
      assert extents[..|extents|] == extents;
      LaidEnd(disk, d0, all, data);
    }

    /** The first n blocks hold their chunks and no other block changed. */
    static ghost predicate Laid(d: seq<Bytes>, d0: seq<Bytes>, all: seq<nat>, data: Bytes, n: nat) {
      |d| == |d0| && n <= |all| && (forall i: nat :: i < |all| ==> all[i] < |d|)
      && (forall i: nat :: i < n ==> d[all[i]] == Chunk(data, i))
      && forall b: nat :: b < |d| && b !in all ==> d[b] == d0[b]
    }

    static lemma LaidStart(d: seq<Bytes>, all: seq<nat>, data: Bytes)
      requires forall b: nat :: b in all ==> b < |d|
      ensures Laid(d, d, all, data, 0)
    {
      forall i: nat | i < |all| ensures all[i] < |d| { assert all[i] in all; }
    }

    static lemma LaidEnd(d: seq<Bytes>, d0: seq<Bytes>, all: seq<nat>, data: Bytes)
      requires Laid(d, d0, all, data, |all|)
      ensures |d| == |d0| && forall i: nat :: i < |all| ==> all[i] < |d| && d[all[i]] == Chunk(data, i)
      ensures forall b: nat :: b < |d| && b !in all ==> d[b] == d0[b]
    {
    }

    static lemma LaidNext(d: seq<Bytes>, d0: seq<Bytes>, all: seq<nat>, data: Bytes, n: nat, blk: Bytes)
      requires Laid(d, d0, all, data, n) && n < |all| && NoDup(all) && blk == Chunk(data, n)
      ensures all[n] < |d| && Laid(d[all[n] := blk], d0, all, data, n + 1)
    {
    }

    static lemma ChunkIs(data: Bytes, n: nat, written: nat, blk: Bytes)
      requires written == Min(|data|, n * 4096) && |blk| == 4096
      requires var chunk := Min(|data| - written, 4096);
               blk == data[written..written + chunk] + Zeros(4096 - chunk)
      ensures blk == Chunk(data, n)
    {
    }

    static lemma {:induction false} ExpandMono(es: seq<Extent>, k: nat)
      requires k <= |es|
      ensures Expand(es[..k]) <= Expand(es)
      decreases |es|
    {
      if k < |es| {
        assert es[..|es| - 1][..k] == es[..k];
        ExpandMono(es[..|es| - 1], k);
      } else {
        assert es[..k] == es;
      }
    }

    /** find_free_inode: the lowest free inode from 1 on. */
    method FindFreeInode() returns (found: bool, ino: nat)
      requires inodeBitmap.Valid()
      ensures found ==> 1 <= ino < lay.inodeCount && !UsedAt(inodeBitmap.View(), ino)
      ensures found ==> forall i: nat :: 1 <= i < ino ==> UsedAt(inodeBitmap.View(), i)
      ensures found <==> HasFreeInode(inodeBitmap.View(), lay.inodeCount)
    {
      ino := 1;
      while ino < lay.inodeCount
        invariant 1 <= ino && forall i: nat :: 1 <= i < ino ==> UsedAt(inodeBitmap.View(), i)
      {
        var used := inodeBitmap.Get(ino);
        if !used {
          return true, ino;
        }
        ino := ino + 1;
      }
      return false, ino;
    }

    /** The data written and the inode entered. */
    method EnterFile(ino: nat, f: Inode, data: Bytes)
      requires inodeBitmap.Valid() && ino < |inodes| && f.size == |data| && f.size <= |Expand(f.extents)| * 4096
      requires NoDup(Expand(f.extents)) && forall b: nat :: b in Expand(f.extents) ==> b < |disk|
      modifies `inodes, `disk, inodeBitmap.mem
      ensures inodes == old(inodes)[ino := f] && inodeBitmap.View() == Marked(old(inodeBitmap.View()), ino, true)
      ensures |disk| == |old(disk)|
              && forall b: nat :: b < |disk| && b !in Expand(f.extents) ==> disk[b] == old(disk)[b]
      ensures Readable(disk, f) && FileBytes(disk, f) == data
    {
      hide Expand, FileBytes, Readable, Bits, Chunk, Marked;
      WriteFileData(data, f.extents);
      inodes := inodes[ino := f];
      inodeBitmap.Set(ino);
      WrittenReads(disk, f, data);
    }

    /** The file's blocks and inode, in memory: old blocks freed, new ones found, written and entered. */
    method StoreFile(ino: nat, newInode: bool, data: Bytes) returns (ok: bool)
      requires Valid() && InMemory() == OnDisk() && Consistent(InMemory(), lay)
      requires ino < lay.inodeCount && ino < |inodeBitmap.View()| && (newInode <==> !InUse(InMemory(), ino))
      modifies `inodes, `disk, blockBitmap.mem, inodeBitmap.mem
      ensures Valid() && |disk| == |old(disk)|
      ensures !ok ==> disk == old(disk)
      ensures ok <==> Fits(Cleared(old(InMemory()), ino), lay, BlocksFor(|data|))
      ensures ok ==> var fs, f := old(InMemory()), inodes[ino];
                Stored(fs, InMemory(), ino, f, FreedBlocks(fs, ino)) && Given(fs, lay, f, FreedBlocks(fs, ino))
                && f.isFile && Readable(disk, f) && FileBytes(disk, f) == data
    {
      hide Bits, MarkAll, Consistent, Expand, FileBytes, BlocksFor, Given, Fits, Stored, Readable, Cleared, NoDup,
           Marked, FreeList;
      ghost var fs := InMemory();
      if !newInode {
        FilesFit(fs, lay, ino);
        FreeInodeBlocks(inodes[ino]);
      }
      ghost var cleared := blockBitmap.View();
      ClearedIs(fs, ino, cleared);
      var extents;
      ok, extents := AllocateExtents(BlocksFor(|data|));
      if !ok {
        return;
      }
      var f := Inode(true, |data|, extents);
      GivenBlocks(fs, lay, cleared, ino, f);
      EnterFile(ino, f, data);
      StoredIs(fs, InMemory(), ino, f);
    }

    static lemma ClearedIs(fs: Fs, ino: nat, v: seq<bool>)
      requires ino < |fs.inodes|
      requires v == if InUse(fs, ino) then MarkAll(fs.used, OwnBlocks(fs, ino), false) else fs.used
      ensures v == Cleared(fs, ino)
    {
    }

    static lemma StoredIs(fs: Fs, g: Fs, ino: nat, f: Inode)
      requires ino < |fs.inodes| && g.inodes == fs.inodes[ino := f]
      requires ino < |fs.inoUsed| && g.inoUsed == Marked(fs.inoUsed, ino, true)
      requires g.used == MarkAll(Cleared(fs, ino), Expand(f.extents), true)
      requires |g.disk| == |fs.disk|
               && forall b: nat :: b < |g.disk| && b !in Expand(f.extents) ==> g.disk[b] == fs.disk[b]
      ensures Stored(fs, g, ino, f, FreedBlocks(fs, ino))
    {
    }

    static function FreedBlocks(fs: Fs, ino: nat): (r: seq<nat>)
      requires ino < |fs.inodes|
    {
      if InUse(fs, ino) then OwnBlocks(fs, ino) else []
    }

    /** The bitmap once the inode's own blocks are given back. */
    static function Cleared(fs: Fs, ino: nat): (r: seq<bool>)
      requires ino < |fs.inodes|
    {
      MarkAll(fs.used, FreedBlocks(fs, ino), false)
    }

    static lemma FilesFit(fs: Fs, lay: Layout, ino: nat)
      requires Consistent(fs, lay) && InUse(fs, ino)
      ensures |fs.inodes[ino].extents| <= MAX_EXTENTS
    {
    }

    static lemma GivenBlocks(fs: Fs, lay: Layout, cleared: seq<bool>, ino: nat, f: Inode)
      requires Consistent(fs, lay) && ino < |fs.inodes| && cleared == Cleared(fs, ino)
      requires Fits(cleared, lay, BlocksFor(f.size)) && InOrder(f.extents) && |f.extents| <= MAX_EXTENTS
      requires Expand(f.extents) == FreeList(cleared, lay.dataStart, DataEnd(lay))[..BlocksFor(f.size)]
      ensures Given(fs, lay, f, FreedBlocks(fs, ino))
      ensures NoDup(Expand(f.extents)) && f.size <= |Expand(f.extents)| * 4096
      ensures forall b: nat :: b in Expand(f.extents) ==> b < |fs.disk|
    {
      hide Expand, MarkAll, FreeList, Runs;
      FreeListIs(cleared, lay.dataStart, DataEnd(lay));
      var free := FreeList(cleared, lay.dataStart, DataEnd(lay));
      forall b: nat | b in Expand(f.extents) ensures b in free && b < |fs.disk| {
        assert b in free;
        assert InArea(fs, lay, b);
      }
    }

    static lemma WrittenReads(disk: seq<Bytes>, f: Inode, data: Bytes)
      requires f.size == |data| && f.size <= |Expand(f.extents)| * 4096
      requires forall i: nat :: i < |Expand(f.extents)| ==>
               Expand(f.extents)[i] < |disk| && disk[Expand(f.extents)[i]] == Chunk(data, i)
      ensures Readable(disk, f) && FileBytes(disk, f) == data
    {
    }

    /** flush_metadata. */
    method FlushMetadata()
      requires Valid()
      modifies `diskUsed, `diskInoUsed, `diskInodes
      ensures Valid() && OnDisk() == InMemory()
    {
      diskUsed, diskInoUsed, diskInodes := blockBitmap.mem[..], inodeBitmap.mem[..], inodes;
    }
  }

  /** The directory inode that a path resolves to, and its first block. */
  ghost predicate SimpleDir(fs: Fs, dir: nat) {
    InUse(fs, dir) && !fs.inodes[dir].isFile && |fs.inodes[dir].extents| > 0 && fs.inodes[dir].extents[0].count > 0
  }

  function DirBlockOf(f: Inode): (b: nat)
    requires |f.extents| > 0
  {
    f.extents[0].diskStart
  }

  /** The records of a directory. */
  ghost function Names(fs: Fs, dir: nat): (es: seq<D.Entry>)
    requires SimpleDir(fs, dir)
    requires DirBlockOf(fs.inodes[dir]) < |fs.disk| && B.Framed(fs.disk[DirBlockOf(fs.inodes[dir])])
  {
    B.Entries(fs.disk[DirBlockOf(fs.inodes[dir])])
  }

  /** The directory's block is well formed, and the inodes it names, as far as there are such, are in use. */
  ghost predicate DirOk(fs: Fs, dir: nat, metaCrc: bool, crc: Bytes -> Word) {
    SimpleDir(fs, dir)
    && (var b := DirBlockOf(fs.inodes[dir]);
        b < |fs.disk| && B.Framed(fs.disk[b]) && B.Sealed(fs.disk[b], metaCrc, crc))
    && forall n: Bytes :: Leads(fs, Names(fs, dir), n)
  }

  ghost predicate Leads(fs: Fs, es: seq<D.Entry>, n: Bytes) {
    var r := D.Lookup(es, n);
    r.Some? && r.value < |fs.inodes| ==> InUse(fs, r.value)
  }

  /** The directory's block belongs to the directory. */
  lemma DirOwns(fs: Fs, lay: Layout, dir: nat)
    requires Consistent(fs, lay) && SimpleDir(fs, dir)
    ensures var b := DirBlockOf(fs.inodes[dir]); b in OwnBlocks(fs, dir) && InArea(fs, lay, b)
  {
    hide InOrder, Unshared, BitmapExact;
    var es := fs.inodes[dir].extents;
    Image.ExpandMono(es, 1);
    assert es[..1] == [es[0]] && Expand([es[0]]) == Expand([]) + Blocks(es[0].diskStart, es[0].count) by {
      ExpandPush([], es[0]);
      assert [] + [es[0]] == [es[0]];
    }
    assert Expand(es)[0] == es[0].diskStart;
  }

  /** Of the metadata only one inode changes, and the block bitmap keeps its length. */
  ghost predicate OneInode(fs: Fs, g: Fs, ino: nat) {
    ino < |fs.inodes| == |g.inodes| && ino < |fs.inoUsed| && |g.used| == |fs.used| && |g.disk| == |fs.disk|
    && g.inodes == fs.inodes[ino := g.inodes[ino]] && g.inoUsed == fs.inoUsed[ino := true]
  }

  lemma StoredFrame(fs: Fs, m: Fs, ino: nat, f: Inode, freed: seq<nat>)
    requires Stored(fs, m, ino, f, freed)
    ensures OneInode(fs, m, ino)
    ensures forall b: nat :: b < |fs.disk| && b !in OwnBlocks(m, ino) ==> m.disk[b] == fs.disk[b]
  {
    hide Expand, MarkAll;
  }

  /** The inode a copy goes into: the one the name is bound to, or one that was free. */
  ghost predicate GoesInto(fs: Fs, dir: nat, name: Bytes, ino: nat, metaCrc: bool, crc: Bytes -> Word)
    requires DirOk(fs, dir, metaCrc, crc)
  {
    var r := D.Lookup(Names(fs, dir), name);
    if r.Some? then r.value == ino else !InUse(fs, ino)
  }

  /** What a successful copy leaves on the disk. */
  ghost predicate Copied(fs: Fs, g: Fs, lay: Layout, dir: nat, ino: nat, name: Bytes, data: Bytes, metaCrc: bool,
      crc: Bytes -> Word)
    requires DirOk(fs, dir, metaCrc, crc)
  {
    Consistent(g, lay) && DirOk(g, dir, metaCrc, crc)
    && InUse(g, ino) && g.inodes[ino].isFile && Readable(g.disk, g.inodes[ino])
    && FileBytes(g.disk, g.inodes[ino]) == data
    && D.Rebinds(Names(fs, dir), Names(g, dir), name, ino, FTYPE_FILE) && |g.inodes| == |fs.inodes|
    && ino != dir && (InUse(fs, ino) ==> fs.inodes[ino].isFile) && OneInode(fs, g, ino)
    && GoesInto(fs, dir, name, ino, metaCrc, crc)
    && (forall b: nat :: b < |fs.disk| && b != DirBlockOf(fs.inodes[dir]) && b !in OwnBlocks(g, ino) ==>
       g.disk[b] == fs.disk[b])
    && forall j: nat :: InUse(fs, j) && j != ino ==> KeptFile(fs, g, j, dir)
  }

  /** A file as it was; the directory itself keeps its inode. */
  ghost predicate KeptFile(fs: Fs, g: Fs, j: nat, dir: nat) {
    InUse(fs, j) && InUse(g, j) && g.inodes[j] == fs.inodes[j]
    && (j != dir ==> SameBlocks(fs, g.disk, j) && Readable(fs.disk, fs.inodes[j]) && Readable(g.disk, g.inodes[j])
                     && FileBytes(g.disk, g.inodes[j]) == FileBytes(fs.disk, fs.inodes[j]))
  }

  /** Rewriting the directory's block touches no other file. */
  lemma DirWriteKeeps(m: Fs, lay: Layout, dir: nat, blk: Bytes)
    requires Consistent(m, lay) && SimpleDir(m, dir) && |blk| == 4096
    ensures DirBlockOf(m.inodes[dir]) < |m.disk|
    ensures var h := m.(disk := m.disk[DirBlockOf(m.inodes[dir]) := blk]);
            Consistent(h, lay) && forall j: nat :: InUse(m, j) && j != dir ==>
              SameBlocks(m, h.disk, j) && Readable(m.disk, m.inodes[j]) && Readable(h.disk, h.inodes[j])
              && FileBytes(h.disk, m.inodes[j]) == FileBytes(m.disk, m.inodes[j])
  {
    hide Expand, InOrder, FileBytes;
    DirOwns(m, lay, dir);
    var b := DirBlockOf(m.inodes[dir]);
    var h := m.(disk := m.disk[b := blk]);
    forall i: nat ensures InUse(h, i) <==> InUse(m, i) {}
    forall c: nat | InArea(m, lay, c) ensures InArea(h, lay, c) {}
    forall c: nat | Owned(m, c) ensures Owned(h, c) {
      var i: nat :| InUse(m, i) && c in OwnBlocks(m, i);
      assert InUse(h, i) && c in OwnBlocks(h, i);
    }
    forall c: nat | Owned(h, c) ensures Owned(m, c) {
      var i: nat :| InUse(h, i) && c in OwnBlocks(h, i);
      assert InUse(m, i) && c in OwnBlocks(m, i);
    }
    forall j: nat | InUse(m, j) && j != dir
      ensures SameBlocks(m, h.disk, j) && Readable(m.disk, m.inodes[j]) && Readable(h.disk, h.inodes[j])
      ensures FileBytes(h.disk, m.inodes[j]) == FileBytes(m.disk, m.inodes[j])
    {
      assert b !in OwnBlocks(m, j);
      OthersRead(m, h, lay, j);
    }
  }

  lemma OthersRead(m: Fs, h: Fs, lay: Layout, j: nat)
    requires Consistent(m, lay) && InUse(m, j) && |h.disk| == |m.disk|
    requires forall c: nat :: c in OwnBlocks(m, j) && c < |m.disk| ==> h.disk[c] == m.disk[c]
    ensures Readable(m.disk, m.inodes[j]) && Readable(h.disk, m.inodes[j]) && SameBlocks(m, h.disk, j)
    ensures FileBytes(h.disk, m.inodes[j]) == FileBytes(m.disk, m.inodes[j])
  {
  }

  const FTYPE_FILE: Byte := 1

  /** When a copy succeeds: the name is free or names a file, and there are blocks, an inode and a record for it. */
  ghost predicate CanCopy(fs: Fs, lay: Layout, dir: nat, name: Bytes, size: nat, metaCrc: bool, crc: Bytes -> Word)
    requires DirOk(fs, dir, metaCrc, crc)
  {
    var r := D.Lookup(Names(fs, dir), name);
    if r.Some? then
      r.value < |fs.inodes| && fs.inodes[r.value].isFile && Image.Fits(Image.Cleared(fs, r.value), lay, BlocksFor(size))
    else
      HasFreeInode(fs.inoUsed, |fs.inodes|) && Image.Fits(fs.used, lay, BlocksFor(size)) && B.Room(Names(fs, dir), name)
  }

  /** The block of a directory, read. */
  method ReadBlock(img: Image, b: nat) returns (blk: array<Byte>)
    requires b < |img.disk| && |img.disk[b]| == 4096
    ensures fresh(blk) && blk.Length == 4096 && blk[..] == img.disk[b]
  {
    var src := img.disk[b];
    blk := new Byte[4096](i requires 0 <= i < 4096 && |src| == 4096 => src[i]);
  }

  /** The inode that main settles on: the one bound to the name, or the lowest free one. */
  method ChooseInode(img: Image, dir: nat, name: Bytes, metaCrc: bool, crc: Bytes -> Word)
    returns (ok: bool, newInode: bool, ino: nat)
    requires img.Valid() && img.InMemory() == img.OnDisk() && DirOk(img.OnDisk(), dir, metaCrc, crc)
    requires |name| < 256 && img.lay.inodeCount <= 0x1_0000_0000
    ensures var fs := img.OnDisk();
            var r := D.Lookup(Names(fs, dir), name);
            (ok && newInode <==> r.None? && HasFreeInode(fs.inoUsed, |fs.inodes|))
            && (ok && !newInode <==> r.Some? && r.value < |fs.inodes| && fs.inodes[r.value].isFile)
            && (ok && !newInode ==> ino == r.value)
    ensures ok ==>
            0 < ino < img.lay.inodeCount && ino < |img.OnDisk().inoUsed| && (newInode <==> !InUse(img.OnDisk(), ino))
    ensures ok ==> ino != dir
  {
    hide Bits, B.Entries, D.TargetOf, B.Sealed, HasFreeInode;
    ghost var fs := img.OnDisk();
    var blk := ReadBlock(img, DirBlockOf(img.inodes[dir]));
    assert img.OnDisk() == fs && img.InMemory() == fs;
    var scan;
    ghost var hit, last;
    scan, hit, last := B.ScanDirBlock(blk, name);
    D.LookupLast(Names(fs, dir), name, hit);
    assert Leads(fs, Names(fs, dir), name);
    if scan.found {
      ino := scan.ino;
      ok := ino < img.lay.inodeCount && img.inodes[ino].isFile;
      newInode := false;
    } else {
      ok, ino := img.FindFreeInode();
      newInode := true;
    }
  }

  /** Every file reads as it did. */
  ghost predicate Undisturbed(fs: Fs, g: Fs) {
    g.used == fs.used && g.inoUsed == fs.inoUsed && g.inodes == fs.inodes
    && |g.disk| == |fs.disk| && (forall b: nat :: b < |fs.disk| ==> |g.disk[b]| == |fs.disk[b]|)
    && forall j: nat :: InUse(fs, j) ==>
         SameBlocks(fs, g.disk, j) && Readable(fs.disk, fs.inodes[j]) && Readable(g.disk, fs.inodes[j])
         && FileBytes(g.disk, fs.inodes[j]) == FileBytes(fs.disk, fs.inodes[j])
  }

  lemma SameDisk(fs: Fs, lay: Layout)
    requires Consistent(fs, lay)
    ensures Undisturbed(fs, fs)
  {
  }

  /** A new file's blocks on the disk, before any metadata: nothing that is in use has changed. */
  lemma DataOnly(fs: Fs, m: Fs, lay: Layout, ino: nat, f: Inode)
    requires Consistent(fs, lay) && ino < |fs.inodes| && !InUse(fs, ino)
    requires Stored(fs, m, ino, f, []) && Given(fs, lay, f, []) && Readable(m.disk, f)
    ensures Undisturbed(fs, fs.(disk := m.disk))
  {
    hide Expand, Stored, Given, Consistent, FileBytes, Readable;
    BlocksPresent(m, f);
    SizesKept(fs, m, lay, ino, f);
    forall j: nat | InUse(fs, j)
      ensures Readable(fs.disk, fs.inodes[j]) && Readable(m.disk, fs.inodes[j]) && SameBlocks(fs, m.disk, j)
      ensures FileBytes(m.disk, fs.inodes[j]) == FileBytes(fs.disk, fs.inodes[j])
    {
      StoreKeepsOthers(fs, m, lay, ino, f, [], j);
    }
  }

  lemma SizesKept(fs: Fs, m: Fs, lay: Layout, ino: nat, f: Inode)
    requires Consistent(fs, lay) && Stored(fs, m, ino, f, []) && Given(fs, lay, f, [])
    requires forall b: nat :: b in Expand(f.extents) ==> b < |m.disk| && |m.disk[b]| == 4096
    ensures |m.disk| == |fs.disk| && forall b: nat :: b < |fs.disk| ==> |m.disk[b]| == |fs.disk[b]|
  {
    hide Expand, MarkAll, InOrder;
    forall b: nat | b < |fs.disk| ensures |m.disk[b]| == |fs.disk[b]| {
      if b in Expand(f.extents) { assert InArea(fs, lay, b); }
    }
  }

  /** The directory after the file is stored and before its entry is. */
  lemma DirStill(fs: Fs, m: Fs, lay: Layout, dir: nat, ino: nat, metaCrc: bool, crc: Bytes -> Word)
    requires Consistent(fs, lay) && DirOk(fs, dir, metaCrc, crc) && ino < |fs.inodes| && ino != dir && ino < |m.inodes|
    requires Stored(fs, m, ino, m.inodes[ino], Image.FreedBlocks(fs, ino))
             && Given(fs, lay, m.inodes[ino], Image.FreedBlocks(fs, ino))
    ensures SimpleDir(m, dir) && m.inodes[dir] == fs.inodes[dir]
    ensures var b := DirBlockOf(fs.inodes[dir]); b < |m.disk| && m.disk[b] == fs.disk[b]
  {
    hide Expand, Consistent, Given;
    DirOwns(fs, lay, dir);
    var b := DirBlockOf(fs.inodes[dir]);
    GivenUnowned(fs, lay, m.inodes[ino], Image.FreedBlocks(fs, ino), ino, dir, b);
  }

  /** Storing the file and then rebinding the name is a copy. */
  lemma CopyDone(fs: Fs, m: Fs, lay: Layout, dir: nat, ino: nat, name: Bytes, data: Bytes, blk: Bytes, metaCrc: bool,
      crc: Bytes -> Word)
    requires Consistent(fs, lay) && DirOk(fs, dir, metaCrc, crc) && ino < |fs.inodes| && ino != dir && ino < |m.inodes|
    requires Stored(fs, m, ino, m.inodes[ino], Image.FreedBlocks(fs, ino))
             && Given(fs, lay, m.inodes[ino], Image.FreedBlocks(fs, ino))
    requires m.inodes[ino].isFile && Readable(m.disk, m.inodes[ino]) && FileBytes(m.disk, m.inodes[ino]) == data
    requires B.Framed(blk) && B.Sealed(blk, metaCrc, crc)
             && D.Rebinds(Names(fs, dir), B.Entries(blk), name, ino, FTYPE_FILE)
    requires (InUse(fs, ino) ==> fs.inodes[ino].isFile) && GoesInto(fs, dir, name, ino, metaCrc, crc)
    ensures DirBlockOf(fs.inodes[dir]) < |m.disk|
    ensures Copied(fs, m.(disk := m.disk[DirBlockOf(fs.inodes[dir]) := blk]), lay, dir, ino, name, data, metaCrc, crc)
  {
    hide Expand, Given, Consistent, FileBytes, Stored, Readable, B.Sealed, B.Entries, D.TargetOf;
    DirStill(fs, m, lay, dir, ino, metaCrc, crc);
    var freed, f := Image.FreedBlocks(fs, ino), m.inodes[ino];
    BlocksPresent(m, f);
    StoreKeepsConsistent(fs, m, lay, ino, f, freed);
    StoredShape(fs, m, lay, ino, f, freed);
    StoredFrame(fs, m, ino, f, freed);
    DirWriteKeeps(m, lay, dir, blk);
    var g := m.(disk := m.disk[DirBlockOf(fs.inodes[dir]) := blk]);
    forall j: nat | InUse(fs, j) && j != ino ensures KeptFile(fs, g, j, dir) {
      StoreKeepsOthers(fs, m, lay, ino, f, freed, j);
      SameBlocksTwice(fs, m, g.disk, j);
    }
    forall n: Bytes ensures Leads(g, Names(g, dir), n) { assert Leads(fs, Names(fs, dir), n); }
  }

  lemma SameBlocksTwice(fs: Fs, m: Fs, disk: seq<Bytes>, j: nat)
    requires j < |fs.inodes| && j < |m.inodes| && m.inodes[j] == fs.inodes[j] && SameBlocks(fs, m.disk, j)
    ensures SameBlocks(m, disk, j) ==> SameBlocks(fs, disk, j)
  {
  }

  lemma BlocksPresent(m: Fs, f: Inode)
    requires Readable(m.disk, f)
    ensures forall b: nat :: b in Expand(f.extents) ==> b < |m.disk| && |m.disk[b]| == 4096
  {
  }

  /** kifs_cp's main on an open image whose destination directory is resolved. It succeeds exactly when there is
      room; then the file reads back and nothing else changed; otherwise every file reads as before. */
  method CopyFile(img: Image, dir: nat, name: Bytes, data: Bytes, metaCrc: bool, crc: Bytes -> Word)
    returns (ok: bool, ino: nat)
    requires img.Valid() && img.InMemory() == img.OnDisk() && Consistent(img.OnDisk(), img.lay)
    requires DirOk(img.OnDisk(), dir, metaCrc, crc) && |name| < 256 && 0 !in name && img.lay.inodeCount <= 0x1_0000_0000
    modifies img, img.blockBitmap.mem, img.inodeBitmap.mem
    ensures img.Valid() && (ok <==> CanCopy(old(img.OnDisk()), img.lay, dir, name, |data|, metaCrc, crc))
    ensures ok ==> img.InMemory() == img.OnDisk()
    ensures ok ==> Copied(old(img.OnDisk()), img.OnDisk(), img.lay, dir, ino, name, data, metaCrc, crc)
    ensures !ok ==> Undisturbed(old(img.OnDisk()), img.OnDisk())
  {
    hide Bits, Expand, Given, Consistent, FileBytes, Stored, Readable, B.Sealed, B.Entries, D.TargetOf, Undisturbed,
         Copied, Image.Fits, Image.Cleared, BlocksFor, B.Room, HasFreeInode, MarkAll;
    ghost var fs := img.OnDisk();
    SameDisk(fs, img.lay);
    var newInode;
    ok, newInode, ino := ChooseInode(img, dir, name, metaCrc, crc);
    if !ok {
      return;
    }
    ok := img.StoreFile(ino, newInode, data);
    NewCleared(fs, ino);
    if !ok {
      return;
    }
    ghost var m := img.InMemory();
    DirStill(fs, m, img.lay, dir, ino, metaCrc, crc);
    var b := DirBlockOf(img.inodes[dir]);
    var blk := ReadBlock(img, b);
    ok := B.EnsureDirEntry(blk, name, ino, FTYPE_FILE, !newInode, metaCrc, crc);
    if !ok {
      DataOnly(fs, m, img.lay, ino, m.inodes[ino]);
      return;
    }
    CopyDone(fs, m, img.lay, dir, ino, name, data, blk[..], metaCrc, crc);
    img.disk := img.disk[b := blk[..]];
    img.FlushMetadata();
  }

  lemma NewCleared(fs: Fs, ino: nat)
    requires ino < |fs.inodes|
    ensures !InUse(fs, ino) ==> Image.Cleared(fs, ino) == fs.used && Image.FreedBlocks(fs, ino) == []
  {
  }
}
