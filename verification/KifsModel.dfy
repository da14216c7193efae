/** KiFS on values: extents, free blocks, files, and when an image is consistent. */
module KifsModel {
  import opened Base
  import opened KifsBitmap

  const MAX_EXTENTS := 8

  datatype Extent = Extent(fileStart: nat, diskStart: nat, count: nat)

  /** A simple inode: what it is, how long, and where. */
  datatype Inode = Inode(isFile: bool, size: nat, extents: seq<Extent>)

  /** The disk blocks of a run. */
  function Blocks(start: nat, n: nat): (r: seq<nat>)
    ensures |r| == n && forall i :: 0 <= i < n ==> r[i] == start + i
  {
    seq(n, i requires 0 <= i < n => start + i)
  }

  /** The disk blocks of a file in file order. */
  function Expand(es: seq<Extent>): (r: seq<nat>) {
    if es == [] then [] else Expand(es[..|es| - 1]) + Blocks(es[|es| - 1].diskStart, es[|es| - 1].count)
  }

  /** Each extent says which file block it starts at. */
  ghost predicate InOrder(es: seq<Extent>) {
    forall i :: 0 <= i < |es| ==> es[i].fileStart == |Expand(es[..i])|
  }

  lemma ExpandPush(es: seq<Extent>, e: Extent)
    ensures Expand(es + [e]) == Expand(es) + Blocks(e.diskStart, e.count)
    ensures InOrder(es) && e.fileStart == |Expand(es)| ==> InOrder(es + [e])
  {
    assert (es + [e])[..|es|] == es;
    forall i | 0 <= i < |es| ensures (es + [e])[..i] == es[..i] {}
  }

  /** Finding a file block by its extent gives the block at its place in file order. */
  lemma {:induction false} ExtentLookup(es: seq<Extent>, i: nat, fb: nat)
    requires InOrder(es) && i < |es| && es[i].fileStart <= fb < es[i].fileStart + es[i].count
    ensures fb < |Expand(es)| && Expand(es)[fb] == es[i].diskStart + (fb - es[i].fileStart)
    decreases |es|
  {
    var n := |es| - 1;
    assert es[..n][..i] == es[..i];
    if i < n {
      InOrderPrefix(es, n);
      ExtentLookup(es[..n], i, fb);
    }
  }

  lemma InOrderPrefix(es: seq<Extent>, n: nat)
    requires InOrder(es) && n <= |es|
    ensures InOrder(es[..n])
  {
    forall i | 0 <= i < n ensures es[..n][i].fileStart == |Expand(es[..n][..i])| { assert es[..n][..i] == es[..i]; }
  }

  /** map_inline: the kernel finds exactly the block that the tools wrote at that place. */
  method MapInline(es: seq<Extent>, fb: nat) returns (r: Option<nat>)
    requires InOrder(es)
    ensures r == if fb < |Expand(es)| then Some(Expand(es)[fb]) else None
  {
    hide Expand;
    ExpandNone(es);
    for i := 0 to |es|
      invariant |Expand(es[..i])| <= fb
    {
      if es[i].fileStart <= fb < es[i].fileStart + es[i].count {
        ExtentLookup(es, i, fb);
        return Some(es[i].diskStart + (fb - es[i].fileStart));
      }
      ExpandPush(es[..i], es[i]);
      assert es[..i] + [es[i]] == es[..i + 1];
    }
    assert es[..|es|] == es;
    return None;
  }

  lemma ExpandNone(es: seq<Extent>)
    ensures Expand(es[..0]) == []
  {
  }

  // ---------- free blocks ----------

  /** The free blocks from lo up to hi, in order. */
  function FreeList(used: seq<bool>, lo: nat, hi: nat): (r: seq<nat>)
    decreases if lo <= hi then hi - lo else 0
  {
    if lo >= hi then [] else FreeList(used, lo, hi - 1) + (if UsedAt(used, hi - 1) then [] else [hi - 1])
  }

  ghost predicate Ascending(s: seq<nat>) { forall i, j :: 0 <= i < j < |s| ==> s[i] < s[j] }

  lemma {:induction false} FreeListIs(used: seq<bool>, lo: nat, hi: nat)
    ensures Ascending(FreeList(used, lo, hi))
    ensures forall b: nat :: b in FreeList(used, lo, hi) <==> lo <= b < hi && !UsedAt(used, b)
    decreases if lo <= hi then hi - lo else 0
  {
    if lo < hi {
      FreeListIs(used, lo, hi - 1);
      var s := FreeList(used, lo, hi - 1);
      forall i | 0 <= i < |s| ensures s[i] < hi - 1 { assert s[i] in s; }
    }
  }

  lemma {:induction false} FreeListPrefix(used: seq<bool>, lo: nat, mid: nat, hi: nat)
    requires mid <= hi
    ensures FreeList(used, lo, mid) <= FreeList(used, lo, hi)
    decreases hi
  {
    if mid < hi { FreeListPrefix(used, lo, mid, hi - 1); }
  }

  /** How many maximal runs of consecutive blocks. */
  function Runs(s: seq<nat>): (n: nat) {
    if s == [] then 0
    else if |s| > 1 && s[|s| - 1] == s[|s| - 2] + 1 then Runs(s[..|s| - 1])
    else Runs(s[..|s| - 1]) + 1
  }

  lemma {:induction false} RunsPrefix(s: seq<nat>, k: nat)
    requires k <= |s|
    ensures Runs(s[..k]) <= Runs(s)
    decreases |s|
  {
    if k < |s| {
      RunsPrefix(s[..|s| - 1], k);
      assert s[..|s| - 1][..k] == s[..k];
    } else {
      assert s[..k] == s;
    }
  }

  lemma RunsPush(s: seq<nat>, b: nat)
    ensures Runs(s + [b]) == Runs(s) + if s != [] && b == s[|s| - 1] + 1 then 0 else 1
  {
  }

  // ---------- marking ----------

  /** The bitmap with a list of blocks marked one after the other. */
  function MarkAll(bits: seq<bool>, bs: seq<nat>, v: bool): (r: seq<bool>)
    ensures |r| == |bits|
  {
    if bs == [] then bits else Marked(MarkAll(bits, bs[..|bs| - 1], v), bs[|bs| - 1], v)
  }

  lemma {:induction false} MarkAllAt(bits: seq<bool>, bs: seq<nat>, v: bool, b: nat)
    requires b < |bits|
    ensures MarkAll(bits, bs, v)[b] == if b in bs then v else bits[b]
    decreases |bs|
  {
    if bs != [] {
      MarkAllAt(bits, bs[..|bs| - 1], v, b);
      assert bs == bs[..|bs| - 1] + [bs[|bs| - 1]];
    }
  }

  lemma MarkAllPush(bits: seq<bool>, bs: seq<nat>, b: nat, v: bool)
    ensures MarkAll(bits, bs + [b], v) == Marked(MarkAll(bits, bs, v), b, v)
  {
  }

  // ---------- contents ----------

  /** Block i of the data, padded with zeros. */
  function Chunk(data: Bytes, i: nat): (r: Bytes)
    ensures |r| == 4096
    ensures forall k: nat :: k < 4096 ==> r[k] == if i * 4096 + k < |data| then data[i * 4096 + k] else 0
  {
    seq(4096, (k: nat) requires k < 4096 => if i * 4096 + k < |data| then data[i * 4096 + k] else 0)
  }

  function BlocksFor(size: nat): (n: nat)
    ensures n * 4096 >= size && (n > 0 ==> (n - 1) * 4096 < size)
  {
    (size + 4095) / 4096
  }

  /** The bytes of a file: position p is byte p % 4096 of its block p / 4096. */
  ghost function FileBytes(disk: seq<Bytes>, f: Inode): (r: Bytes)
    requires Readable(disk, f)
    ensures |r| == f.size
    ensures forall p: nat :: p < f.size ==> r[p] == disk[Expand(f.extents)[p / 4096]][p % 4096]
  {
    seq(f.size, (p: nat) requires p < f.size => disk[Expand(f.extents)[p / 4096]][p % 4096])
  }

  /** The file has a block for every byte and every block is on the disk. */
  ghost predicate Readable(disk: seq<Bytes>, f: Inode) {
    f.size <= |Expand(f.extents)| * 4096
    && forall i :: 0 <= i < |Expand(f.extents)| ==>
       Expand(f.extents)[i] < |disk| && |disk[Expand(f.extents)[i]]| == 4096
  }

  /** Data laid out by chunks reads back. */
  lemma ReadBack(disk: seq<Bytes>, f: Inode, data: Bytes)
    requires Readable(disk, f) && f.size == |data|
    requires forall i: nat :: i < |Expand(f.extents)| ==> disk[Expand(f.extents)[i]] == Chunk(data, i)
    ensures FileBytes(disk, f) == data
  {
  }

  /** A file none of whose blocks changed reads the same. */
  lemma ReadSame(before: seq<Bytes>, after: seq<Bytes>, f: Inode)
    requires Readable(before, f) && |after| == |before|
    requires forall b :: b in Expand(f.extents) ==> b < |before| && after[b] == before[b]
    ensures Readable(after, f) && FileBytes(after, f) == FileBytes(before, f)
  {
  }

  // ---------- images ----------

  /** Where the data area lies and how many inodes there are. */
  datatype Layout = Layout(dataStart: nat, dataBlocks: nat, inodeCount: nat)

  function DataEnd(lay: Layout): nat { lay.dataStart + lay.dataBlocks }

  /** An image: the two bitmaps, the inode table and the disk. */
  datatype Fs = Fs(used: seq<bool>, inoUsed: seq<bool>, inodes: seq<Inode>, disk: seq<Bytes>)

  predicate InUse(fs: Fs, ino: nat) { ino < |fs.inodes| && ino < |fs.inoUsed| && fs.inoUsed[ino] }

  function OwnBlocks(fs: Fs, ino: nat): (r: seq<nat>)
    requires ino < |fs.inodes|
  {
    Expand(fs.inodes[ino].extents)
  }

  predicate InArea(fs: Fs, lay: Layout, b: nat) {
    lay.dataStart <= b < DataEnd(lay) && b < |fs.used| && b < |fs.disk| && |fs.disk[b]| == 4096
  }

  /** Every file lies in the data area, one block at most once, and covers its size. */
  ghost predicate FilesOk(fs: Fs, lay: Layout) {
    forall ino: nat :: InUse(fs, ino) ==>
      NoDup(OwnBlocks(fs, ino)) && fs.inodes[ino].size <= |OwnBlocks(fs, ino)| * 4096
      && |fs.inodes[ino].extents| <= MAX_EXTENTS && InOrder(fs.inodes[ino].extents)
      && forall k :: 0 <= k < |OwnBlocks(fs, ino)| ==> InArea(fs, lay, OwnBlocks(fs, ino)[k])
  }

  /** No block belongs to two files. */
  ghost predicate Unshared(fs: Fs) {
    forall i: nat, j: nat, b: nat :: InUse(fs, i) && InUse(fs, j) && i != j && b in OwnBlocks(fs, i) ==>
      b !in OwnBlocks(fs, j)
  }

  ghost predicate Owned(fs: Fs, b: nat) { exists ino: nat :: InUse(fs, ino) && b in OwnBlocks(fs, ino) }

  /** The bitmap marks exactly the metadata, which lies before the data area, and the owned blocks. */
  ghost predicate BitmapExact(fs: Fs, lay: Layout) {
    forall b: nat :: b < |fs.used| ==> (fs.used[b] <==> b < lay.dataStart || Owned(fs, b))
  }

  ghost predicate Consistent(fs: Fs, lay: Layout) {
    |fs.inodes| == lay.inodeCount && FilesOk(fs, lay) && Unshared(fs) && BitmapExact(fs, lay)
    && forall b: nat :: lay.dataStart <= b < DataEnd(lay) && b < |fs.used| ==> InArea(fs, lay, b)
  }

  /** The image after a file has been given new blocks and contents. */
  ghost predicate Stored(fs: Fs, g: Fs, ino: nat, f: Inode, freed: seq<nat>) {
    |g.inodes| == |fs.inodes| && ino < |g.inodes| && g.inodes == fs.inodes[ino := f]
    && ino < |fs.inoUsed| && g.inoUsed == fs.inoUsed[ino := true]
    && g.used == MarkAll(MarkAll(fs.used, freed, false), Expand(f.extents), true)
    && |g.disk| == |fs.disk| && forall b: nat :: b < |fs.disk| && b !in Expand(f.extents) ==> g.disk[b] == fs.disk[b]
  }

  /** The blocks given: free once the old ones are, in order, none twice. */
  ghost predicate Given(fs: Fs, lay: Layout, f: Inode, freed: seq<nat>) {
    NoDup(Expand(f.extents)) && f.size <= |Expand(f.extents)| * 4096 && |f.extents| <= MAX_EXTENTS && InOrder(f.extents)
    && forall b: nat :: b in Expand(f.extents) ==>
         lay.dataStart <= b < DataEnd(lay) && b < |fs.used| && !MarkAll(fs.used, freed, false)[b]
  }

  /** What is freed is what the inode owned, or nothing when it was not in use. */
  ghost predicate Frees(fs: Fs, ino: nat, freed: seq<nat>) {
    ino < |fs.inodes| && if InUse(fs, ino) then freed == OwnBlocks(fs, ino) else freed == []
  }

  /** A given block belongs to no other file. */
  lemma GivenUnowned(fs: Fs, lay: Layout, f: Inode, freed: seq<nat>, ino: nat, j: nat, b: nat)
    requires Consistent(fs, lay) && Given(fs, lay, f, freed) && Frees(fs, ino, freed)
    requires InUse(fs, j) && j != ino && b in OwnBlocks(fs, j)
    ensures b !in Expand(f.extents)
  {
    assert Owned(fs, b) && b !in freed;
    if b < |fs.used| { MarkAllAt(fs.used, freed, false, b); }
  }

  lemma StoredShape(fs: Fs, g: Fs, lay: Layout, ino: nat, f: Inode, freed: seq<nat>)
    requires Stored(fs, g, ino, f, freed)
    ensures |g.used| == |fs.used| && |g.inodes| == |fs.inodes|
            && forall j: nat :: InUse(g, j) <==> j == ino || InUse(fs, j)
    ensures forall j: nat :: j != ino && j < |fs.inodes| ==> g.inodes[j] == fs.inodes[j]
    ensures g.inodes[ino] == f
  {
  }

  lemma StoredBitmap(fs: Fs, g: Fs, lay: Layout, ino: nat, f: Inode, freed: seq<nat>, b: nat)
    requires Consistent(fs, lay) && Stored(fs, g, ino, f, freed) && Given(fs, lay, f, freed) && Frees(fs, ino, freed)
    requires b < |fs.used|
    ensures g.used[b] <==> b < lay.dataStart || Owned(g, b)
  {
    hide Given, Consistent, FilesOk, MarkAll, Expand;
    StoredShape(fs, g, lay, ino, f, freed);
    AtBlock(fs, lay, b, f, freed, ino);
    MarkAllAt(fs.used, freed, false, b);
    MarkAllAt(MarkAll(fs.used, freed, false), Expand(f.extents), true, b);
    assert g.used[b] <==> b in Expand(f.extents) || (fs.used[b] && b !in freed);
    if b in Expand(f.extents) { assert InUse(g, ino) && b in OwnBlocks(g, ino); }
    if Owned(fs, b) && b !in freed {
      var j: nat :| InUse(fs, j) && b in OwnBlocks(fs, j);
      assert InUse(g, j) && b in OwnBlocks(g, j);
    }
    if Owned(g, b) {
      var j: nat :| InUse(g, j) && b in OwnBlocks(g, j);
      assert j != ino ==> InUse(fs, j) && b in OwnBlocks(fs, j);
    }
  }

  lemma AtBlock(fs: Fs, lay: Layout, b: nat, f: Inode, freed: seq<nat>, ino: nat)
    requires Consistent(fs, lay) && b < |fs.used| && Given(fs, lay, f, freed) && Frees(fs, ino, freed)
    ensures Unshared(fs) && (fs.used[b] <==> b < lay.dataStart || Owned(fs, b))
    ensures b < lay.dataStart ==> b !in Expand(f.extents) && b !in freed
  {
    hide MarkAll, Expand;
    if b in freed {
      var k :| 0 <= k < |freed| && freed[k] == b;
      assert InArea(fs, lay, OwnBlocks(fs, ino)[k]);
    }
  }

  lemma StoredFiles(fs: Fs, g: Fs, lay: Layout, ino: nat, f: Inode, freed: seq<nat>)
    requires Consistent(fs, lay) && Stored(fs, g, ino, f, freed) && Given(fs, lay, f, freed)
    requires forall b: nat :: b in Expand(f.extents) ==> b < |g.disk| && |g.disk[b]| == 4096
    ensures FilesOk(g, lay)
  {
    hide MarkAll, Expand, InOrder;
    StoredShape(fs, g, lay, ino, f, freed);
    forall j: nat, k | InUse(g, j) && 0 <= k < |OwnBlocks(g, j)| ensures InArea(g, lay, OwnBlocks(g, j)[k]) {
      var b := OwnBlocks(g, j)[k];
      assert j == ino ==> b in Expand(f.extents);
      assert j != ino ==> InUse(fs, j) && InArea(fs, lay, OwnBlocks(fs, j)[k]);
      assert b !in Expand(f.extents) ==> g.disk[b] == fs.disk[b];
    }
    forall j: nat | InUse(g, j)
      ensures NoDup(OwnBlocks(g, j)) && g.inodes[j].size <= |OwnBlocks(g, j)| * 4096
      ensures |g.inodes[j].extents| <= MAX_EXTENTS && InOrder(g.inodes[j].extents)
    {
      assert j != ino ==> InUse(fs, j);
    }
  }

  /** Storing a file in blocks that were free keeps the image consistent. */
  lemma StoreKeepsConsistent(fs: Fs, g: Fs, lay: Layout, ino: nat, f: Inode, freed: seq<nat>)
    requires Consistent(fs, lay) && Stored(fs, g, ino, f, freed) && Given(fs, lay, f, freed) && Frees(fs, ino, freed)
    requires forall b: nat :: b in Expand(f.extents) ==> b < |g.disk| && |g.disk[b]| == 4096
    ensures Consistent(g, lay)
  {
    hide MarkAll, Expand;
    StoredShape(fs, g, lay, ino, f, freed);
    StoredFiles(fs, g, lay, ino, f, freed);
    forall i: nat, j: nat, b: nat | InUse(g, i) && InUse(g, j) && i != j && b in OwnBlocks(g, i)
      ensures b !in OwnBlocks(g, j)
    {
      if i == ino && b in OwnBlocks(fs, j) { GivenUnowned(fs, lay, f, freed, ino, j, b); }
      if j == ino { GivenUnowned(fs, lay, f, freed, ino, i, b); }
    }
    forall b: nat | b < |fs.used| ensures g.used[b] <==> b < lay.dataStart || Owned(g, b) {
      StoredBitmap(fs, g, lay, ino, f, freed, b);
    }
    forall b: nat | lay.dataStart <= b < DataEnd(lay) && b < |fs.used| ensures InArea(g, lay, b) {
      assert InArea(fs, lay, b);
      assert b !in Expand(f.extents) ==> g.disk[b] == fs.disk[b];
    }
  }

  /** The blocks of a file are as they were. */
  ghost predicate SameBlocks(fs: Fs, disk: seq<Bytes>, j: nat)
    requires j < |fs.inodes|
  {
    |disk| == |fs.disk| && forall b: nat :: b in OwnBlocks(fs, j) ==> b < |disk| && disk[b] == fs.disk[b]
  }

  /** And every other file keeps its contents. */
  lemma StoreKeepsOthers(fs: Fs, g: Fs, lay: Layout, ino: nat, f: Inode, freed: seq<nat>, j: nat)
    requires Consistent(fs, lay) && Stored(fs, g, ino, f, freed) && Given(fs, lay, f, freed) && Frees(fs, ino, freed)
    requires InUse(fs, j) && j != ino
    ensures InUse(g, j) && g.inodes[j] == fs.inodes[j]
    ensures Readable(fs.disk, fs.inodes[j]) && Readable(g.disk, g.inodes[j])
    ensures FileBytes(g.disk, g.inodes[j]) == FileBytes(fs.disk, fs.inodes[j])
    ensures SameBlocks(fs, g.disk, j)
  {
    forall b: nat | b in OwnBlocks(fs, j) ensures b < |fs.disk| && g.disk[b] == fs.disk[b] {
      GivenUnowned(fs, lay, f, freed, ino, j, b);
      var k :| 0 <= k < |OwnBlocks(fs, j)| && OwnBlocks(fs, j)[k] == b;
      assert InArea(fs, lay, OwnBlocks(fs, j)[k]);
    }
    ReadSame(fs.disk, g.disk, fs.inodes[j]);
  }
}
