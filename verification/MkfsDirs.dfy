/** mkfs_kifs.c: the directory blocks of a new file system, and the whole new image. */
module MkfsDirs {
  import opened Base
  import opened KifsBitmap
  import opened KifsModel
  import opened KifsCopy
  import opened Mkfs
  import D = DirRecords
  import B = DirBlock

  const FTYPE_DIR: Byte := 2

  datatype Name = Name(name: Bytes, ino: nat)

  predicate NameOk(n: Name) { 0 < n.ino < 0x1_0000_0000 && |n.name| < 256 && 0 !in n.name }

  /** The room a list of records needs at least. */
  function Needs(names: seq<Name>): (n: nat) {
    if names == [] then 0 else D.RecLen(|names[0].name|) + Needs(names[1..])
  }

  /** The records laid out from start: each as short as it can be, the last up to the limit. */
  function Laid(names: seq<Name>, start: nat, limit: nat): (es: seq<D.Entry>)
    requires start + Needs(names) <= limit
    ensures |es| == |names|
  {
    if names == [] then []
    else if |names| == 1 then [D.Entry(start, limit - start, names[0].ino, names[0].name, FTYPE_DIR)]
    else
      var n := D.RecLen(|names[0].name|);
      [D.Entry(start, n, names[0].ino, names[0].name, FTYPE_DIR)] + Laid(names[1..], start + n, limit)
  }

  /** Records that follow each other from one offset to another. */
  ghost predicate Follows(es: seq<D.Entry>, start: nat, stop: nat)
    decreases |es|
  {
    if es == [] then start == stop else es[0].off == start && Follows(es[1..], D.Stop(es[0]), stop)
  }

  /** Records that a block holds. */
  ghost predicate Held(b: Bytes, e: D.Entry, end: nat) {
    end <= |b| && D.WellAt(b, e.off, end) && D.EntryAt(b, e.off, end) == e
  }

  /** Their chain. */
  lemma {:induction false} HeldChain(b: Bytes, es: seq<D.Entry>, start: nat, stop: nat, end: nat)
    requires end <= |b| && Follows(es, start, stop) && forall k :: 0 <= k < |es| ==> Held(b, es[k], end)
    ensures D.Chain(b, start, end) == es + D.Chain(b, stop, end)
    decreases |es|
  {
    hide D.Chain, D.WellAt, D.EntryAt;
    if es != [] {
      var rest, next := es[1..], D.Stop(es[0]);
      HeldChain(b, rest, next, stop, end);
      assert Held(b, es[0], end);
      HeldFirst(b, es[0], end);
      assert es == [es[0]] + rest;
    }
  }

  lemma HeldFirst(b: Bytes, e: D.Entry, end: nat)
    requires Held(b, e, end)
    ensures D.Chain(b, e.off, end) == [e] + D.Chain(b, D.Stop(e), end)
  {
  }

  lemma {:induction false} LaidFollows(names: seq<Name>, start: nat, limit: nat)
    requires start + Needs(names) <= limit && names != []
    ensures Follows(Laid(names, start, limit), start, limit)
    decreases |names|
  {
    hide D.RecLen;
    var es := Laid(names, start, limit);
    if |names| == 1 {
      assert es[1..] == [];
    } else {
      var n := D.RecLen(|names[0].name|);
      LaidFollows(names[1..], start + n, limit);
      assert es[1..] == Laid(names[1..], start + n, limit);
    }
  }

  /** Each record as it is laid out. */
  lemma {:induction false} LaidAt(names: seq<Name>, start: nat, limit: nat, k: nat)
    requires start + Needs(names) <= limit && start % 8 == 0 && limit % 8 == 0 && k < |names|
    ensures var e := Laid(names, start, limit)[k];
            e.ino == names[k].ino && e.name == names[k].name && e.ftype == FTYPE_DIR && e.reclen % 8 == 0
            && D.RecLen(|names[k].name|) <= e.reclen && start <= e.off && D.Stop(e) <= limit
            && e.off == (if k == 0 then start else D.Stop(Laid(names, start, limit)[k - 1]))
            && e.reclen == (if k + 1 < |names| then D.RecLen(|names[k].name|) else limit - e.off)
    decreases |names|
  {
    hide D.RecLen, Laid;
    LaidSteps(names, start, limit);
    NeedsMore(names);
    if k > 0 {
      var n := D.RecLen(|names[0].name|);
      LaidAt(names[1..], start + n, limit, k - 1);
      assert names[k] == names[1..][k - 1];
    }
  }

  lemma LaidSteps(names: seq<Name>, start: nat, limit: nat)
    requires start + Needs(names) <= limit && names != []
    ensures var n := D.RecLen(|names[0].name|);
            Laid(names, start, limit) ==
            if |names| == 1 then [D.Entry(start, limit - start, names[0].ino, names[0].name, FTYPE_DIR)]
            else [D.Entry(start, n, names[0].ino, names[0].name, FTYPE_DIR)] + Laid(names[1..], start + n, limit)
  {
  }

  lemma NeedsMore(names: seq<Name>)
    requires names != []
    ensures D.RecLen(|names[0].name|) <= Needs(names)
  {
  }

  // ---------- building a block ----------

  /** The size fields of a new directory block. */
  ghost predicate FreshHeader(b: Bytes) {
    |b| == 4096 && b[..8] == B.DirTag() && D.U16(b, 8) == 24 && D.U16(b, 10) == 4072
  }

  /** init_dir_block. */
  method InitDirBlock(parentHint: nat) returns (blk: array<Byte>)
    requires parentHint < 0x1_0000_0000
    ensures fresh(blk) && FreshHeader(blk[..]) && forall i :: 24 <= i < 4096 ==> blk[i] == 0
  {
    blk := new Byte[4096](i => 0);
    var magic: Bytes := B.DirTag() + [24, 0, 232, 15];
    var hint := D.LE32(parentHint);
    forall i | 0 <= i < 12 {
      blk[i] := magic[i];
    }
    forall i | 0 <= i < 4 {
      blk[20 + i] := hint[i];
    }
  }

  /** The records written one after the other, then the checksum. */
  method BuildDirectory(names: seq<Name>, limit: nat, parentHint: nat, crc: Bytes -> Word) returns (blk: array<Byte>)
    requires names != [] && (forall i :: 0 <= i < |names| ==> NameOk(names[i])) && parentHint < 0x1_0000_0000
    requires 24 + Needs(names) <= limit <= 4096 && limit % 8 == 0
    ensures fresh(blk) && blk.Length == 4096 && B.Framed(blk[..]) && B.Sealed(blk[..], true, crc)
    ensures B.Entries(blk[..]) == Laid(names, 24, limit)
  {
    hide D.Chain, D.WellAt, D.EntryAt, D.U16, D.U32, D.RecLen, Laid, Needs, D.PutEntry;
    blk := InitDirBlock(parentHint);
    ghost var es := Laid(names, 24, limit);
    var doff := 24;
    for i := 0 to |names|
      invariant blk.Length == 4096 && FreshHeader(blk[..]) && forall k :: 0 <= k < i ==> Held(blk[..], es[k], 4096)
      invariant doff == if i == 0 then 24 else D.Stop(es[i - 1])
      invariant forall k :: 0 <= k < i ==> D.Stop(es[k]) <= doff
      invariant 24 <= doff <= limit && forall p :: doff <= p < 4096 ==> blk[p] == 0
    {
      LaidAt(names, 24, limit, i);
      var rec := if i + 1 < |names| then D.RecLen(|names[i].name|) else limit - doff;
      ghost var b := blk[..];
      B.DirWriteEntry(blk, doff, names[i].ino, names[i].name, FTYPE_DIR, rec);
      Placed(b, blk[..], doff, names[i], rec, es[i]);
      forall k | 0 <= k < i ensures Held(blk[..], es[k], 4096) { HeldStays(b, blk[..], es[k], doff); }
      doff := doff + rec;
    }
    LaidFollows(names, 24, limit);
    LaidAt(names, 24, limit, |names| - 1);
    ghost var c := blk[..];
    HeldChain(c, es, 24, limit, 4096);
    NothingAfter(c, limit);
    B.UpdateDirChecksum(blk, true, crc);
    FreshFrame(c, blk[..]);
  }

  /** A record written into zeros is held, and only its own bytes changed. */
  lemma Placed(b: Bytes, r: Bytes, off: nat, n: Name, rec: nat, e: D.Entry)
    requires FreshHeader(b) && 24 <= off && NameOk(n) && rec % 8 == 0 && D.RecLen(|n.name|) <= rec && off + rec <= 4096
    requires r == D.PutEntry(b, off, n.ino, n.name, FTYPE_DIR, rec) && e == D.Entry(off, rec, n.ino, n.name, FTYPE_DIR)
    ensures Held(r, e, 4096) && FreshHeader(r)
    ensures forall p :: off + rec <= p < 4096 ==> r[p] == b[p]
  {
  }

  lemma HeldStays(b: Bytes, r: Bytes, e: D.Entry, off: nat)
    requires Held(b, e, 4096) && |b| == |r| == 4096 && D.Same(b, r, 0, off) && D.Stop(e) <= off <= 4096
    ensures Held(r, e, 4096)
  {
  }

  /** Zeros are not a record. */
  lemma NothingAfter(b: Bytes, limit: nat)
    requires |b| == 4096 && forall p :: limit <= p < 4096 ==> b[p] == 0
    ensures D.Chain(b, limit, 4096) == []
  {
  }

  lemma FreshFrame(b: Bytes, c: Bytes)
    requires FreshHeader(b) && D.Same(b, c, 0, 16) && D.Same(b, c, 20, 4096)
    ensures B.Framed(c) && B.Entries(c) == D.Chain(b, 24, 4096)
  {
    assert c[8] == b[8] && c[9] == b[9] && c[10] == b[10] && c[11] == b[11] && c[..8] == b[..8];
    D.ChainFrame(b, c, 24, 4096);
  }

  // ---------- the new image ----------

  function Dot(): Bytes { [0x2E] }

  function DotDot(): Bytes { [0x2E, 0x2E] }

  /** bin, dev, mnt, home, tmp. */
  function BaseName(i: nat): (n: Bytes)
    ensures 3 <= |n| <= 4 && 0 !in n
  {
    if i == 0 then [0x62, 0x69, 0x6E] else if i == 1 then [0x64, 0x65, 0x76] else if i == 2 then [0x6D, 0x6E, 0x74]
    else if i == 3 then [0x68, 0x6F, 0x6D, 0x65] else [0x74, 0x6D, 0x70]
  }

  /** A directory's own records and then the base directories. */
  function DirNames(self: nat, base: nat): (ns: seq<Name>)
    ensures |ns| == 2 + base && ns[0] == Name(Dot(), self) && ns[1] == Name(DotDot(), 1)
    ensures forall i :: 0 <= i < base ==> ns[2 + i] == Name(BaseName(i), 3 + i)
  {
    [Name(Dot(), self), Name(DotDot(), 1)] + seq(base, i requires 0 <= i < base => Name(BaseName(i), 3 + i))
  }

  lemma {:induction false} SmallNeeds(ns: seq<Name>)
    requires forall i :: 0 <= i < |ns| ==> |ns[i].name| <= 4
    ensures Needs(ns) <= 16 * |ns|
  {
    if ns != [] { SmallNeeds(ns[1..]); }
  }

  lemma DirNamesOk(self: nat, base: nat)
    requires 0 < self <= 7 && base <= 5
    ensures Needs(DirNames(self, base)) <= 112
    ensures forall i :: 0 <= i < |DirNames(self, base)| ==>
            NameOk(DirNames(self, base)[i]) && DirNames(self, base)[i].ino < 8
    ensures forall i :: 0 <= i < |DirNames(self, base)| ==>
            DirNames(self, base)[i].ino == self || DirNames(self, base)[i].ino == 1
            || 3 <= DirNames(self, base)[i].ino < 3 + base
  {
    var ns := DirNames(self, base);
    forall i | 0 <= i < |ns| ensures |ns[i].name| <= 4 {
      if i >= 2 { assert ns[2 + (i - 2)] == Name(BaseName(i - 2), 3 + (i - 2)); }
    }
    forall i | 0 <= i < |ns|
      ensures NameOk(ns[i]) && (ns[i].ino == self || ns[i].ino == 1 || 3 <= ns[i].ino < 3 + base) {
      if i >= 2 { assert ns[2 + (i - 2)] == Name(BaseName(i - 2), 3 + (i - 2)); }
    }
    SmallNeeds(ns);
  }

  lemma {:induction false} LookupIsEntry(es: seq<D.Entry>, n: Bytes)
    ensures D.Lookup(es, n).Some? ==> exists k :: 0 <= k < |es| && es[k].ino == D.Lookup(es, n).value
    decreases |es|
  {
    if es != [] && !D.Binds(es[|es| - 1], n) {
      LookupIsEntry(es[..|es| - 1], n);
      if D.Lookup(es, n).Some? {
        var k :| 0 <= k < |es| - 1 && es[..|es| - 1][k].ino == D.Lookup(es, n).value;
        assert es[k].ino == D.Lookup(es, n).value;
      }
    }
  }

  /** The name does not lead to a file. */
  ghost predicate NoFile(fs: Fs, d: nat, n: Bytes, crc: Bytes -> Word) {
    DirOk(fs, d, true, crc) && var r := D.Lookup(Names(fs, d), n);
    r.Some? && r.value < |fs.inodes| ==> !fs.inodes[r.value].isFile
  }

  /** A fresh directory is one a file can be copied into, and has none yet. */
  lemma FreshDirOk(fs: Fs, lay: Layout, base: nat, dir: nat, names: nat, limit: nat, crc: Bytes -> Word)
    requires FreshFs(fs, lay, base) && (dir == 1 || 3 <= dir < 3 + base) && names <= base
    requires 24 + Needs(DirNames(dir, names)) <= limit <= 4096 && limit % 8 == 0
    requires var b := lay.dataStart + (if dir == 1 then 0 else dir - 2);
             B.Framed(fs.disk[b]) && B.Sealed(fs.disk[b], true, crc)
             && B.Entries(fs.disk[b]) == Laid(DirNames(dir, names), 24, limit)
    ensures DirOk(fs, dir, true, crc) && forall n: Bytes :: NoFile(fs, dir, n, crc)
  {
    hide B.Entries, D.TargetOf, Laid, Needs;
    assert InUse(fs, dir) && fs.inodes[dir] == InodeFor(lay.dataStart, base, dir);
    var es, ns := Names(fs, dir), DirNames(dir, names);
    DirNamesOk(dir, names);
    forall n: Bytes ensures Leads(fs, es, n)
      && var r := D.Lookup(es, n); r.Some? && r.value < |fs.inodes| ==> !fs.inodes[r.value].isFile {
      LookupIsEntry(es, n);
      if D.Lookup(es, n).Some? {
        var k :| 0 <= k < |es| && es[k].ino == D.Lookup(es, n).value;
        LaidAt(ns, 24, limit, k);
      }
    }
  }

  // ---------- where names lead in the new image ----------

  /** The bytes of a name. */
  function Ascii(s: string): (b: Bytes)
    ensures |b| == |s|
  {
    seq<Byte>(|s|, i requires 0 <= i < |s| => s[i] as int % 256)
  }

  /** In directory d the name leads to directory ino. */
  ghost predicate Finds(fs: Fs, d: nat, name: string, ino: nat, crc: Bytes -> Word) {
    DirOk(fs, d, true, crc) && D.TargetOf(Names(fs, d), Ascii(name)) == Some(D.Target(ino, FTYPE_DIR))
    && InUse(fs, ino) && !fs.inodes[ino].isFile
  }

  const BASE_DIRS: seq<string> := ["bin", "dev", "mnt", "home", "tmp"]

  /** "." leads every directory to itself and ".." to the root, and the root names the base directories. */
  ghost predicate Tree(fs: Fs, base: nat, crc: Bytes -> Word) {
    base <= 5 && Finds(fs, 1, ".", 1, crc) && Finds(fs, 1, "..", 1, crc)
    && forall i: nat :: i < base ==> Branch(fs, i, crc)
  }

  ghost predicate Branch(fs: Fs, i: nat, crc: Bytes -> Word) {
    i < 5 && Finds(fs, 1, BASE_DIRS[i], 3 + i, crc) && Finds(fs, 3 + i, ".", 3 + i, crc)
    && Finds(fs, 3 + i, "..", 1, crc)
  }

  lemma Spelled()
    ensures Ascii(".") == Dot() && Ascii("..") == DotDot()
    ensures forall i: nat :: i < 5 ==> Ascii(BASE_DIRS[i]) == BaseName(i)
    ensures Ascii(".") != Ascii("..") && forall i: nat :: i < 5 ==> Ascii(BASE_DIRS[i]) !in {Ascii("."), Ascii("..")}
    ensures forall i: nat, j: nat :: i < j < 5 ==> BaseName(i) != BaseName(j)
  {
    forall i: nat | i < 5 ensures Ascii(BASE_DIRS[i]) == BaseName(i) {}
    assert BaseName(0)[0] == 0x62 && BaseName(1)[0] == 0x64 && BaseName(2)[0] == 0x6D && BaseName(3)[0] == 0x68
           && BaseName(4)[0] == 0x74;
  }

  /** The names of a fresh directory lead to their inodes. */
  lemma FreshFinds(es: seq<D.Entry>, self: nat, names: nat, limit: nat, k: nat)
    requires 0 < self <= 7 && names <= 5 && 24 + Needs(DirNames(self, names)) <= limit && limit % 8 == 0
    requires es == Laid(DirNames(self, names), 24, limit) && k < 2 + names
    ensures D.TargetOf(es, DirNames(self, names)[k].name) == Some(D.Target(DirNames(self, names)[k].ino, FTYPE_DIR))
  {
    hide Laid, Needs, D.TargetOf;
    var ns := DirNames(self, names);
    DirNamesOk(self, names);
    Spelled();
    forall j: nat | j < |ns| ensures es[j].ino == ns[j].ino && D.CStr(es[j].name) == ns[j].name
      && es[j].ftype == FTYPE_DIR {
      LaidAt(ns, 24, limit, j);
      D.CStrWhole(ns[j].name);
    }
    forall j | k < j < |es| ensures !D.Binds(es[j], ns[k].name) {
      assert ns[j] == Name(if j == 1 then DotDot() else BaseName(j - 2), ns[j].ino);
      if k >= 2 { assert ns[k].name == BaseName(k - 2); }
    }
    D.LookupLast(es, ns[k].name, k);
  }

  lemma FoundIn(v: Volume, base: nat, d: nat, names: nat, limit: nat, k: nat, name: string, ino: nat,
      crc: Bytes -> Word)
    requires VolumeOk(v) && FreshFs(FsOf(v), v.lay, base) && MadeDir(base, d) && MadeDir(base, ino)
    requires DirOk(FsOf(v), d, true, crc) && limit % 8 == 0
    requires var b := v.lay.dataStart + (if d == 1 then 0 else d - 2);
             b < |v.disk| && DirBlockFor(v.disk[b], d, names, limit, crc)
    requires k < 2 + names && DirNames(d, names)[k] == Name(Ascii(name), ino)
    ensures Finds(FsOf(v), d, name, ino, crc)
  {
    hide Consistent, B.Entries, B.Sealed, B.Framed, Laid, Needs, Bits, D.TargetOf, FreshFs, DirNames, Ascii, Leads;
    FreshNames(v, base, d);
    FreshNames(v, base, ino);
    FreshFinds(Names(FsOf(v), d), d, names, limit, k);
  }

  lemma FreshTree(v: Volume, base: nat, crc: Bytes -> Word)
    requires VolumeOk(v) && FreshFs(FsOf(v), v.lay, base) && v.lay.dataStart < |v.disk|
    requires DirBlockFor(v.disk[v.lay.dataStart], 1, base, 4096, crc)
    requires forall i: nat :: i < base ==> SubDirAt(v.disk, v.lay.dataStart, i, crc)
    requires forall d: nat :: MadeDir(base, d) ==> DirOk(FsOf(v), d, true, crc)
    ensures Tree(FsOf(v), base, crc)
  {
    hide DirOk, DirBlockFor, Bits, FreshFs, Ascii, Finds, VolumeOk;
    Spelled();
    assert base <= 5 by { FewNames(v.disk[v.lay.dataStart], 1, base, 4096, crc); }
    FoundIn(v, base, 1, base, 4096, 0, ".", 1, crc);
    FoundIn(v, base, 1, base, 4096, 1, "..", 1, crc);
    forall i: nat | i < base ensures Branch(FsOf(v), i, crc) {
      assert SubDirAt(v.disk, v.lay.dataStart, i, crc);
      FoundIn(v, base, 1, base, 4096, 2 + i, BASE_DIRS[i], 3 + i, crc);
      FoundIn(v, base, 3 + i, 0, 4072, 0, ".", 3 + i, crc);
      FoundIn(v, base, 3 + i, 0, 4072, 1, "..", 1, crc);
    }
  }

  lemma FewNames(b: Bytes, self: nat, names: nat, limit: nat, crc: Bytes -> Word)
    requires DirBlockFor(b, self, names, limit, crc)
    ensures names <= 5
  {
  }

  /** The block in which a fresh directory has its records. */
  lemma FreshNames(v: Volume, base: nat, d: nat)
    requires VolumeOk(v) && FreshFs(FsOf(v), v.lay, base) && MadeDir(base, d)
    ensures var fs := FsOf(v);
            InUse(fs, d) && !fs.inodes[d].isFile && |fs.inodes[d].extents| > 0
            && DirBlockOf(fs.inodes[d]) == v.lay.dataStart + if d == 1 then 0 else d - 2
  {
    hide Bits;
    assert FsOf(v).inodes[d] == InodeFor(v.lay.dataStart, base, d);
  }

  /** A file system as raw metadata bytes, inode table and blocks. */
  datatype Volume = Volume(lay: Layout, bbBlocks: nat, ibBlocks: nat, used: seq<bv8>, inoUsed: seq<bv8>,
                           table: seq<Inode>, disk: seq<Bytes>)

  ghost predicate VolumeOk(v: Volume) {
    |v.used| == v.bbBlocks * 4096 && |v.inoUsed| == v.ibBlocks * 4096 && |v.table| == v.lay.inodeCount <= 0x1_0000_0000
  }

  ghost function FsOf(v: Volume): (fs: Fs)
    requires VolumeOk(v)
  {
    Fs(Bits(v.used, v.bbBlocks), Bits(v.inoUsed, v.ibBlocks), v.table, v.disk)
  }

  /** Which inodes mkfs makes directories. */
  predicate MadeDir(base: nat, d: nat) { d == 1 || 3 <= d < 3 + base }

  /** mkfs_partition: it succeeds on every partition of 64 blocks or more, and the result is consistent, its used blocks
      are exactly the first ones, and every directory it makes is ready for copies. */
  method MkfsPartition(total: nat, inodes: nat, createRoot: bool, device: seq<Bytes>, crc: Bytes -> Word)
    returns (ok: bool, v: Volume)
    requires total + 32607 < 0x1_0000_0000 && inodes + 32607 < 0x1_0000_0000
    requires |device| == total && forall b :: 0 <= b < |device| ==> |device[b]| == 4096
    ensures ok <==> total >= 64
    ensures ok ==> VolumeOk(v) && Consistent(FsOf(v), v.lay)
    ensures ok ==> Prefix(FsOf(v).used, v.lay.dataStart + if createRoot then 6 else 1)
    ensures ok ==> forall d: nat :: MadeDir(if createRoot then 5 else 0, d) ==> DirOk(FsOf(v), d, true, crc)
    ensures ok ==> Tree(FsOf(v), if createRoot then 5 else 0, crc)
    ensures ok ==> forall d: nat, n: Bytes :: MadeDir(if createRoot then 5 else 0, d) ==> NoFile(FsOf(v), d, n, crc)
    ensures ok ==> MostInodes(total, inodes, if createRoot then 6 else 1, v.lay.inodeCount)
                   && var sb := LayoutFor(total, v.lay.inodeCount);
                      v.lay == Layout(sb.dataStart, sb.dataBlocks, sb.inodeCount) && LayoutSane(sb, total)
                      && v.bbBlocks == sb.bbBlocks && v.ibBlocks == sb.ibBlocks
  {
    hide Consistent, DirOk, Tree, NoFile, MostInodes, LayoutFor, LayoutSane, FreshFs, Prefix, DirBlockFor, SubDirAt,
         InodeFor;
    var base := if createRoot then 5 else 0;
    v := Volume(Layout(0, 0, 0), 0, 0, [], [], [], []);
    var sb;
    ok, sb := ChooseLayout(total, inodes, 1 + base);
    if !ok {
      return;
    }
    LayoutRoom(total, sb, 1 + base);
    var bm, im := BuildBitmaps(sb, base);
    var table := BuildTable(sb.inodeCount, sb.dataStart, base);
    var lay := Layout(sb.dataStart, sb.dataBlocks, sb.inodeCount);
    var disk := WriteDirs(device, sb.dataStart, base, crc);
    v := Volume(lay, sb.bbBlocks, sb.ibBlocks, bm.mem[..], im.mem[..], table, disk);
    IsFresh(FsOf(v), lay, base);
    Ready(v, base, crc);
  }

  /** The bitmaps, marked from their first bit on. */
  method BuildBitmaps(sb: Super, base: nat) returns (bm: BitmapMem, im: BitmapMem)
    requires sb.ibStart == 2 + sb.bbBlocks && sb.itStart == sb.ibStart + sb.ibBlocks
             && sb.dataStart == sb.itStart + sb.itBlocks
    requires sb.dataStart + 1 + base <= sb.bbBlocks * 32608 && 3 + base <= sb.ibBlocks * 32608
    ensures bm.Valid() && bm.blocks == sb.bbBlocks && Prefix(bm.View(), sb.dataStart + 1 + base)
    ensures im.Valid() && im.blocks == sb.ibBlocks && Prefix(im.View(), 3 + base)
  {
    hide Prefix, Bits;
    bm := EmptyBitmap(sb.bbBlocks);
    MarkRun(bm, 0, 2);
    MarkRun(bm, 2, sb.bbBlocks);
    MarkRun(bm, sb.ibStart, sb.ibBlocks);
    MarkRun(bm, sb.itStart, sb.itBlocks);
    MarkRun(bm, sb.dataStart, 1);
    MarkRun(bm, sb.dataStart + 1, base);
    im := EmptyBitmap(sb.ibBlocks);
    MarkRun(im, 0, 3);
    MarkRun(im, 3, base);
  }

  lemma Ready(v: Volume, base: nat, crc: Bytes -> Word)
    requires VolumeOk(v) && FreshFs(FsOf(v), v.lay, base) && v.lay.dataStart < |v.disk|
    requires DirBlockFor(v.disk[v.lay.dataStart], 1, base, 4096, crc)
    requires forall i: nat :: i < base ==> SubDirAt(v.disk, v.lay.dataStart, i, crc)
    ensures Consistent(FsOf(v), v.lay)
    ensures forall d: nat :: MadeDir(base, d) ==> DirOk(FsOf(v), d, true, crc)
    ensures Tree(FsOf(v), base, crc)
    ensures forall d: nat, n: Bytes :: MadeDir(base, d) ==> NoFile(FsOf(v), d, n, crc)
  {
    hide Consistent, DirOk, Tree, NoFile, B.Entries, B.Sealed, B.Framed, Laid, Needs, Bits, FreshFs;
    FreshConsistent(FsOf(v), v.lay, base);
    forall d: nat | MadeDir(base, d)
      ensures DirOk(FsOf(v), d, true, crc) && forall n: Bytes :: NoFile(FsOf(v), d, n, crc)
    {
      if d == 1 {
        FreshDirOk(FsOf(v), v.lay, base, 1, base, 4096, crc);
      } else {
        assert SubDirAt(v.disk, v.lay.dataStart, d - 3, crc);
        FreshDirOk(FsOf(v), v.lay, base, d, 0, 4072, crc);
      }
    }
    FreshTree(v, base, crc);
  }

  lemma LayoutRoom(total: nat, sb: Super, needed: nat)
    requires sb == LayoutFor(total, sb.inodeCount) && LayoutFits(sb, needed) && total + 32607 < 0x1_0000_0000
    requires sb.inodeCount + 32607 < 0x1_0000_0000 && sb.inodeCount >= 8
    ensures sb.ibStart == 2 + sb.bbBlocks && sb.itStart == sb.ibStart + sb.ibBlocks
            && sb.dataStart == sb.itStart + sb.itBlocks
    ensures sb.dataStart + needed <= sb.usable <= sb.bbBlocks * 32608 && sb.inodeCount <= sb.ibBlocks * 32608
    ensures sb.dataStart + sb.dataBlocks == sb.usable <= total && sb.ibBlocks >= 1
  {
  }

  lemma IsFresh(fs: Fs, lay: Layout, base: nat)
    requires base <= 5 && lay.inodeCount >= 8 && |fs.inodes| == lay.inodeCount <= |fs.inoUsed|
    requires forall i: nat :: i < lay.inodeCount ==> fs.inodes[i] == InodeFor(lay.dataStart, base, i)
    requires Prefix(fs.used, lay.dataStart + 1 + base) && Prefix(fs.inoUsed, 3 + base)
    requires DataEnd(lay) <= |fs.used| && 1 + base <= lay.dataBlocks
    requires DataEnd(lay) <= |fs.disk| && forall b: nat :: b < |fs.disk| ==> |fs.disk[b]| == 4096
    ensures FreshFs(fs, lay, base)
  {
  }

  /** The inode table: zeroed, then the root, the orphan file and the base directories. */
  method BuildTable(count: nat, dataStart: nat, base: nat) returns (t: seq<Inode>)
    requires count >= 8 && base <= 5
    ensures |t| == count && forall i: nat :: i < count ==> t[i] == InodeFor(dataStart, base, i)
  {
    t := seq(count, i => Inode(false, 0, []));
    t := t[1 := Inode(false, 4096, [Extent(0, dataStart, 1)])];
    t := t[2 := Inode(true, 0, [])];
    for i := 0 to base
      invariant |t| == count && forall k: nat :: k < count ==> t[k] == InodeFor(dataStart, i, k)
    {
      t := t[3 + i := Inode(false, 4096, [Extent(0, dataStart + 1 + i, 1)])];
    }
  }

  /** What a directory block holds. */
  ghost predicate DirBlockFor(b: Bytes, self: nat, names: nat, limit: nat, crc: Bytes -> Word) {
    0 < self <= 7 && names <= 5 && 24 + Needs(DirNames(self, names)) <= limit
    && B.Framed(b) && B.Sealed(b, true, crc) && B.Entries(b) == Laid(DirNames(self, names), 24, limit)
  }

  /** The block of base directory i. */
  ghost predicate SubDirAt(disk: seq<Bytes>, dataStart: nat, i: nat, crc: Bytes -> Word) {
    dataStart + 1 + i < |disk| && i < 5 && DirBlockFor(disk[dataStart + 1 + i], 3 + i, 0, 4072, crc)
  }

  /** The directory blocks written to the device: the root's first, then those of the base directories. */
  method WriteDirs(device: seq<Bytes>, dataStart: nat, base: nat, crc: Bytes -> Word) returns (disk: seq<Bytes>)
    requires base <= 5 && dataStart + 1 + base <= |device| && forall b :: 0 <= b < |device| ==> |device[b]| == 4096
    ensures |disk| == |device| && forall b :: 0 <= b < |disk| ==> |disk[b]| == 4096
    ensures DirBlockFor(disk[dataStart], 1, base, 4096, crc)
            && forall i: nat :: i < base ==> SubDirAt(disk, dataStart, i, crc)
  {
    hide B.Entries, B.Sealed, B.Framed, Laid, Needs, DirNames;
    DirNamesOk(1, base);
    var blk := BuildDirectory(DirNames(1, base), 4096, 1, crc);
    disk := device[dataStart := blk[..]];
    for i := 0 to base
      invariant |disk| == |device| && forall b :: 0 <= b < |disk| ==> |disk[b]| == 4096
      invariant DirBlockFor(disk[dataStart], 1, base, 4096, crc)
      invariant forall k: nat :: k < i ==> SubDirAt(disk, dataStart, k, crc)
    {
      DirNamesOk(3 + i, 0);
      blk := BuildDirectory(DirNames(3 + i, 0), 4072, 1, crc);
      ghost var before := disk;
      disk := disk[dataStart + 1 + i := blk[..]];
      forall k: nat | k < i ensures SubDirAt(disk, dataStart, k, crc) { assert SubDirAt(before, dataStart, k, crc); }
      assert SubDirAt(disk, dataStart, i, crc);
    }
  }
}
