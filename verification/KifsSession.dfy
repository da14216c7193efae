/** mkfs_kifs followed by any number of kifs_cp runs on the same partition. */
module KifsSession {
  import opened Base
  import opened KifsBitmap
  import opened KifsModel
  import opened KifsCopy
  import opened Mkfs
  import opened MkfsDirs
  import D = DirRecords
  import B = DirBlock

  datatype Job = Job(dir: nat, name: Bytes, data: Bytes)

  predicate JobOk(j: Job) { |j.name| < 256 && 0 !in j.name }

  /** The volume is sound, all of the given directories take copies, and their names lead where they should. */
  ghost predicate Sound(v: Volume, base: nat, crc: Bytes -> Word) {
    VolumeOk(v) && Consistent(FsOf(v), v.lay) && Tree(FsOf(v), base, crc)
    && forall d: nat :: MadeDir(base, d) ==> DirOk(FsOf(v), d, true, crc)
  }

  /** A directory that is not written to stays as good as it was. */
  lemma OtherDirOk(fs: Fs, g: Fs, lay: Layout, d: nat, crc: Bytes -> Word)
    requires Consistent(fs, lay) && DirOk(fs, d, true, crc) && |g.inodes| == |fs.inodes|
    requires InUse(g, d) && g.inodes[d] == fs.inodes[d] && SameBlocks(fs, g.disk, d)
    requires forall i: nat :: InUse(fs, i) ==> InUse(g, i)
    ensures DirOk(g, d, true, crc)
  {
    hide B.Entries, D.TargetOf, B.Sealed, B.Framed, Consistent;
    DirOwns(fs, lay, d);
    forall n: Bytes ensures Leads(g, Names(g, d), n) { assert Leads(fs, Names(fs, d), n); }
  }

  lemma CopyKeepsDirs(fs: Fs, g: Fs, lay: Layout, dir: nat, ino: nat, name: Bytes, data: Bytes, d: nat,
      crc: Bytes -> Word)
    requires Consistent(fs, lay) && DirOk(fs, dir, true, crc) && DirOk(fs, d, true, crc)
    requires Copied(fs, g, lay, dir, ino, name, data, true, crc)
    ensures DirOk(g, d, true, crc)
  {
    hide DirOk, Consistent, FileBytes, Readable;
    CopyFacts(fs, g, lay, dir, ino, name, data, d, crc);
    if d != dir { OtherDirOk(fs, g, lay, d, crc); }
  }

  lemma CopyFacts(fs: Fs, g: Fs, lay: Layout, dir: nat, ino: nat, name: Bytes, data: Bytes, d: nat, crc: Bytes -> Word)
    requires Consistent(fs, lay) && DirOk(fs, dir, true, crc) && DirOk(fs, d, true, crc)
    requires Copied(fs, g, lay, dir, ino, name, data, true, crc)
    ensures |g.inodes| == |fs.inodes| && (forall i: nat :: InUse(fs, i) ==> InUse(g, i)) && InUse(fs, d)
    ensures d != dir ==> InUse(g, d) && g.inodes[d] == fs.inodes[d] && SameBlocks(fs, g.disk, d)
    ensures DirOk(g, dir, true, crc)
  {
  }

  /** A name of a directory still leads there after a copy: files do not take the names of directories. */
  lemma CopyKeepsFinds(fs: Fs, g: Fs, lay: Layout, dir: nat, ino: nat, name: Bytes, data: Bytes, d: nat, n: string,
      at: nat, crc: Bytes -> Word)
    requires Consistent(fs, lay) && DirOk(fs, dir, true, crc) && Finds(fs, d, n, at, crc)
    requires CanCopy(fs, lay, dir, name, |data|, true, crc)
    requires Copied(fs, g, lay, dir, ino, name, data, true, crc)
    ensures Finds(g, d, n, at, crc)
  {
    hide DirOk, Consistent, FileBytes, Readable, Ascii, B.Entries, B.Framed, D.TargetOf, Image.Fits, B.Room,
         HasFreeInode;
    CopyKeepsDirs(fs, g, lay, dir, ino, name, data, d, crc);
    CopyFacts(fs, g, lay, dir, ino, name, data, d, crc);
    assert at != ino && KeptFile(fs, g, at, dir);
    if d != dir { SameNames(fs, g, lay, d, crc); }
  }

  lemma SameNames(fs: Fs, g: Fs, lay: Layout, d: nat, crc: Bytes -> Word)
    requires Consistent(fs, lay) && DirOk(fs, d, true, crc) && DirOk(g, d, true, crc)
    requires |g.inodes| == |fs.inodes| && g.inodes[d] == fs.inodes[d] && SameBlocks(fs, g.disk, d)
    ensures Names(g, d) == Names(fs, d)
  {
    hide B.Entries, B.Sealed, B.Framed, Consistent, D.TargetOf;
    DirOwns(fs, lay, d);
  }

  lemma CopyKeepsTree(fs: Fs, g: Fs, lay: Layout, dir: nat, ino: nat, name: Bytes, data: Bytes, base: nat,
      crc: Bytes -> Word)
    requires Consistent(fs, lay) && DirOk(fs, dir, true, crc) && Tree(fs, base, crc)
    requires CanCopy(fs, lay, dir, name, |data|, true, crc)
    requires Copied(fs, g, lay, dir, ino, name, data, true, crc)
    ensures Tree(g, base, crc)
  {
    hide DirOk, Consistent, CanCopy, Copied, Finds;
    CopyKeepsFinds(fs, g, lay, dir, ino, name, data, 1, ".", 1, crc);
    CopyKeepsFinds(fs, g, lay, dir, ino, name, data, 1, "..", 1, crc);
    forall i: nat | i < base ensures Branch(g, i, crc) {
      assert Branch(fs, i, crc);
      CopyKeepsFinds(fs, g, lay, dir, ino, name, data, 1, BASE_DIRS[i], 3 + i, crc);
      CopyKeepsFinds(fs, g, lay, dir, ino, name, data, 3 + i, ".", 3 + i, crc);
      CopyKeepsFinds(fs, g, lay, dir, ino, name, data, 3 + i, "..", 1, crc);
    }
  }

  lemma UndisturbedFinds(fs: Fs, g: Fs, lay: Layout, d: nat, n: string, at: nat, crc: Bytes -> Word)
    requires Consistent(fs, lay) && Finds(fs, d, n, at, crc) && Undisturbed(fs, g)
    ensures Finds(g, d, n, at, crc)
  {
    hide DirOk, Consistent, FileBytes, Readable, Ascii, B.Entries, B.Framed, D.TargetOf;
    UndisturbedDir(fs, g, lay, d, crc);
    assert InUse(fs, d) by { DirInUse(fs, d, crc); }
    SameNames(fs, g, lay, d, crc);
  }

  lemma DirInUse(fs: Fs, d: nat, crc: Bytes -> Word)
    requires DirOk(fs, d, true, crc)
    ensures InUse(fs, d)
  {
  }

  lemma UndisturbedTree(fs: Fs, g: Fs, lay: Layout, base: nat, crc: Bytes -> Word)
    requires Consistent(fs, lay) && Tree(fs, base, crc) && Undisturbed(fs, g)
    ensures Tree(g, base, crc)
  {
    hide DirOk, Consistent, Undisturbed, Finds;
    UndisturbedFinds(fs, g, lay, 1, ".", 1, crc);
    UndisturbedFinds(fs, g, lay, 1, "..", 1, crc);
    forall i: nat | i < base ensures Branch(g, i, crc) {
      assert Branch(fs, i, crc);
      UndisturbedFinds(fs, g, lay, 1, BASE_DIRS[i], 3 + i, crc);
      UndisturbedFinds(fs, g, lay, 3 + i, ".", 3 + i, crc);
      UndisturbedFinds(fs, g, lay, 3 + i, "..", 1, crc);
    }
  }

  /** One run of kifs_cp: the image opened, the file copied, the image closed. */
  method CopyJob(v: Volume, j: Job, crc: Bytes -> Word, ghost base: nat) returns (ok: bool, ghost ino: nat, w: Volume)
    requires Sound(v, base, crc) && JobOk(j) && MadeDir(base, j.dir)
    ensures Sound(w, base, crc) && w.lay == v.lay
    ensures ok <==> CanCopy(FsOf(v), v.lay, j.dir, j.name, |j.data|, true, crc)
    ensures ok ==> Copied(FsOf(v), FsOf(w), v.lay, j.dir, ino, j.name, j.data, true, crc)
    ensures !ok ==> Undisturbed(FsOf(v), FsOf(w))
  {
    hide Consistent, DirOk, Copied, Undisturbed, CanCopy, Bits, Tree;
    var img := new Image(v.lay, v.bbBlocks, v.ibBlocks, v.used, v.inoUsed, v.table, v.disk);
    var n;
    ok, n := CopyFile(img, j.dir, j.name, j.data, true, crc);
    ino := n;
    w := Volume(v.lay, v.bbBlocks, v.ibBlocks, img.diskUsed, img.diskInoUsed, img.diskInodes, img.disk);
    if ok {
      CopiedConsistent(FsOf(v), FsOf(w), v.lay, j, ino, crc);
      forall d: nat | MadeDir(base, d) ensures DirOk(FsOf(w), d, true, crc) {
        CopyKeepsDirs(FsOf(v), FsOf(w), v.lay, j.dir, ino, j.name, j.data, d, crc);
      }
      CopyKeepsTree(FsOf(v), FsOf(w), v.lay, j.dir, ino, j.name, j.data, base, crc);
    } else {
      forall d: nat | MadeDir(base, d) ensures DirOk(FsOf(w), d, true, crc) {
        UndisturbedDir(FsOf(v), FsOf(w), v.lay, d, crc);
      }
      UndisturbedConsistent(FsOf(v), FsOf(w), v.lay);
      UndisturbedTree(FsOf(v), FsOf(w), v.lay, base, crc);
    }
  }

  lemma UndisturbedDir(fs: Fs, g: Fs, lay: Layout, d: nat, crc: Bytes -> Word)
    requires Consistent(fs, lay) && DirOk(fs, d, true, crc) && Undisturbed(fs, g)
    ensures DirOk(g, d, true, crc)
  {
    hide Consistent, FileBytes, Readable, B.Entries, B.Framed, B.Sealed, D.TargetOf;
    forall i: nat ensures InUse(fs, i) <==> InUse(g, i) {}
    OtherDirOk(fs, g, lay, d, crc);
  }

  lemma UndisturbedConsistent(fs: Fs, g: Fs, lay: Layout)
    requires Consistent(fs, lay) && Undisturbed(fs, g)
    ensures Consistent(g, lay)
  {
    hide Expand, FileBytes, Readable, InOrder;
    forall i: nat ensures InUse(fs, i) <==> InUse(g, i) {}
    forall b: nat ensures InArea(fs, lay, b) ==> InArea(g, lay, b) {}
    forall b: nat ensures Owned(fs, b) <==> Owned(g, b) {
      if Owned(fs, b) {
        var i: nat :| InUse(fs, i) && b in OwnBlocks(fs, i);
        assert InUse(g, i) && b in OwnBlocks(g, i);
      }
      if Owned(g, b) {
        var i: nat :| InUse(g, i) && b in OwnBlocks(g, i);
        assert InUse(fs, i) && b in OwnBlocks(fs, i);
      }
    }
  }

  lemma CopiedConsistent(fs: Fs, g: Fs, lay: Layout, j: Job, ino: nat, crc: Bytes -> Word)
    requires DirOk(fs, j.dir, true, crc) && Copied(fs, g, lay, j.dir, ino, j.name, j.data, true, crc)
    ensures Consistent(g, lay)
  {
  }

  lemma MadeSound(v: Volume, base: nat, crc: Bytes -> Word)
    requires VolumeOk(v) && Consistent(FsOf(v), v.lay) && Tree(FsOf(v), base, crc)
             && forall d: nat :: MadeDir(base, d) ==> DirOk(FsOf(v), d, true, crc)
    ensures Sound(v, base, crc)
  {
  }
}
