/** What a session of mkfs_kifs and kifs_cp leaves for a reader: every name shows the file last copied to it. */
module KifsFiles {
  import opened Base
  import opened KifsBitmap
  import opened KifsModel
  import opened KifsCopy
  import opened Mkfs
  import opened MkfsDirs
  import opened KifsSession
  import D = DirRecords
  import B = DirBlock

  /** In directory d the name leads to a file with these bytes. */
  ghost predicate Shows(fs: Fs, d: nat, n: Bytes, data: Bytes, crc: Bytes -> Word) {
    DirOk(fs, d, true, crc) && var t := D.TargetOf(Names(fs, d), n);
    t.Some? && t.value.ftype == FTYPE_FILE && InUse(fs, t.value.ino) && fs.inodes[t.value.ino].isFile
    && Readable(fs.disk, fs.inodes[t.value.ino]) && FileBytes(fs.disk, fs.inodes[t.value.ino]) == data
  }

  /** In directory d the name leads to file i. */
  ghost predicate LeadsTo(fs: Fs, d: nat, n: Bytes, i: nat, crc: Bytes -> Word) {
    DirOk(fs, d, true, crc) && D.Lookup(Names(fs, d), n) == Some(i) && i < |fs.inodes| && fs.inodes[i].isFile
  }

  /** The name shows what the listing says, or no file when it says nothing. */
  ghost predicate Listed(fs: Fs, d: nat, n: Bytes, files: map<(nat, Bytes), Bytes>, crc: Bytes -> Word) {
    if (d, n) in files then Shows(fs, d, n, files[(d, n)], crc) else NoFile(fs, d, n, crc)
  }

  /** Two names do not lead to the same file. */
  ghost predicate Single(fs: Fs, d: nat, n: Bytes, e: nat, m: Bytes, i: nat, crc: Bytes -> Word) {
    LeadsTo(fs, d, n, i, crc) && LeadsTo(fs, e, m, i, crc) ==> d == e && n == m
  }

  /** The listing is right about every name of every directory, and no file has two names. */
  ghost predicate Files(fs: Fs, base: nat, files: map<(nat, Bytes), Bytes>, crc: Bytes -> Word) {
    && (forall d: nat, n: Bytes :: MadeDir(base, d) ==> Listed(fs, d, n, files, crc))
    && forall d: nat, n: Bytes, e: nat, m: Bytes, i: nat :: MadeDir(base, d) && MadeDir(base, e) ==>
         Single(fs, d, n, e, m, i, crc)
  }

  // ---------------------------------------------------------------- one copy

  /** Another name leads where it led. */
  lemma OtherName(fs: Fs, g: Fs, lay: Layout, dir: nat, ino: nat, name: Bytes, data: Bytes, d: nat, n: Bytes,
      crc: Bytes -> Word)
    requires Consistent(fs, lay) && DirOk(fs, dir, true, crc) && DirOk(fs, d, true, crc)
    requires Copied(fs, g, lay, dir, ino, name, data, true, crc) && (d != dir || n != name)
    ensures DirOk(g, d, true, crc) && D.TargetOf(Names(g, d), n) == D.TargetOf(Names(fs, d), n)
  {
    hide DirOk, Consistent, FileBytes, Readable, B.Entries, B.Framed, D.TargetOf;
    CopyKeepsDirs(fs, g, lay, dir, ino, name, data, d, crc);
    CopyFacts(fs, g, lay, dir, ino, name, data, d, crc);
    if d != dir { SameNames(fs, g, lay, d, crc); }
  }

  /** A name that leads to the inode of the copy leads to the file that the copy replaces. */
  lemma SharesFile(fs: Fs, g: Fs, lay: Layout, dir: nat, ino: nat, name: Bytes, data: Bytes, d: nat, n: Bytes,
      crc: Bytes -> Word)
    requires DirOk(fs, dir, true, crc) && DirOk(fs, d, true, crc)
    requires Copied(fs, g, lay, dir, ino, name, data, true, crc)
    ensures D.Lookup(Names(fs, d), n) == Some(ino) ==>
              LeadsTo(fs, d, n, ino, crc) && LeadsTo(fs, dir, name, ino, crc)
  {
    hide Consistent, FileBytes, Readable, B.Entries, B.Framed, B.Sealed, D.TargetOf;
    assert Leads(fs, Names(fs, d), n);
  }

  lemma SingleAt(fs: Fs, base: nat, files: map<(nat, Bytes), Bytes>, d: nat, n: Bytes, e: nat, m: Bytes, i: nat,
      crc: Bytes -> Word)
    requires Files(fs, base, files, crc) && MadeDir(base, d) && MadeDir(base, e)
    ensures Single(fs, d, n, e, m, i, crc)
  {
  }

  /** Another name does not lead to the inode of the copy, so what it leads to is as it was. */
  lemma OtherKept(fs: Fs, g: Fs, lay: Layout, dir: nat, ino: nat, name: Bytes, data: Bytes, base: nat, d: nat,
      n: Bytes, files: map<(nat, Bytes), Bytes>, crc: Bytes -> Word)
    requires DirOk(fs, dir, true, crc) && DirOk(fs, d, true, crc) && MadeDir(base, d) && MadeDir(base, dir)
    requires Files(fs, base, files, crc) && Copied(fs, g, lay, dir, ino, name, data, true, crc)
    requires d != dir || n != name
    ensures var r := D.Lookup(Names(fs, d), n);
            r.Some? && r.value < |fs.inodes| ==> r.value != ino && KeptFile(fs, g, r.value, dir)
    ensures !fs.inodes[dir].isFile && |g.inodes| == |fs.inodes|
  {
    hide Consistent, FileBytes, Readable, B.Entries, B.Framed, B.Sealed, D.TargetOf, Files, LeadsTo;
    SharesFile(fs, g, lay, dir, ino, name, data, d, n, crc);
    SingleAt(fs, base, files, d, n, dir, name, ino, crc);
    assert Leads(fs, Names(fs, d), n);
  }

  lemma OtherListed(fs: Fs, g: Fs, lay: Layout, dir: nat, ino: nat, name: Bytes, data: Bytes, base: nat, d: nat,
      n: Bytes, files: map<(nat, Bytes), Bytes>, crc: Bytes -> Word)
    requires Consistent(fs, lay) && DirOk(fs, dir, true, crc) && MadeDir(base, d) && MadeDir(base, dir)
    requires Files(fs, base, files, crc) && Copied(fs, g, lay, dir, ino, name, data, true, crc)
    requires d != dir || n != name
    ensures Listed(g, d, n, files, crc)
    ensures forall i: nat :: LeadsTo(g, d, n, i, crc) ==> LeadsTo(fs, d, n, i, crc) && i != ino
  {
    hide DirOk, Consistent, FileBytes, Readable, B.Entries, B.Framed, D.TargetOf, Copied, Files;
    ListedAt(fs, base, d, n, files, crc);
    OtherName(fs, g, lay, dir, ino, name, data, d, n, crc);
    OtherKept(fs, g, lay, dir, ino, name, data, base, d, n, files, crc);
  }

  lemma ListedAt(fs: Fs, base: nat, d: nat, n: Bytes, files: map<(nat, Bytes), Bytes>, crc: Bytes -> Word)
    requires Files(fs, base, files, crc) && MadeDir(base, d)
    ensures Listed(fs, d, n, files, crc)
  {
  }

  lemma LeadsInUse(fs: Fs, d: nat, n: Bytes, crc: Bytes -> Word)
    requires DirOk(fs, d, true, crc)
    ensures var r := D.Lookup(Names(fs, d), n); r.Some? && r.value < |fs.inodes| ==> InUse(fs, r.value)
  {
    hide B.Entries, B.Framed, B.Sealed, D.TargetOf;
    assert Leads(fs, Names(fs, d), n);
  }

  lemma CopyShows(fs: Fs, g: Fs, lay: Layout, dir: nat, ino: nat, name: Bytes, data: Bytes, crc: Bytes -> Word)
    requires DirOk(fs, dir, true, crc) && Copied(fs, g, lay, dir, ino, name, data, true, crc)
    ensures Shows(g, dir, name, data, crc) && D.Lookup(Names(g, dir), name) == Some(ino)
  {
    hide DirOk, Consistent, FileBytes, Readable, B.Entries, B.Framed, D.TargetOf;
  }

  /** A copy puts its file under its name, and every other name shows what it showed. */
  lemma CopyLists(fs: Fs, g: Fs, lay: Layout, dir: nat, ino: nat, name: Bytes, data: Bytes, base: nat,
      files: map<(nat, Bytes), Bytes>, crc: Bytes -> Word)
    requires Consistent(fs, lay) && DirOk(fs, dir, true, crc) && MadeDir(base, dir)
    requires Files(fs, base, files, crc) && Copied(fs, g, lay, dir, ino, name, data, true, crc)
    ensures Files(g, base, files[(dir, name) := data], crc)
  {
    hide DirOk, Consistent, B.Framed, Copied, Listed, LeadsTo, D.TargetOf;
    var now := files[(dir, name) := data];
    CopyShows(fs, g, lay, dir, ino, name, data, crc);
    forall d: nat, n: Bytes | MadeDir(base, d) ensures Listed(g, d, n, now, crc) {
      if d != dir || n != name {
        OtherListed(fs, g, lay, dir, ino, name, data, base, d, n, files, crc);
        SameListing(g, d, n, files, now, crc);
      } else {
        ShownIsListed(g, d, n, now, crc);
      }
    }
    forall d: nat, n: Bytes, e: nat, m: Bytes, i: nat | MadeDir(base, d) && MadeDir(base, e)
      ensures Single(g, d, n, e, m, i, crc)
    {
      if d != dir || n != name { OtherListed(fs, g, lay, dir, ino, name, data, base, d, n, files, crc); }
      if e != dir || m != name { OtherListed(fs, g, lay, dir, ino, name, data, base, e, m, files, crc); }
      OneTarget(g, dir, name, i, ino, crc);
      SingleAt(fs, base, files, d, n, e, m, i, crc);
    }
  }

  lemma OneTarget(g: Fs, dir: nat, name: Bytes, i: nat, ino: nat, crc: Bytes -> Word)
    requires DirOk(g, dir, true, crc) && D.Lookup(Names(g, dir), name) == Some(ino)
    ensures LeadsTo(g, dir, name, i, crc) ==> i == ino
  {
  }

  lemma ShownIsListed(g: Fs, d: nat, n: Bytes, files: map<(nat, Bytes), Bytes>, crc: Bytes -> Word)
    requires (d, n) in files && Shows(g, d, n, files[(d, n)], crc)
    ensures Listed(g, d, n, files, crc)
  {
  }

  lemma SameListing(g: Fs, d: nat, n: Bytes, files: map<(nat, Bytes), Bytes>, now: map<(nat, Bytes), Bytes>,
      crc: Bytes -> Word)
    requires Listed(g, d, n, files, crc) && ((d, n) in files <==> (d, n) in now)
    requires (d, n) in files ==> now[(d, n)] == files[(d, n)]
    ensures Listed(g, d, n, now, crc)
  {
  }

  /** A copy that fails changes nothing a reader sees. */
  lemma FailureLists(fs: Fs, g: Fs, lay: Layout, base: nat, files: map<(nat, Bytes), Bytes>, crc: Bytes -> Word)
    requires Consistent(fs, lay) && Undisturbed(fs, g) && Files(fs, base, files, crc)
    requires forall d: nat :: MadeDir(base, d) ==> DirOk(fs, d, true, crc)
    ensures Files(g, base, files, crc)
  {
    hide DirOk, Consistent, Undisturbed, Listed, LeadsTo;
    forall d: nat, n: Bytes | MadeDir(base, d) ensures Listed(g, d, n, files, crc) {
      assert Listed(fs, d, n, files, crc);
      UndisturbedName(fs, g, lay, d, n, files, crc);
    }
    forall d: nat, n: Bytes, e: nat, m: Bytes, i: nat | MadeDir(base, d) && MadeDir(base, e)
      ensures Single(g, d, n, e, m, i, crc)
    {
      assert Single(fs, d, n, e, m, i, crc) && Listed(fs, d, n, files, crc) && Listed(fs, e, m, files, crc);
      UndisturbedName(fs, g, lay, d, n, files, crc);
      UndisturbedName(fs, g, lay, e, m, files, crc);
    }
  }

  lemma UndisturbedName(fs: Fs, g: Fs, lay: Layout, d: nat, n: Bytes, files: map<(nat, Bytes), Bytes>,
      crc: Bytes -> Word)
    requires Consistent(fs, lay) && Undisturbed(fs, g) && DirOk(fs, d, true, crc) && Listed(fs, d, n, files, crc)
    ensures Listed(g, d, n, files, crc) && forall i: nat :: LeadsTo(g, d, n, i, crc) ==> LeadsTo(fs, d, n, i, crc)
  {
    hide DirOk, Consistent, FileBytes, Readable, B.Entries, B.Framed, D.TargetOf, Leads;
    UndisturbedDir(fs, g, lay, d, crc);
    DirInUse(fs, d, crc);
    SameNames(fs, g, lay, d, crc);
    LeadsInUse(fs, d, n, crc);
  }

  // ---------------------------------------------------------------- a session

  /** The listing after the jobs: those that succeeded, the later over the earlier. */
  function Outcome(jobs: seq<Job>, done: seq<bool>): (files: map<(nat, Bytes), Bytes>)
    requires |done| == |jobs|
  {
    if jobs == [] then map[]
    else
      var k := |jobs| - 1;
      var before := Outcome(jobs[..k], done[..k]);
      if done[k] then before[(jobs[k].dir, jobs[k].name) := jobs[k].data] else before
  }

  predicate WroteLast(jobs: seq<Job>, done: seq<bool>, d: nat, n: Bytes, i: nat)
    requires |done| == |jobs|
  {
    i < |jobs| && done[i] && jobs[i].dir == d && jobs[i].name == n
    && forall k :: i < k < |jobs| && jobs[k].dir == d && jobs[k].name == n ==> !done[k]
  }

  /** A name is listed exactly when a job for it succeeded, and then with the bytes of the last one that did. */
  lemma {:induction false} OutcomeIs(jobs: seq<Job>, done: seq<bool>, d: nat, n: Bytes)
    requires |done| == |jobs|
    ensures (d, n) in Outcome(jobs, done) <==> exists i: nat :: WroteLast(jobs, done, d, n, i)
    ensures forall i: nat :: WroteLast(jobs, done, d, n, i) ==> Outcome(jobs, done)[(d, n)] == jobs[i].data
    decreases |jobs|
  {
    if jobs != [] {
      var k := |jobs| - 1;
      var js, ds := jobs[..k], done[..k];
      OutcomeIs(js, ds, d, n);
      if done[k] && jobs[k].dir == d && jobs[k].name == n {
        assert WroteLast(jobs, done, d, n, k);
      } else {
        forall i: nat ensures WroteLast(jobs, done, d, n, i) <==> WroteLast(js, ds, d, n, i) {
          if WroteLast(js, ds, d, n, i) {
            forall x | i < x < |jobs| && jobs[x].dir == d && jobs[x].name == n ensures !done[x] {
              if x < k { assert js[x] == jobs[x] && ds[x] == done[x]; }
            }
          }
        }
      }
    }
  }

  /** One job took the volume from one state to the next: it succeeded exactly when there was room. */
  ghost predicate JobRan(v: Volume, j: Job, ok: bool, w: Volume, base: nat, crc: Bytes -> Word) {
    Sound(v, base, crc) && Sound(w, base, crc) && w.lay == v.lay && MadeDir(base, j.dir)
    && (ok <==> CanCopy(FsOf(v), v.lay, j.dir, j.name, |j.data|, true, crc))
    && (ok ==> exists ino: nat :: Copied(FsOf(v), FsOf(w), v.lay, j.dir, ino, j.name, j.data, true, crc))
    && (!ok ==> Undisturbed(FsOf(v), FsOf(w)))
  }

  /** The volume before and after each job of a session. */
  ghost predicate Session(vs: seq<Volume>, jobs: seq<Job>, done: seq<bool>, base: nat, crc: Bytes -> Word) {
    |vs| == |jobs| + 1 && |done| == |jobs|
    && forall i :: 0 <= i < |jobs| ==> JobRan(vs[i], jobs[i], done[i], vs[i + 1], base, crc)
  }

  lemma SoundFacts(v: Volume, base: nat, crc: Bytes -> Word)
    requires Sound(v, base, crc)
    ensures VolumeOk(v) && Consistent(FsOf(v), v.lay)
            && forall d: nat :: MadeDir(base, d) ==> DirOk(FsOf(v), d, true, crc)
  {
  }

  /** One job keeps the listing. */
  lemma JobLists(v: Volume, j: Job, ok: bool, w: Volume, base: nat, files: map<(nat, Bytes), Bytes>, crc: Bytes -> Word)
    requires JobRan(v, j, ok, w, base, crc) && VolumeOk(v) && Files(FsOf(v), base, files, crc)
    ensures VolumeOk(w) && Files(FsOf(w), base, if ok then files[(j.dir, j.name) := j.data] else files, crc)
  {
    hide Sound, Files, CanCopy, Copied, Undisturbed, Consistent, DirOk, Bits;
    SoundFacts(v, base, crc);
    SoundFacts(w, base, crc);
    if ok {
      var ino: nat :| Copied(FsOf(v), FsOf(w), v.lay, j.dir, ino, j.name, j.data, true, crc);
      CopyLists(FsOf(v), FsOf(w), v.lay, j.dir, ino, j.name, j.data, base, files, crc);
    } else {
      FailureLists(FsOf(v), FsOf(w), v.lay, base, files, crc);
    }
  }

  lemma NothingListed(v: Volume, base: nat, crc: Bytes -> Word)
    requires VolumeOk(v) && forall d: nat, n: Bytes :: MadeDir(base, d) ==> NoFile(FsOf(v), d, n, crc)
    ensures Files(FsOf(v), base, map[], crc)
  {
    hide DirOk, Bits, D.TargetOf, B.Framed;
    forall d: nat, n: Bytes, e: nat, m: Bytes, i: nat | MadeDir(base, d) && MadeDir(base, e)
      ensures Single(FsOf(v), d, n, e, m, i, crc)
    {
      assert NoFile(FsOf(v), d, n, crc);
    }
  }

  /** A new file system and then any copies into the directories mkfs made. Each copy succeeds exactly when there is
      room for it; the volume stays consistent and its directories stay usable throughout; and at the end every name
      shows the bytes of the last copy to it that succeeded, and no other name leads to a file. */
  method MkfsThenCopies(total: nat, inodes: nat, createRoot: bool, device: seq<Bytes>, jobs: seq<Job>,
      crc: Bytes -> Word)
    returns (made: bool, v: Volume, done: seq<bool>, ghost vs: seq<Volume>)
    requires total + 32607 < 0x1_0000_0000 && inodes + 32607 < 0x1_0000_0000
    requires |device| == total && forall b :: 0 <= b < |device| ==> |device[b]| == 4096
    requires forall i :: 0 <= i < |jobs| ==> JobOk(jobs[i]) && MadeDir(if createRoot then 5 else 0, jobs[i].dir)
    ensures made <==> total >= 64
    ensures made ==> Sound(v, if createRoot then 5 else 0, crc)
    ensures made ==> Session(vs, jobs, done, if createRoot then 5 else 0, crc) && vs[|jobs|] == v
    ensures made ==> VolumeOk(vs[0]) && Prefix(FsOf(vs[0]).used, vs[0].lay.dataStart + if createRoot then 6 else 1)
    ensures made ==> VolumeOk(v) && Files(FsOf(v), if createRoot then 5 else 0, Outcome(jobs, done), crc)
  {
    hide Sound, Files, Session, Consistent, DirOk, Tree, NoFile, MostInodes, LayoutFor, LayoutSane, Bits, Prefix;
    made, v := MkfsPartition(total, inodes, createRoot, device, crc);
    done, vs := [], [v];
    if made {
      ghost var base := if createRoot then 5 else 0;
      MadeSound(v, base, crc);
      NothingListed(v, base, crc);
      v, done, vs := CopyAll(v, jobs, crc, base);
    }
  }

  method CopyAll(v0: Volume, jobs: seq<Job>, crc: Bytes -> Word, ghost base: nat)
    returns (v: Volume, done: seq<bool>, ghost vs: seq<Volume>)
    requires Sound(v0, base, crc) && VolumeOk(v0) && Files(FsOf(v0), base, map[], crc)
    requires forall i :: 0 <= i < |jobs| ==> JobOk(jobs[i]) && MadeDir(base, jobs[i].dir)
    ensures Sound(v, base, crc) && Session(vs, jobs, done, base, crc) && vs[0] == v0 && vs[|jobs|] == v
    ensures VolumeOk(v) && Files(FsOf(v), base, Outcome(jobs, done), crc)
  {
    hide Sound, Files, JobRan, Bits;
    v, done, vs := v0, [], [v0];
    for i := 0 to |jobs|
      invariant Sound(v, base, crc) && VolumeOk(v) && |done| == i && |vs| == i + 1 && vs[0] == v0 && vs[i] == v
      invariant forall k :: 0 <= k < i ==> JobRan(vs[k], jobs[k], done[k], vs[k + 1], base, crc)
      invariant Files(FsOf(v), base, Outcome(jobs[..i], done), crc)
    {
      ghost var u, before := v, done;
      var ok;
      ok, v := RunJob(v, jobs[i], crc, base);
      JobLists(u, jobs[i], ok, v, base, Outcome(jobs[..i], before), crc);
      done, vs := done + [ok], vs + [v];
      assert jobs[..i + 1][..i] == jobs[..i] && done[..i] == before;
    }
    assert jobs[..|jobs|] == jobs;
  }

  method RunJob(v: Volume, j: Job, crc: Bytes -> Word, ghost base: nat) returns (ok: bool, w: Volume)
    requires Sound(v, base, crc) && JobOk(j) && MadeDir(base, j.dir)
    ensures Sound(w, base, crc) && JobRan(v, j, ok, w, base, crc)
  {
    hide Sound, Copied, CanCopy, Undisturbed, Bits;
    SoundFacts(v, base, crc);
    ghost var ino;
    ok, ino, w := CopyJob(v, j, crc, base);
    SoundFacts(w, base, crc);
  }
}
