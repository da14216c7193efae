/** syscall.c: the descriptor system calls over the tables of all processes, the pipe slots and their rings. */
module Descriptors {
  import opened Base
  import opened FdModel
  import opened FdRuns
  import opened PipeRing
  import PR = PipeRuns

  class Table {
    const fds: array<Fd>
    const ctl: array<Pipe>
    const rings: seq<Ring>
    var vnodes: map<nat, nat>
    var nextId: nat

    ghost function Abs(): (s: Sys)
      reads this, fds, ctl
    {
      Sys(fds[..], ctl[..], vnodes, nextId)
    }

    ghost function RingParts(): (r: set<object>) {
      (set i | 0 <= i < |rings| :: rings[i]) + (set i | 0 <= i < |rings| :: rings[i].buffer)
    }

    ghost predicate RingsOk()
      reads RingParts()
    {
      |rings| == PIPES
      && (forall i :: 0 <= i < |rings| ==> rings[i].Valid())
      && forall i, j :: 0 <= i < j < |rings| ==> rings[i] != rings[j] && rings[i].buffer != rings[j].buffer
    }

    /** The bytes of one pipe slot. */
    ghost function StreamAt(k: nat): (s: PR.Stream)
      requires RingsOk() && k < PIPES
      reads RingParts()
    {
      PR.Stream(rings[k].Contents(), rings[k].sent, rings[k].received)
    }

    ghost function StreamsUpTo(n: nat): (r: seq<PR.Stream>)
      requires RingsOk() && n <= PIPES
      reads RingParts()
      ensures |r| == n && forall k :: 0 <= k < n ==> r[k] == StreamAt(k)
    {
      if n == 0 then [] else StreamsUpTo(n - 1) + [StreamAt(n - 1)]
    }

    ghost function Streams(): (r: seq<PR.Stream>)
      requires RingsOk()
      reads RingParts()
      ensures |r| == PIPES && forall k :: 0 <= k < PIPES ==> r[k] == StreamAt(k)
    {
      StreamsUpTo(PIPES)
    }

    /** Descriptors, counts and bytes together. */
    ghost function Whole(): (w: PR.World)
      requires RingsOk()
      reads this, fds, ctl, RingParts()
    {
      PR.World(Abs(), Streams())
    }

    ghost predicate Valid()
      reads this, fds, ctl
    {
      Inv(Abs())
    }

    /** The state is the one that a call by a process leads to from w, with the given answer. */
    ghost predicate Did(w: PR.World, proc: nat, c: PR.PipeCall, n: int, data: Bytes)
      requires RingsOk()
      reads this, fds, ctl, RingParts()
    {
      PR.WorldOk(w) && proc < PROCS && PR.CanDo(w, c) && PR.Step(w, proc, c) == (Whole(), n, data)
    }

    lemma WholeOk()
      requires Valid() && RingsOk()
      ensures PR.WorldOk(Whole())
    {
      hide Inv;
      forall k | 0 <= k < PIPES ensures PR.StreamOk(Streams()[k]) {
        assert Streams()[k] == StreamAt(k) && rings[k].Valid();
      }
    }

    constructor ()
      ensures Valid() && RingsOk() && fresh(fds) && fresh(ctl) && fresh(RingParts()) && Whole() == PR.Start()
    {
      var f := new Fd[1024](i => Unused);
      var c := new Pipe[32](i => Pipe(false, 0, 0, 0));
      var rs := MakeRings();
      fds, ctl, rings, vnodes, nextId := f, c, rs, map[], 1;
      new;
      assert fds[..] == Boot().fds && ctl[..] == Boot().pipes && Streams() == PR.Start().streams;
      BootInv();
    }

    static ghost predicate Blank(r: Ring)
      reads r, r.buffer
    {
      r.Valid() && r.sent == [] && r.received == [] && r.Contents() == []
    }

    static method MakeRings() returns (rs: seq<Ring>)
      ensures |rs| == PIPES && forall i :: 0 <= i < |rs| ==> fresh(rs[i]) && fresh(rs[i].buffer) && Blank(rs[i])
      ensures forall i, j :: 0 <= i < j < |rs| ==> rs[i] != rs[j] && rs[i].buffer != rs[j].buffer
    {
      rs := [];
      while |rs| < 32
        invariant |rs| <= 32 && forall i :: 0 <= i < |rs| ==> fresh(rs[i]) && fresh(rs[i].buffer) && Blank(rs[i])
        invariant forall i, j :: 0 <= i < j < |rs| ==> rs[i] != rs[j] && rs[i].buffer != rs[j].buffer
      {
        var r := new Ring();
        rs := rs + [r];
      }
    }

    /** process_fd_find_free, and the searches of open, dup and fcntl. */
    method FindFree(proc: nat, minFd: nat) returns (fd: Option<nat>)
      requires proc < PROCS && fds.Length == PROCS * FDS
      ensures fd == FreeFrom(fds[..], proc, minFd)
    {
      var i := minFd;
      while i < FDS
        invariant FreeFrom(fds[..], proc, minFd) == FreeFrom(fds[..], proc, i)
      {
        if fds[16 * proc + i].Unused? {
          return Some(i);
        }
        i := i + 1;
      }
      return None;
    }

    /** pipe_alloc's search. */
    method FindPipe() returns (p: Option<nat>)
      ensures p == FreePipe(ctl[..], 0)
    {
      var i := 0;
      while i < ctl.Length
        invariant FreePipe(ctl[..], 0) == FreePipe(ctl[..], i) && i <= ctl.Length
      {
        if !ctl[i].used {
          return Some(i);
        }
        i := i + 1;
      }
      return None;
    }

    /** Rings and their buffers are not among the tables. */
    lemma Separate()
      ensures ctl !in RingParts() && fds !in RingParts() && this !in RingParts()
    {
    }

    /** One ring wiped. */
    method WipeRing(p: nat)
      requires RingsOk() && p < PIPES
      modifies RingParts()
      ensures RingsOk() && Streams() == old(Streams())[p := PR.NoBytes()]
    {
      hide Window, At;
      rings[p].Reset();
      assert forall k :: 0 <= k < PIPES && k != p ==> StreamAt(k) == old(StreamAt(k));
    }

    /** syscall_fd_release_resources; a pipe's last reference wipes its slot and ring. */
    method ReleaseFd(f: Fd)
      requires RingsOk() && ctl.Length == PIPES && EntryOk(Abs(), f) && (f.File? ==> f.vnode in vnodes)
      modifies `vnodes, ctl, RingParts()
      ensures RingsOk() && Abs() == ReleaseResources(old(Abs()), f)
      ensures Streams() == PR.Follow(old(Streams()), old(ctl[..]), ctl[..])
    {
      hide RingsOk, RingParts, Streams;
      Separate();
      match f {
        case Unused =>
        case Console(_, _, _) =>
        case PipeEnd(p, canRead, canWrite, _, _, _) =>
          var q := ctl[p];
          if q.used {
            var readers := if canRead && q.readers > 0 then q.readers - 1 else q.readers;
            var writers := if canWrite && q.writers > 0 then q.writers - 1 else q.writers;
            var refs := if q.refs > 0 then q.refs - 1 else 0;
            if refs == 0 {
              ctl[p] := Pipe(false, 0, 0, 0);
              WipeRing(p);
            } else {
              ctl[p] := Pipe(true, refs, readers, writers);
            }
          }
        case File(v, _, _, _, _) =>
          vnodes := if vnodes[v] > 1 then vnodes[v := vnodes[v] - 1] else vnodes - {v};
      }
    }

    /** process_fd_clear. */
    method ClearFd(i: nat)
      requires Valid() && RingsOk() && i < fds.Length
      modifies `vnodes, fds, ctl, RingParts()
      ensures Valid() && RingsOk()
      ensures EntryOk(old(Abs()), old(fds[i])) && (old(fds[i]).File? ==> old(fds[i]).vnode in old(vnodes))
      ensures Abs() == Clear(old(Abs()), i) && ctl.Length == PIPES
      ensures Streams() == PR.Follow(old(Streams()), old(ctl[..]), ctl[..])
    {
      hide Inv;
      ghost var s := Abs();
      HeldAlive(s, i);
      ClearKeeps(s, i);
      Sizes(s);
      if !fds[i].Unused? {
        ReleaseFd(fds[i]);
        fds[i] := Unused;
      }
      assert fds[..] == s.fds[i := Unused];
    }

    /** sys_close. */
    method SysClose(proc: nat, fd: int) returns (r: int)
      requires Valid() && RingsOk() && proc < PROCS
      modifies `vnodes, fds, ctl, RingParts()
      ensures Valid() && RingsOk() && (Abs(), r) == Step(old(Abs()), proc, Close(fd))
      ensures ctl.Length == PIPES && Streams() == PR.Follow(old(Streams()), old(ctl[..]), ctl[..])
    {
      hide Inv, Clear;
      Sizes(Abs());
      PR.FollowSame(Streams(), ctl[..]);
      if !(0 <= fd < FDS) || fds[16 * proc + fd].Unused? {
        return -1;
      }
      ClearFd(16 * proc + fd);
      return 0;
    }

    /** process_fd_install_copy. */
    method InstallCopy(i: nat, src: Fd)
      requires Valid() && RingsOk() && i < fds.Length && CopySource(Abs(), i, src)
      modifies `vnodes, fds, ctl, RingParts()
      ensures Valid() && RingsOk()
      ensures EntryOk(old(Abs()), src) && EntryOk(old(Abs()), old(fds[i]))
      ensures old(fds[i]).File? ==> old(fds[i]).vnode in old(vnodes)
      ensures src.File? ==> src.vnode in Clear(old(Abs()), i).vnodes
      ensures Abs() == CopyTo(old(Abs()), i, src) && ctl.Length == PIPES
      ensures Streams() == PR.Follow(old(Streams()), old(ctl[..]), ctl[..])
    {
      hide Inv, Clear, CopySource, RingsOk, RingParts, Streams, PR.Follow;
      Separate();
      ghost var s := Abs();
      CopyKeeps(s, i, src);
      HeldAlive(s, i);
      ClearFd(i);
      ghost var c := Abs();
      ClearFrame(s, i);
      Sizes(c);
      var f := Uncloexec(src);
      fds[i] := f;
      assert fds[..] == c.fds[i := f];
      ghost var mid := ctl[..];
      TakeRefs(f);
      PR.FollowUse(old(Streams()), old(ctl[..]), mid, ctl[..]);
    }

    /** The references that a copied entry takes. */
    method TakeRefs(f: Fd)
      requires RingsOk() && EntryOk(Abs(), f) && (f.File? ==> f.vnode in vnodes)
      modifies `vnodes, ctl
      ensures RingsOk() && Streams() == old(Streams()) && Abs() == TakeResources(old(Abs()), f)
      ensures forall k :: 0 <= k < ctl.Length ==> ctl[k].used == old(ctl[k].used)
    {
      if f.PipeEnd? {
        var q := ctl[f.pipe];
        if q.used {
          ctl[f.pipe] := Pipe(true, q.refs + 1, q.readers + (if f.canRead then 1 else 0),
                              q.writers + (if f.canWrite then 1 else 0));
        }
        assert ctl[..] == RefPipe(old(ctl[..]), f.pipe, f.canRead, f.canWrite);
      } else if f.File? {
        vnodes := vnodes[f.vnode := (if vnodes[f.vnode] == 0 then 1 else vnodes[f.vnode]) + 1];
      }
    }

    /** process_fd_source. */
    method FdSource(proc: nat, fd: int) returns (src: Option<Fd>)
      requires proc < PROCS && fds.Length == PROCS * FDS
      ensures src == Source(Abs(), proc, fd)
    {
      if 0 <= fd < FDS && !fds[16 * proc + fd].Unused? {
        return Some(fds[16 * proc + fd]);
      }
      if 0 <= fd <= 2 {
        return Some(Console(fd, if fd == 0 then RDONLY else WRONLY, 0));
      }
      return None;
    }

    /** sys_dup, with 3 as the least target, and F_DUPFD. */
    method SysDup(proc: nat, fd: int, minFd: nat) returns (r: int)
      requires Valid() && RingsOk() && proc < PROCS
      modifies `vnodes, fds, ctl, RingParts()
      ensures Valid() && RingsOk() && (Abs(), r) == Step(old(Abs()), proc, Dup(fd, minFd))
      ensures ctl.Length == PIPES && Streams() == PR.Follow(old(Streams()), old(ctl[..]), ctl[..])
    {
      hide Inv, CopyTo, CopySource, FreeFrom;
      ghost var s := Abs();
      Sizes(s);
      PR.FollowSame(Streams(), ctl[..]);
      var src := FdSource(proc, fd);
      if src.None? {
        return -1;
      }
      var target := FindFree(proc, minFd);
      if target.None? {
        return -1;
      }
      SourceCopies(s, proc, fd, target.value);
      InstallCopy(16 * proc + target.value, src.value);
      return target.value;
    }

    /** sys_dup2. */
    method SysDup2(proc: nat, oldFd: int, newFd: int) returns (r: int)
      requires Valid() && RingsOk() && proc < PROCS
      modifies `vnodes, fds, ctl, RingParts()
      ensures Valid() && RingsOk() && (Abs(), r) == Step(old(Abs()), proc, Dup2(oldFd, newFd))
      ensures ctl.Length == PIPES && Streams() == PR.Follow(old(Streams()), old(ctl[..]), ctl[..])
    {
      hide Inv, CopyTo, CopySource;
      ghost var s := Abs();
      Sizes(s);
      PR.FollowSame(Streams(), ctl[..]);
      if !(0 <= newFd < FDS) {
        return -1;
      }
      var src := FdSource(proc, oldFd);
      if src.None? {
        return -1;
      }
      if oldFd == newFd {
        return newFd;
      }
      SourceCopies(s, proc, oldFd, newFd);
      InstallCopy(16 * proc + newFd, src.value);
      return newFd;
    }

    /** process_fd_sync_offset and process_fd_sync_flags. */
    method SyncEntries(proc: nat, id: nat, offset: Option<nat>, flags: Option<nat>)
      requires proc < PROCS && fds.Length == PROCS * FDS
      modifies fds
      ensures Abs() == Sync(old(Abs()), proc, id, offset, flags)
    {
      ghost var s := Abs();
      for i := 0 to FDS
        invariant forall k :: 0 <= k < fds.Length ==>
                    fds[k] == if 16 * proc <= k < 16 * proc + i then SyncOne(s.fds[k], id, offset, flags) else s.fds[k]
      {
        fds[16 * proc + i] := SyncOne(fds[16 * proc + i], id, offset, flags);
      }
      assert fds[..] == Sync(s, proc, id, offset, flags).fds;
    }

    /** F_SETFL. */
    method SetFlags(proc: nat, fd: int, append: bool) returns (r: int)
      requires Valid() && proc < PROCS
      modifies fds
      ensures Valid() && (Abs(), r) == Step(old(Abs()), proc, SetFl(fd, append))
    {
      hide Inv, Sync, WithAppend;
      ghost var s := Abs();
      Sizes(s);
      StepKeeps(s, proc, SetFl(fd, append));
      var src := FdSource(proc, fd);
      if src.None? {
        return -1;
      }
      if 0 <= fd < FDS && !fds[16 * proc + fd].Unused? {
        var f := fds[16 * proc + fd];
        SyncEntries(proc, Description(f), None, Some(WithAppend(f.flags, append)));
      }
      return 0;
    }

    /** F_SETFD. */
    method SetFdFlags(proc: nat, fd: int, cloexec: nat) returns (r: int)
      requires Valid() && proc < PROCS
      modifies fds
      ensures Valid() && (Abs(), r) == Step(old(Abs()), proc, SetFd(fd, cloexec))
    {
      hide Inv;
      ghost var s := Abs();
      Sizes(s);
      StepKeeps(s, proc, SetFd(fd, cloexec));
      var src := FdSource(proc, fd);
      if src.None? || cloexec > 1 {
        return -1;
      }
      if 0 <= fd < FDS && !fds[16 * proc + fd].Unused? {
        fds[16 * proc + fd] := SetCloexec(fds[16 * proc + fd], cloexec);
        assert fds[..] == s.fds[16 * proc + fd := SetCloexec(s.fds[16 * proc + fd], cloexec)];
      }
      return 0;
    }

    /** sys_seek, and the offset that a read or write of a file leaves: every descriptor of the description moves. */
    method MoveOffset(proc: nat, fd: int, offset: nat) returns (r: int)
      requires Valid() && proc < PROCS
      modifies fds
      ensures Valid() && (Abs(), r) == Step(old(Abs()), proc, SetOffset(fd, offset))
    {
      hide Inv, Sync;
      ghost var s := Abs();
      Sizes(s);
      StepKeeps(s, proc, SetOffset(fd, offset));
      if !(0 <= fd < FDS) || !fds[16 * proc + fd].File? {
        return -1;
      }
      SyncEntries(proc, fds[16 * proc + fd].id, Some(offset), None);
      return offset;
    }

    /** sys_open once the path is resolved. */
    method SysOpen(proc: nat, res: Resolved, flags: nat, offset: nat) returns (r: int)
      requires Valid() && proc < PROCS && CanResolve(Abs(), res)
      modifies `vnodes, `nextId, fds
      ensures Valid() && (Abs(), r) == Step(old(Abs()), proc, Open(res, flags, offset))
    {
      hide Inv, FreeFrom;
      ghost var s := Abs();
      Sizes(s);
      StepKeeps(s, proc, Open(res, flags, offset));
      match res {
        case Made(v, stored) =>
          vnodes := vnodes[v := stored];
        case Shared(v) =>
          vnodes := vnodes[v := (if vnodes[v] == 0 then 1 else vnodes[v]) + 1];
      }
      var fd := FindFree(proc, FIRST_USER);
      if fd.None? {
        vnodes := if vnodes[res.v] > 1 then vnodes[res.v := vnodes[res.v] - 1] else vnodes - {res.v};
        return -1;
      }
      fds[16 * proc + fd.value] := File(res.v, flags, nextId, offset, 0);
      assert fds[..] == s.fds[16 * proc + fd.value := File(res.v, flags, nextId, offset, 0)];
      nextId := nextId + 1;
      return fd.value;
    }

    /** sys_pipe. */
    method SysPipe(proc: nat) returns (r: int, readFd: nat, writeFd: nat)
      requires Valid() && RingsOk() && proc < PROCS
      modifies `nextId, fds, ctl, RingParts()
      ensures Valid() && RingsOk() && (Abs(), r) == Step(old(Abs()), proc, MakePipeCall)
      ensures ctl.Length == PIPES && Streams() == PR.Follow(old(Streams()), old(ctl[..]), ctl[..])
      ensures r == 0 ==> readFd < FDS && writeFd < FDS && fds.Length == PROCS * FDS
                         && fds[Slot(proc, readFd)].PipeEnd? && fds[Slot(proc, writeFd)].PipeEnd?
                         && fds[Slot(proc, readFd)].pipe == fds[Slot(proc, writeFd)].pipe < PIPES
                         && PR.Reads(fds[Slot(proc, readFd)]) && !PR.Writes(fds[Slot(proc, readFd)])
                         && PR.Writes(fds[Slot(proc, writeFd)]) && !PR.Reads(fds[Slot(proc, writeFd)])
                         && Streams()[fds[Slot(proc, readFd)].pipe] == PR.NoBytes()
    {
      hide Inv, FreeFrom, FreePipe, RingsOk, Streams, PR.Follow;
      ghost var s := Abs();
      Sizes(s);
      PR.FollowSame(Streams(), ctl[..]);
      StepKeeps(s, proc, MakePipeCall);
      readFd, writeFd := 0, 0;
      var rfd := FindFree(proc, FIRST_USER);
      if rfd.None? {
        return -1, 0, 0;
      }
      var wfd := FindFree(proc, rfd.value + 1);
      if wfd.None? {
        return -1, 0, 0;
      }
      var p := FindPipe();
      if p.None? {
        return -1, 0, 0;
      }
      InstallPipe(p.value, 16 * proc + rfd.value, 16 * proc + wfd.value);
      PR.FollowTaken(old(Streams()), s.pipes, p.value, Pipe(true, 2, 1, 1));
      return 0, rfd.value, wfd.value;
    }

    /** A pipe slot taken, and its two ends entered one after the other. */
    method InstallPipe(p: nat, i: nat, j: nat)
      requires RingsOk() && p < ctl.Length == PIPES && i < fds.Length && j < fds.Length && i != j
      modifies `nextId, fds, ctl, RingParts()
      ensures RingsOk() && Abs() == MakePipe(old(Abs()), p, i, j)
      ensures Streams() == old(Streams())[p := PR.NoBytes()]
    {
      hide RingsOk, RingParts, Streams;
      Separate();
      ghost var s := Abs();
      ctl[p] := Pipe(true, 0, 0, 0);
      WipeRing(p);
      fds[i] := PipeEnd(p, true, false, RDONLY, nextId, 0);
      ctl[p] := Pipe(true, 1, 1, 0);
      fds[j] := PipeEnd(p, false, true, WRONLY, nextId + 1, 0);
      ctl[p] := Pipe(true, 2, 1, 1);
      nextId := nextId + 2;
      assert fds[..] == MakePipe(s, p, i, j).fds;
      assert ctl[..] == s.pipes[p := Pipe(true, 2, 1, 1)];
    }

    /** sys_read of a pipe: the oldest bytes that wait; descriptors, counts and all other pipes stay. */
    method ReadPipe(proc: nat, fd: nat, len: nat) returns (r: int, data: Bytes)
      requires Valid() && RingsOk() && proc < PROCS && fd < FDS && fds[Slot(proc, fd)].PipeEnd?
      modifies RingParts()
      ensures Valid() && RingsOk() && Did(old(Whole()), proc, PR.ReadBytes(fd, len), r, data)
    {
      hide Inv;
      Sizes(Abs());
      HeldAlive(Abs(), Slot(proc, fd));
      WholeOk();
      var f := fds[16 * proc + fd];
      if !f.canRead || f.flags % 4 !in {0, 2} {
        return -1, [];
      }
      data := ReadRing(f.pipe, len);
      return |data|, data;
    }

    method ReadRing(p: nat, len: nat) returns (data: Bytes)
      requires RingsOk() && p < PIPES
      modifies RingParts()
      ensures RingsOk() && Streams() == old(Streams())[p := PR.Taken(old(Streams())[p], len)]
      ensures data == old(Streams())[p].waiting[..Min(len, |old(Streams())[p].waiting|)]
    {
      hide Window, At;
      data := rings[p].Read(len);
      assert forall k :: 0 <= k < PIPES && k != p ==> StreamAt(k) == old(StreamAt(k));
      assert StreamAt(p) == PR.Taken(old(StreamAt(p)), len);
    }

    /** sys_write of a pipe: as much as fits, behind what waits; refused without readers. */
    method WritePipe(proc: nat, fd: nat, data: Bytes) returns (r: int)
      requires Valid() && RingsOk() && proc < PROCS && fd < FDS && fds[Slot(proc, fd)].PipeEnd?
      modifies RingParts()
      ensures Valid() && RingsOk() && Did(old(Whole()), proc, PR.WriteBytes(fd, data), r, [])
      ensures r >= 0 <==> PR.Writes(fds[Slot(proc, fd)]) && HasReader(fds[..], fds[Slot(proc, fd)].pipe)
    {
      hide Inv;
      Sizes(Abs());
      HeldAlive(Abs(), Slot(proc, fd));
      WholeOk();
      var f := fds[16 * proc + fd];
      SomeReader(Abs(), f.pipe);
      if !f.canWrite || f.flags % 4 !in {1, 2} || ctl[f.pipe].readers == 0 {
        return -1;
      }
      r := WriteRing(f.pipe, data);
    }

    method WriteRing(p: nat, data: Bytes) returns (n: nat)
      requires RingsOk() && p < PIPES
      modifies RingParts()
      ensures |old(Streams())[p].waiting| <= CAPACITY && n == Min(|data|, CAPACITY - |old(Streams())[p].waiting|)
      ensures RingsOk() && Streams() == old(Streams())[p := PR.Appended(old(Streams())[p], data)]
    {
      hide Window, At;
      n := rings[p].Write(data);
      assert forall k :: 0 <= k < PIPES && k != p ==> StreamAt(k) == old(StreamAt(k));
      assert StreamAt(p) == PR.Appended(old(StreamAt(p)), data);
    }

    static predicate HasReader(fds: seq<Fd>, p: nat) {
      exists i :: 0 <= i < |fds| && fds[i].PipeEnd? && fds[i].pipe == p && fds[i].canRead
    }

    static lemma SomeReader(s: Sys, p: nat)
      requires Inv(s) && p < |s.pipes|
      ensures s.pipes[p].readers > 0 <==> HasReader(s.fds, p)
    {
      assert PipeExact(s, p);
      SomeTallied(s.fds, Readers(p));
      if exists i :: 0 <= i < |s.fds| && s.fds[i].PipeEnd? && s.fds[i].pipe == p && s.fds[i].canRead {
        var i :| 0 <= i < |s.fds| && s.fds[i].PipeEnd? && s.fds[i].pipe == p && s.fds[i].canRead;
        assert Weight(s.fds[i], Readers(p)) > 0;
      }
    }

    /** Closing never takes a pipe slot. */
    static lemma ClearDown(s: Sys, i: nat)
      requires i < |s.fds| && EntryOk(s, s.fds[i]) && (s.fds[i].File? ==> s.fds[i].vnode in s.vnodes)
      ensures |Clear(s, i).pipes| == |s.pipes|
      ensures forall k :: 0 <= k < |s.pipes| && Clear(s, i).pipes[k].used ==> s.pipes[k].used
    {
    }

    /** process_close_files. */
    method CloseFiles(proc: nat)
      requires Valid() && RingsOk() && proc < PROCS
      modifies `vnodes, fds, ctl, RingParts()
      ensures Valid() && RingsOk() && (Abs(), 0) == Step(old(Abs()), proc, CloseAll)
      ensures ctl.Length == PIPES && Streams() == PR.Follow(old(Streams()), old(ctl[..]), ctl[..])
    {
      hide Inv, Clear;
      ghost var s := Abs();
      Sizes(s);
      PR.FollowSame(Streams(), ctl[..]);
      for fd := 0 to FDS
        invariant Valid() && RingsOk() && CloseFrom(Abs(), proc, fd) == CloseFrom(s, proc, 0) && ctl.Length == PIPES
        invariant Streams() == PR.Follow(old(Streams()), old(ctl[..]), ctl[..])
        invariant forall k :: 0 <= k < PIPES && ctl[k].used ==> old(ctl[k].used)
      {
        Sizes(Abs());
        ghost var mid := ctl[..];
        HeldAlive(Abs(), 16 * proc + fd);
        ClearDown(Abs(), 16 * proc + fd);
        ClearFd(16 * proc + fd);
        PR.FollowDown(old(Streams()), old(ctl[..]), mid, ctl[..]);
      }
    }

    /** Any call of any process, served by the method for it, leads to the state and the answer of the model. */
    method Serve(proc: nat, c: PR.PipeCall) returns (n: int, data: Bytes)
      requires Valid() && RingsOk() && proc < PROCS && PR.CanDo(Whole(), c)
      modifies this, fds, ctl, RingParts()
      ensures Valid() && RingsOk() && Did(old(Whole()), proc, c, n, data)
    {
      hide Inv, Step, PR.Follow, Streams, RingsOk, RingParts;
      Sizes(Abs());
      WholeOk();
      match c {
        case Descriptor(call) =>
          n := ServeDescriptor(proc, call);
          data := [];
        case ReadBytes(fd, len) =>
          if fd < FDS && fds[16 * proc + fd].PipeEnd? {
            n, data := ReadPipe(proc, fd, len);
          } else {
            n, data := -1, [];
          }
        case WriteBytes(fd, bytes) =>
          data := [];
          if fd < FDS && fds[16 * proc + fd].PipeEnd? {
            n := WritePipe(proc, fd, bytes);
          } else {
            n := -1;
          }
      }
    }

    method ServeDescriptor(proc: nat, c: Call) returns (n: int)
      requires Valid() && RingsOk() && proc < PROCS && CanCall(Abs(), c)
      modifies this, fds, ctl, RingParts()
      ensures Valid() && RingsOk() && (Abs(), n) == Step(old(Abs()), proc, c)
      ensures ctl.Length == PIPES && Streams() == PR.Follow(old(Streams()), old(ctl[..]), ctl[..])
    {
      hide Inv, Step, PR.Follow, Streams, RingsOk;
      Sizes(Abs());
      PR.FollowSame(Streams(), ctl[..]);
      match c {
        case Close(fd) => n := SysClose(proc, fd);
        case Dup(fd, minFd) => n := SysDup(proc, fd, minFd);
        case Dup2(oldFd, newFd) => n := SysDup2(proc, oldFd, newFd);
        case SetFd(fd, cloexec) => n := SetFdFlags(proc, fd, cloexec);
        case SetFl(fd, append) => n := SetFlags(proc, fd, append);
        case Open(res, flags, offset) => n := SysOpen(proc, res, flags, offset);
        case MakePipeCall =>
          var readFd, writeFd;
          n, readFd, writeFd := SysPipe(proc);
        case SetOffset(fd, offset) => n := MoveOffset(proc, fd, offset);
        case CloseAll => CloseFiles(proc); n := 0;
      }
    }
  }

  /** A whole run on the tables and rings is a run of the model, so `PipeRuns.ReadsArePrefix` speaks of it. */
  method ServeAll(calls: seq<(nat, PR.PipeCall)>) returns (t: Table)
    requires forall i :: 0 <= i < |calls| ==> calls[i].0 < PROCS
    ensures PR.WorldOk(PR.Start()) && t.Valid() && t.RingsOk() && t.Whole() == PR.Run(PR.Start(), calls)
  {
    hide Inv, Step, PR.Step, Table.Streams, Table.RingsOk, Table.RingParts;
    PR.StartOk();
    t := new Table();
    for i := 0 to |calls|
      invariant t.Valid() && t.RingsOk() && PR.WorldOk(t.Whole())
      invariant fresh(t) && fresh(t.fds) && fresh(t.ctl) && fresh(t.RingParts())
      invariant PR.Run(PR.Start(), calls) == PR.Run(t.Whole(), calls[i..])
    {
      var (proc, c) := calls[i];
      assert calls[i..][0] == calls[i] && calls[i..][1..] == calls[i + 1..];
      if !c.Descriptor? || CanCall(Sys(t.fds[..], t.ctl[..], t.vnodes, t.nextId), c.call) {
        var _, _ := t.Serve(proc, c);
        t.WholeOk();
      }
    }
  }
}
