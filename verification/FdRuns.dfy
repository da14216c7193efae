/** The descriptor calls as steps, and what every run of them keeps. */
module FdRuns {
  import opened Base
  import opened FdModel

  function Slot(proc: nat, fd: nat): (i: nat)
    ensures fd < 16 ==> i / 16 == proc
  {
    16 * proc + fd
  }

  /** The lowest unused descriptor of a process from one on. */
  function FreeFrom(fds: seq<Fd>, proc: nat, fd: nat): (r: Option<nat>)
    requires |fds| == PROCS * FDS && proc < PROCS
    ensures r.Some? ==> fd <= r.value < FDS && fds[Slot(proc, r.value)].Unused?
    decreases FDS - fd
  {
    if fd >= FDS then None else if fds[Slot(proc, fd)].Unused? then Some(fd) else FreeFrom(fds, proc, fd + 1)
  }

  /** process_fd_lookup_used. */
  predicate InUse(s: Sys, proc: nat, fd: int)
    requires |s.fds| == PROCS * FDS && proc < PROCS
  {
    0 <= fd < FDS && !s.fds[Slot(proc, fd)].Unused?
  }

  /** process_fd_source: the entry, or the console that an unused 0, 1 or 2 stands for. */
  function Source(s: Sys, proc: nat, fd: int): (r: Option<Fd>)
    requires |s.fds| == PROCS * FDS && proc < PROCS
  {
    if InUse(s, proc, fd) then Some(s.fds[Slot(proc, fd)])
    else if 0 <= fd <= 2 then Some(Console(fd, if fd == 0 then RDONLY else WRONLY, 0))
    else None
  }

  /** The lowest unused pipe slot from one on. */
  function FreePipe(pipes: seq<Pipe>, p: nat): (r: Option<nat>)
    ensures r.Some? ==> p <= r.value < |pipes| && !pipes[r.value].used
    decreases |pipes| - p
  {
    if p >= |pipes| then None else if !pipes[p].used then Some(p) else FreePipe(pipes, p + 1)
  }

  /** Flags with the append bit, 0x400, set or cleared. */
  function WithAppend(flags: nat, on: bool): (r: nat) {
    flags - 1024 * (flags / 1024 % 2) + if on then 1024 else 0
  }

  datatype Call =
    | Close(fd: int)
    | Dup(fd: int, minFd: nat)
    | Dup2(oldFd: int, newFd: int)
    | SetFd(fd: int, cloexec: nat)
    | SetFl(fd: int, append: bool)
    | Open(r: Resolved, flags: nat, offset: nat)
    | MakePipeCall
    | SetOffset(fd: int, offset: nat)
    | CloseAll

  /** The state in which a call is made: a resolved vnode is one that can be resolved. */
  predicate CanCall(s: Sys, c: Call) { c.Open? ==> CanResolve(s, c.r) }

  function SetCloexec(f: Fd, v: nat): (g: Fd) {
    match f
    case Unused => Unused
    case Console(c, flags, _) => Console(c, flags, v)
    case PipeEnd(p, r, w, flags, id, _) => PipeEnd(p, r, w, flags, id, v)
    case File(vn, flags, id, offset, _) => File(vn, flags, id, offset, v)
  }

  /** The description number of an entry; a console has none. */
  function Description(f: Fd): (id: nat) { if f.PipeEnd? || f.File? then f.id else 0 }

  /** Entries of one process closed from a descriptor on. */
  ghost function CloseFrom(s: Sys, proc: nat, fd: nat): (t: Sys)
    requires Inv(s) && proc < PROCS
    ensures Inv(t)
    decreases FDS - fd
  {
    if fd >= FDS then s
    else
      ClearKeeps(s, Slot(proc, fd));
      CloseFrom(Clear(s, Slot(proc, fd)), proc, fd + 1)
  }

  /** dup and dup2 once the target is known. */
  ghost function CopyInto(s: Sys, proc: nat, target: nat, src: Fd): (t: Sys)
    requires Inv(s) && proc < PROCS && target < FDS && CopySource(s, Slot(proc, target), src)
    ensures Inv(t)
  {
    CopyKeeps(s, Slot(proc, target), src);
    CopyTo(s, Slot(proc, target), src)
  }

  lemma SourceCopies(s: Sys, proc: nat, fd: int, target: nat)
    requires Inv(s) && proc < PROCS && target < FDS && Source(s, proc, fd).Some?
             && (InUse(s, proc, fd) ==> fd != target)
    ensures CopySource(s, Slot(proc, target), Source(s, proc, fd).value)
  {
  }

  /** One call by one process: the new state and the result. */
  ghost function Step(s: Sys, proc: nat, c: Call): (r: (Sys, int))
    requires Inv(s) && proc < PROCS && CanCall(s, c)
  {
    match c
    case Close(fd) =>
      if InUse(s, proc, fd) then (ClearKeeps(s, Slot(proc, fd)); Clear(s, Slot(proc, fd)), 0) else (s, -1)
    case Dup(fd, minFd) =>
      var src, target := Source(s, proc, fd), FreeFrom(s.fds, proc, minFd);
      if src.None? || target.None? then (s, -1)
      else (SourceCopies(s, proc, fd, target.value); CopyInto(s, proc, target.value, src.value), target.value)
    case Dup2(oldFd, newFd) =>
      var src := Source(s, proc, oldFd);
      if !(0 <= newFd < FDS) || src.None? then (s, -1)
      else if oldFd == newFd then (s, newFd)
      else (SourceCopies(s, proc, oldFd, newFd); CopyInto(s, proc, newFd, src.value), newFd)
    case SetFd(fd, cloexec) =>
      if Source(s, proc, fd).None? || cloexec > 1 then (s, -1)
      else if !InUse(s, proc, fd) then (s, 0)
      else (s.(fds := s.fds[Slot(proc, fd) := SetCloexec(s.fds[Slot(proc, fd)], cloexec)]), 0)
    case SetFl(fd, append) =>
      if Source(s, proc, fd).None? then (s, -1)
      else if !InUse(s, proc, fd) then (s, 0)
      else
        var f := s.fds[Slot(proc, fd)];
        (Sync(s, proc, Description(f), None, Some(WithAppend(f.flags, append))), 0)
    case Open(res, flags, offset) =>
      var fd := FreeFrom(s.fds, proc, FIRST_USER);
      (OpenAt(s, if fd.Some? then Some(Slot(proc, fd.value)) else None, res, flags, offset),
        if fd.Some? then fd.value else -1)
    case MakePipeCall =>
      var rfd := FreeFrom(s.fds, proc, FIRST_USER);
      if rfd.None? then (s, -1)
      else
        var wfd, p := FreeFrom(s.fds, proc, rfd.value + 1), FreePipe(s.pipes, 0);
        if wfd.None? || p.None? then (s, -1)
        else (MakePipe(s, p.value, Slot(proc, rfd.value), Slot(proc, wfd.value)), 0)
    case SetOffset(fd, offset) =>
      if InUse(s, proc, fd) && s.fds[Slot(proc, fd)].File? then
        (Sync(s, proc, s.fds[Slot(proc, fd)].id, Some(offset), None), offset)
      else (s, -1)
    case CloseAll => (CloseFrom(s, proc, 0), 0)
  }

  lemma SetCloexecKeeps(s: Sys, i: nat, v: nat)
    requires Inv(s) && i < |s.fds|
    ensures Inv(s.(fds := s.fds[i := SetCloexec(s.fds[i], v)]))
  {
    hide Tally;
    var t := s.(fds := s.fds[i := SetCloexec(s.fds[i], v)]);
    forall k: Key ensures Tally(t.fds, k) == Tally(s.fds, k) { TallySet(s.fds, i, t.fds[i], k); }
    forall p: nat ensures PipeExact(t, p) { assert PipeExact(s, p); }
    forall v: nat ensures VnodeExact(t, v) { assert VnodeExact(s, v); }
    forall a, b | 0 <= a < |t.fds| && 0 <= b < |t.fds| ensures Agree(t, a, b) { assert Agree(s, a, b); }
    forall a | 0 <= a < |t.fds| ensures EntryOk(t, t.fds[a]) { assert EntryOk(s, s.fds[a]); }
  }

  lemma Sizes(s: Sys)
    requires Inv(s)
    ensures |s.fds| == PROCS * FDS && |s.pipes| == PIPES
  {
  }

  /** Every call keeps the invariant. */
  lemma StepKeeps(s: Sys, proc: nat, c: Call)
    requires Inv(s) && proc < PROCS && CanCall(s, c)
    ensures Inv(Step(s, proc, c).0)
  {
    hide Inv, Clear, CopyTo, OpenAt, MakePipe, Sync, CloseFrom;
    Sizes(s);
    match c {
      case Close(fd) =>
        if InUse(s, proc, fd) { ClearKeeps(s, Slot(proc, fd)); }
      case Dup(fd, minFd) =>
      case Dup2(oldFd, newFd) =>
      case SetFd(fd, cloexec) =>
        if InUse(s, proc, fd) { SetCloexecKeeps(s, Slot(proc, fd), cloexec); }
      case SetFl(fd, append) =>
        if InUse(s, proc, fd) {
          var f := s.fds[Slot(proc, fd)];
          SyncKeeps(s, proc, Description(f), None, Some(WithAppend(f.flags, append)));
        }
      case Open(res, flags, offset) =>
        var fd := FreeFrom(s.fds, proc, FIRST_USER);
        OpenKeeps(s, if fd.Some? then Some(Slot(proc, fd.value)) else None, res, flags, offset);
      case MakePipeCall =>
        var rfd := FreeFrom(s.fds, proc, FIRST_USER);
        if rfd.Some? {
          var wfd, p := FreeFrom(s.fds, proc, rfd.value + 1), FreePipe(s.pipes, 0);
          if wfd.Some? && p.Some? { MakePipeKeeps(s, p.value, Slot(proc, rfd.value), Slot(proc, wfd.value)); }
        }
      case SetOffset(fd, offset) =>
        if InUse(s, proc, fd) && s.fds[Slot(proc, fd)].File? {
          SyncKeeps(s, proc, s.fds[Slot(proc, fd)].id, Some(offset), None);
        }
      case CloseAll =>
    }
  }

  // ---------- runs ----------

  /** Nothing open. */
  function Boot(): (s: Sys)
    ensures |s.fds| == PROCS * FDS && |s.pipes| == PIPES && forall i :: 0 <= i < |s.fds| ==> s.fds[i].Unused?
  {
    Sys(seq(1024, i => Unused), seq(32, i => Pipe(false, 0, 0, 0)), map[], 1)
  }

  lemma {:induction false} NoneTallied(fds: seq<Fd>, k: Key)
    requires forall i :: 0 <= i < |fds| ==> fds[i].Unused?
    ensures Tally(fds, k) == 0
  {
    if fds != [] { NoneTallied(fds[..|fds| - 1], k); }
  }

  lemma BootInv()
    ensures Inv(Boot())
  {
    forall k: Key ensures Tally(Boot().fds, k) == 0 { NoneTallied(Boot().fds, k); }
  }

  /** Calls one after the other; an open whose vnode cannot be resolved does not happen. */
  ghost function Run(s: Sys, calls: seq<(nat, Call)>): (t: Sys)
    requires Inv(s) && forall i :: 0 <= i < |calls| ==> calls[i].0 < PROCS
    ensures Inv(t)
    decreases |calls|
  {
    if calls == [] then s
    else
      var (proc, c) := calls[0];
      var next := if CanCall(s, c) then (StepKeeps(s, proc, c); Step(s, proc, c).0) else s;
      Run(next, calls[1..])
  }

  /** After any calls: a pipe is in use exactly while some entry names it, and its counts are those entries; a vnode is
      live exactly while some entry holds it. */
  lemma CountsAfterAnyRun(calls: seq<(nat, Call)>, p: nat, v: nat)
    requires (forall i :: 0 <= i < |calls| ==> calls[i].0 < PROCS) && p < PIPES
    ensures Inv(Boot())
    ensures var s := Run(Boot(), calls);
            |s.pipes| == PIPES && s.pipes[p].refs == Tally(s.fds, Refs(p))
            && s.pipes[p].readers == Tally(s.fds, Readers(p)) && s.pipes[p].writers == Tally(s.fds, Writers(p))
            && (s.pipes[p].used <==> exists i :: 0 <= i < |s.fds| && s.fds[i].PipeEnd? && s.fds[i].pipe == p)
            && (v in s.vnodes <==> exists i :: 0 <= i < |s.fds| && s.fds[i].File? && s.fds[i].vnode == v)
  {
    BootInv();
    var s := Run(Boot(), calls);
    assert PipeExact(s, p) && VnodeExact(s, v);
    SomeTallied(s.fds, Refs(p));
    SomeTallied(s.fds, Holds(v));
    if exists i :: 0 <= i < |s.fds| && s.fds[i].PipeEnd? && s.fds[i].pipe == p {
      var i :| 0 <= i < |s.fds| && s.fds[i].PipeEnd? && s.fds[i].pipe == p;
      assert Weight(s.fds[i], Refs(p)) > 0;
    }
    if exists i :: 0 <= i < |s.fds| && s.fds[i].File? && s.fds[i].vnode == v {
      var i :| 0 <= i < |s.fds| && s.fds[i].File? && s.fds[i].vnode == v;
      assert Weight(s.fds[i], Holds(v)) > 0;
    }
  }

  lemma {:induction false} SomeTallied(fds: seq<Fd>, k: Key)
    ensures Tally(fds, k) > 0 <==> exists i :: 0 <= i < |fds| && Weight(fds[i], k) > 0
  {
    if fds != [] {
      var n := |fds| - 1;
      SomeTallied(fds[..n], k);
      if Tally(fds[..n], k) > 0 {
        var i :| 0 <= i < n && Weight(fds[..n][i], k) > 0;
        assert Weight(fds[i], k) > 0;
      }
      if i :| 0 <= i < |fds| && Weight(fds[i], k) > 0 {
        if i < n { assert Weight(fds[..n][i], k) > 0; }
      }
    }
  }

  /** Descriptors of one description always show the same file, offset and flags. */
  lemma DescriptionsAgree(calls: seq<(nat, Call)>, i: nat, j: nat)
    requires (forall k :: 0 <= k < |calls| ==> calls[k].0 < PROCS) && i < PROCS * FDS && j < PROCS * FDS
    ensures Inv(Boot())
    ensures var s := Run(Boot(), calls);
            |s.fds| == PROCS * FDS
            && (SameDescription(s, i, j) ==>
                  i / 16 == j / 16 && s.fds[i].vnode == s.fds[j].vnode && s.fds[i].offset == s.fds[j].offset
                  && s.fds[i].flags == s.fds[j].flags)
  {
    BootInv();
    assert Agree(Run(Boot(), calls), i, j);
  }

  /** dup makes a twin: same description, so the two move together from then on. */
  lemma DupShares(s: Sys, proc: nat, fd: int, minFd: nat)
    requires Inv(s) && proc < PROCS && InUse(s, proc, fd) && s.fds[Slot(proc, fd)].File?
    ensures var (t, r) := Step(s, proc, Dup(fd, minFd));
            r >= 0 ==> r < FDS && r != fd && |t.fds| == |s.fds| && SameDescription(t, Slot(proc, fd), Slot(proc, r))
                       && HoldersOf(t.vnodes, s.fds[Slot(proc, fd)].vnode) ==
                          HoldersOf(s.vnodes, s.fds[Slot(proc, fd)].vnode) + 1
  {
    var target := FreeFrom(s.fds, proc, minFd);
    if target.Some? {
      var i, v := Slot(proc, target.value), s.fds[Slot(proc, fd)].vnode;
      SourceCopies(s, proc, fd, target.value);
      CopyKeeps(s, i, s.fds[Slot(proc, fd)]);
      GetPut(s.vnodes, v, v);
    }
  }

  lemma {:induction false} CloseFromEmpties(s: Sys, proc: nat, fd: nat, i: nat)
    requires Inv(s) && proc < PROCS && fd <= FDS && i < PROCS * FDS
    ensures |CloseFrom(s, proc, fd).fds| == PROCS * FDS
    ensures CloseFrom(s, proc, fd).fds[i] == if Slot(proc, fd) <= i < Slot(proc, FDS) then Unused else s.fds[i]
    decreases FDS - fd
  {
    if fd < FDS {
      ClearKeeps(s, Slot(proc, fd));
      ClearFrame(s, Slot(proc, fd));
      CloseFromEmpties(Clear(s, Slot(proc, fd)), proc, fd + 1, i);
    }
  }

  /** When the last process has closed its files, nothing is held: no pipe in use, no vnode live. */
  lemma AllClosedFreesAll(s: Sys)
    requires Inv(s) && forall i :: 0 <= i < |s.fds| ==> s.fds[i].Unused?
    ensures (forall p :: 0 <= p < |s.pipes| ==> !s.pipes[p].used) && s.vnodes == map[]
  {
    forall p | 0 <= p < |s.pipes| ensures !s.pipes[p].used { assert PipeExact(s, p); NoneTallied(s.fds, Refs(p)); }
    forall v: nat ensures v !in s.vnodes { assert VnodeExact(s, v); NoneTallied(s.fds, Holds(v)); }
  }
}
