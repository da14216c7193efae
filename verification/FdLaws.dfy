/** What each descriptor call promises its caller, and what a program sees through the two ends of a pipe. */
module FdLaws {
  import opened Base
  import opened FdModel
  import opened FdRuns
  import PR = PipeRuns
  import opened PipeRing

  // ---------- which descriptor ----------

  /** fd is the lowest unused descriptor of the process from `least` on. */
  ghost predicate Lowest(s: Sys, proc: nat, least: nat, fd: int)
    requires |s.fds| == PROCS * FDS && proc < PROCS
  {
    least <= fd < FDS && s.fds[Slot(proc, fd)].Unused?
    && forall k :: least <= k < fd ==> !s.fds[Slot(proc, k)].Unused?
  }

  ghost predicate Full(s: Sys, proc: nat, least: nat)
    requires |s.fds| == PROCS * FDS && proc < PROCS
  {
    forall k :: least <= k < FDS ==> !s.fds[Slot(proc, k)].Unused?
  }

  lemma {:induction false} FreeIs(s: Sys, proc: nat, least: nat)
    requires |s.fds| == PROCS * FDS && proc < PROCS
    ensures var r := FreeFrom(s.fds, proc, least);
            if r.Some? then Lowest(s, proc, least, r.value) else Full(s, proc, least)
    decreases FDS - least
  {
    if least < FDS && !s.fds[Slot(proc, least)].Unused? { FreeIs(s, proc, least + 1); }
  }

  lemma {:induction false} PipeIs(pipes: seq<Pipe>, p: nat)
    ensures var r := FreePipe(pipes, p);
            if r.Some? then forall k :: p <= k < r.value ==> pipes[k].used
            else forall k :: p <= k < |pipes| ==> pipes[k].used
    decreases |pipes| - p
  {
    if p < |pipes| && pipes[p].used { PipeIs(pipes, p + 1); }
  }

  /** Only entry i may differ. */
  ghost predicate Others(s: Sys, t: Sys, i: nat) {
    |t.fds| == |s.fds| && forall k :: 0 <= k < |s.fds| && k != i ==> t.fds[k] == s.fds[k]
  }

  lemma SlotsApart(proc: nat, a: nat, b: nat)
    requires proc < PROCS && a < FDS && b < FDS
    ensures Slot(proc, a) < PROCS * FDS && (Slot(proc, a) == Slot(proc, b) <==> a == b)
  {
  }

  // ---------- copies ----------

  /** g is used like f in every respect, but stays open over exec. */
  predicate Twin(f: Fd, g: Fd) {
    && (f.Console? <==> g.Console?) && (f.PipeEnd? <==> g.PipeEnd?) && (f.File? <==> g.File?)
    && (f.Console? ==> g.consoleFd == f.consoleFd && g.flags == f.flags && g.fdFlags == 0)
    && (f.PipeEnd? ==> g.pipe == f.pipe && g.canRead == f.canRead && g.canWrite == f.canWrite && g.flags == f.flags
                       && g.id == f.id && g.fdFlags == 0)
    && (f.File? ==> g.vnode == f.vnode && g.flags == f.flags && g.id == f.id && g.offset == f.offset && g.fdFlags == 0)
  }

  /** What a descriptor stands for: its entry, or for an unused 0, 1 and 2 the keyboard and the screen. */
  ghost predicate StandsFor(s: Sys, proc: nat, fd: int, f: Fd)
    requires |s.fds| == PROCS * FDS && proc < PROCS
  {
    if 0 <= fd < FDS && !s.fds[Slot(proc, fd)].Unused? then f == s.fds[Slot(proc, fd)]
    else (fd == 0 && f == Console(0, RDONLY, 0)) || (1 <= fd <= 2 && f == Console(fd, WRONLY, 0))
  }

  ghost predicate Known(s: Sys, proc: nat, fd: int)
    requires |s.fds| == PROCS * FDS && proc < PROCS
  {
    exists f :: StandsFor(s, proc, fd, f)
  }

  lemma SourceIs(s: Sys, proc: nat, fd: int)
    requires |s.fds| == PROCS * FDS && proc < PROCS
    ensures Source(s, proc, fd).Some? <==> Known(s, proc, fd)
    ensures Source(s, proc, fd).Some? ==> StandsFor(s, proc, fd, Source(s, proc, fd).value)
    ensures forall f, g :: StandsFor(s, proc, fd, f) && StandsFor(s, proc, fd, g) ==> f == g
  {
    if Source(s, proc, fd).Some? { assert StandsFor(s, proc, fd, Source(s, proc, fd).value); }
  }

  lemma CopyLaw(s: Sys, proc: nat, target: nat, src: Fd)
    requires Inv(s) && proc < PROCS && target < FDS && CopySource(s, Slot(proc, target), src)
    ensures var t := CopyInto(s, proc, target, src);
            |t.fds| == |s.fds| == PROCS * FDS && Twin(src, t.fds[Slot(proc, target)])
            && Others(s, t, Slot(proc, target))
  {
    hide Inv, CopySource, Clear;
    Sizes(s);
    var i := Slot(proc, target);
    CopyKeeps(s, i, src);
    HeldAlive(s, i);
    ClearFrame(s, i);
  }

  /** dup succeeds exactly when the descriptor stands for something and there is a free one; the lowest becomes its twin
      and nothing else changes. */
  lemma DupLaw(s: Sys, proc: nat, fd: int, least: nat)
    requires Inv(s) && proc < PROCS
    ensures |s.fds| == PROCS * FDS
    ensures var (t, r) := Step(s, proc, Dup(fd, least));
            && (r >= 0 <==> Known(s, proc, fd) && !Full(s, proc, least)) && (r < 0 ==> r == -1 && t == s)
            && (r >= 0 ==> Lowest(s, proc, least, r) && |t.fds| == |s.fds| && Others(s, t, Slot(proc, r))
                           && forall f :: StandsFor(s, proc, fd, f) ==> Twin(f, t.fds[Slot(proc, r)]))
  {
    hide Inv, CopyTo;
    Sizes(s);
    SourceIs(s, proc, fd);
    FreeIs(s, proc, least);
    var src, target := Source(s, proc, fd), FreeFrom(s.fds, proc, least);
    if src.Some? && target.Some? {
      SourceCopies(s, proc, fd, target.value);
      CopyLaw(s, proc, target.value, src.value);
    }
  }

  lemma Dup2Law(s: Sys, proc: nat, oldFd: int, newFd: int)
    requires Inv(s) && proc < PROCS
    ensures |s.fds| == PROCS * FDS
    ensures var (t, r) := Step(s, proc, Dup2(oldFd, newFd));
            && (r >= 0 <==> Known(s, proc, oldFd) && 0 <= newFd < FDS)
            && (r < 0 ==> r == -1 && t == s) && (oldFd == newFd ==> t == s)
            && (r >= 0 ==> r == newFd)
            && (r >= 0 && oldFd != newFd ==>
                  |t.fds| == |s.fds| && Others(s, t, Slot(proc, newFd))
                  && forall f :: StandsFor(s, proc, oldFd, f) ==> Twin(f, t.fds[Slot(proc, newFd)]))
  {
    hide Inv, CopyTo;
    Sizes(s);
    SourceIs(s, proc, oldFd);
    var src := Source(s, proc, oldFd);
    if src.Some? && 0 <= newFd < FDS && oldFd != newFd {
      SourceCopies(s, proc, oldFd, newFd);
      CopyLaw(s, proc, newFd, src.value);
    }
  }

  // ---------- close, open ----------

  lemma CloseLaw(s: Sys, proc: nat, fd: int)
    requires Inv(s) && proc < PROCS
    ensures |s.fds| == PROCS * FDS
    ensures var (t, r) := Step(s, proc, Close(fd));
            if 0 <= fd < FDS && !s.fds[Slot(proc, fd)].Unused? then
              r == 0 && |t.fds| == |s.fds| && t.fds[Slot(proc, fd)].Unused? && Others(s, t, Slot(proc, fd))
            else r == -1 && t == s
  {
    hide Inv, Clear;
    Sizes(s);
    if InUse(s, proc, fd) {
      HeldAlive(s, Slot(proc, fd));
      ClearFrame(s, Slot(proc, fd));
    }
  }

  /** The end of a process closes all its descriptors and nobody else's. */
  lemma CloseAllLaw(s: Sys, proc: nat, i: nat)
    requires Inv(s) && proc < PROCS && i < |s.fds|
    ensures var (t, r) := Step(s, proc, CloseAll);
            |t.fds| == |s.fds| && t.fds[i] == if i / FDS == proc then Unused else s.fds[i]
  {
    Sizes(s);
    CloseFromEmpties(s, proc, 0, i);
  }

  /** open gives the lowest free descriptor from 3 on, with a description nobody else has; with none free it fails and
      leaves the descriptors alone. */
  lemma OpenLaw(s: Sys, proc: nat, res: Resolved, flags: nat, offset: nat)
    requires Inv(s) && proc < PROCS && CanResolve(s, res)
    ensures |s.fds| == PROCS * FDS
    ensures var (t, r) := Step(s, proc, Open(res, flags, offset));
            && (r >= 0 <==> !Full(s, proc, FIRST_USER)) && (r < 0 ==> r == -1 && t.fds == s.fds)
            && (r >= 0 ==> Lowest(s, proc, FIRST_USER, r) && |t.fds| == |s.fds| && Others(s, t, Slot(proc, r))
                           && var f := t.fds[Slot(proc, r)];
                              f.File? && f.vnode == res.v && f.flags == flags && f.offset == offset && f.fdFlags == 0
                              && forall k :: 0 <= k < |s.fds| && s.fds[k].File? ==> s.fds[k].id != f.id)
  {
    hide Tally;
    Sizes(s);
    FreeIs(s, proc, FIRST_USER);
    forall k | 0 <= k < |s.fds| && s.fds[k].File? ensures s.fds[k].id < s.nextId { assert EntryOk(s, s.fds[k]); }
  }

  // ---------- flags and offsets ----------

  /** Entry k shares its description with descriptor fd of the process. */
  ghost predicate Shares(s: Sys, proc: nat, fd: int, k: nat)
    requires |s.fds| == PROCS * FDS && proc < PROCS && 0 <= fd < FDS && k < |s.fds|
  {
    k / 16 == proc && s.fds[k].File? && s.fds[Slot(proc, fd)].File? && s.fds[k].id == s.fds[Slot(proc, fd)].id
  }

  /** Moving the offset moves it for every descriptor of the description, and changes nothing else. */
  lemma OffsetLaw(s: Sys, proc: nat, fd: int, offset: nat, k: nat)
    requires Inv(s) && proc < PROCS && k < PROCS * FDS
    ensures |s.fds| == PROCS * FDS
    ensures var (t, r) := Step(s, proc, SetOffset(fd, offset));
            |t.fds| == |s.fds| &&
            if 0 <= fd < FDS && s.fds[Slot(proc, fd)].File? then
              r == offset
              && t.fds[k] == if Shares(s, proc, fd, k) then s.fds[k].(offset := offset) else s.fds[k]
            else r == -1 && t == s
  {
    Sizes(s);
    if 0 <= fd < FDS { assert EntryOk(s, s.fds[Slot(proc, fd)]); }
  }

  /** The append bit, and no other, is set or cleared for every descriptor of the description. */
  lemma FlagsLaw(s: Sys, proc: nat, fd: int, append: bool, k: nat)
    requires Inv(s) && proc < PROCS && k < PROCS * FDS
    ensures |s.fds| == PROCS * FDS
    ensures var (t, r) := Step(s, proc, SetFl(fd, append));
            && |t.fds| == |s.fds| && (r == 0 <==> Known(s, proc, fd)) && (r != 0 ==> r == -1 && t == s)
            && if 0 <= fd < FDS && Shares(s, proc, fd, k) then
                 t.fds[k] == s.fds[k].(flags := t.fds[k].flags) && AppendOnly(s.fds[k].flags, t.fds[k].flags, append)
               else t.fds[k] == s.fds[k]
  {
    hide WithAppend, Tally;
    Sizes(s);
    SourceIs(s, proc, fd);
    if 0 <= fd < FDS {
      var f := s.fds[Slot(proc, fd)];
      assert EntryOk(s, f) && Agree(s, Slot(proc, fd), k) && Agree(s, k, Slot(proc, fd));
      if f.File? { AppendIs(f.flags, append); }
    }
  }

  predicate AppendOnly(before: nat, after: nat, on: bool) {
    after % 1024 == before % 1024 && after / 2048 == before / 2048 && (after / 1024 % 2 == 1 <==> on)
  }

  lemma AppendIs(flags: nat, on: bool)
    ensures AppendOnly(flags, WithAppend(flags, on), on)
  {
    var h, b, l := flags / 2048, flags / 1024 % 2, flags % 1024;
    assert flags == 2048 * h + 1024 * b + l;
  }

  /** Close-on-exec belongs to the descriptor, not to the description. */
  lemma CloexecLaw(s: Sys, proc: nat, fd: int, v: nat)
    requires Inv(s) && proc < PROCS
    ensures |s.fds| == PROCS * FDS
    ensures var (t, r) := Step(s, proc, SetFd(fd, v));
            && (r == 0 <==> Known(s, proc, fd) && v <= 1) && (r != 0 ==> r == -1 && t == s)
            && |t.fds| == |s.fds|
            && if r == 0 && 0 <= fd < FDS && !s.fds[Slot(proc, fd)].Unused? then
                 Others(s, t, Slot(proc, fd))
                 && t.fds[Slot(proc, fd)] == s.fds[Slot(proc, fd)].(fdFlags := v)
               else t == s
  {
    hide Tally;
    Sizes(s);
    SourceIs(s, proc, fd);
  }

  // ---------- pipe ----------

  /** Two free descriptors from 3 on, the second the lowest after the first, and a free pipe slot. */
  ghost predicate TwoFree(s: Sys, proc: nat, r: nat, w: nat)
    requires |s.fds| == PROCS * FDS && proc < PROCS
  {
    Lowest(s, proc, FIRST_USER, r) && Lowest(s, proc, r + 1, w)
  }

  /** pipe succeeds exactly when there are two free descriptors and a free slot. The lower one reads and cannot write,
      the higher one writes and cannot read, both name the slot, and nothing else changes. */
  lemma PipeLaw(s: Sys, proc: nat)
    requires Inv(s) && proc < PROCS
    ensures |s.fds| == PROCS * FDS
    ensures var (t, r) := Step(s, proc, MakePipeCall);
            && (r == 0 <==> (exists a: nat, b: nat :: TwoFree(s, proc, a, b))
                            && exists p :: 0 <= p < |s.pipes| && !s.pipes[p].used)
            && (r != 0 ==> r == -1 && t == s)
            && (r == 0 ==> forall a: nat, b: nat :: TwoFree(s, proc, a, b) ==> Ends(s, t, Slot(proc, a), Slot(proc, b)))
  {
    hide Inv, MakePipe;
    Sizes(s);
    FreeIs(s, proc, FIRST_USER);
    PipeIs(s.pipes, 0);
    var rfd := FreeFrom(s.fds, proc, FIRST_USER);
    if rfd.Some? {
      FreeIs(s, proc, rfd.value + 1);
      var wfd, p := FreeFrom(s.fds, proc, rfd.value + 1), FreePipe(s.pipes, 0);
      if wfd.Some? {
        assert TwoFree(s, proc, rfd.value, wfd.value);
        if p.Some? {
          SlotsApart(proc, rfd.value, wfd.value);
          EndsMade(s, p.value, Slot(proc, rfd.value), Slot(proc, wfd.value));
        }
      }
    }
  }

  ghost predicate Ends(s: Sys, t: Sys, i: nat, j: nat) {
    && |t.fds| == |s.fds| && i < |s.fds| && j < |s.fds| && i != j
    && PR.Reads(t.fds[i]) && !PR.Writes(t.fds[i]) && PR.Writes(t.fds[j]) && !PR.Reads(t.fds[j])
    && t.fds[i].fdFlags == 0 && t.fds[j].fdFlags == 0
    && t.fds[i].pipe == t.fds[j].pipe < |s.pipes| == |t.pipes|
    && !s.pipes[t.fds[i].pipe].used && t.pipes[t.fds[i].pipe].used && t.pipes[t.fds[i].pipe].readers == 1
    && (forall k :: 0 <= k < |s.fds| && k != i && k != j ==> t.fds[k] == s.fds[k])
    && (forall q :: 0 <= q < |s.pipes| && q != t.fds[i].pipe ==> t.pipes[q] == s.pipes[q])
  }

  lemma EndsMade(s: Sys, p: nat, i: nat, j: nat)
    requires i < |s.fds| && j < |s.fds| && i != j && p < |s.pipes| && !s.pipes[p].used
    ensures Ends(s, MakePipe(s, p, i, j), i, j)
  {
  }

  /** A program makes a pipe, writes d to one end and reads as much from the other: it gets d back, as far as the pipe
      holds it. The ends do not work the other way round. */
  lemma PipeCarries(w: PR.World, proc: nat, a: nat, b: nat, d: Bytes, n: nat)
    requires PR.WorldOk(w) && proc < PROCS && TwoFree(w.sys, proc, a, b)
    requires exists p :: 0 <= p < |w.sys.pipes| && !w.sys.pipes[p].used
    ensures var made := PR.Step(w, proc, PR.Descriptor(MakePipeCall));
            && made.1 == 0 && PR.WorldOk(made.0)
            && PR.Step(made.0, proc, PR.ReadBytes(b, n)).1 == -1
            && PR.Step(made.0, proc, PR.WriteBytes(a, d)).1 == -1
            && var wrote := PR.Step(made.0, proc, PR.WriteBytes(b, d));
               wrote.1 == Min(|d|, CAPACITY) && PR.WorldOk(wrote.0)
               && PR.Step(wrote.0, proc, PR.ReadBytes(a, |d|)).2 == d[..Min(|d|, CAPACITY)]
  {
    hide Inv, FdRuns.Step;
    PipeLaw(w.sys, proc);
    var made := PR.Step(w, proc, PR.Descriptor(MakePipeCall)).0;
    PR.StepOk(w, proc, PR.Descriptor(MakePipeCall));
    Sizes(made.sys);
    assert Ends(w.sys, made.sys, Slot(proc, a), Slot(proc, b));
    SlotsApart(proc, a, b);
    PR.StepOk(made, proc, PR.WriteBytes(b, d));
    var p := made.sys.fds[Slot(proc, a)].pipe;
    assert made.streams[p] == PR.NoBytes();
  }
}
