/** What single calls guarantee: waitpid follows exec to its end, and when the timer preempts. */
module ProcessCalls {
  import opened Base
  import opened ProcessModel
  import opened ProcessInvariant
  import opened ProcessRuns

  // ---------------------------------------------------------------- waitpid

  predicate Replaced(p: Pcb) { p.state == Zombie && p.replacedBy != 0 }

  /** The child a wait started at `pid` ends with: follow exec replacements through the table as it
      stands before the call. */
  ghost function Chase(s: Sys, mypid: nat, pid: nat): (r: Option<nat>)
    requires ExecOk(s)
    ensures r.Some? ==> r.value < |s.procs| && IsChild(s.procs[r.value], mypid) && !Replaced(s.procs[r.value])
    decreases s.nextPid - pid
  {
    var c := WaitChild(s.procs, mypid, Child(pid));
    if c.None? || !Replaced(s.procs[c.value]) then c
    else Chase(s, mypid, s.procs[c.value].replacedBy)
  }

  ghost function WaitEnd(s: Sys, mypid: nat, target: Wait): (r: Option<nat>)
    requires ExecOk(s)
  {
    var c := WaitChild(s.procs, mypid, target);
    if c.None? || !Replaced(s.procs[c.value]) then c
    else Chase(s, mypid, s.procs[c.value].replacedBy)
  }

  ghost function Outcome(s: Sys, end: Option<nat>): (r: WaitResult)
    requires end.Some? ==> end.value < |s.procs|
  {
    if end.None? then NoChild
    else if s.procs[end.value].state == Zombie then Reaped(s.procs[end.value].pid, s.procs[end.value].exitCode)
    else Blocks
  }

  /** The table after one turn of the loop: the replaced zombie is gone and the wait is redirected. */
  ghost function Redirect(s: Sys, me: nat, c: nat): (t: Sys)
    requires me < |s.procs| && c < |s.procs|
  {
    SetProc(SetProc(s, me, s.procs[me].(wait := Child(s.procs[c].replacedBy))), c, EmptySlot)
  }

  /** Looking for a pid other than the emptied one gives the same slot. */
  lemma LookupIgnores(s: Sys, me: nat, c: nat, pid: nat)
    requires TableOk(s) && me < |s.procs| && c < |s.procs| && c != me && s.procs[c].state == Zombie
    requires s.procs[c].pid < pid
    ensures WaitChild(Redirect(s, me, c).procs, s.procs[me].pid, Child(pid)) ==
            WaitChild(s.procs, s.procs[me].pid, Child(pid))
  {
    var t := Redirect(s, me, c);
    var a, b := ByPid(s.procs, pid), ByPid(t.procs, pid);
    if a.Some? {
      assert t.procs[a.value].state != Unused && t.procs[a.value].pid == pid;
      assert b.Some? && s.procs[b.value].state != Unused && s.procs[b.value].pid == pid;
    }
  }

  lemma {:induction false} ChaseIgnores(s: Sys, me: nat, c: nat, pid: nat)
    requires TableOk(s) && ExecOk(s) && me < |s.procs| && c < |s.procs| && c != me && s.procs[c].state == Zombie
    requires s.procs[me].state == Running
    requires s.procs[c].pid < pid
    requires ExecOk(Redirect(s, me, c))
    ensures Chase(Redirect(s, me, c), s.procs[me].pid, pid) == Chase(s, s.procs[me].pid, pid)
    decreases s.nextPid - pid
  {
    var t := Redirect(s, me, c);
    LookupIgnores(s, me, c, pid);
    var d := WaitChild(s.procs, s.procs[me].pid, Child(pid));
    if d.Some? {
      assert Replaced(t.procs[d.value]) == Replaced(s.procs[d.value]);
      if Replaced(s.procs[d.value]) {
        ChaseIgnores(s, me, c, s.procs[d.value].replacedBy);
      }
    }
  }

  /** sys_waitpid answers for the last process of the exec chain that starts at the child it looks at:
      its pid and exit code if that process has finished, a block if it is live, and an error exactly
      when the chain leads nowhere. The loop empties slots as it goes; the answer is read off the
      table before the call. */
  lemma {:induction false} WaitFollowsExec(s: Sys, me: nat, requested: Wait)
    requires Inv(s) && me < |s.procs| && s.procs[me].state == Running
    ensures var end := WaitEnd(s, s.procs[me].pid, WaitTarget(s, me, requested));
            && (end.Some? ==> end.value < |s.procs|)
            && WaitLoop(s, me, requested).1 == Outcome(s, end)
    decreases UsedSlots(s.procs)
  {
    hide Inv, ExecOk, IsChild;
    var target := WaitTarget(s, me, requested);
    var child := WaitChild(s.procs, s.procs[me].pid, target);
    if child.Some? && Replaced(s.procs[child.value]) {
      WaitRedirected(s, me, child.value, requested);
      WaitFollowsExec(Redirect(s, me, child.value), me, requested);
    }
  }

  lemma WaitRedirected(s: Sys, me: nat, c: nat, requested: Wait)
    requires Inv(s) && me < |s.procs| && s.procs[me].state == Running
    requires WaitChild(s.procs, s.procs[me].pid, WaitTarget(s, me, requested)) == Some(c) && Replaced(s.procs[c])
    ensures ExecOk(s) && Inv(Redirect(s, me, c)) && ExecOk(Redirect(s, me, c))
    ensures UsedSlots(Redirect(s, me, c).procs) < UsedSlots(s.procs)
    ensures c != me
    ensures WaitTarget(Redirect(s, me, c), me, requested) == Child(s.procs[c].replacedBy)
    ensures Chase(Redirect(s, me, c), s.procs[me].pid, s.procs[c].replacedBy) ==
            Chase(s, s.procs[me].pid, s.procs[c].replacedBy)
  {
    hide RunQOk, KbdQOk, CurrentOk, WaitersOk;
    RedirectKeeps(s, me, Child(s.procs[c].replacedBy), c);
    assert c in UsedSlots(s.procs) && c !in UsedSlots(Redirect(s, me, c).procs);
    ChaseIgnores(s, me, c, s.procs[c].replacedBy);
  }

  /** waitpid(-1) tells a process with a live child that it has none exactly when the child it looks at first, which
      is a zombie if there is one, was replaced by exec and the chain of replacements ends at a gone process. */
  lemma AnyWaitMisses(s: Sys, me: nat, requested: Wait, live: nat)
    requires Inv(s) && me < |s.procs| && s.procs[me].state == Running && WaitTarget(s, me, requested) == AnyChild
    requires live < |s.procs| && IsChild(s.procs[live], s.procs[me].pid) && Live(s.procs[live])
    ensures var c := FirstChild(s.procs, s.procs[me].pid);
            && c.Some?
            && (WaitLoop(s, me, requested).1 == NoChild <==>
                  Replaced(s.procs[c.value]) && Chase(s, s.procs[me].pid, s.procs[c.value].replacedBy).None?)
  {
    hide RunQOk, KbdQOk, CurrentOk, WaitersOk, WaitLoop;
    WaitFollowsExec(s, me, requested);
  }

  /** waitpid(-1) looks at the lowest zombie child, or else at the lowest child. */
  lemma FirstChildIs(procs: seq<Pcb>, ppid: nat)
    requires ppid != 0
    ensures var r := FirstChild(procs, ppid);
            r.Some? ==> forall i :: 0 <= i < r.value && IsChild(procs[i], ppid) ==>
              procs[r.value].state == Zombie && procs[i].state != Zombie
  {
    FirstChildFromIs(procs, ppid, 0, None);
  }

  lemma {:induction false} FirstChildFromIs(procs: seq<Pcb>, ppid: nat, from: nat, first: Option<nat>)
    requires from <= |procs|
    requires first.Some? ==> first.value < from && IsChild(procs[first.value], ppid)
                             && procs[first.value].state != Zombie
    requires forall i :: 0 <= i < from && IsChild(procs[i], ppid) ==>
               procs[i].state != Zombie && first.Some? && first.value <= i
    ensures var r := FirstChildFrom(procs, ppid, from, first);
            r.Some? ==> forall i :: 0 <= i < r.value && IsChild(procs[i], ppid) ==>
              procs[r.value].state == Zombie && procs[i].state != Zombie
    decreases |procs| - from
  {
    if from < |procs| && !(IsChild(procs[from], ppid) && procs[from].state == Zombie) {
      FirstChildFromIs(procs, ppid, from + 1,
                       if IsChild(procs[from], ppid) && first.None? then Some(from) else first);
    }
  }

  /** Adding an event to a run adds a step. */
  lemma {:induction false} RunSnoc(s: Sys, es: seq<Event>, e: Event)
    requires Inv(s)
    ensures Run(s, es + [e]) == Step(Run(s, es), e)
    decreases |es|
  {
    hide Inv, Step;
    if es == [] {
      assert ([] + [e])[1..] == [];
    } else {
      assert (es + [e])[1..] == es[1..] + [e];
      RunSnoc(Step(s, es[0]), es[1..], e);
    }
  }

  lemma FromBootSnoc(es: seq<Event>, e: Event)
    ensures FromBoot(es + [e]) == Step(FromBoot(es), e)
  {
    hide Step, Inv;
    BootInv();
    RunSnoc(Boot(), es, e);
  }

  /** Three slots in use and the machine handed to the scheduler. */
  function Small(a: Pcb, b: Pcb, c: Pcb, runQ: seq<nat>, current: Option<nat>, nextPid: nat): (s: Sys)
    ensures |s.procs| == PROC_MAX && s.procs[0] == a && s.procs[1] == b && s.procs[2] == c
    ensures forall i :: 3 <= i < PROC_MAX ==> s.procs[i] == EmptySlot
  {
    Boot().(procs := Boot().procs[0 := a][1 := b][2 := c], runQ := runQ, current := current, nextPid := nextPid,
            waiting := true)
  }

  function Proc(state: ProcState, pid: nat, ppid: nat): (p: Pcb) {
    Pcb(state, pid, ppid, NotWaiting, 0, 0, User, TIME_SLICE)
  }

  /** Tables of equal slots are equal. */
  lemma SameTable(s: Sys, a: Pcb, b: Pcb, c: Pcb)
    requires |s.procs| == PROC_MAX && s.procs[0] == a && s.procs[1] == b && s.procs[2] == c
    requires forall i :: 3 <= i < PROC_MAX ==> s.procs[i] == EmptySlot
    ensures s.procs == Boot().procs[0 := a][1 := b][2 := c]
  {
  }

  /** The parent, once it has waited in the kernel. */
  function Parent(state: ProcState, wait: Wait): (p: Pcb) { Pcb(state, 1, 0, wait, 0, 0, InKernel, TIME_SLICE) }

  /** A, replaced by the process with pid 3. */
  function Gone(): (p: Pcb) { Proc(Zombie, 2, 1).(replacedBy := 3) }

  lemma LaunchP()
    ensures FromBoot([]) == Boot()
    ensures Step(FromBoot([]), Launch(Loaded)) == Small(Proc(Ready, 1, 0), EmptySlot, EmptySlot, [0], None, 2)
  {
    hide Inv;
    var t := Step(FromBoot([]), Launch(Loaded));
    assert FreeSlotFrom(Boot().procs, 0) == Some(0);
    SameTable(t, Proc(Ready, 1, 0), EmptySlot, EmptySlot);
  }

  lemma ParentRuns(s: Sys)
    requires Inv(s) && s == Small(Proc(Ready, 1, 0), EmptySlot, EmptySlot, [0], None, 2)
    ensures Step(s, SwitchOver) == Small(Proc(Running, 1, 0), EmptySlot, EmptySlot, [], Some(0), 2)
  {
    hide Inv;
    SameTable(Step(s, SwitchOver), Proc(Running, 1, 0), EmptySlot, EmptySlot);
  }

  lemma SpawnsA(s: Sys)
    requires Inv(s) && s == Small(Proc(Running, 1, 0), EmptySlot, EmptySlot, [], Some(0), 2)
    ensures Step(s, SpawnCall(Loaded)) == Small(Proc(Running, 1, 0), Proc(Ready, 2, 1), EmptySlot, [1], Some(0), 3)
  {
    hide Inv;
    assert FreeSlotFrom(s.procs, 1) == Some(1);
    assert FreeSlotFrom(s.procs, 0) == Some(1);
    SameTable(Step(s, SpawnCall(Loaded)), Proc(Running, 1, 0), Proc(Ready, 2, 1), EmptySlot);
  }

  lemma WaitsForA(s: Sys)
    requires Inv(s) && s == Small(Proc(Running, 1, 0), Proc(Ready, 2, 1), EmptySlot, [1], Some(0), 3)
    ensures Step(s, WaitCall(Child(2))) ==
            Small(Parent(Blocked, Child(2)), Proc(Ready, 2, 1), EmptySlot, [1], Some(0), 3)
  {
    hide Inv;
    SameTable(Step(s, WaitCall(Child(2))), Parent(Blocked, Child(2)), Proc(Ready, 2, 1), EmptySlot);
  }

  lemma ARuns(s: Sys)
    requires Inv(s) && s == Small(Parent(Blocked, Child(2)), Proc(Ready, 2, 1), EmptySlot, [1], Some(0), 3)
    ensures Step(s, SwitchOver) == Small(Parent(Blocked, Child(2)), Proc(Running, 2, 1), EmptySlot, [], Some(1), 3)
  {
    hide Inv;
    SameTable(Step(s, SwitchOver), Parent(Blocked, Child(2)), Proc(Running, 2, 1), EmptySlot);
  }

  lemma AExecsB(s: Sys)
    requires Inv(s) && s == Small(Parent(Blocked, Child(2)), Proc(Running, 2, 1), EmptySlot, [], Some(1), 3)
    ensures Step(s, ExecCall(Loaded)) == Small(Parent(Blocked, Child(3)), Gone(), Proc(Ready, 3, 1), [2], Some(1), 4)
  {
    hide Inv;
    assert FreeSlotFrom(s.procs, 2) == Some(2);
    assert FreeSlotFrom(s.procs, 1) == Some(2);
    assert FreeSlotFrom(s.procs, 0) == Some(2);
    SameTable(Step(s, ExecCall(Loaded)), Parent(Blocked, Child(3)), Gone(), Proc(Ready, 3, 1));
  }

  lemma BRuns(s: Sys)
    requires Inv(s) && s == Small(Parent(Blocked, Child(3)), Gone(), Proc(Ready, 3, 1), [2], Some(1), 4)
    ensures Step(s, SwitchOver) == Small(Parent(Blocked, Child(3)), Gone(), Proc(Running, 3, 1), [], Some(2), 4)
  {
    hide Inv;
    SameTable(Step(s, SwitchOver), Parent(Blocked, Child(3)), Gone(), Proc(Running, 3, 1));
  }

  lemma BExits(s: Sys)
    requires Inv(s) && s == Small(Parent(Blocked, Child(3)), Gone(), Proc(Running, 3, 1), [], Some(2), 4)
    ensures Step(s, ExitCall(0)) == Small(Parent(Ready, Child(3)), Gone(), Proc(Zombie, 3, 1), [0], Some(2), 4)
  {
    hide Inv;
    SameTable(Step(s, ExitCall(0)), Parent(Ready, Child(3)), Gone(), Proc(Zombie, 3, 1));
  }

  lemma ParentResumes(s: Sys)
    requires Inv(s) && s == Small(Parent(Ready, Child(3)), Gone(), Proc(Zombie, 3, 1), [0], Some(2), 4)
    ensures Step(s, SwitchOver) == Small(Parent(Running, Child(3)), Gone(), Proc(Zombie, 3, 1), [], Some(0), 4)
  {
    hide Inv;
    SameTable(Step(s, SwitchOver), Parent(Running, Child(3)), Gone(), Proc(Zombie, 3, 1));
  }

  lemma ReapsB(s: Sys)
    requires Inv(s) && s == Small(Parent(Running, Child(3)), Gone(), Proc(Zombie, 3, 1), [], Some(0), 4)
    ensures Step(s, WaitCall(Child(2))) == Small(Parent(Running, NotWaiting), Gone(), EmptySlot, [], Some(0), 4)
  {
    hide Inv;
    SameTable(Step(s, WaitCall(Child(2))), Parent(Running, NotWaiting), Gone(), EmptySlot);
  }

  lemma SpawnsC(s: Sys)
    requires Inv(s) && s == Small(Parent(Running, NotWaiting), Gone(), EmptySlot, [], Some(0), 4)
    ensures Step(s, SpawnCall(Loaded)) == Small(Parent(Running, NotWaiting), Gone(), Proc(Ready, 4, 1), [2], Some(0), 5)
  {
    hide Inv;
    assert FreeSlotFrom(s.procs, 2) == Some(2);
    assert FreeSlotFrom(s.procs, 1) == Some(2);
    assert FreeSlotFrom(s.procs, 0) == Some(2);
    SameTable(Step(s, SpawnCall(Loaded)), Parent(Running, NotWaiting), Gone(), Proc(Ready, 4, 1));
  }

  /** A run from boot in which waitpid(-1) misses a live child. The parent spawns A and waits for it; A execs B, B
      exits and is reaped, and the parent spawns C. A is still a zombie that names B, so the wait reports that there
      is no child although C is ready to run. */
  lemma AnyWaitCanMissLiveChild() returns (es: seq<Event>)
    ensures var s := FromBoot(es);
            && s.current == Some(0) && InUser(s)
            && IsChild(s.procs[2], s.procs[0].pid) && Live(s.procs[2])
            && WaitLoop(s, 0, AnyChild).1 == NoChild
  {
    hide Inv, Step, WaitLoop, Small;
    es := [];
    LaunchP();
    FromBootSnoc(es, Launch(Loaded));
    es := es + [Launch(Loaded)];
    ParentRuns(FromBoot(es));
    FromBootSnoc(es, SwitchOver);
    es := es + [SwitchOver];
    SpawnsA(FromBoot(es));
    FromBootSnoc(es, SpawnCall(Loaded));
    es := es + [SpawnCall(Loaded)];
    WaitsForA(FromBoot(es));
    FromBootSnoc(es, WaitCall(Child(2)));
    es := es + [WaitCall(Child(2))];
    ARuns(FromBoot(es));
    FromBootSnoc(es, SwitchOver);
    es := es + [SwitchOver];
    AExecsB(FromBoot(es));
    FromBootSnoc(es, ExecCall(Loaded));
    es := es + [ExecCall(Loaded)];
    BRuns(FromBoot(es));
    FromBootSnoc(es, SwitchOver);
    es := es + [SwitchOver];
    BExits(FromBoot(es));
    FromBootSnoc(es, ExitCall(0));
    es := es + [ExitCall(0)];
    ParentResumes(FromBoot(es));
    FromBootSnoc(es, SwitchOver);
    es := es + [SwitchOver];
    ReapsB(FromBoot(es));
    FromBootSnoc(es, WaitCall(Child(2)));
    es := es + [WaitCall(Child(2))];
    SpawnsC(FromBoot(es));
    FromBootSnoc(es, SpawnCall(Loaded));
    es := es + [SpawnCall(Loaded)];
    MissesC(FromBoot(es));
  }

  lemma MissesC(s: Sys)
    requires Inv(s) && s == Small(Parent(Running, NotWaiting), Gone(), Proc(Ready, 4, 1), [2], Some(0), 5)
    ensures s.current == Some(0) && WaitLoop(s, 0, AnyChild).1 == NoChild
  {
    hide RunQOk, KbdQOk, CurrentOk, WaitersOk, WaitLoop;
    AnyWaitMisses(s, 0, AnyChild, 2);
    assert FirstChild(s.procs, 1) == Some(1) by { assert IsChild(s.procs[1], 1); }
    assert ByPid(s.procs, 3).None?;
  }

  // ---------------------------------------------------------------- the timer

  function Ticks(s: Sys, n: nat): (r: Sys)
    requires Inv(s)
    ensures Inv(r)
    decreases n
  {
    if n == 0 then s else Ticks(Step(s, TimerTick), n - 1)
  }

  /** A time slice ends the turn of a process in user mode exactly when it was last resumed in user mode.
      A process that has blocked in the kernel since its last yield or preemption keeps the CPU for ever. */
  lemma {:induction false} TimeSlice(s: Sys, n: nat)
    requires Inv(s) && InUser(s) && s.procs[s.current.value].ticks <= TIME_SLICE
    ensures n >= TIME_SLICE ==> (OnCpu(Ticks(s, n)) <==> s.procs[s.current.value].resume == InKernel)
    ensures s.procs[s.current.value].resume == InKernel ==> Ticks(s, n) == s
  {
    TimeSliceFrom(s, n);
  }

  lemma {:induction false} TimeSliceFrom(s: Sys, n: nat)
    requires Inv(s) && InUser(s)
    ensures s.procs[s.current.value].resume == InKernel ==> Ticks(s, n) == s
    ensures s.procs[s.current.value].resume == User && n >= s.procs[s.current.value].ticks && n > 0 ==>
            !OnCpu(Ticks(s, n))
    decreases n
  {
    hide Inv, Step;
    if n > 0 {
      TickOnce(s);
      if InUser(Step(s, TimerTick)) {
        TimeSliceFrom(Step(s, TimerTick), n - 1);
      } else {
        OffCpuStays(Step(s, TimerTick), n - 1);
      }
    }
  }

  lemma TickOnce(s: Sys)
    requires Inv(s) && InUser(s)
    ensures var t := Step(s, TimerTick); var p := s.procs[s.current.value];
            if p.resume == InKernel then t == s
            else if p.ticks > 1 then InUser(t) && t.current == s.current
                                     && t.procs[t.current.value] == p.(ticks := p.ticks - 1)
            else !OnCpu(t)
  {
  }

  lemma {:induction false} OffCpuStays(s: Sys, n: nat)
    requires Inv(s) && !OnCpu(s)
    ensures Ticks(s, n) == s
  {
    if n > 0 { OffCpuStays(s, n - 1); }
  }

  // ---------------------------------------------------------------- once blocked in the kernel

  /** A live process that the next dispatch, or the last one, continues inside the kernel. */
  ghost predicate KernelSide(s: Sys, me: nat) { me < |s.procs| && Live(s.procs[me]) && s.procs[me].resume == InKernel }

  /** Process me itself yields, exits or execs. */
  predicate Leaves(s: Sys, e: Event, me: nat) {
    s.current == Some(me) && (e.YieldCall? || e.ExitCall? || e.ExecCall?)
  }

  /** waitpid leaves live processes other than the caller alone, and the caller on the side it was on or in the
      kernel. */
  lemma {:induction false} WaitKeepsSide(s: Sys, q: nat, requested: Wait, me: nat)
    requires q < |s.procs| && s.procs[q].state == Running && KernelSide(s, me)
    ensures KernelSide(WaitLoop(s, q, requested).0, me)
    decreases UsedSlots(s.procs)
  {
    var target := WaitTarget(s, q, requested);
    var child := WaitChild(s.procs, s.procs[q].pid, target);
    if child.Some? && s.procs[child.value].state == Zombie && s.procs[child.value].replacedBy != 0 {
      var c := child.value;
      var t := SetProc(SetProc(s, q, s.procs[q].(wait := Child(s.procs[c].replacedBy))), c, EmptySlot);
      assert c !in UsedSlots(t.procs) && c in UsedSlots(s.procs);
      WaitKeepsSide(t, q, requested, me);
    }
  }

  lemma AddKeepsSide(s: Sys, p: nat, me: nat)
    requires p < |s.procs| && KernelSide(s, me)
    ensures KernelSide(Add(s, p), me)
  {
  }

  lemma CreateKeepsSide(s: Sys, load: Load, ppid: nat, me: nat)
    requires KernelSide(s, me)
    ensures KernelSide(Create(s, load, ppid).0, me) && |Create(s, load, ppid).0.procs| == |s.procs|
    ensures Create(s, load, ppid).1 != Some(me)
  {
    hide FreeSlotFrom;
  }

  lemma SupersededKeepsSide(s: Sys, q: nat, n: nat, me: nat)
    requires q < |s.procs| && n < |s.procs| && KernelSide(s, me) && q != me
    ensures KernelSide(Superseded(s, q, n), me)
  {
    hide ByPid;
  }

  /** The calls that change others leave a live process on its side. */
  lemma OthersKeepSide(s: Sys, q: nat, load: Load, me: nat)
    requires q < |s.procs| && KernelSide(s, me)
    ensures KernelSide(Spawn(s, q, load), me) && KernelSide(LaunchFromShell(s, load), me)
    ensures q != me ==> KernelSide(Exec(s, q, load), me)
  {
    hide Reap, Create, Add, Superseded;
    var t := Create(s, load, s.procs[q].pid);
    CreateKeepsSide(s, load, s.procs[q].pid, me);
    if t.1.Some? { AddKeepsSide(t.0, t.1.value, me); }
    t := Create(s, load, 0);
    CreateKeepsSide(s, load, 0, me);
    if t.1.Some? { AddKeepsSide(t.0.(procs := Reap(t.0.procs), waiting := true), t.1.value, me); }
    t := Create(s, load, s.procs[q].ppid);
    CreateKeepsSide(s, load, s.procs[q].ppid, me);
    if t.1.Some? && q != me {
      SupersededKeepsSide(t.0, q, t.1.value, me);
      AddKeepsSide(Superseded(t.0, q, t.1.value), t.1.value, me);
    }
  }

  lemma ExitKeepsSide(s: Sys, q: nat, code: int, me: nat)
    requires q < |s.procs| && KernelSide(s, me) && q != me
    ensures KernelSide(Exit(s, q, code), me)
  {
    hide ByPid;
  }

  lemma SideKeptByUser(s: Sys, e: Event, me: nat)
    requires Inv(s) && InUser(s) && KernelSide(s, me) && !Leaves(s, e, me)
    ensures KernelSide(UserStep(s, e), me)
  {
    hide TableOk, WaitersOk, ExecOk, KbdQOk, RunQOk, Spawn, Exec, Exit;
    var q := s.current.value;
    match e
    case SpawnCall(load) => OthersKeepSide(s, q, load, me);
    case ExecCall(load) => OthersKeepSide(s, q, load, me);
    case ExitCall(code) => ExitKeepsSide(s, q, code, me);
    case _ =>
  }

  /** Nothing but its own yield, exit or exec takes a process off the kernel side. */
  lemma SideKept(s: Sys, e: Event, me: nat)
    requires Inv(s) && KernelSide(s, me) && !Leaves(s, e, me)
    ensures KernelSide(Step(s, e), me)
  {
    hide TableOk, WaitersOk, ExecOk, WaitLoop, Reap, LaunchFromShell, UserStep;
    match e
    case Launch(load) => OthersKeepSide(s, me, load, me);
    case WaitCall(target) => if OnCpu(s) { WaitKeepsSide(s, s.current.value, target, me); }
    case KeyInterrupt =>
    case SwitchOver =>
    case _ => if InUser(s) { SideKeptByUser(s, e, me); }
  }

  /** The run es from s in which process me neither yields nor exits nor execs. */
  ghost predicate Stays(s: Sys, es: seq<Event>, me: nat)
    requires Inv(s)
    decreases |es|
  {
    es == [] || (!Leaves(s, es[0], me) && Stays(Step(s, es[0]), es[1..], me))
  }

  /** A process that blocked for a key is on the kernel side through any run in which it does not leave, whatever else
      is ready or waits. */
  lemma KeyResumesInKernel(s: Sys, es: seq<Event>)
    requires Inv(s) && InUser(s) && s.keys == 0 && Stays(Step(s, ReadCall), es, s.current.value)
    ensures KernelSide(Run(Step(s, ReadCall), es), s.current.value)
  {
    SideKeptOver(Step(s, ReadCall), es, s.current.value);
  }

  lemma {:induction false} SideKeptOver(s: Sys, es: seq<Event>, me: nat)
    requires Inv(s) && KernelSide(s, me) && Stays(s, es, me)
    ensures KernelSide(Run(s, es), me)
    decreases |es|
  {
    hide Inv, Step, KernelSide;
    if es != [] {
      SideKept(s, es[0], me);
      SideKeptOver(Step(s, es[0]), es[1..], me);
    }
  }

  /** So whenever it computes in such a run, no number of ticks takes the processor away. */
  lemma ReaderNeverPreempted(s: Sys, es: seq<Event>, n: nat)
    requires Inv(s) && InUser(s) && s.keys == 0 && Stays(Step(s, ReadCall), es, s.current.value)
    ensures var t := Run(Step(s, ReadCall), es); t.current == s.current && InUser(t) ==> Ticks(t, n) == t
  {
    hide Inv, Step;
    KeyResumesInKernel(s, es);
    var t := Run(Step(s, ReadCall), es);
    if t.current == s.current && InUser(t) { TimeSliceFrom(t, n); }
  }

  lemma AloneWithAKey(s: Sys, n: nat)
    requires Inv(s) && InUser(s) && s.keys == 0 && s.runQ == [] && s.kbdQ == []
    ensures var t := Step(Step(Step(Step(s, ReadCall), KeyInterrupt), SwitchOver), ReadCall);
            InUser(t) && Ticks(t, n) == t
  {
    hide TableOk, RunQOk, KbdQOk, WaitersOk, ExecOk;
    var me := s.current.value;
    var a := Step(s, ReadCall);
    assert a.kbdQ == [me] && a.runQ == [] && !OnCpu(a) && a.procs[me].resume == InKernel;
    var b := Step(a, KeyInterrupt);
    assert b.runQ == [me] && !OnCpu(b) && b.procs[me].resume == InKernel;
    TimeSliceFrom(Step(Step(b, SwitchOver), ReadCall), n);
  }

  /** The first program after boot that reads a key and then computes: no number of ticks takes the processor away. */
  lemma FirstReaderNeverPreempted(n: nat)
    ensures var s := FromBoot([Launch(Loaded), SwitchOver, ReadCall, KeyInterrupt, SwitchOver, ReadCall]);
            InUser(s) && Ticks(s, n) == s
  {
    hide Inv, Step;
    LaunchP();
    FromBootSnoc([], Launch(Loaded));
    assert [] + [Launch(Loaded)] == [Launch(Loaded)];
    ParentRuns(FromBoot([Launch(Loaded)]));
    FromBootSnoc([Launch(Loaded)], SwitchOver);
    AloneWithAKey(FromBoot([Launch(Loaded), SwitchOver]), n);
    FromBootSnoc([Launch(Loaded), SwitchOver], ReadCall);
    FromBootSnoc([Launch(Loaded), SwitchOver, ReadCall], KeyInterrupt);
    FromBootSnoc([Launch(Loaded), SwitchOver, ReadCall, KeyInterrupt], SwitchOver);
    FromBootSnoc([Launch(Loaded), SwitchOver, ReadCall, KeyInterrupt, SwitchOver], ReadCall);
  }
}
