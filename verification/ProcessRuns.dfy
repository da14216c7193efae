/** Whole runs of the kernel: every sequence of events from boot, and what holds of all of them. */
module ProcessRuns {
  import opened Base
  import opened ProcessModel
  import opened ProcessInvariant

  datatype Event =
    | Launch(load: Load)       // the boot shell loads a program and calls scheduler_run
    | SpawnCall(load: Load)
    | ExecCall(load: Load)
    | ExitCall(code: int)
    | YieldCall
    | ReadCall
    | WaitCall(target: Wait)   // entry to sys_waitpid, or its continuation after a wake-up
    | TimerTick
    | KeyInterrupt
    | SwitchOver

  /** The current process executes user code: it is not inside the loop of sys_waitpid. */
  predicate InUser(s: Sys) { OnCpu(s) && s.procs[s.current.value].wait == NotWaiting }

  /** One event. An event that cannot happen in this state changes nothing. */
  function Step(s: Sys, e: Event): (r: Sys)
    requires Inv(s)
    ensures Inv(r)
  {
    match e
    case KeyInterrupt => KeyPressKeeps(s); KeyPress(s)
    case Launch(load) => if s.waiting then s else LaunchKeeps(s, load); LaunchFromShell(s, load)
    case SwitchOver => if !s.waiting || OnCpu(s) then s else SwitchKeeps(s); Switch(s)
    case WaitCall(target) =>
      if !OnCpu(s) then s
      else WaitLoopKeeps(s, s.current.value, target); WaitLoop(s, s.current.value, target).0
    case _ => if !InUser(s) then s else UserStep(s, e)
  }

  function UserStep(s: Sys, e: Event): (r: Sys)
    requires Inv(s) && InUser(s)
    ensures Inv(r)
  {
    var me := s.current.value;
    match e
    case SpawnCall(load) => SpawnKeeps(s, me, load); Spawn(s, me, load)
    case ExecCall(load) => ExecKeeps(s, me, load); Exec(s, me, load)
    case ExitCall(code) => ExitKeeps(s, me, code); Exit(s, me, code)
    case YieldCall => YieldKeeps(s, me); Yield(s, me)
    case ReadCall => ReadKeyKeeps(s, me); ReadKey(s, me)
    case TimerTick => TickKeeps(s, me); Tick(s, me)
    case _ => s
  }

  function Run(s: Sys, es: seq<Event>): (r: Sys)
    requires Inv(s)
    ensures Inv(r)
    decreases |es|
  {
    if es == [] then s else Run(Step(s, es[0]), es[1..])
  }

  lemma BootInv()
    ensures Inv(Boot())
  {
  }

  /** The state after any sequence of events from boot. */
  function FromBoot(es: seq<Event>): (s: Sys)
    ensures Inv(s)
  {
    BootInv();
    Run(Boot(), es)
  }

  // ---------------------------------------------------------------- no deadlock

  /** Nothing runs and nothing is ready, yet somebody is blocked. */
  predicate Stalled(s: Sys) { s.waiting && !OnCpu(s) && s.runQ == [] && HasBlocked(s.procs) }

  /** Following waits to ever younger children ends at a process on the keyboard queue. */
  lemma {:induction false} WaitChainEnds(s: Sys, i: nat) returns (k: nat)
    requires Inv(s) && !OnCpu(s) && s.runQ == [] && i < |s.procs| && s.procs[i].state == Blocked
    ensures k in s.kbdQ && s.procs[k].pid >= s.procs[i].pid
    decreases s.nextPid - s.procs[i].pid
  {
    if s.procs[i].wait == NotWaiting {
      k := i;
    } else {
      var c :| Awaits(s.procs, i, c);
      k := WaitChainEnds(s, c);
    }
  }

  lemma StalledWaitsForKey(s: Sys)
    requires Inv(s) && Stalled(s)
    ensures s.kbdQ != [] && KeyPress(s).runQ == [s.kbdQ[0]]
  {
    var i :| 0 <= i < |s.procs| && s.procs[i].state == Blocked;
    var k := WaitChainEnds(s, i);
  }

  /** In every reachable state: if all is quiet and a process is blocked, then somebody waits for
      the keyboard, and the next key makes a process ready. */
  lemma NoDeadlock(es: seq<Event>)
    ensures var s := FromBoot(es);
            Stalled(s) ==> s.kbdQ != [] && Step(s, KeyInterrupt).runQ == [s.kbdQ[0]]
  {
    var s := FromBoot(es);
    if Stalled(s) { StalledWaitsForKey(s); }
  }

  /** In every reachable state a process blocked in waitpid has a live child that its wait names. */
  lemma WaiterHasLiveChild(es: seq<Event>, i: nat) returns (c: nat)
    requires var s := FromBoot(es); i < |s.procs| && s.procs[i].state == Blocked && s.procs[i].wait != NotWaiting
    ensures Awaits(FromBoot(es).procs, i, c)
  {
    c :| Awaits(FromBoot(es).procs, i, c);
  }

  /** In every reachable state the two queues that share the `next` field have no slot in common,
      the run queue is exactly the READY processes, and neither queue repeats a slot. */
  lemma QueuesExact(es: seq<Event>, i: nat)
    requires i < PROC_MAX
    ensures var s := FromBoot(es);
            && (i in s.runQ <==> s.procs[i].state == Ready)
            && (i in s.kbdQ <==> s.procs[i].state == Blocked && s.procs[i].wait == NotWaiting)
            && !(i in s.runQ && i in s.kbdQ)
            && NoDup(s.runQ) && NoDup(s.kbdQ)
  {
  }

  // ---------------------------------------------------------------- first in, first out

  predicate Dispatches(s: Sys, e: Event) { e == SwitchOver && s.waiting && !OnCpu(s) && s.runQ != [] }

  /** Only a dispatch removes from the run queue; everything else appends to it. */
  lemma StepPrefix(s: Sys, e: Event)
    requires Inv(s)
    ensures !Dispatches(s, e) ==> s.runQ <= Step(s, e).runQ
    ensures Dispatches(s, e) ==> Step(s, e).runQ == s.runQ[1..] && Step(s, e).current == Some(s.runQ[0])
                                 && OnCpu(Step(s, e))
  {
    hide Inv, UserStep, WaitLoop, LaunchFromShell, KeyPress;
    if e.KeyInterrupt? || e.Launch? {
      OutsidePrefix(s, e);
    } else if e.WaitCall? {
      Bounds(s);
      if OnCpu(s) { WaitLoopQueues(s, s.current.value, e.target); }
    } else if e.SwitchOver? {
      SwitchPrefix(s);
    } else if InUser(s) {
      UserPrefix(s, e);
    }
  }

  lemma SwitchPrefix(s: Sys)
    requires Inv(s)
    ensures !Dispatches(s, SwitchOver) ==> s.runQ <= Step(s, SwitchOver).runQ
    ensures Dispatches(s, SwitchOver) ==> Step(s, SwitchOver).runQ == s.runQ[1..]
                                          && Step(s, SwitchOver).current == Some(s.runQ[0])
                                          && OnCpu(Step(s, SwitchOver))
  {
    hide UserStep, WaitLoop, LaunchFromShell, KeyPress;
  }

  lemma Bounds(s: Sys)
    requires Inv(s)
    ensures OnCpu(s) ==> s.current.value < |s.procs| && s.procs[s.current.value].state == Running
  {
  }

  lemma OutsidePrefix(s: Sys, e: Event)
    requires Inv(s) && (e.KeyInterrupt? || e.Launch?)
    ensures s.runQ <= Step(s, e).runQ
  {
    hide Inv, UserStep, WaitLoop, Switch;
  }

  lemma UserPrefix(s: Sys, e: Event)
    requires Inv(s) && InUser(s)
    ensures s.runQ <= UserStep(s, e).runQ
  {
    hide Inv, WaitLoop, Switch, KeyPress, Spawn, Exec, Exit;
    Bounds(s);
    var me := s.current.value;
    if e.SpawnCall? || e.ExecCall? {
      LoadPrefix(s, me, e.load);
    } else if e.ExitCall? {
      ExitPrefix(s, me, e.code);
    }
  }

  lemma LoadPrefix(s: Sys, me: nat, load: Load)
    requires Inv(s) && me < |s.procs| && s.procs[me].state == Running
    ensures s.runQ <= Spawn(s, me, load).runQ && s.runQ <= Exec(s, me, load).runQ
  {
    hide Inv;
  }

  lemma ExitPrefix(s: Sys, me: nat, code: int)
    requires Inv(s) && me < |s.procs| && s.procs[me].state == Running
    ensures s.runQ <= Exit(s, me, code).runQ
  {
    hide Inv;
  }

  lemma {:induction false} WaitLoopQueues(s: Sys, me: nat, requested: Wait)
    requires me < |s.procs| && s.procs[me].state == Running
    ensures var r := WaitLoop(s, me, requested).0; r.runQ == s.runQ && r.kbdQ == s.kbdQ && r.current == s.current
    decreases UsedSlots(s.procs)
  {
    var child := WaitChild(s.procs, s.procs[me].pid, WaitTarget(s, me, requested));
    if child.Some? && s.procs[child.value].state == Zombie && s.procs[child.value].replacedBy != 0 {
      var c, w := child.value, Child(s.procs[child.value].replacedBy);
      var t := SetProc(SetProc(s, me, s.procs[me].(wait := w)), c, EmptySlot);
      assert c !in UsedSlots(t.procs) && c in UsedSlots(s.procs);
      WaitLoopQueues(t, me, requested);
    }
  }

  /** How many dispatches a run performs. */
  function DispatchCount(s: Sys, es: seq<Event>): (n: nat)
    requires Inv(s)
    ensures n <= |es|
    decreases |es|
  {
    if es == [] then 0 else (if Dispatches(s, es[0]) then 1 else 0) + DispatchCount(Step(s, es[0]), es[1..])
  }

  /** A process at position k of the run queue has had the CPU by the end of any run with k+1 dispatches:
      after exactly k+1 of them it is the current process. */
  lemma {:induction false} DispatchedWithin(s: Sys, es: seq<Event>, k: nat) returns (j: nat)
    requires Inv(s) && k < |s.runQ| && DispatchCount(s, es) >= k + 1
    ensures 0 < j <= |es| && DispatchCount(s, es[..j]) == k + 1
    ensures Run(s, es[..j]).current == Some(s.runQ[k]) && OnCpu(Run(s, es[..j]))
    decreases |es|
  {
    hide Step;
    hide Inv;
    var t := Step(s, es[0]);
    StepPrefix(s, es[0]);
    if Dispatches(s, es[0]) && k == 0 {
      j := 1;
      assert es[..1] == [es[0]];
      assert es[..1][1..] == [];
    } else {
      var m := if Dispatches(s, es[0]) then k - 1 else k;
      assert t.runQ[m] == s.runQ[k];
      var i := DispatchedWithin(t, es[1..], m);
      j := i + 1;
      assert es[..j][1..] == es[1..][..i];
    }
  }
}
