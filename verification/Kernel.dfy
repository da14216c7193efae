/** The scheduler, the keyboard queue and the process calls as the kernel runs them: a fixed table whose
    slots are chained through one shared `next` field. Every method is proved against ProcessModel. */
module Kernel {
  import opened Base
  import opened IndexLists
  import opened ProcessModel
  import opened ProcessInvariant
  import PR = ProcessRuns

  /** From head to tail the `next` fields spell out the queue q. */
  ghost predicate Queue(next: seq<int>, head: int, tail: int, q: seq<nat>) {
    && Chained(next, head, q)
    && tail == (if q == [] then NIL else q[|q| - 1])
  }

  ghost predicate Disjoint(a: seq<nat>, b: seq<nat>) {
    forall i, j :: 0 <= i < |a| && 0 <= j < |b| ==> a[i] != b[j]
  }

  lemma QueueAppend(next: seq<int>, head: int, tail: int, q: seq<nat>, p: nat, next': seq<int>)
    requires Queue(next, head, tail, q) && NoDup(q) && p < |next| && p !in q
    requires next' == if q == [] then next[p := NIL] else next[p := NIL][tail := p]
    ensures Queue(next', if q == [] then p else head, p, q + [p]) && NoDup(q + [p])
  {
    ChainedAppend(next, head, q, p, next');
  }

  lemma QueuePop(next: seq<int>, head: int, tail: int, q: seq<nat>)
    requires Queue(next, head, tail, q) && NoDup(q) && q != []
    ensures Queue(next[head := NIL], next[head], if next[head] == NIL then NIL else tail, q[1..]) && NoDup(q[1..])
  {
    ChainedPop(next, head, q);
    assert next[q[0]] == (if 1 < |q| then q[1] else NIL);
  }

  lemma QueueFrame(next: seq<int>, head: int, tail: int, q: seq<nat>, next': seq<int>)
    requires Queue(next, head, tail, q) && |next'| == |next| && forall k :: 0 <= k < |q| ==> next'[q[k]] == next[q[k]]
    ensures Queue(next', head, tail, q)
  {
    ChainedFrame(next, head, q, next');
  }

  class Machine {
    const procs: array<Pcb>
    const next: array<int>
    var runHead: int
    var runTail: int
    var waitHead: int
    var waitTail: int
    var current: Option<nat>
    var nextPid: nat
    var keys: nat
    var waiting: bool
    ghost var runQ: seq<nat>
    ghost var kbdQ: seq<nat>

    ghost function Abs(): (s: Sys)
      reads this, procs
    {
      Sys(procs[..], runQ, kbdQ, current, nextPid, keys, waiting)
    }

    /** Two separate acyclic lists threaded through `next`. */
    ghost predicate Chains()
      reads `runHead, `runTail, `waitHead, `waitTail, `runQ, `kbdQ, next
    {
      && procs.Length == PROC_MAX == next.Length
      && NoDup(runQ) && NoDup(kbdQ) && Disjoint(runQ, kbdQ)
      && Queue(next[..], runHead, runTail, runQ)
      && Queue(next[..], waitHead, waitTail, kbdQ)
    }

    ghost predicate Valid()
      reads this, procs, next
    {
      Chains() && Inv(Abs())
    }

    constructor ()
      ensures Valid() && fresh(procs) && fresh(next)
      ensures Abs() == Boot()
    {
      procs := new Pcb[PROC_MAX](_ => EmptySlot);
      next := new int[PROC_MAX](_ => NIL);
      runHead, runTail, waitHead, waitTail := NIL, NIL, NIL, NIL;
      current, nextPid, keys, waiting := None, 1, 0, false;
      runQ, kbdQ := [], [];
      new;
      assert procs[..] == Boot().procs;
      PR.BootInv();
    }

    // -------------------------------------------------------------- scheduler.c: the run queue

    method SchedulerAdd(p: nat)
      requires Chains() && p < PROC_MAX && p !in runQ && p !in kbdQ
      modifies this`runHead, this`runTail, this`runQ, procs, next
      ensures Chains() && Abs() == Add(old(Abs()), p)
    {
      if procs[p].state == Unused || procs[p].state == Zombie {
        return;
      }
      ghost var before := next[..];
      procs[p] := procs[p].(state := Ready);
      next[p] := NIL;
      if runTail != NIL {
        next[runTail] := p;
      } else {
        runHead := p;
      }
      QueueAppend(before, old(runHead), runTail, runQ, p, next[..]);
      QueueFrame(before, waitHead, waitTail, kbdQ, next[..]);
      runTail := p;
      runQ := runQ + [p];
    }

    method SchedulerTakeNext() returns (r: Option<nat>)
      requires Chains()
      modifies this`runHead, this`runTail, this`runQ, next
      ensures Chains() && Abs() == old(Abs()).(runQ := runQ)
      ensures r == if old(runQ) == [] then None else Some(old(runQ)[0])
      ensures runQ == if old(runQ) == [] then [] else old(runQ)[1..]
    {
      if runHead == NIL {
        return None;
      }
      ghost var before := next[..];
      QueuePop(before, runHead, runTail, runQ);
      var p: nat := runHead;
      runHead := next[p];
      if runHead == NIL {
        runTail := NIL;
      }
      next[p] := NIL;
      assert next[..] == before[p := NIL];
      QueueFrame(before, waitHead, waitTail, kbdQ, next[..]);
      runQ := runQ[1..];
      return Some(p);
    }

    // -------------------------------------------------------------- keyboard.c: the wait queue

    method KeyboardEnqueueWaiter(p: nat)
      requires Chains() && p < PROC_MAX && p !in runQ && p !in kbdQ
      modifies this`waitHead, this`waitTail, this`kbdQ, next
      ensures Chains() && Abs() == old(Abs()).(kbdQ := old(kbdQ) + [p])
    {
      ghost var before := next[..];
      next[p] := NIL;
      if waitTail != NIL {
        next[waitTail] := p;
      } else {
        waitHead := p;
      }
      QueueAppend(before, old(waitHead), waitTail, kbdQ, p, next[..]);
      QueueFrame(before, runHead, runTail, runQ, next[..]);
      waitTail := p;
      kbdQ := kbdQ + [p];
    }

    method KeyboardWaitPop() returns (r: Option<nat>)
      requires Chains()
      modifies this`waitHead, this`waitTail, this`kbdQ, next
      ensures Chains() && Abs() == old(Abs()).(kbdQ := kbdQ)
      ensures r == if old(kbdQ) == [] then None else Some(old(kbdQ)[0])
      ensures kbdQ == if old(kbdQ) == [] then [] else old(kbdQ)[1..]
    {
      if waitHead == NIL {
        return None;
      }
      ghost var before := next[..];
      QueuePop(before, waitHead, waitTail, kbdQ);
      var p: nat := waitHead;
      waitHead := next[p];
      if waitHead == NIL {
        waitTail := NIL;
      }
      next[p] := NIL;
      assert next[..] == before[p := NIL];
      QueueFrame(before, runHead, runTail, runQ, next[..]);
      kbdQ := kbdQ[1..];
      return Some(p);
    }

    // -------------------------------------------------------------- process.c: the table

    method ProcessByPid(pid: nat) returns (r: Option<nat>)
      requires procs.Length == PROC_MAX
      ensures r == ByPid(procs[..], pid)
    {
      for i := 0 to PROC_MAX
        invariant ByPidFrom(procs[..], pid, i) == ByPidFrom(procs[..], pid, 0)
      {
        if procs[i].state != Unused && procs[i].pid == pid {
          return Some(i);
        }
      }
      return None;
    }

    method ProcessFirstChild(ppid: nat) returns (r: Option<nat>)
      requires procs.Length == PROC_MAX
      ensures r == FirstChild(procs[..], ppid)
    {
      if ppid == 0 {
        return None;
      }
      var first: Option<nat> := None;
      for i := 0 to PROC_MAX
        invariant first.Some? ==> first.value < PROC_MAX && IsChild(procs[first.value], ppid)
        invariant FirstChildFrom(procs[..], ppid, i, first) == FirstChildFrom(procs[..], ppid, 0, None)
      {
        if procs[i].state == Unused || procs[i].ppid != ppid {
          continue;
        }
        if procs[i].state == Zombie {
          return Some(i);
        }
        if first.None? {
          first := Some(i);
        }
      }
      return first;
    }

    method ProcessHasBlocked() returns (b: bool)
      requires procs.Length == PROC_MAX
      ensures b == HasBlocked(procs[..])
    {
      for i := 0 to PROC_MAX
        invariant forall j :: 0 <= j < i ==> procs[j].state != Blocked
      {
        if procs[i].state == Blocked {
          assert procs[..][i].state == Blocked;
          return true;
        }
      }
      return false;
    }

    /** process_reap_zombies called with no current process. */
    method ProcessReapZombies()
      requires procs.Length == PROC_MAX
      modifies procs
      ensures procs[..] == Reap(old(procs[..]))
    {
      for i := 0 to PROC_MAX
        invariant ReapFrom(procs[..], i) == ReapFrom(old(procs[..]), 0)
      {
        if procs[i].state == Zombie {
          var parent := ProcessByPid(procs[i].ppid);
          if procs[i].ppid == 0 || parent.None? {
            ghost var before := procs[..];
            procs[i] := EmptySlot;
            assert procs[..] == before[i := EmptySlot];
          }
        }
      }
    }

    /** process_create inside kxe_load: a failed load returns the slot but not the pid. */
    method ProcessCreate(load: Load, ppid: nat) returns (slot: Option<nat>)
      requires procs.Length == PROC_MAX
      modifies this`nextPid, procs
      ensures (Abs(), slot) == Create(old(Abs()), load, ppid)
    {
      if load.NotFound? {
        return None;
      }
      for i := 0 to PROC_MAX
        invariant FreeSlotFrom(procs[..], i) == FreeSlotFrom(procs[..], 0)
        invariant procs[..] == old(procs[..]) && nextPid == old(nextPid)
      {
        if procs[i].state == Unused {
          var pid := nextPid;
          nextPid := nextPid + 1;
          if load.Failed? {
            return None;
          }
          procs[i] := Pcb(Ready, pid, ppid, NotWaiting, 0, 0, User, TIME_SLICE);
          assert procs[..] == old(procs[..])[i := procs[i]];
          return Some(i);
        }
      }
      return None;
    }

    // -------------------------------------------------------------- system calls of the current process

    /** A slot that is neither ready nor on the keyboard queue is on no list. */
    lemma OffQueues(p: nat)
      requires Valid() && p < PROC_MAX
      requires procs[p].state != Ready && (procs[p].state != Blocked || procs[p].wait != NotWaiting)
      ensures p !in runQ && p !in kbdQ
    {
    }

    lemma Bounds()
      requires Valid()
      ensures procs.Length == PROC_MAX == next.Length
      ensures current.Some? ==> current.value < PROC_MAX
      ensures runQ != [] ==> runQ[0] < PROC_MAX
      ensures kbdQ != [] ==> kbdQ[0] < PROC_MAX && kbdQ[0] !in runQ && kbdQ[0] !in kbdQ[1..]
    {
    }

    lemma FreeSlotsOffQueues()
      requires Valid()
      ensures forall i :: 0 <= i < PROC_MAX && procs[i].state == Unused ==> i !in runQ && i !in kbdQ
    {
    }

    lemma WaitersOffQueues()
      requires Valid()
      ensures forall i :: 0 <= i < PROC_MAX && procs[i].state == Blocked && procs[i].wait != NotWaiting ==>
                i !in runQ && i !in kbdQ
    {
    }

    method SysYield(me: nat)
      requires Valid() && current == Some(me) && procs[me].state == Running
      modifies this, procs, next
      ensures Valid() && Abs() == Yield(old(Abs()), me)
    {
      hide Inv, Queue, NoDup, Disjoint, Chains;
      Bounds();
      OffQueues(me);
      YieldKeeps(Abs(), me);
      procs[me] := procs[me].(resume := User);
      assert procs[..] == old(procs[..])[me := procs[me]];
      SchedulerAdd(me);
    }

    method SchedulerTimerTick(me: nat)
      requires Valid() && current == Some(me) && procs[me].state == Running
      modifies this, procs, next
      ensures Valid() && Abs() == Tick(old(Abs()), me)
    {
      hide Inv, Queue, NoDup, Disjoint, Chains;
      Bounds();
      OffQueues(me);
      TickKeeps(Abs(), me);
      if procs[me].resume != User {
        return;
      }
      if procs[me].ticks > 0 {
        procs[me] := procs[me].(ticks := procs[me].ticks - 1);
      }
      assert procs[..] == old(procs[..])[me := procs[me]];
      if procs[me].ticks != 0 {
        return;
      }
      SchedulerAdd(me);
    }

    method SysReadKey(me: nat)
      requires Valid() && current == Some(me) && procs[me].state == Running && procs[me].wait == NotWaiting
      modifies this, procs, next
      ensures Valid() && Abs() == ReadKey(old(Abs()), me)
    {
      hide Inv, Queue, NoDup, Disjoint, Chains;
      Bounds();
      OffQueues(me);
      ReadKeyKeeps(Abs(), me);
      if keys > 0 {
        keys := keys - 1;
        return;
      }
      procs[me] := procs[me].(state := Blocked, resume := InKernel);
      assert procs[..] == old(procs[..])[me := procs[me]];
      KeyboardEnqueueWaiter(me);
    }

    method KeyboardInterrupt()
      requires Valid()
      modifies this, procs, next
      ensures Valid() && Abs() == KeyPress(old(Abs()))
    {
      hide Inv, Queue, NoDup, Disjoint, Chains;
      Bounds();
      KeyPressKeeps(Abs());
      if keys < KEYBOARD_BUFFER_SIZE {
        keys := keys + 1;
      }
      var p := KeyboardWaitPop();
      if p.Some? {
        SchedulerAdd(p.value);
      }
    }

    method SysExit(me: nat, code: int)
      requires Valid() && current == Some(me) && procs[me].state == Running
      modifies this, procs, next
      ensures Valid() && Abs() == Exit(old(Abs()), me, code)
    {
      hide Inv, Queue, NoDup, Disjoint, Chains;
      Bounds();
      WaitersOffQueues();
      ExitKeeps(Abs(), me, code);
      procs[me] := procs[me].(state := Zombie, exitCode := code);
      assert procs[..] == old(procs[..])[me := procs[me]];
      var parent := ProcessByPid(procs[me].ppid);
      if parent.Some? && procs[parent.value].state == Blocked
         && (procs[parent.value].wait == AnyChild || procs[parent.value].wait == Child(procs[me].pid)) {
        SchedulerAdd(parent.value);
      }
    }

    method SysSpawn(me: nat, load: Load)
      requires Valid() && current == Some(me) && procs[me].state == Running
      modifies this, procs, next
      ensures Valid() && Abs() == Spawn(old(Abs()), me, load)
    {
      hide Inv, Queue, NoDup, Disjoint, Chains;
      Bounds();
      FreeSlotsOffQueues();
      SpawnKeeps(Abs(), me, load);
      var child := ProcessCreate(load, procs[me].pid);
      if child.Some? {
        SchedulerAdd(child.value);
      }
    }

    method SysExec(me: nat, load: Load)
      requires Valid() && current == Some(me) && procs[me].state == Running
      modifies this, procs, next
      ensures Valid() && Abs() == Exec(old(Abs()), me, load)
    {
      hide Inv, Queue, NoDup, Disjoint, Chains;
      Bounds();
      FreeSlotsOffQueues();
      ExecKeeps(Abs(), me, load);
      var created := ProcessCreate(load, procs[me].ppid);
      if created.None? {
        return;
      }
      Supersede(me, created.value);
      SchedulerAdd(created.value);
    }

    /** The links of exec_replace_current: the old process names the new one, and a parent waiting for the old one
        waits for the new one. */
    method Supersede(me: nat, n: nat)
      requires procs.Length == PROC_MAX && me < PROC_MAX && n < PROC_MAX
      modifies procs
      ensures Abs() == Superseded(old(Abs()), me, n)
    {
      var parent := ProcessByPid(procs[me].ppid);
      ghost var t := procs[..];
      procs[me] := procs[me].(replacedBy := procs[n].pid);
      assert procs[..] == t[me := procs[me]];
      t := procs[..];
      if parent.Some? && procs[parent.value].state == Blocked && procs[parent.value].wait == Child(procs[me].pid) {
        procs[parent.value] := procs[parent.value].(wait := Child(procs[n].pid));
        assert procs[..] == t[parent.value := procs[parent.value]];
      }
      t := procs[..];
      procs[me] := procs[me].(state := Zombie);
      assert procs[..] == t[me := procs[me]];
    }

    method FindWaitChild(me: nat, target: Wait) returns (c: Option<nat>)
      requires procs.Length == PROC_MAX && me < PROC_MAX
      ensures c == WaitChild(procs[..], procs[me].pid, target)
    {
      match target
      case NotWaiting => c := None;
      case AnyChild => c := ProcessFirstChild(procs[me].pid);
      case Child(pid) =>
        if pid == 0 {
          return None;
        }
        c := ProcessByPid(pid);
        if c.Some? && procs[c.value].ppid != procs[me].pid {
          c := None;
        }
    }

    /** The loop of sys_waitpid, entered by the call or by the wake-up of a process blocked in it. */
    method SysWaitpid(me: nat, requested: Wait) returns (r: WaitResult)
      requires Valid() && current == Some(me) && procs[me].state == Running
      modifies procs
      ensures Valid() && (Abs(), r) == WaitLoop(old(Abs()), me, requested)
    {
      hide Inv, Queue, NoDup, Disjoint, Chains, WaitChild;
      Bounds();
      WaitLoopKeeps(Abs(), me, requested);
      while true
        invariant procs.Length == PROC_MAX && me < PROC_MAX && procs[me].state == Running
        invariant WaitLoop(Abs(), me, requested) == WaitLoop(old(Abs()), me, requested)
        decreases UsedSlots(procs[..])
      {
        ghost var s := Abs();
        var target := if procs[me].wait != NotWaiting then procs[me].wait else requested;
        var child := FindWaitChild(me, target);
        if child.None? {
          procs[me] := procs[me].(wait := NotWaiting);
          assert procs[..] == s.procs[me := procs[me]];
          return NoChild;
        }
        var c := child.value;
        var p := procs[c];
        if p.state == Zombie && p.replacedBy != 0 {
          procs[me] := procs[me].(wait := Child(p.replacedBy));
          procs[c] := EmptySlot;
          assert procs[..] == s.procs[me := procs[me]][c := EmptySlot];
          assert c in UsedSlots(s.procs) && c !in UsedSlots(procs[..]);
          continue;
        }
        if p.state == Zombie {
          procs[me] := procs[me].(wait := NotWaiting);
          procs[c] := EmptySlot;
          assert procs[..] == s.procs[me := procs[me]][c := EmptySlot];
          return Reaped(p.pid, p.exitCode);
        }
        procs[me] := procs[me].(state := Blocked, wait := target, resume := InKernel);
        assert procs[..] == s.procs[me := procs[me]];
        return Blocks;
      }
    }

    // -------------------------------------------------------------- dispatch

    /** scheduler_switch up to the next dispatch, the return to the boot shell, or one halt. */
    method SchedulerSwitch()
      requires Valid() && waiting && !OnCpu(Abs())
      modifies this, procs, next
      ensures Valid() && Abs() == Switch(old(Abs()))
    {
      hide Inv, Queue, NoDup, Disjoint, Chains;
      Bounds();
      SwitchKeeps(Abs());
      var p := SchedulerTakeNext();
      if p.Some? {
        procs[p.value] := procs[p.value].(state := Running, ticks := TIME_SLICE);
        assert procs[..] == old(procs[..])[p.value := procs[p.value]];
        current := p;
        return;
      }
      var blocked := ProcessHasBlocked();
      if !blocked {
        waiting := false;
        current := None;
        ProcessReapZombies();
      }
    }

    /** kxe_load and scheduler_run, called by the boot shell. */
    method SchedulerRun(load: Load)
      requires Valid() && !waiting
      modifies this, procs, next
      ensures Valid() && Abs() == LaunchFromShell(old(Abs()), load)
    {
      hide Inv, Queue, NoDup, Disjoint, Chains;
      Bounds();
      FreeSlotsOffQueues();
      LaunchKeeps(Abs(), load);
      var p := ProcessCreate(load, 0);
      if p.None? {
        return;
      }
      ProcessReapZombies();
      waiting := true;
      SchedulerAdd(p.value);
    }

    /** Every event the machine can meet moves it as the transition system says. */
    method Handle(e: PR.Event)
      requires Valid()
      modifies this, procs, next
      ensures Valid() && Abs() == PR.Step(old(Abs()), e)
    {
      hide Inv, Queue, NoDup, Disjoint, Chains;
      Bounds();
      var running := current.Some? && procs[current.value].state == Running;
      if e.KeyInterrupt? {
        KeyboardInterrupt();
      } else if e.Launch? {
        if !waiting { SchedulerRun(e.load); }
      } else if e.SwitchOver? {
        if waiting && !running { SchedulerSwitch(); }
      } else if e.WaitCall? {
        if running { var _ := SysWaitpid(current.value, e.target); }
      } else if running && procs[current.value].wait == NotWaiting {
        HandleUser(e, current.value);
      }
    }

    method HandleUser(e: PR.Event, me: nat)
      requires Valid() && PR.InUser(Abs()) && current == Some(me)
      modifies this, procs, next
      ensures Valid() && Abs() == PR.UserStep(old(Abs()), e)
    {
      hide Inv, Queue, NoDup, Disjoint, Chains;
      Bounds();
      match e
      case SpawnCall(load) => SysSpawn(me, load);
      case ExecCall(load) => SysExec(me, load);
      case ExitCall(code) => SysExit(me, code);
      case YieldCall => SysYield(me);
      case ReadCall => SysReadKey(me);
      case TimerTick => SchedulerTimerTick(me);
      case _ =>
    }
  }
}
