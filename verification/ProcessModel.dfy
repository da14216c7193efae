/** The process table, the two wait queues and the system calls that move processes
    between them, as functions on values. One call of `Step` is one kernel step. */
module ProcessModel {
  import opened Base

  const PROC_MAX := 64
  const TIME_SLICE := 5
  const KEYBOARD_BUFFER_SIZE := 256

  datatype ProcState = Unused | Ready | Running | Blocked | Zombie

  /** `wait_target_pid`: 0, WAIT_ANY_PID, or the pid waited for. */
  datatype Wait = NotWaiting | AnyChild | Child(pid: nat)

  /** `resume_kind`: how the next dispatch continues the process. */
  datatype Resume = User | InKernel

  /** A slot of the process table. `replacedBy` is 0 unless the process called exec. */
  datatype Pcb = Pcb(
    state: ProcState, pid: nat, ppid: nat, wait: Wait, replacedBy: nat,
    exitCode: int, resume: Resume, ticks: nat)

  const EmptySlot := Pcb(Unused, 0, 0, NotWaiting, 0, 0, User, 0)

  /** `runQ` and `kbdQ` list slots from head to tail. `waiting` is g_kernel_wait_active:
      the boot shell has handed the CPU to the scheduler. `keys` counts buffered keys. */
  datatype Sys = Sys(
    procs: seq<Pcb>, runQ: seq<nat>, kbdQ: seq<nat>, current: Option<nat>,
    nextPid: nat, keys: nat, waiting: bool)

  predicate Live(p: Pcb) { p.state == Ready || p.state == Running || p.state == Blocked }

  // ---------------------------------------------------------------- table look-ups

  /** The first slot at or after `from` that satisfies process_create's test. */
  function FreeSlotFrom(procs: seq<Pcb>, from: nat): (r: Option<nat>)
    requires from <= |procs|
    ensures r.Some? ==> from <= r.value < |procs| && procs[r.value].state == Unused
    ensures r.None? ==> forall i :: from <= i < |procs| ==> procs[i].state != Unused
    decreases |procs| - from
  {
    if from == |procs| then None
    else if procs[from].state == Unused then Some(from)
    else FreeSlotFrom(procs, from + 1)
  }

  /** process_by_pid, started at slot `from`. */
  function ByPidFrom(procs: seq<Pcb>, pid: nat, from: nat): (r: Option<nat>)
    requires from <= |procs|
    ensures r.Some? ==> from <= r.value < |procs| && procs[r.value].state != Unused && procs[r.value].pid == pid
    ensures r.None? ==> forall i :: from <= i < |procs| && procs[i].state != Unused ==> procs[i].pid != pid
    decreases |procs| - from
  {
    if from == |procs| then None
    else if procs[from].state != Unused && procs[from].pid == pid then Some(from)
    else ByPidFrom(procs, pid, from + 1)
  }

  function ByPid(procs: seq<Pcb>, pid: nat): (r: Option<nat>)
    ensures r.Some? ==> r.value < |procs| && procs[r.value].state != Unused && procs[r.value].pid == pid
    ensures r.None? ==> forall i :: 0 <= i < |procs| && procs[i].state != Unused ==> procs[i].pid != pid
  {
    ByPidFrom(procs, pid, 0)
  }

  predicate IsChild(p: Pcb, ppid: nat) { p.state != Unused && p.ppid == ppid }

  /** process_first_child(ppid, true): the first zombie child if there is one, else the first child. */
  function FirstChildFrom(procs: seq<Pcb>, ppid: nat, from: nat, first: Option<nat>): (r: Option<nat>)
    requires from <= |procs|
    requires first.Some? ==> first.value < |procs| && IsChild(procs[first.value], ppid)
    ensures r.Some? ==> r.value < |procs| && IsChild(procs[r.value], ppid)
    ensures r.None? ==> first.None? && forall i :: from <= i < |procs| ==> !IsChild(procs[i], ppid)
    ensures r.Some? && (first.Some? ==> procs[first.value].state != Zombie) && procs[r.value].state != Zombie ==>
              forall i :: from <= i < |procs| && IsChild(procs[i], ppid) ==> procs[i].state != Zombie
    decreases |procs| - from
  {
    if from == |procs| then first
    else if IsChild(procs[from], ppid) && procs[from].state == Zombie then Some(from)
    else if IsChild(procs[from], ppid) && first.None? then FirstChildFrom(procs, ppid, from + 1, Some(from))
    else FirstChildFrom(procs, ppid, from + 1, first)
  }

  function FirstChild(procs: seq<Pcb>, ppid: nat): (r: Option<nat>)
    ensures r.Some? ==> r.value < |procs| && ppid != 0 && IsChild(procs[r.value], ppid)
    ensures r.None? && ppid != 0 ==> forall i :: 0 <= i < |procs| ==> !IsChild(procs[i], ppid)
    ensures r.Some? && procs[r.value].state != Zombie ==>
              forall i :: 0 <= i < |procs| && IsChild(procs[i], ppid) ==> procs[i].state != Zombie
  {
    if ppid == 0 then None else FirstChildFrom(procs, ppid, 0, None)
  }

  /** The child sys_waitpid examines: any child (zombies first), or the named one. */
  function WaitChild(procs: seq<Pcb>, mypid: nat, target: Wait): (r: Option<nat>)
    ensures r.Some? ==> r.value < |procs| && IsChild(procs[r.value], mypid)
    ensures r.Some? && target.Child? ==> procs[r.value].pid == target.pid
  {
    match target
    case NotWaiting => None
    case AnyChild => FirstChild(procs, mypid)
    case Child(pid) =>
      if pid == 0 then None
      else
        var c := ByPid(procs, pid);
        if c.Some? && procs[c.value].ppid == mypid then c else None
  }

  predicate HasBlocked(procs: seq<Pcb>) { exists i :: 0 <= i < |procs| && procs[i].state == Blocked }

  // ---------------------------------------------------------------- queue primitives

  function SetProc(s: Sys, p: nat, q: Pcb): (r: Sys)
    requires p < |s.procs|
  {
    s.(procs := s.procs[p := q])
  }

  /** scheduler_add. */
  function Add(s: Sys, p: nat): (r: Sys)
    requires p < |s.procs|
  {
    if s.procs[p].state == Unused || s.procs[p].state == Zombie then s
    else SetProc(s, p, s.procs[p].(state := Ready)).(runQ := s.runQ + [p])
  }

  /** One turn of scheduler_wait_for_next together with the dispatch in scheduler_switch.
      With nothing ready the CPU either goes back to the boot shell or halts for an interrupt. */
  function Switch(s: Sys): (r: Sys)
    requires forall i :: 0 <= i < |s.runQ| ==> s.runQ[i] < |s.procs|
  {
    if s.runQ != [] then
      var p := s.runQ[0];
      SetProc(s, p, s.procs[p].(state := Running, ticks := TIME_SLICE)).(runQ := s.runQ[1..], current := Some(p))
    else if HasBlocked(s.procs) then s
    else s.(current := None, waiting := false, procs := Reap(s.procs))
  }

  /** process_reap_zombies with no current process: a zombie goes when its parent is gone. */
  function Reap(procs: seq<Pcb>): (r: seq<Pcb>)
    ensures |r| == |procs|
    ensures forall i :: 0 <= i < |procs| ==> r[i] == procs[i] || (procs[i].state == Zombie && r[i] == EmptySlot)
  {
    ReapFrom(procs, 0)
  }

  function ReapFrom(procs: seq<Pcb>, from: nat): (r: seq<Pcb>)
    requires from <= |procs|
    ensures |r| == |procs|
    ensures forall i :: 0 <= i < |procs| ==> r[i] == procs[i] || (procs[i].state == Zombie && r[i] == EmptySlot)
    decreases |procs| - from
  {
    if from == |procs| then procs
    else if procs[from].state == Zombie && (procs[from].ppid == 0 || ByPid(procs, procs[from].ppid).None?) then
      ReapFrom(procs[from := EmptySlot], from + 1)
    else ReapFrom(procs, from + 1)
  }

  // ---------------------------------------------------------------- creation

  /** How kxe_load ends: before process_create, after it (the slot is given back but the pid is spent), or well. */
  datatype Load = NotFound | Failed | Loaded

  /** process_create as seen from outside kxe_load: the slot taken, if the load succeeds. */
  function Create(s: Sys, load: Load, ppid: nat): (r: (Sys, Option<nat>))
    ensures r.1.Some? ==> r.1.value < |s.procs| && s.procs[r.1.value].state == Unused && load.Loaded?
                          && r.0 == SetProc(s, r.1.value,
                             Pcb(Ready, s.nextPid, ppid, NotWaiting, 0, 0, User, TIME_SLICE))
                                    .(nextPid := s.nextPid + 1)
    ensures r.1.None? ==> r.0 == s || r.0 == s.(nextPid := s.nextPid + 1)
  {
    var slot := FreeSlotFrom(s.procs, 0);
    if load.NotFound? || slot.None? then (s, None)
    else if load.Failed? then (s.(nextPid := s.nextPid + 1), None)
    else
      (SetProc(s, slot.value, Pcb(Ready, s.nextPid, ppid, NotWaiting, 0, 0, User, TIME_SLICE))
       .(nextPid := s.nextPid + 1), slot)
  }

  /** kxe_load from the boot shell followed by scheduler_run. */
  function LaunchFromShell(s: Sys, load: Load): (r: Sys)
  {
    var (t, slot) := Create(s, load, 0);
    if slot.None? then t else Add(t.(procs := Reap(t.procs), waiting := true), slot.value)
  }

  // ---------------------------------------------------------------- system calls of the process in slot `me`

  function Spawn(s: Sys, me: nat, load: Load): (r: Sys)
    requires me < |s.procs|
  {
    var (t, child) := Create(s, load, s.procs[me].pid);
    if child.None? then t else Add(t, child.value)
  }

  /** exec_replace_current: the new process inherits the parent and, with it, a parent waiting for this pid. */
  function Exec(s: Sys, me: nat, load: Load): (r: Sys)
    requires me < |s.procs|
  {
    var (t, next) := Create(s, load, s.procs[me].ppid);
    if next.None? then t else Add(Superseded(t, me, next.value), next.value)
  }

  /** Process me becomes a zombie that names n, and a parent waiting for me waits for n. */
  function Superseded(t: Sys, me: nat, n: nat): (r: Sys)
    requires me < |t.procs| && n < |t.procs|
    ensures |r.procs| == |t.procs|
  {
    var parent := ByPid(t.procs, t.procs[me].ppid);
    var t1 := SetProc(t, me, t.procs[me].(replacedBy := t.procs[n].pid));
    var t2 := if parent.Some? && t1.procs[parent.value].state == Blocked
                 && t1.procs[parent.value].wait == Child(t1.procs[me].pid)
              then SetProc(t1, parent.value, t1.procs[parent.value].(wait := Child(t1.procs[n].pid)))
              else t1;
    SetProc(t2, me, t2.procs[me].(state := Zombie))
  }

  predicate WakesParent(s: Sys, parent: nat, pid: nat)
    requires parent < |s.procs|
  {
    s.procs[parent].state == Blocked && (s.procs[parent].wait == AnyChild || s.procs[parent].wait == Child(pid))
  }

  function Exit(s: Sys, me: nat, code: int): (r: Sys)
    requires me < |s.procs|
  {
    var t := SetProc(s, me, s.procs[me].(state := Zombie, exitCode := code));
    var parent := ByPid(t.procs, t.procs[me].ppid);
    if parent.Some? && WakesParent(t, parent.value, t.procs[me].pid) then Add(t, parent.value) else t
  }

  function Yield(s: Sys, me: nat): (r: Sys)
    requires me < |s.procs|
  {
    Add(SetProc(s, me, s.procs[me].(resume := User)), me)
  }

  /** scheduler_timer_tick arriving from ring 3. */
  function Tick(s: Sys, me: nat): (r: Sys)
    requires me < |s.procs|
  {
    var p := s.procs[me];
    if p.resume != User then s
    else if p.ticks > 1 then SetProc(s, me, p.(ticks := p.ticks - 1))
    else Add(SetProc(s, me, p.(ticks := 0)), me)
  }

  /** One read of the console: take a key, or block on the keyboard queue. */
  function ReadKey(s: Sys, me: nat): (r: Sys)
    requires me < |s.procs|
  {
    if s.keys > 0 then s.(keys := s.keys - 1)
    else SetProc(s, me, s.procs[me].(state := Blocked, resume := InKernel)).(kbdQ := s.kbdQ + [me])
  }

  /** keyboard_interrupt_handler for one translated key. */
  function KeyPress(s: Sys): (r: Sys)
    requires forall i :: 0 <= i < |s.kbdQ| ==> s.kbdQ[i] < |s.procs|
  {
    var t := s.(keys := if s.keys < KEYBOARD_BUFFER_SIZE then s.keys + 1 else s.keys);
    if s.kbdQ == [] then t else Add(t.(kbdQ := s.kbdQ[1..]), s.kbdQ[0])
  }

  datatype WaitResult = NoChild | Reaped(pid: nat, code: int) | Blocks

  function WaitTarget(s: Sys, me: nat, requested: Wait): (t: Wait)
    requires me < |s.procs|
  {
    if s.procs[me].wait != NotWaiting then s.procs[me].wait else requested
  }

  ghost function UsedSlots(procs: seq<Pcb>): (r: set<nat>) { set i | 0 <= i < |procs| && procs[i].state != Unused }

  /** The loop of sys_waitpid, from its head. */
  function WaitLoop(s: Sys, me: nat, requested: Wait): (r: (Sys, WaitResult))
    requires me < |s.procs| && s.procs[me].state == Running
    decreases UsedSlots(s.procs)
  {
    var target := WaitTarget(s, me, requested);
    var child := WaitChild(s.procs, s.procs[me].pid, target);
    if child.None? then
      (SetProc(s, me, s.procs[me].(wait := NotWaiting)), NoChild)
    else
      var c := child.value;
      var p := s.procs[c];
      if p.state == Zombie && p.replacedBy != 0 then
        var t := SetProc(SetProc(s, me, s.procs[me].(wait := Child(p.replacedBy))), c, EmptySlot);
        assert c !in UsedSlots(t.procs) && c in UsedSlots(s.procs);
        WaitLoop(t, me, requested)
      else if p.state == Zombie then
        (SetProc(SetProc(s, me, s.procs[me].(wait := NotWaiting)), c, EmptySlot), Reaped(p.pid, p.exitCode))
      else
        (SetProc(s, me, s.procs[me].(state := Blocked, wait := target, resume := InKernel)), Blocks)
  }
}
