/** Whose turn it is: time slices, waiting in the two queues, waking up, and the keys that are typed. */
module ProcessTurns {
  import opened Base
  import opened ProcessModel
  import opened ProcessInvariant
  import opened ProcessRuns
  import opened ProcessCalls

  // ---------------------------------------------------------------- time slices

  /** A process in user code with k ticks left stays for k - 1 ticks and is off with the k-th. */
  lemma {:induction false} TicksLeft(s: Sys, n: nat)
    requires Inv(s) && InUser(s) && s.procs[s.current.value].resume == User && s.procs[s.current.value].ticks > 0
    ensures OnCpu(Ticks(s, n)) <==> n < s.procs[s.current.value].ticks
    decreases n
  {
    hide Inv, Step;
    if n > 0 {
      TickOnce(s);
      var t := Step(s, TimerTick);
      if s.procs[s.current.value].ticks > 1 { TicksLeft(t, n - 1); } else { OffCpuStays(t, n - 1); }
    }
  }

  /** A process dispatched in user mode has exactly one time slice; one resumed in the kernel keeps the processor. */
  lemma SliceExact(s: Sys, n: nat)
    requires Inv(s) && Dispatches(s, SwitchOver) && s.procs[s.runQ[0]].wait == NotWaiting
    ensures OnCpu(Ticks(Step(s, SwitchOver), n)) <==> s.procs[s.runQ[0]].resume == InKernel || n < TIME_SLICE
  {
    hide TableOk, WaitersOk, ExecOk, KbdQOk;
    var t := Step(s, SwitchOver);
    if s.procs[s.runQ[0]].resume == User { TicksLeft(t, n); } else { TimeSliceFrom(t, n); }
  }

  // ---------------------------------------------------------------- giving the processor up

  /** The current process gives the processor up and wants it back. */
  predicate StepsBack(s: Sys, e: Event) {
    InUser(s)
    && (e == YieldCall
        || (e == TimerTick && s.procs[s.current.value].resume == User && s.procs[s.current.value].ticks <= 1))
  }

  /** A process that yields or whose slice is over is the last of the run queue. */
  lemma GoesLast(s: Sys, e: Event)
    requires Inv(s) && StepsBack(s, e)
    ensures var t := Step(s, e);
            !OnCpu(t) && t.runQ == s.runQ + [s.current.value] && t.procs[s.current.value].resume == User
  {
    hide TableOk, WaitersOk, ExecOk, KbdQOk;
  }

  /** So it is back after the others have had the processor once each. */
  lemma ComesBack(s: Sys, e: Event, es: seq<Event>) returns (j: nat)
    requires Inv(s) && StepsBack(s, e) && DispatchCount(Step(s, e), es) >= |s.runQ| + 1
    ensures 0 < j <= |es| && DispatchCount(Step(s, e), es[..j]) == |s.runQ| + 1
    ensures var u := Run(Step(s, e), es[..j]); u.current == s.current && OnCpu(u)
  {
    hide Inv, Step, StepsBack;
    assert s.current.Some? by { OnCpuHere(s, e); }
    GoesLast(s, e);
    j := DispatchedWithin(Step(s, e), es, |s.runQ|);
  }

  lemma OnCpuHere(s: Sys, e: Event)
    requires StepsBack(s, e)
    ensures s.current.Some?
  {
  }

  // ---------------------------------------------------------------- waiting for a key

  predicate IsKey(e: Event) { e.KeyInterrupt? }

  /** A key takes the first of the keyboard queue to the end of the run queue; nothing else takes from it. */
  lemma KbdPrefix(s: Sys, e: Event)
    requires Inv(s)
    ensures !IsKey(e) ==> s.kbdQ <= Step(s, e).kbdQ
    ensures IsKey(e) && s.kbdQ != [] ==> Step(s, e).kbdQ == s.kbdQ[1..] && Step(s, e).runQ == s.runQ + [s.kbdQ[0]]
  {
    hide TableOk, WaitersOk, ExecOk, UserStep, WaitLoop, LaunchFromShell;
    if e.WaitCall? && OnCpu(s) {
      WaitLoopQueues(s, s.current.value, e.target);
    } else if e.Launch? {
      LaunchKbd(s, e.load);
    } else if InUser(s) {
      UserKbd(s, e);
    }
  }

  lemma LaunchKbd(s: Sys, load: Load)
    ensures LaunchFromShell(s, load).kbdQ == s.kbdQ
  {
    hide Create, Reap;
    CreateKbd(s, load, 0);
  }

  lemma CreateKbd(s: Sys, load: Load, ppid: nat)
    ensures Create(s, load, ppid).0.kbdQ == s.kbdQ && Create(s, load, ppid).0.keys == s.keys
  {
  }

  lemma UserKbd(s: Sys, e: Event)
    requires Inv(s) && InUser(s)
    ensures s.kbdQ <= UserStep(s, e).kbdQ
  {
    hide TableOk, WaitersOk, ExecOk, KbdQOk, RunQOk, Create, ByPid;
    if e.SpawnCall? { CreateKbd(s, e.load, s.procs[s.current.value].pid); }
    if e.ExecCall? { CreateKbd(s, e.load, s.procs[s.current.value].ppid); }
  }

  function KeyCount(es: seq<Event>): (n: nat) {
    if es == [] then 0 else (if IsKey(es[0]) then 1 else 0) + KeyCount(es[1..])
  }

  /** A process at position k of the keyboard queue is ready after exactly k + 1 keys. */
  lemma {:induction false} WokenWithin(s: Sys, es: seq<Event>, k: nat) returns (j: nat)
    requires Inv(s) && k < |s.kbdQ| && KeyCount(es) >= k + 1
    ensures 0 < j <= |es| && KeyCount(es[..j]) == k + 1
    ensures s.kbdQ[k] in Run(s, es[..j]).runQ
    decreases |es|
  {
    hide Step, Inv;
    var t := Step(s, es[0]);
    KbdPrefix(s, es[0]);
    if IsKey(es[0]) && k == 0 {
      j := 1;
      assert es[..1] == [es[0]] && es[..1][1..] == [];
      assert Run(s, es[..1]) == t;
    } else {
      var m := if IsKey(es[0]) then k - 1 else k;
      assert t.kbdQ[m] == s.kbdQ[k];
      var i := WokenWithin(t, es[1..], m);
      j := i + 1;
      assert es[..j][1..] == es[1..][..i];
    }
  }

  // ---------------------------------------------------------------- exit wakes the parent

  /** Process p is blocked in waitpid for the current process. */
  predicate WaitsForCurrent(s: Sys, p: nat)
    requires OnCpu(s)
  {
    p < |s.procs| && s.procs[p].state == Blocked && s.procs[p].pid == s.procs[s.current.value].ppid
    && (s.procs[p].wait == AnyChild || s.procs[p].wait == Child(s.procs[s.current.value].pid))
  }

  /** Exit makes a parent that waits for the caller ready, and changes nobody else. */
  lemma ExitWakes(s: Sys, code: int, p: nat)
    requires Inv(s) && InUser(s) && p < |s.procs| && p != s.current.value
    ensures var t := Step(s, ExitCall(code));
            && t.procs[p] == (if WaitsForCurrent(s, p) then s.procs[p].(state := Ready) else s.procs[p])
            && (WaitsForCurrent(s, p) ==> t.runQ == s.runQ + [p])
            && t.procs[s.current.value].state == Zombie && t.kbdQ == s.kbdQ
  {
    hide RunQOk, KbdQOk, WaitersOk, ExecOk;
    var me := s.current.value;
    var z := SetProc(s, me, s.procs[me].(state := Zombie, exitCode := code));
    var parent := ByPid(z.procs, s.procs[me].ppid);
    if s.procs[p].state != Unused && s.procs[p].pid == s.procs[me].ppid {
      assert z.procs[p] == s.procs[p] && parent.Some?;
      assert s.procs[parent.value].state != Unused && s.procs[parent.value].pid == s.procs[p].pid;
      assert parent == Some(p);
    }
  }

  // ---------------------------------------------------------------- keys

  /** The current process takes a key from the buffer. */
  predicate TakesKey(s: Sys, e: Event) { e == ReadCall && InUser(s) && s.keys > 0 }

  /** A key is lost because the buffer is full. */
  predicate DropsKey(s: Sys, e: Event) { IsKey(e) && s.keys >= KEYBOARD_BUFFER_SIZE }

  lemma KeysStep(s: Sys, e: Event)
    requires Inv(s)
    ensures Step(s, e).keys == s.keys + (if IsKey(e) && !DropsKey(s, e) then 1 else 0) - if TakesKey(s, e) then 1 else 0
    ensures TakesKey(s, e) ==> Step(s, e) == s.(keys := s.keys - 1)
  {
    hide TableOk, WaitersOk, ExecOk, KbdQOk, Create, ByPid, WaitLoop, Reap;
    if e.WaitCall? && OnCpu(s) { WaitKeys(s, s.current.value, e.target); }
    if e.Launch? { CreateKbd(s, e.load, 0); }
    if e.SpawnCall? && InUser(s) { CreateKbd(s, e.load, s.procs[s.current.value].pid); }
    if e.ExecCall? && InUser(s) { CreateKbd(s, e.load, s.procs[s.current.value].ppid); }
  }

  lemma {:induction false} WaitKeys(s: Sys, me: nat, requested: Wait)
    requires me < |s.procs| && s.procs[me].state == Running
    ensures WaitLoop(s, me, requested).0.keys == s.keys
    decreases UsedSlots(s.procs)
  {
    var child := WaitChild(s.procs, s.procs[me].pid, WaitTarget(s, me, requested));
    if child.Some? && s.procs[child.value].state == Zombie && s.procs[child.value].replacedBy != 0 {
      var u := Redirect(s, me, child.value);
      assert child.value !in UsedSlots(u.procs) && child.value in UsedSlots(s.procs);
      WaitKeys(u, me, requested);
    }
  }

  function Taken(s: Sys, es: seq<Event>): (n: nat)
    requires Inv(s)
    decreases |es|
  {
    if es == [] then 0 else (if TakesKey(s, es[0]) then 1 else 0) + Taken(Step(s, es[0]), es[1..])
  }

  function Dropped(s: Sys, es: seq<Event>): (n: nat)
    requires Inv(s)
    decreases |es|
  {
    if es == [] then 0 else (if DropsKey(s, es[0]) then 1 else 0) + Dropped(Step(s, es[0]), es[1..])
  }

  /** Every key typed was read, was dropped by a full buffer, or is still there. */
  lemma {:induction false} KeysConserved(s: Sys, es: seq<Event>)
    requires Inv(s)
    ensures s.keys + KeyCount(es) == Taken(s, es) + Dropped(s, es) + Run(s, es).keys
    decreases |es|
  {
    hide Inv, Step;
    if es != [] {
      KeysStep(s, es[0]);
      KeysConserved(Step(s, es[0]), es[1..]);
    }
  }

  // ---------------------------------------------------------------- the boot shell

  /** The scheduler hands the machine back to the boot shell exactly when no process is left. */
  lemma ShellReturns(s: Sys)
    requires Inv(s) && s.waiting && !OnCpu(s)
    ensures Step(s, SwitchOver).waiting <==> exists i :: 0 <= i < |s.procs| && Live(s.procs[i])
    ensures !Step(s, SwitchOver).waiting ==> Step(s, SwitchOver).current == None
  {
    hide TableOk, WaitersOk, ExecOk, KbdQOk, Reap;
    if s.runQ != [] {
      assert Live(s.procs[s.runQ[0]]);
    } else if HasBlocked(s.procs) {
      var i :| 0 <= i < |s.procs| && s.procs[i].state == Blocked;
      assert Live(s.procs[i]);
    }
  }
}
