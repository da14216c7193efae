/** The invariant of the process table and its queues, and the proof that every step keeps it. */
module ProcessInvariant {
  import opened Base
  import opened ProcessModel

  /** Pids are fresh, distinct, and larger than the pid of the parent. */
  ghost predicate TableOk(s: Sys) {
    && |s.procs| == PROC_MAX
    && s.nextPid > 0
    && (forall i :: 0 <= i < |s.procs| && s.procs[i].state != Unused ==>
          s.procs[i].ppid < s.procs[i].pid < s.nextPid)
    && (forall i, j :: 0 <= i < j < |s.procs| && s.procs[i].state != Unused && s.procs[j].state != Unused ==>
          s.procs[i].pid != s.procs[j].pid)
  }

  /** The run queue holds each READY process exactly once and nothing else. */
  ghost predicate RunQOk(s: Sys) {
    && NoDup(s.runQ)
    && (forall k :: 0 <= k < |s.runQ| ==> s.runQ[k] < |s.procs| && s.procs[s.runQ[k]].state == Ready)
    && (forall i :: 0 <= i < |s.procs| && s.procs[i].state == Ready ==> i in s.runQ)
  }

  /** The keyboard queue holds each process blocked outside waitpid exactly once and nothing else. */
  ghost predicate KbdQOk(s: Sys) {
    && NoDup(s.kbdQ)
    && (forall k :: 0 <= k < |s.kbdQ| ==>
          s.kbdQ[k] < |s.procs| && s.procs[s.kbdQ[k]].state == Blocked && s.procs[s.kbdQ[k]].wait == NotWaiting)
    && (forall i :: 0 <= i < |s.procs| && s.procs[i].state == Blocked && s.procs[i].wait == NotWaiting ==> i in s.kbdQ)
  }

  /** At most the current process runs; the boot shell is in control only when nothing is live. */
  ghost predicate CurrentOk(s: Sys) {
    && (s.current.Some? ==> s.current.value < |s.procs| && s.waiting)
    && (forall i :: 0 <= i < |s.procs| && s.procs[i].state == Running ==> s.current == Some(i))
    && (!s.waiting ==> forall i :: 0 <= i < |s.procs| ==> !Live(s.procs[i]))
  }

  /** Slot c is a live child that slot i's wait will end with. */
  predicate Awaits(procs: seq<Pcb>, i: nat, c: nat)
    requires i < |procs|
  {
    && c < |procs|
    && Live(procs[c])
    && procs[c].ppid == procs[i].pid
    && (procs[i].wait.Child? ==> procs[c].pid == procs[i].wait.pid)
  }

  /** Every process blocked in waitpid has a live child to wait for. */
  ghost predicate WaitersOk(s: Sys) {
    forall i :: 0 <= i < |s.procs| && s.procs[i].state == Blocked && s.procs[i].wait != NotWaiting ==>
      exists c :: Awaits(s.procs, i, c)
  }

  /** A process replaced by exec points to a younger pid. */
  ghost predicate ExecOk(s: Sys) {
    forall i :: 0 <= i < |s.procs| && s.procs[i].state != Unused && s.procs[i].replacedBy != 0 ==>
      s.procs[i].pid < s.procs[i].replacedBy < s.nextPid
  }

  ghost predicate Inv(s: Sys) {
    TableOk(s) && RunQOk(s) && KbdQOk(s) && CurrentOk(s) && WaitersOk(s) && ExecOk(s)
  }

  /** Every slot is free and the boot shell is in control. */
  function Boot(): (s: Sys)
    ensures |s.procs| == PROC_MAX && forall i :: 0 <= i < PROC_MAX ==> s.procs[i] == EmptySlot
  {
    Sys(seq(PROC_MAX, _ => EmptySlot), [], [], None, 1, 0, false)
  }

  /** The current process is in user mode, or (wait != NotWaiting) inside the loop of sys_waitpid. */
  predicate OnCpu(s: Sys) {
    s.current.Some? && s.current.value < |s.procs| && s.procs[s.current.value].state == Running
  }

  // ---------------------------------------------------------------- each operation keeps the invariant

  /** Identities carry over when no slot is filled and no used slot changes its pids. */
  lemma IdsCarry(s: Sys, r: Sys)
    requires TableOk(s) && ExecOk(s) && |s.procs| == |r.procs| && r.nextPid == s.nextPid
    requires forall i :: 0 <= i < |s.procs| && r.procs[i].state != Unused ==>
               && s.procs[i].state != Unused
               && r.procs[i].pid == s.procs[i].pid && r.procs[i].ppid == s.procs[i].ppid
               && r.procs[i].replacedBy == s.procs[i].replacedBy
    ensures TableOk(r) && ExecOk(r)
  {
  }

  /** The run queue is right for every slot but p, which is not on it. */
  ghost predicate RunQOkExcept(s: Sys, p: nat) {
    && NoDup(s.runQ)
    && (forall k :: 0 <= k < |s.runQ| ==>
          s.runQ[k] < |s.procs| && s.procs[s.runQ[k]].state == Ready && s.runQ[k] != p)
    && (forall i :: 0 <= i < |s.procs| && s.procs[i].state == Ready && i != p ==> i in s.runQ)
  }

  lemma AddRunQ(s: Sys, p: nat)
    requires RunQOkExcept(s, p) && p < |s.procs| && Live(s.procs[p])
    ensures RunQOk(Add(s, p))
  {
  }

  lemma AddKbdQ(s: Sys, p: nat)
    requires KbdQOk(s) && p < |s.procs|
    requires s.procs[p].state != Blocked || s.procs[p].wait != NotWaiting
    ensures KbdQOk(Add(s, p))
  {
  }

  /** Witnesses survive a change of table that keeps them live and keeps the waiters' requests. */
  lemma WaitersCarry(s: Sys, r: Sys)
    requires WaitersOk(s) && |s.procs| == |r.procs|
    requires forall i :: 0 <= i < |s.procs| && r.procs[i].state == Blocked && r.procs[i].wait != NotWaiting ==>
               s.procs[i].state == Blocked && s.procs[i].wait == r.procs[i].wait && s.procs[i].pid == r.procs[i].pid
    requires forall c :: 0 <= c < |s.procs| && Live(s.procs[c]) ==>
               Live(r.procs[c]) && r.procs[c].ppid == s.procs[c].ppid && r.procs[c].pid == s.procs[c].pid
    ensures WaitersOk(r)
  {
    forall i | 0 <= i < |r.procs| && r.procs[i].state == Blocked && r.procs[i].wait != NotWaiting
      ensures exists c :: Awaits(r.procs, i, c)
    {
      var c :| Awaits(s.procs, i, c);
      assert Awaits(r.procs, i, c);
    }
  }

  lemma AddKeeps(s: Sys, p: nat)
    requires Inv(s) && p < |s.procs| && s.waiting
    requires s.procs[p].state == Running || (s.procs[p].state == Blocked && s.procs[p].wait != NotWaiting)
    ensures Inv(Add(s, p))
  {
    IdsCarry(s, Add(s, p));
    AddRunQ(s, p);
    AddKbdQ(s, p);
    WaitersCarry(s, Add(s, p));
  }

  /** Changing only the exit code, resume and tick fields of a slot keeps the invariant. */
  lemma TweakKeeps(s: Sys, p: nat, q: Pcb)
    requires Inv(s) && p < |s.procs|
    requires q.state == s.procs[p].state && q.pid == s.procs[p].pid && q.ppid == s.procs[p].ppid
             && q.wait == s.procs[p].wait
    requires q.replacedBy == s.procs[p].replacedBy
    ensures Inv(SetProc(s, p, q))
  {
    IdsCarry(s, SetProc(s, p, q));
    WaitersCarry(s, SetProc(s, p, q));
  }

  lemma YieldKeeps(s: Sys, me: nat)
    requires Inv(s) && s.current == Some(me) && s.procs[me].state == Running
    ensures Inv(Yield(s, me))
  {
    TweakKeeps(s, me, s.procs[me].(resume := User));
    AddKeeps(SetProc(s, me, s.procs[me].(resume := User)), me);
  }

  lemma TickKeeps(s: Sys, me: nat)
    requires Inv(s) && s.current == Some(me) && s.procs[me].state == Running
    ensures Inv(Tick(s, me))
  {
    var p := s.procs[me];
    if p.resume == User {
      var q := p.(ticks := if p.ticks > 1 then p.ticks - 1 else 0);
      TweakKeeps(s, me, q);
      AddKeeps(SetProc(s, me, q), me);
    }
  }

  lemma ReadKeyKeeps(s: Sys, me: nat)
    requires Inv(s) && s.current == Some(me) && s.procs[me].state == Running && s.procs[me].wait == NotWaiting
    ensures Inv(ReadKey(s, me))
  {
    IdsCarry(s, ReadKey(s, me));
    var r := ReadKey(s, me);
    WaitersCarry(s, r);
    if s.keys == 0 {
      assert r.kbdQ[|s.kbdQ|] == me;
    }
  }

  lemma SwitchKeeps(s: Sys)
    requires Inv(s) && s.waiting && !OnCpu(s)
    ensures Inv(Switch(s))
  {
    if s.runQ != [] {
      DispatchKeeps(s);
    } else if !HasBlocked(s.procs) {
      NothingLive(s);
      ReapKeeps(s);
    }
  }

  lemma DispatchKeeps(s: Sys)
    requires Inv(s) && s.waiting && !OnCpu(s) && s.runQ != []
    ensures Inv(Switch(s))
  {
    SwitchRunQ(s);
    IdsCarry(s, Switch(s));
    WaitersCarry(s, Switch(s));
  }

  lemma NothingLive(s: Sys)
    requires Inv(s) && s.waiting && !OnCpu(s) && s.runQ == [] && !HasBlocked(s.procs)
    ensures forall i :: 0 <= i < |s.procs| ==> !Live(s.procs[i])
  {
  }

  /** Emptying zombie slots keeps everything: a zombie is on no queue and is nobody's witness. */
  lemma ReapKeeps(s: Sys)
    requires Inv(s)
    ensures Inv(s.(procs := Reap(s.procs)))
  {
    ReapQueues(s);
    IdsCarry(s, s.(procs := Reap(s.procs)));
    WaitersCarry(s, s.(procs := Reap(s.procs)));
  }

  lemma ReapQueues(s: Sys)
    requires RunQOk(s) && KbdQOk(s)
    ensures RunQOk(s.(procs := Reap(s.procs))) && KbdQOk(s.(procs := Reap(s.procs)))
  {
  }

  lemma SwitchRunQ(s: Sys)
    requires Inv(s) && s.runQ != []
    ensures RunQOk(Switch(s))
  {
  }

  lemma KeyPressKeeps(s: Sys)
    requires Inv(s)
    ensures Inv(KeyPress(s))
  {
    IdsCarry(s, KeyPress(s));
    if s.kbdQ != [] {
      var p := s.kbdQ[0];
      var t := s.(kbdQ := s.kbdQ[1..], keys := KeyPress(s).keys);
      assert KeyPress(s) == Add(t, p);
      AddRunQ(t, p);
      WaitersCarry(s, Add(t, p));
      PopKbdQ(s);
      assert Live(s.procs[p]);
    } else {
      WaitersCarry(s, KeyPress(s));
    }
  }

  lemma PopKbdQ(s: Sys)
    requires Inv(s) && s.kbdQ != []
    ensures KbdQOk(KeyPress(s))
  {
  }

  // ---------------------------------------------------------------- exit

  lemma ExitKeeps(s: Sys, me: nat, code: int)
    requires Inv(s) && s.current == Some(me) && s.procs[me].state == Running
    ensures Inv(Exit(s, me, code))
  {
    IdsCarry(s, Exit(s, me, code));
    ExitQueues(s, me, code);
    ExitWaiters(s, me, code);
  }

  lemma ExitQueues(s: Sys, me: nat, code: int)
    requires Inv(s) && me < |s.procs| && s.procs[me].state == Running
    ensures RunQOk(Exit(s, me, code)) && KbdQOk(Exit(s, me, code))
  {
    var t := SetProc(s, me, s.procs[me].(state := Zombie, exitCode := code));
    var parent := ByPid(t.procs, t.procs[me].ppid);
    if parent.Some? && WakesParent(t, parent.value, t.procs[me].pid) {
      AddRunQ(t, parent.value);
      AddKbdQ(t, parent.value);
    }
  }

  /** The one waiter that can lose its witness is the parent, and the exit wakes it. */
  lemma ExitWaiters(s: Sys, me: nat, code: int)
    requires Inv(s) && me < |s.procs| && s.procs[me].state == Running
    ensures WaitersOk(Exit(s, me, code))
  {
    var r := Exit(s, me, code);
    forall i | 0 <= i < |r.procs| && r.procs[i].state == Blocked && r.procs[i].wait != NotWaiting
      ensures exists c :: Awaits(r.procs, i, c)
    {
      var c :| Awaits(s.procs, i, c);
      if c == me {
        OnlyParent(SetProc(s, me, s.procs[me].(state := Zombie, exitCode := code)), i, s.procs[me].ppid);
        assert false;
      }
      assert Awaits(r.procs, i, c);
    }
  }

  lemma OnlyParent(s: Sys, i: nat, pid: nat)
    requires TableOk(s) && i < |s.procs| && s.procs[i].state != Unused && s.procs[i].pid == pid
    ensures ByPid(s.procs, pid) == Some(i)
  {
  }

  // ---------------------------------------------------------------- creation

  ghost function Fresh(s: Sys, slot: nat, ppid: nat): (t: Sys)
    requires slot < |s.procs|
  {
    SetProc(s, slot, Pcb(Ready, s.nextPid, ppid, NotWaiting, 0, 0, User, TIME_SLICE)).(nextPid := s.nextPid + 1)
  }

  lemma FreshOk(s: Sys, slot: nat, ppid: nat)
    requires Inv(s) && slot < |s.procs| && s.procs[slot].state == Unused && ppid < s.nextPid
    ensures TableOk(Fresh(s, slot, ppid)) && ExecOk(Fresh(s, slot, ppid)) && RunQOkExcept(Fresh(s, slot, ppid), slot)
            && KbdQOk(Fresh(s, slot, ppid))
  {
  }

  /** A slot taken from the free ones and put on the run queue. */
  lemma AdmitKeeps(s: Sys, slot: nat, ppid: nat)
    requires Inv(s) && s.waiting && slot < |s.procs| && s.procs[slot].state == Unused && ppid < s.nextPid
    ensures Inv(Add(Fresh(s, slot, ppid), slot))
  {
    var t := Fresh(s, slot, ppid);
    FreshOk(s, slot, ppid);
    AddRunQ(t, slot);
    AddKbdQ(t, slot);
    WaitersCarry(s, Add(t, slot));
  }

  lemma SpawnKeeps(s: Sys, me: nat, load: Load)
    requires Inv(s) && s.current == Some(me) && s.procs[me].state == Running
    ensures Inv(Spawn(s, me, load))
  {
    var (t, child) := Create(s, load, s.procs[me].pid);
    if child.Some? {
      AdmitKeeps(s, child.value, s.procs[me].pid);
    } else {
      WaitersCarry(s, t);
    }
  }

  lemma LaunchKeeps(s: Sys, load: Load)
    requires Inv(s) && !s.waiting
    ensures Inv(LaunchFromShell(s, load))
  {
    LaunchWaiters(s, load);
    LaunchQueues(s, load);
  }

  lemma LaunchQueues(s: Sys, load: Load)
    requires Inv(s) && !s.waiting
    ensures var r := LaunchFromShell(s, load); TableOk(r) && ExecOk(r) && RunQOk(r) && KbdQOk(r)
  {
    var (t, slot) := Create(s, load, 0);
    if slot.Some? {
      FreshOk(s, slot.value, 0);
      ReapOk(t, slot.value);
      var w := t.(procs := Reap(t.procs), waiting := true);
      AddRunQ(w, slot.value);
      AddKbdQ(w, slot.value);
      IdsCarry(w, Add(w, slot.value));
    }
  }

  lemma LaunchWaiters(s: Sys, load: Load)
    requires Inv(s) && !s.waiting
    ensures WaitersOk(LaunchFromShell(s, load)) && CurrentOk(LaunchFromShell(s, load))
  {
    WaitersCarry(s, LaunchFromShell(s, load));
  }

  lemma ReapOk(t: Sys, slot: nat)
    requires TableOk(t) && ExecOk(t) && RunQOkExcept(t, slot) && KbdQOk(t)
    ensures var w := t.(procs := Reap(t.procs), waiting := true);
            TableOk(w) && ExecOk(w) && RunQOkExcept(w, slot) && KbdQOk(w)
  {
  }

  // ---------------------------------------------------------------- exec

  /** The parent of `me` is waiting for exactly this pid. */
  predicate Redirects(s: Sys, me: nat, i: nat)
    requires me < |s.procs| && i < |s.procs|
  {
    s.procs[i].state == Blocked && s.procs[i].pid == s.procs[me].ppid && s.procs[i].wait == Child(s.procs[me].pid)
  }

  /** The table after a successful exec, slot by slot. */
  ghost predicate ExecShape(s: Sys, r: Sys, me: nat, n: nat)
    requires me < |s.procs| && n < |s.procs| && |r.procs| == |s.procs|
  {
    && n != me
    && r.procs[me] == s.procs[me].(replacedBy := s.nextPid, state := Zombie)
    && r.procs[n] == Pcb(Ready, s.nextPid, s.procs[me].ppid, NotWaiting, 0, 0, User, TIME_SLICE)
    && (forall i :: 0 <= i < |s.procs| && i != me && i != n ==>
          r.procs[i] == if Redirects(s, me, i) then s.procs[i].(wait := Child(s.nextPid)) else s.procs[i])
    && r == s.(procs := r.procs, runQ := s.runQ + [n], nextPid := s.nextPid + 1)
  }

  lemma ExecHasShape(s: Sys, me: nat, load: Load)
    requires Inv(s) && me < |s.procs| && s.procs[me].state == Running
    requires Create(s, load, s.procs[me].ppid).1.Some?
    ensures |Exec(s, me, load).procs| == |s.procs|
    ensures ExecShape(s, Exec(s, me, load), me, Create(s, load, s.procs[me].ppid).1.value)
  {
    var (t, next) := Create(s, load, s.procs[me].ppid);
    var n := next.value;
    assert TableOk(t) by { FreshOk(s, n, s.procs[me].ppid); }
    var parent := ByPid(t.procs, s.procs[me].ppid);
    forall i | 0 <= i < |s.procs| && i != me && i != n && Redirects(s, me, i)
      ensures parent == Some(i)
    {
      OnlyParent(t, i, s.procs[me].ppid);
    }
  }

  lemma ExecQueues(s: Sys, r: Sys, me: nat, n: nat)
    requires Inv(s) && me < |s.procs| && s.procs[me].state == Running
    requires n < |s.procs| && s.procs[n].state == Unused
    requires |r.procs| == |s.procs| && ExecShape(s, r, me, n)
    ensures RunQOk(r) && KbdQOk(r)
  {
    assert r.runQ[|s.runQ|] == n;
    forall i | 0 <= i < |r.procs| && r.procs[i].state == Ready
      ensures i in r.runQ
    {
      if i != n { assert i in s.runQ; }
    }
  }

  lemma ExecTable(s: Sys, r: Sys, me: nat, n: nat)
    requires Inv(s) && s.current == Some(me) && s.procs[me].state == Running
    requires n < |s.procs| && s.procs[n].state == Unused
    requires |r.procs| == |s.procs| && ExecShape(s, r, me, n)
    ensures TableOk(r) && CurrentOk(r) && ExecOk(r)
  {
  }

  /** A waiter whose witness calls exec gets the replacement as its new witness. */
  lemma ExecWaiters(s: Sys, r: Sys, me: nat, n: nat)
    requires Inv(s) && me < |s.procs| && s.procs[me].state == Running
    requires n < |s.procs| && s.procs[n].state == Unused
    requires |r.procs| == |s.procs| && ExecShape(s, r, me, n)
    ensures WaitersOk(r)
  {
    forall i | 0 <= i < |r.procs| && r.procs[i].state == Blocked && r.procs[i].wait != NotWaiting
      ensures exists c :: Awaits(r.procs, i, c)
    {
      var c :| Awaits(s.procs, i, c);
      if c == me || Redirects(s, me, i) {
        assert Awaits(r.procs, i, n);
      } else {
        assert Awaits(r.procs, i, c);
      }
    }
  }

  lemma ExecKeeps(s: Sys, me: nat, load: Load)
    requires Inv(s) && s.current == Some(me) && s.procs[me].state == Running
    ensures Inv(Exec(s, me, load))
  {
    var (t, next) := Create(s, load, s.procs[me].ppid);
    var r := Exec(s, me, load);
    if next.Some? {
      ExecHasShape(s, me, load);
      ExecTable(s, r, me, next.value);
      ExecQueues(s, r, me, next.value);
      ExecWaiters(s, r, me, next.value);
    } else {
      WaitersCarry(s, r);
    }
  }

  // ---------------------------------------------------------------- waitpid

  /** Recording a wait target and emptying a zombie child's slot keep the invariant. */
  lemma RedirectKeeps(s: Sys, me: nat, w: Wait, c: nat)
    requires Inv(s) && me < |s.procs| && s.procs[me].state == Running
    requires c < |s.procs| && s.procs[c].state == Zombie
    ensures Inv(SetProc(SetProc(s, me, s.procs[me].(wait := w)), c, EmptySlot))
  {
    IdsCarry(s, SetProc(SetProc(s, me, s.procs[me].(wait := w)), c, EmptySlot));
    WaitersCarry(s, SetProc(SetProc(s, me, s.procs[me].(wait := w)), c, EmptySlot));
  }

  lemma StopWaitingKeeps(s: Sys, me: nat)
    requires Inv(s) && me < |s.procs| && s.procs[me].state == Running
    ensures Inv(SetProc(s, me, s.procs[me].(wait := NotWaiting)))
  {
    IdsCarry(s, SetProc(s, me, s.procs[me].(wait := NotWaiting)));
    WaitersCarry(s, SetProc(s, me, s.procs[me].(wait := NotWaiting)));
  }

  ghost function Blocking(s: Sys, me: nat, target: Wait): (r: Sys)
    requires me < |s.procs|
  {
    SetProc(s, me, s.procs[me].(state := Blocked, wait := target, resume := InKernel))
  }

  lemma BlockKeeps(s: Sys, me: nat, target: Wait, c: nat)
    requires Inv(s) && me < |s.procs| && s.procs[me].state == Running
    requires WaitChild(s.procs, s.procs[me].pid, target) == Some(c) && s.procs[c].state != Zombie
    ensures Inv(Blocking(s, me, target))
  {
    IdsCarry(s, Blocking(s, me, target));
    BlockWaiters(s, me, target, c);
  }

  /** The process blocks only on a child that is still live. */
  lemma BlockWaiters(s: Sys, me: nat, target: Wait, c: nat)
    requires TableOk(s) && WaitersOk(s) && me < |s.procs| && s.procs[me].state == Running
    requires WaitChild(s.procs, s.procs[me].pid, target) == Some(c) && s.procs[c].state != Zombie
    ensures WaitersOk(Blocking(s, me, target))
  {
    var r := Blocking(s, me, target);
    forall i | 0 <= i < |r.procs| && r.procs[i].state == Blocked && r.procs[i].wait != NotWaiting
      ensures exists d :: Awaits(r.procs, i, d)
    {
      if i == me {
        assert Awaits(r.procs, me, c);
      } else {
        var d :| Awaits(s.procs, i, d);
        assert Awaits(r.procs, i, d);
      }
    }
  }

  lemma {:induction false} WaitLoopKeeps(s: Sys, me: nat, requested: Wait)
    requires Inv(s) && me < |s.procs| && s.procs[me].state == Running
    ensures Inv(WaitLoop(s, me, requested).0)
    decreases UsedSlots(s.procs)
  {
    var target := WaitTarget(s, me, requested);
    var child := WaitChild(s.procs, s.procs[me].pid, target);
    if child.None? {
      StopWaitingKeeps(s, me);
    } else if s.procs[child.value].state != Zombie {
      BlockKeeps(s, me, target, child.value);
    } else if s.procs[child.value].replacedBy == 0 {
      RedirectKeeps(s, me, NotWaiting, child.value);
    } else {
      var c, w := child.value, Child(s.procs[child.value].replacedBy);
      RedirectKeeps(s, me, w, c);
      var t := SetProc(SetProc(s, me, s.procs[me].(wait := w)), c, EmptySlot);
      assert c !in UsedSlots(t.procs) && c in UsedSlots(s.procs);
      WaitLoopKeeps(t, me, requested);
    }
  }
}
