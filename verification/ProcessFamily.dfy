/** The process table as a family: who is whose child, who has exited with which code, who was replaced by whom. Every
    event changes the family as its name says, so the answers of waitpid can be traced back to the calls of a run. */
module ProcessFamily {
  import opened Base
  import opened ProcessModel
  import opened ProcessInvariant
  import opened ProcessRuns
  import opened ProcessCalls

  datatype Status = Alive | Exited(code: int) | ReplacedBy(pid: nat)

  datatype Member = Member(parent: nat, status: Status)

  type Family = map<nat, Member>

  function MemberOf(p: Pcb): (m: Member) {
    Member(p.ppid, if p.state != Zombie then Alive
                   else if p.replacedBy != 0 then ReplacedBy(p.replacedBy) else Exited(p.exitCode))
  }

  ghost predicate Distinct(procs: seq<Pcb>) {
    forall i, j :: 0 <= i < j < |procs| && procs[i].state != Unused && procs[j].state != Unused ==>
      procs[i].pid != procs[j].pid
  }

  ghost function Pids(procs: seq<Pcb>): (r: set<nat>) {
    set i | 0 <= i < |procs| && procs[i].state != Unused :: procs[i].pid
  }

  ghost function FamilyOf(procs: seq<Pcb>): (f: Family) {
    map pid | pid in Pids(procs) && ByPid(procs, pid).Some? :: MemberOf(procs[ByPid(procs, pid).value])
  }

  /** A used slot is the member with its pid, and every member has a slot. */
  lemma InFamily(procs: seq<Pcb>, i: nat)
    requires Distinct(procs) && i < |procs| && procs[i].state != Unused
    ensures procs[i].pid in FamilyOf(procs) && FamilyOf(procs)[procs[i].pid] == MemberOf(procs[i])
  {
    hide ByPid, MemberOf;
    assert procs[i].pid in Pids(procs);
    var j := ByPid(procs, procs[i].pid);
    assert j == Some(i);
  }

  lemma HasSlot(procs: seq<Pcb>, pid: nat) returns (i: nat)
    requires Distinct(procs) && pid in FamilyOf(procs)
    ensures i < |procs| && procs[i].state != Unused && procs[i].pid == pid && FamilyOf(procs)[pid] == MemberOf(procs[i])
  {
    hide ByPid, MemberOf;
    i := ByPid(procs, pid).value;
  }

  /** Two states of a slot in which it shows the same member, or none. */
  predicate SameMember(p: Pcb, q: Pcb) {
    (p.state == Unused <==> q.state == Unused) && (p.state != Unused ==> p.pid == q.pid && MemberOf(p) == MemberOf(q))
  }

  /** One slot changes; the others show the same members. */
  lemma Changed(a: seq<Pcb>, b: seq<Pcb>, i: nat)
    requires Distinct(a) && Distinct(b) && |a| == |b| && i < |a|
    requires forall j :: 0 <= j < |a| && j != i ==> SameMember(a[j], b[j])
    requires a[i].state != Unused && b[i].state != Unused ==> a[i].pid == b[i].pid
    ensures b[i].state != Unused ==> FamilyOf(b) == FamilyOf(a)[b[i].pid := MemberOf(b[i])]
    ensures a[i].state != Unused && b[i].state == Unused ==> FamilyOf(b) == FamilyOf(a) - {a[i].pid}
    ensures a[i].state == Unused && b[i].state == Unused ==> FamilyOf(b) == FamilyOf(a)
  {
    hide MemberOf, FamilyOf;
    forall pid | pid in FamilyOf(a) ensures
      if b[i].state != Unused && pid == b[i].pid then pid in FamilyOf(b)
      else if a[i].state != Unused && pid == a[i].pid then pid !in FamilyOf(b)
      else pid in FamilyOf(b) && FamilyOf(b)[pid] == FamilyOf(a)[pid]
    {
      var j := HasSlot(a, pid);
      if b[j].state != Unused { InFamily(b, j); }
      if pid in FamilyOf(b) { var k := HasSlot(b, pid); }
    }
    forall pid | pid in FamilyOf(b) ensures (b[i].state != Unused && pid == b[i].pid) || pid in FamilyOf(a) {
      var j := HasSlot(b, pid);
      if j != i { InFamily(a, j); }
    }
    if b[i].state != Unused { InFamily(b, i); }
  }

  lemma Unchanged(a: seq<Pcb>, b: seq<Pcb>)
    requires Distinct(a) && |a| == |b| && forall j :: 0 <= j < |a| ==> SameMember(a[j], b[j])
    ensures Distinct(b) && FamilyOf(b) == FamilyOf(a)
  {
    if |a| > 0 { Changed(a, b, 0); Changed(b, a, 0); }
  }

  // ---------------------------------------------------------------- zombies nobody will ask for

  /** Slot j as process_reap_zombies finds it when it looks at slot i. */
  function Met(procs: seq<Pcb>, r: seq<Pcb>, i: nat, j: nat): (p: Pcb)
    requires i < |procs| == |r| && j < |procs|
  {
    if j < i then r[j] else procs[j]
  }

  /** Exactly the zombies go that have no parent, or whose parent has no slot when they are looked at. */
  ghost predicate Reapable(procs: seq<Pcb>, r: seq<Pcb>, i: nat)
    requires i < |procs| == |r|
  {
    procs[i].state == Zombie
    && (procs[i].ppid == 0 || forall j :: 0 <= j < |procs| ==>
          Met(procs, r, i, j).state == Unused || Met(procs, r, i, j).pid != procs[i].ppid)
  }

  lemma {:induction false} ReapFromIs(procs: seq<Pcb>, from: nat, i: nat)
    requires from <= |procs| && i < |procs|
    ensures var r := ReapFrom(procs, from);
            && (i < from ==> r[i] == procs[i])
            && (i >= from ==> r[i] == if Reapable(procs, r, i) then EmptySlot else procs[i])
    decreases |procs| - from
  {
    if from < |procs| {
      var next := if procs[from].state == Zombie && (procs[from].ppid == 0 || ByPid(procs, procs[from].ppid).None?)
                  then procs[from := EmptySlot] else procs;
      var r := ReapFrom(procs, from);
      assert r == ReapFrom(next, from + 1);
      forall k | 0 <= k <= from ensures r[k] == next[k] { ReapFromIs(next, from + 1, k); }
      if i > from {
        ReapFromIs(next, from + 1, i);
        forall j | 0 <= j < |procs| ensures Met(next, r, i, j) == Met(procs, r, i, j) {}
      } else if i == from {
        forall j | 0 <= j < |procs| ensures Met(procs, r, i, j) == procs[j] {}
      }
    }
  }

  lemma ReapIs(procs: seq<Pcb>, i: nat)
    requires i < |procs|
    ensures Reap(procs)[i] == if Reapable(procs, Reap(procs), i) then EmptySlot else procs[i]
  {
    ReapFromIs(procs, 0, i);
  }

  ghost predicate Within(g: Family, f: Family) { forall x :: x in g ==> x in f && g[x] == f[x] }

  /** From f to g only dead members without a parent in g are gone, and a dead one that stays had a parent in f. */
  ghost predicate Buried(g: Family, f: Family) {
    && Within(g, f)
    && (forall x :: x in f && x !in g ==> !f[x].status.Alive? && (f[x].parent == 0 || f[x].parent !in g))
    && (forall x :: x in g && !g[x].status.Alive? ==> g[x].parent != 0 && g[x].parent in f)
  }

  lemma ReapBuries(procs: seq<Pcb>)
    requires Distinct(procs)
    ensures Distinct(Reap(procs)) && Buried(FamilyOf(Reap(procs)), FamilyOf(procs))
  {
    hide FamilyOf, Reap;
    var r := Reap(procs);
    var f, g := FamilyOf(procs), FamilyOf(r);
    forall i | 0 <= i < |procs|
      ensures r[i] == if Reapable(procs, r, i) then EmptySlot else procs[i]
    {
      ReapIs(procs, i);
    }
    forall x | x in g ensures x in f && g[x] == f[x] {
      var i := HasSlot(r, x);
      InFamily(procs, i);
    }
    forall x | x in f && x !in g ensures !f[x].status.Alive? && (f[x].parent == 0 || f[x].parent !in g) {
      var i := HasSlot(procs, x);
      if r[i].state != Unused { InFamily(r, i); }
      if f[x].parent in g {
        var j := HasSlot(r, f[x].parent);
        assert Met(procs, r, i, j).pid == procs[i].ppid;
      }
    }
    forall x | x in g && !g[x].status.Alive? ensures g[x].parent != 0 && g[x].parent in f {
      var i := HasSlot(r, x);
      if procs[i].ppid != 0 {
        var j :| 0 <= j < |procs| && Met(procs, r, i, j).state != Unused && Met(procs, r, i, j).pid == procs[i].ppid;
        InFamily(procs, j);
      }
    }
  }

  // ---------------------------------------------------------------- what each event does to the family

  /** process_create finds a slot and the program loads. */
  ghost predicate Makes(s: Sys, load: Load) {
    load.Loaded? && exists i :: 0 <= i < |s.procs| && s.procs[i].state == Unused
  }

  /** A pid is spent unless there is no program or no slot. */
  ghost predicate SpendsPid(s: Sys, load: Load) {
    !load.NotFound? && exists i :: 0 <= i < |s.procs| && s.procs[i].state == Unused
  }

  /** A new member, with the next pid, in the lowest free slot, ready to run in user mode. */
  lemma CreateLaw(s: Sys, load: Load, ppid: nat)
    requires TableOk(s)
    ensures var t := Create(s, load, ppid);
            && Distinct(t.0.procs) && (t.1.Some? <==> Makes(s, load))
            && FamilyOf(t.0.procs) == (if Makes(s, load) then FamilyOf(s.procs)[s.nextPid := Member(ppid, Alive)]
                                       else FamilyOf(s.procs))
            && t.0.nextPid == s.nextPid + (if SpendsPid(s, load) then 1 else 0)
            && (t.1.Some? ==> t.0.procs[t.1.value].pid == s.nextPid && t.0.procs[t.1.value].resume == User
                              && forall i :: 0 <= i < t.1.value ==> s.procs[i].state != Unused)
  {
    hide FamilyOf;
    var t := Create(s, load, ppid);
    FirstFree(s.procs, 0);
    if t.1.Some? {
      assert t.0.procs[t.1.value].pid == s.nextPid;
      Changed(s.procs, t.0.procs, t.1.value);
    }
  }

  lemma {:induction false} FirstFree(procs: seq<Pcb>, from: nat)
    requires from <= |procs|
    ensures var r := FreeSlotFrom(procs, from);
            r.Some? ==> r.value < |procs| && forall i :: from <= i < r.value ==> procs[i].state != Unused
    decreases |procs| - from
  {
    if from < |procs| { FirstFree(procs, from + 1); }
  }

  lemma AddLaw(s: Sys, p: nat)
    requires Distinct(s.procs) && p < |s.procs|
    ensures Distinct(Add(s, p).procs) && FamilyOf(Add(s, p).procs) == FamilyOf(s.procs)
  {
    hide FamilyOf;
    Unchanged(s.procs, Add(s, p).procs);
  }

  lemma SpawnLaw(s: Sys, me: nat, load: Load)
    requires TableOk(s) && me < |s.procs|
    ensures FamilyOf(Spawn(s, me, load).procs) ==
            if Makes(s, load) then FamilyOf(s.procs)[s.nextPid := Member(s.procs[me].pid, Alive)] else FamilyOf(s.procs)
    ensures Spawn(s, me, load).nextPid == s.nextPid + if SpendsPid(s, load) then 1 else 0
  {
    hide FamilyOf, Create, Makes;
    var t := Create(s, load, s.procs[me].pid);
    CreateLaw(s, load, s.procs[me].pid);
    if t.1.Some? { AddLaw(t.0, t.1.value); }
  }

  lemma LaunchLaw(s: Sys, load: Load)
    requires TableOk(s)
    ensures if Makes(s, load) then
              Buried(FamilyOf(LaunchFromShell(s, load).procs), FamilyOf(s.procs)[s.nextPid := Member(0, Alive)])
            else FamilyOf(LaunchFromShell(s, load).procs) == FamilyOf(s.procs)
    ensures LaunchFromShell(s, load).nextPid == s.nextPid + if SpendsPid(s, load) then 1 else 0
  {
    hide FamilyOf, Create, Makes, Buried, Reap;
    var t := Create(s, load, 0);
    CreateLaw(s, load, 0);
    if t.1.Some? {
      ReapBuries(t.0.procs);
      AddLaw(t.0.(procs := Reap(t.0.procs), waiting := true), t.1.value);
    }
  }

  lemma SupersededLaw(t: Sys, me: nat, n: nat)
    requires Distinct(t.procs) && me < |t.procs| && n < |t.procs| && me != n && t.procs[n].pid != 0
    requires t.procs[me].state != Unused
    ensures Distinct(Superseded(t, me, n).procs)
    ensures FamilyOf(Superseded(t, me, n).procs) ==
            FamilyOf(t.procs)[t.procs[me].pid := Member(t.procs[me].ppid, ReplacedBy(t.procs[n].pid))]
  {
    hide FamilyOf, ByPid;
    var r := Superseded(t, me, n);
    assert r.procs[me].state == Zombie && r.procs[me].replacedBy == t.procs[n].pid
           && r.procs[me].pid == t.procs[me].pid && r.procs[me].ppid == t.procs[me].ppid;
    assert forall j :: 0 <= j < |t.procs| && j != me ==> SameMember(t.procs[j], r.procs[j]);
    Changed(t.procs, r.procs, me);
  }

  lemma ExecLaw(s: Sys, me: nat, load: Load)
    requires TableOk(s) && me < |s.procs| && s.procs[me].state != Unused
    ensures var p := s.procs[me];
            FamilyOf(Exec(s, me, load).procs) ==
            if Makes(s, load) then
              FamilyOf(s.procs)[s.nextPid := Member(p.ppid, Alive)][p.pid := Member(p.ppid, ReplacedBy(s.nextPid))]
            else FamilyOf(s.procs)
    ensures Exec(s, me, load).nextPid == s.nextPid + if SpendsPid(s, load) then 1 else 0
  {
    hide FamilyOf, Makes, Superseded;
    var t := Create(s, load, s.procs[me].ppid);
    CreateLaw(s, load, s.procs[me].ppid);
    if t.1.Some? {
      SupersededLaw(t.0, me, t.1.value);
      AddLaw(Superseded(t.0, me, t.1.value), t.1.value);
      SupersededPid(t.0, me, t.1.value);
    }
  }

  lemma SupersededPid(t: Sys, me: nat, n: nat)
    requires me < |t.procs| && n < |t.procs|
    ensures Superseded(t, me, n).nextPid == t.nextPid
  {
  }

  /** A live process has not been replaced. */
  ghost predicate NoneReplaced(s: Sys) {
    forall i :: 0 <= i < |s.procs| && s.procs[i].state != Zombie ==> s.procs[i].replacedBy == 0
  }

  lemma ExitLaw(s: Sys, me: nat, code: int)
    requires Distinct(s.procs) && NoneReplaced(s) && me < |s.procs| && Live(s.procs[me])
    ensures FamilyOf(Exit(s, me, code).procs) ==
            FamilyOf(s.procs)[s.procs[me].pid := Member(s.procs[me].ppid, Exited(code))]
  {
    hide FamilyOf, ByPid;
    var r := Exit(s, me, code);
    assert forall j :: 0 <= j < |s.procs| && j != me ==> SameMember(s.procs[j], r.procs[j]);
    Changed(s.procs, r.procs, me);
  }

  /** waitpid removes children of the caller that were replaced, and the child whose exit it reports. */
  ghost predicate Waited(g: Family, f: Family, mypid: nat, r: WaitResult) {
    && Within(g, f)
    && (forall x :: x in f && x !in g ==> f[x].parent == mypid && (f[x].status.ReplacedBy? || r.Reaped?))
    && (r.Reaped? ==> r.pid in f && r.pid !in g && f[r.pid] == Member(mypid, Exited(r.code)))
    && (forall x :: x in f && x !in g && !f[x].status.ReplacedBy? ==> r.Reaped? && x == r.pid)
  }

  lemma WaitedNext(h: Family, g: Family, f: Family, mypid: nat, r: WaitResult, x: nat)
    requires x in f && f[x].parent == mypid && f[x].status.ReplacedBy? && g == f - {x} && Waited(h, g, mypid, r)
    ensures Waited(h, f, mypid, r)
  {
  }

  lemma WaitedNone(f: Family, mypid: nat, r: WaitResult)
    requires !r.Reaped?
    ensures Waited(f, f, mypid, r)
  {
  }

  lemma WaitedOne(f: Family, mypid: nat, x: nat, code: int)
    requires x in f && f[x] == Member(mypid, Exited(code))
    ensures Waited(f - {x}, f, mypid, Reaped(x, code))
  {
  }

  /** A zombie child emptied: its member goes. */
  lemma Emptied(s: Sys, me: nat, w: Wait, c: nat)
    requires Distinct(s.procs) && me < |s.procs| && s.procs[me].state == Running && c < |s.procs|
    requires s.procs[c].state == Zombie
    ensures var u := SetProc(SetProc(s, me, s.procs[me].(wait := w)), c, EmptySlot);
            && Distinct(u.procs) && FamilyOf(u.procs) == FamilyOf(s.procs) - {s.procs[c].pid}
            && UsedSlots(u.procs) < UsedSlots(s.procs) && u.procs[me] == s.procs[me].(wait := w)
    ensures s.procs[c].pid in FamilyOf(s.procs) && FamilyOf(s.procs)[s.procs[c].pid] == MemberOf(s.procs[c])
  {
    hide FamilyOf;
    var u := SetProc(SetProc(s, me, s.procs[me].(wait := w)), c, EmptySlot);
    assert c !in UsedSlots(u.procs) && c in UsedSlots(s.procs);
    InFamily(s.procs, c);
    Changed(s.procs, u.procs, c);
  }

  lemma {:induction false} WaitLaw(s: Sys, me: nat, requested: Wait)
    requires Distinct(s.procs) && me < |s.procs| && s.procs[me].state == Running
    ensures var (t, r) := WaitLoop(s, me, requested);
            Distinct(t.procs) && Waited(FamilyOf(t.procs), FamilyOf(s.procs), s.procs[me].pid, r)
    decreases UsedSlots(s.procs)
  {
    hide FamilyOf, ByPid, FirstChild, Distinct, UsedSlots, Waited;
    var f, mypid := FamilyOf(s.procs), s.procs[me].pid;
    var child := WaitChild(s.procs, mypid, WaitTarget(s, me, requested));
    var (t, r) := WaitLoop(s, me, requested);
    if child.None? || s.procs[child.value].state != Zombie {
      Unchanged(s.procs, t.procs);
      WaitedNone(f, mypid, r);
    } else {
      var c, x := child.value, s.procs[child.value].pid;
      if s.procs[c].replacedBy != 0 {
        Emptied(s, me, Child(s.procs[c].replacedBy), c);
        var u := Redirect(s, me, c);
        WaitLaw(u, me, requested);
        WaitedNext(FamilyOf(t.procs), FamilyOf(u.procs), f, mypid, r, x);
      } else {
        Emptied(s, me, NotWaiting, c);
        WaitedOne(f, mypid, x, s.procs[c].exitCode);
      }
    }
  }

  // ---------------------------------------------------------------- one law for all events

  function Me(s: Sys): (p: Pcb)
    requires OnCpu(s)
  {
    s.procs[s.current.value]
  }

  /** What event e makes of the family. */
  ghost predicate Lawful(s: Sys, e: Event, t: Sys) {
    var f, g := FamilyOf(s.procs), FamilyOf(t.procs);
    match e
    case Launch(load) =>
      if !s.waiting && Makes(s, load) then Buried(g, f[s.nextPid := Member(0, Alive)]) else g == f
    case SwitchOver =>
      if s.waiting && !OnCpu(s) && s.runQ == [] && !HasBlocked(s.procs) then Buried(g, f) else g == f
    case WaitCall(target) =>
      if OnCpu(s) then Waited(g, f, Me(s).pid, WaitLoop(s, s.current.value, target).1) else g == f
    case SpawnCall(load) =>
      if InUser(s) && Makes(s, load) then g == f[s.nextPid := Member(Me(s).pid, Alive)] else g == f
    case ExecCall(load) =>
      if InUser(s) && Makes(s, load) then
        g == f[s.nextPid := Member(Me(s).ppid, Alive)][Me(s).pid := Member(Me(s).ppid, ReplacedBy(s.nextPid))]
      else g == f
    case ExitCall(code) =>
      if InUser(s) then g == f[Me(s).pid := Member(Me(s).ppid, Exited(code))] else g == f
    case _ => g == f
  }

  /** When a pid is spent. */
  ghost predicate Spends(s: Sys, e: Event) {
    match e
    case Launch(load) => !s.waiting && SpendsPid(s, load)
    case SpawnCall(load) => InUser(s) && SpendsPid(s, load)
    case ExecCall(load) => InUser(s) && SpendsPid(s, load)
    case _ => false
  }

  lemma UserLawful(s: Sys, e: Event)
    requires Inv(s) && NoneReplaced(s) && InUser(s) && !e.WaitCall? && !e.SwitchOver? && !e.Launch? && !e.KeyInterrupt?
    ensures Lawful(s, e, UserStep(s, e)) && UserStep(s, e).nextPid == s.nextPid + if Spends(s, e) then 1 else 0
  {
    hide FamilyOf, RunQOk, KbdQOk, CurrentOk, WaitersOk, ExecOk, Spawn, Exec, Exit, Makes, SpendsPid;
    var me := s.current.value;
    if e.SpawnCall? {
      SpawnLaw(s, me, e.load);
    } else if e.ExecCall? {
      ExecLaw(s, me, e.load);
    } else if e.ExitCall? {
      ExitLaw(s, me, e.code);
      ExitPids(s, me, e.code);
    } else {
      Unchanged(s.procs, UserStep(s, e).procs);
    }
  }

  lemma ExitPids(s: Sys, me: nat, code: int)
    requires me < |s.procs|
    ensures Exit(s, me, code).nextPid == s.nextPid
  {
  }

  lemma {:induction false} WaitPids(s: Sys, me: nat, requested: Wait)
    requires me < |s.procs| && s.procs[me].state == Running
    ensures WaitLoop(s, me, requested).0.nextPid == s.nextPid
    decreases UsedSlots(s.procs)
  {
    var child := WaitChild(s.procs, s.procs[me].pid, WaitTarget(s, me, requested));
    if child.Some? && s.procs[child.value].state == Zombie && s.procs[child.value].replacedBy != 0 {
      var u := Redirect(s, me, child.value);
      assert child.value !in UsedSlots(u.procs) && child.value in UsedSlots(s.procs);
      WaitPids(u, me, requested);
    }
  }

  /** Every event, in every state: the family changes as the event says, and a pid is spent or not. */
  lemma StepLawful(s: Sys, e: Event)
    requires Inv(s) && NoneReplaced(s)
    ensures Lawful(s, e, Step(s, e)) && Step(s, e).nextPid == s.nextPid + if Spends(s, e) then 1 else 0
  {
    hide FamilyOf, RunQOk, KbdQOk, WaitersOk, ExecOk, UserStep, WaitLoop, LaunchFromShell, Makes, SpendsPid, Reap,
         Waited, Buried;
    match e
    case Launch(load) => LaunchLaw(s, load);
    case SwitchOver =>
      ReapBuries(s.procs);
      if s.runQ != [] { Dispatched(s); }
    case WaitCall(target) =>
      if OnCpu(s) { WaitLaw(s, s.current.value, target); WaitPids(s, s.current.value, target); }
    case KeyInterrupt => KeyLaw(s);
    case _ => if InUser(s) { UserLawful(s, e); }
  }

  lemma Dispatched(s: Sys)
    requires Inv(s) && s.runQ != []
    ensures FamilyOf(Switch(s).procs) == FamilyOf(s.procs)
  {
    hide FamilyOf;
    Unchanged(s.procs, Switch(s).procs);
  }

  lemma KeyLaw(s: Sys)
    requires Inv(s)
    ensures FamilyOf(KeyPress(s).procs) == FamilyOf(s.procs)
  {
    hide FamilyOf;
    Unchanged(s.procs, KeyPress(s).procs);
  }

  // ---------------------------------------------------------------- over whole runs

  lemma AddNoneReplaced(s: Sys, p: nat)
    requires NoneReplaced(s) && p < |s.procs|
    ensures NoneReplaced(Add(s, p))
  {
  }

  lemma CreateNoneReplaced(s: Sys, load: Load, ppid: nat)
    requires NoneReplaced(s)
    ensures NoneReplaced(Create(s, load, ppid).0)
  {
    hide FreeSlotFrom;
  }

  lemma SpawnNoneReplaced(s: Sys, me: nat, load: Load)
    requires NoneReplaced(s) && me < |s.procs|
    ensures NoneReplaced(Spawn(s, me, load))
  {
    hide Add, Create, NoneReplaced;
    var t := Create(s, load, s.procs[me].pid);
    CreateNoneReplaced(s, load, s.procs[me].pid);
    if t.1.Some? { AddNoneReplaced(t.0, t.1.value); }
  }

  lemma LaunchNoneReplaced(s: Sys, load: Load)
    requires NoneReplaced(s)
    ensures NoneReplaced(LaunchFromShell(s, load))
  {
    hide Add, Create, Reap;
    var t := Create(s, load, 0);
    CreateNoneReplaced(s, load, 0);
    if t.1.Some? { AddNoneReplaced(t.0.(procs := Reap(t.0.procs), waiting := true), t.1.value); }
  }

  lemma ExecNoneReplaced(s: Sys, me: nat, load: Load)
    requires NoneReplaced(s) && me < |s.procs|
    ensures NoneReplaced(Exec(s, me, load))
  {
    hide Add, Create, Superseded, NoneReplaced;
    var t := Create(s, load, s.procs[me].ppid);
    CreateNoneReplaced(s, load, s.procs[me].ppid);
    if t.1.Some? {
      SupersededNoneReplaced(t.0, me, t.1.value);
      AddNoneReplaced(Superseded(t.0, me, t.1.value), t.1.value);
    }
  }

  lemma ExitNoneReplaced(s: Sys, me: nat, code: int)
    requires NoneReplaced(s) && me < |s.procs|
    ensures NoneReplaced(Exit(s, me, code))
  {
    hide ByPid;
  }

  lemma SupersededNoneReplaced(t: Sys, me: nat, n: nat)
    requires NoneReplaced(t) && me < |t.procs| && n < |t.procs|
    ensures NoneReplaced(Superseded(t, me, n))
  {
    hide ByPid;
  }

  lemma {:induction false} WaitNoneReplaced(s: Sys, me: nat, requested: Wait)
    requires NoneReplaced(s) && me < |s.procs| && s.procs[me].state == Running
    ensures NoneReplaced(WaitLoop(s, me, requested).0)
    decreases UsedSlots(s.procs)
  {
    var child := WaitChild(s.procs, s.procs[me].pid, WaitTarget(s, me, requested));
    if child.Some? && s.procs[child.value].state == Zombie && s.procs[child.value].replacedBy != 0 {
      var u := Redirect(s, me, child.value);
      assert child.value !in UsedSlots(u.procs) && child.value in UsedSlots(s.procs);
      WaitNoneReplaced(u, me, requested);
    }
  }

  lemma StepNoneReplaced(s: Sys, e: Event)
    requires Inv(s) && NoneReplaced(s)
    ensures NoneReplaced(Step(s, e))
  {
    hide TableOk, WaitersOk, ExecOk, WaitLoop, LaunchFromShell, UserStep, Reap;
    if e.Launch? {
      LaunchNoneReplaced(s, e.load);
    } else if e.WaitCall? && OnCpu(s) {
      WaitNoneReplaced(s, s.current.value, e.target);
    } else if InUser(s) {
      UserNoneReplaced(s, e);
    }
  }

  lemma UserNoneReplaced(s: Sys, e: Event)
    requires Inv(s) && NoneReplaced(s) && InUser(s)
    ensures NoneReplaced(UserStep(s, e))
  {
    hide TableOk, WaitersOk, ExecOk, RunQOk, KbdQOk, Spawn, Exec, Exit;
    var me := s.current.value;
    if e.SpawnCall? { SpawnNoneReplaced(s, me, e.load); }
    if e.ExecCall? { ExecNoneReplaced(s, me, e.load); }
    if e.ExitCall? { ExitNoneReplaced(s, me, e.code); }
  }

  lemma {:induction false} BootNoneReplaced(es: seq<Event>)
    ensures NoneReplaced(FromBoot(es))
    decreases |es|
  {
    hide Step, Inv, NoneReplaced;
    if es == [] {
      NobodyAtBoot();
    } else {
      var init, e := es[..|es| - 1], es[|es| - 1];
      assert es == init + [e];
      BootNoneReplaced(init);
      FromBootSnoc(init, e);
      StepNoneReplaced(FromBoot(init), e);
    }
  }

  lemma NobodyAtBoot()
    ensures NoneReplaced(FromBoot([])) && FamilyOf(FromBoot([]).procs) == map[]
  {
    assert FromBoot([]) == Boot();
  }

  /** Call e by the process with the given pid is the k-th event of the run. */
  ghost predicate Did(es: seq<Event>, k: nat, pid: nat, e: Event) {
    k < |es| && es[k] == e && var s := FromBoot(es[..k]); InUser(s) && Me(s).pid == pid
  }

  lemma DidEarlier(es: seq<Event>, x: Event, k: nat, pid: nat, e: Event)
    requires Did(es, k, pid, e)
    ensures Did(es + [x], k, pid, e)
  {
    hide FromBoot, InUser;
    assert (es + [x])[..k] == es[..k];
  }

  /** Only an exit makes a member that has exited. */
  lemma WhoExits(s: Sys, e: Event, pid: nat)
    requires Inv(s) && NoneReplaced(s) && pid in FamilyOf(Step(s, e).procs)
    requires FamilyOf(Step(s, e).procs)[pid].status.Exited?
    ensures var m := FamilyOf(Step(s, e).procs)[pid];
            (pid in FamilyOf(s.procs) && FamilyOf(s.procs)[pid] == m)
            || (InUser(s) && Me(s).pid == pid && e == ExitCall(m.status.code))
  {
    hide FamilyOf, Inv, Step, InUser, WaitLoop;
    StepLawful(s, e);
  }

  /** A member that has exited with a code made that call. */
  lemma {:induction false} ExitedDidExit(es: seq<Event>, pid: nat) returns (k: nat)
    requires pid in FamilyOf(FromBoot(es).procs) && FamilyOf(FromBoot(es).procs)[pid].status.Exited?
    ensures Did(es, k, pid, ExitCall(FamilyOf(FromBoot(es).procs)[pid].status.code))
    decreases |es|
  {
    hide FamilyOf, Inv, Step, InUser, NoneReplaced;
    NobodyAtBoot();
    var init, e := es[..|es| - 1], es[|es| - 1];
    assert es == init + [e];
    FromBootSnoc(init, e);
    BootNoneReplaced(init);
    var s := FromBoot(init);
    WhoExits(s, e, pid);
    var m := FamilyOf(FromBoot(es).procs)[pid];
    if pid in FamilyOf(s.procs) && FamilyOf(s.procs)[pid] == m {
      k := ExitedDidExit(init, pid);
      DidEarlier(init, e, k, pid, ExitCall(m.status.code));
    } else {
      k := |init|;
    }
  }

  /** The answers of waitpid are true: a code it reports was given to exit by the process with that pid, a child of the
      caller. */
  lemma ReapedExited(es: seq<Event>, target: Wait) returns (k: nat)
    requires OnCpu(FromBoot(es)) && WaitLoop(FromBoot(es), FromBoot(es).current.value, target).1.Reaped?
    ensures var s := FromBoot(es);
            var r := WaitLoop(s, s.current.value, target).1;
            && Did(es, k, r.pid, ExitCall(r.code))
            && r.pid in FamilyOf(s.procs) && FamilyOf(s.procs)[r.pid].parent == Me(s).pid
  {
    hide FamilyOf, Step, InUser, WaitLoop, Did;
    var s := FromBoot(es);
    WaitLaw(s, s.current.value, target);
    k := ExitedDidExit(es, WaitLoop(s, s.current.value, target).1.pid);
  }

  /** The k-th event made the process with the given pid a child of `parent`. */
  ghost predicate Born(es: seq<Event>, k: nat, pid: nat, parent: nat) {
    k < |es| && var s := FromBoot(es[..k]); s.nextPid == pid && Begets(s, es[k], parent)
  }

  /** Event e makes a child of `parent`: of nobody, of the caller, or of the caller's parent. */
  predicate Begets(s: Sys, e: Event, parent: nat) {
    || (e == Launch(Loaded) && parent == 0)
    || (e == SpawnCall(Loaded) && InUser(s) && Me(s).pid == parent)
    || (e == ExecCall(Loaded) && InUser(s) && Me(s).ppid == parent)
  }

  lemma BornEarlier(es: seq<Event>, x: Event, k: nat, pid: nat, parent: nat)
    requires Born(es, k, pid, parent)
    ensures Born(es + [x], k, pid, parent)
  {
    hide FromBoot, InUser;
    assert (es + [x])[..k] == es[..k];
  }

  lemma WhoIsBorn(s: Sys, e: Event, pid: nat)
    requires Inv(s) && NoneReplaced(s) && pid in FamilyOf(Step(s, e).procs)
    ensures var p := FamilyOf(Step(s, e).procs)[pid].parent;
            (pid in FamilyOf(s.procs) && FamilyOf(s.procs)[pid].parent == p)
            || (s.nextPid == pid && Begets(s, e, p))
  {
    hide FamilyOf, Inv, Step, WaitLoop;
    StepLawful(s, e);
    if OnCpu(s) { MeAlive(s); }
  }

  lemma MeAlive(s: Sys)
    requires Inv(s) && OnCpu(s)
    ensures Me(s).pid in FamilyOf(s.procs) && FamilyOf(s.procs)[Me(s).pid] == Member(Me(s).ppid, Alive)
  {
    hide FamilyOf, RunQOk, KbdQOk, WaitersOk, ExecOk;
    InFamily(s.procs, s.current.value);
  }

  /** Every process was launched by the boot shell, spawned by its parent, or took the place of a child of it. */
  lemma {:induction false} EveryoneBorn(es: seq<Event>, pid: nat) returns (k: nat)
    requires pid in FamilyOf(FromBoot(es).procs)
    ensures Born(es, k, pid, FamilyOf(FromBoot(es).procs)[pid].parent)
    decreases |es|
  {
    hide FamilyOf, Inv, Step, InUser, NoneReplaced;
    NobodyAtBoot();
    var init, e := es[..|es| - 1], es[|es| - 1];
    assert es == init + [e];
    FromBootSnoc(init, e);
    BootNoneReplaced(init);
    var s := FromBoot(init);
    WhoIsBorn(s, e, pid);
    var p := FamilyOf(FromBoot(es).procs)[pid].parent;
    if pid in FamilyOf(s.procs) && FamilyOf(s.procs)[pid].parent == p {
      k := EveryoneBorn(init, pid);
      BornEarlier(init, e, k, pid, p);
    } else {
      k := |init|;
    }
  }

  // ---------------------------------------------------------------- a code waits for its parent

  ghost predicate Dead(s: Sys, pid: nat, m: Member) {
    pid in FamilyOf(s.procs) && FamilyOf(s.procs)[pid] == m && !m.status.Alive?
  }

  lemma PidsBelow(s: Sys, pid: nat)
    requires Inv(s) && pid in FamilyOf(s.procs)
    ensures pid < s.nextPid
  {
    hide FamilyOf, RunQOk, KbdQOk, WaitersOk, ExecOk, CurrentOk;
    var i := HasSlot(s.procs, pid);
  }

  /** A dead member stays as it is or goes for good. */
  lemma DeadStep(s: Sys, e: Event, pid: nat, m: Member)
    requires Inv(s) && NoneReplaced(s) && pid < s.nextPid && (Dead(s, pid, m) || pid !in FamilyOf(s.procs))
    ensures var t := Step(s, e); pid < t.nextPid && (Dead(t, pid, m) || pid !in FamilyOf(t.procs))
    ensures pid !in FamilyOf(s.procs) ==> pid !in FamilyOf(Step(s, e).procs)
  {
    hide FamilyOf, Inv, Step, WaitLoop;
    StepLawful(s, e);
    if OnCpu(s) { MeAlive(s); }
  }

  lemma {:induction false} GoneForGood(s: Sys, es: seq<Event>, pid: nat)
    requires Inv(s) && NoneReplaced(s) && pid < s.nextPid && pid !in FamilyOf(s.procs)
    ensures pid !in FamilyOf(Run(s, es).procs)
    decreases |es|
  {
    hide FamilyOf, Inv, Step, NoneReplaced;
    if es != [] {
      DeadStep(s, es[0], pid, Member(0, Exited(0)));
      StepNoneReplaced(s, es[0]);
      GoneForGood(Step(s, es[0]), es[1..], pid);
    }
  }

  lemma {:induction false} DeadRun(s: Sys, es: seq<Event>, pid: nat, m: Member)
    requires Inv(s) && NoneReplaced(s) && Dead(s, pid, m) && pid in FamilyOf(Run(s, es).procs)
    ensures Dead(Run(s, es), pid, m)
    decreases |es|
  {
    hide FamilyOf, Inv, Step, NoneReplaced;
    if es != [] {
      PidsBelow(s, pid);
      DeadStep(s, es[0], pid, m);
      StepNoneReplaced(s, es[0]);
      if pid !in FamilyOf(Step(s, es[0]).procs) {
        GoneForGood(Step(s, es[0]), es[1..], pid);
      } else {
        DeadRun(Step(s, es[0]), es[1..], pid, m);
      }
    }
  }

  /** A process exits with a code. Whatever happens then, when its parent waits for it and its slot has not been
      emptied, the answer is its pid and that code. */
  lemma ExitThenWait(s: Sys, code: int, es: seq<Event>, target: Wait)
    requires Inv(s) && NoneReplaced(s) && InUser(s)
    requires var u := Run(Step(s, ExitCall(code)), es);
             Me(s).pid in FamilyOf(u.procs) && OnCpu(u) && Me(u).pid == Me(s).ppid
             && WaitTarget(u, u.current.value, target) == Child(Me(s).pid)
    ensures var u := Run(Step(s, ExitCall(code)), es);
            WaitLoop(u, u.current.value, target).1 == Reaped(Me(s).pid, code)
  {
    hide FamilyOf, Step, WaitLoop, NoneReplaced;
    var t := Step(s, ExitCall(code));
    var pid := Me(s).pid;
    StepLawful(s, ExitCall(code));
    StepNoneReplaced(s, ExitCall(code));
    DeadRun(t, es, pid, Member(Me(s).ppid, Exited(code)));
    ChildFound(Run(t, es), pid, code, target);
  }

  lemma ChildFound(u: Sys, pid: nat, code: int, target: Wait)
    requires Inv(u) && OnCpu(u) && Dead(u, pid, Member(Me(u).pid, Exited(code)))
    requires WaitTarget(u, u.current.value, target) == Child(pid)
    ensures WaitLoop(u, u.current.value, target).1 == Reaped(pid, code)
  {
    hide FamilyOf, RunQOk, KbdQOk, WaitersOk, CurrentOk;
    var i := HasSlot(u.procs, pid);
    assert ByPid(u.procs, pid) == Some(i);
    assert pid != 0;
  }
}
