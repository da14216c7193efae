/** File descriptors, pipe endpoints and vnode references on values. Entry 16 * p + fd is descriptor fd of process p. */
module FdModel {
  import opened Base

  const PROCS := 64
  const FDS := 16
  const PIPES := 32
  const FIRST_USER := 3
  const RDONLY := 0
  const WRONLY := 1

  /** process_fd_t. */
  datatype Fd =
    | Unused
    | Console(consoleFd: nat, flags: nat, fdFlags: nat)
    | PipeEnd(pipe: nat, canRead: bool, canWrite: bool, flags: nat, id: nat, fdFlags: nat)
    | File(vnode: nat, flags: nat, id: nat, offset: nat, fdFlags: nat)

  /** The counters of a pipe slot. */
  datatype Pipe = Pipe(used: bool, refs: nat, readers: nat, writers: nat)

  /** The descriptor tables of all processes, the pipe slots, the stored reference count of every live vnode, and the
      next description number. */
  datatype Sys = Sys(fds: seq<Fd>, pipes: seq<Pipe>, vnodes: map<nat, nat>, nextId: nat)

  // ---------- what entries name ----------

  datatype Key = Refs(p: nat) | Readers(p: nat) | Writers(p: nat) | Holds(v: nat)

  function Weight(f: Fd, k: Key): (n: nat) {
    match k
    case Refs(p) => if f.PipeEnd? && f.pipe == p then 1 else 0
    case Readers(p) => if f.PipeEnd? && f.pipe == p && f.canRead then 1 else 0
    case Writers(p) => if f.PipeEnd? && f.pipe == p && f.canWrite then 1 else 0
    case Holds(v) => if f.File? && f.vnode == v then 1 else 0
  }

  /** How many entries count for a key. */
  function Tally(fds: seq<Fd>, k: Key): (n: nat) {
    if fds == [] then 0 else Tally(fds[..|fds| - 1], k) + Weight(fds[|fds| - 1], k)
  }

  lemma {:induction false} TallySet(fds: seq<Fd>, i: nat, f: Fd, k: Key)
    requires i < |fds|
    ensures Tally(fds[i := f], k) == Tally(fds, k) - Weight(fds[i], k) + Weight(f, k)
    ensures Tally(fds, k) >= Weight(fds[i], k)
    decreases |fds|
  {
    var n := |fds| - 1;
    if i == n {
      assert fds[i := f][..n] == fds[..n];
    } else {
      assert fds[i := f][..n] == fds[..n][i := f];
      TallySet(fds[..n], i, f, k);
    }
  }

  // ---------- references ----------

  /** pipe_ref_endpoint. */
  function RefPipe(pipes: seq<Pipe>, p: nat, canRead: bool, canWrite: bool): (r: seq<Pipe>)
    requires p < |pipes|
  {
    var q := pipes[p];
    if !q.used then pipes
    else pipes[p := Pipe(true, q.refs + 1, q.readers + (if canRead then 1 else 0),
      q.writers + (if canWrite then 1 else 0))]
  }

  /** pipe_release_endpoint: the slot is wiped with its last reference. */
  function ReleasePipe(pipes: seq<Pipe>, p: nat, canRead: bool, canWrite: bool): (r: seq<Pipe>)
    requires p < |pipes|
  {
    var q := pipes[p];
    if !q.used then pipes
    else
      var readers := if canRead && q.readers > 0 then q.readers - 1 else q.readers;
      var writers := if canWrite && q.writers > 0 then q.writers - 1 else q.writers;
      var refs := if q.refs > 0 then q.refs - 1 else 0;
      pipes[p := if refs == 0 then Pipe(false, 0, 0, 0) else Pipe(true, refs, readers, writers)]
  }

  /** A stored count of 0 or 1 stands for one holder. */
  function Effective(stored: nat): (n: nat)
    ensures n >= 1
  {
    if stored <= 1 then 1 else stored
  }

  /** vfs_vnode_get. */
  function Get(vnodes: map<nat, nat>, v: nat): (r: map<nat, nat>)
    requires v in vnodes
  {
    vnodes[v := (if vnodes[v] == 0 then 1 else vnodes[v]) + 1]
  }

  /** vfs_vnode_put: the last holder frees the vnode. */
  function Put(vnodes: map<nat, nat>, v: nat): (r: map<nat, nat>)
    requires v in vnodes
  {
    if vnodes[v] > 1 then vnodes[v := vnodes[v] - 1] else vnodes - {v}
  }

  lemma GetPut(vnodes: map<nat, nat>, v: nat, w: nat)
    requires v in vnodes
    ensures HoldersOf(Get(vnodes, v), w) == HoldersOf(vnodes, w) + if w == v then 1 else 0
    ensures HoldersOf(Put(vnodes, v), w) == HoldersOf(vnodes, w) - if w == v then 1 else 0
  {
  }

  function HoldersOf(vnodes: map<nat, nat>, v: nat): (n: nat) { if v in vnodes then Effective(vnodes[v]) else 0 }

  // ---------- the invariant ----------

  ghost predicate PipeExact(s: Sys, p: nat) {
    p < |s.pipes| ==>
      var q := s.pipes[p];
      q.refs == Tally(s.fds, Refs(p)) && q.readers == Tally(s.fds, Readers(p)) && q.writers == Tally(s.fds, Writers(p))
      && (q.used <==> q.refs > 0)
  }

  ghost predicate VnodeExact(s: Sys, v: nat) { HoldersOf(s.vnodes, v) == Tally(s.fds, Holds(v)) }

  predicate SameDescription(s: Sys, i: nat, j: nat)
    requires i < |s.fds| && j < |s.fds|
  {
    s.fds[i].File? && s.fds[j].File? && s.fds[i].id == s.fds[j].id
  }

  /** Two file entries with one description number belong to one process and agree; a pipe end has another number. */
  ghost predicate Agree(s: Sys, i: nat, j: nat)
    requires i < |s.fds| && j < |s.fds|
  {
    && (SameDescription(s, i, j) ==>
          i / 16 == j / 16 && s.fds[i].vnode == s.fds[j].vnode && s.fds[i].offset == s.fds[j].offset
          && s.fds[i].flags == s.fds[j].flags)
    && (s.fds[i].File? && s.fds[j].PipeEnd? ==> s.fds[i].id != s.fds[j].id)
  }

  predicate EntryOk(s: Sys, f: Fd) {
    (f.PipeEnd? ==> f.pipe < |s.pipes| && f.id < s.nextId) && (f.File? ==> 0 < f.id < s.nextId)
  }

  ghost predicate Inv(s: Sys) {
    |s.fds| == PROCS * FDS && |s.pipes| == PIPES && s.nextId > 0
    && (forall i :: 0 <= i < |s.fds| ==> EntryOk(s, s.fds[i]))
    && (forall p: nat :: PipeExact(s, p))
    && (forall v: nat :: VnodeExact(s, v))
    && forall i, j :: 0 <= i < |s.fds| && 0 <= j < |s.fds| ==> Agree(s, i, j)
  }

  // ---------- operations ----------

  /** syscall_fd_release_resources. */
  function ReleaseResources(s: Sys, f: Fd): (r: Sys)
    requires EntryOk(s, f) && (f.File? ==> f.vnode in s.vnodes)
  {
    if f.PipeEnd? then s.(pipes := ReleasePipe(s.pipes, f.pipe, f.canRead, f.canWrite))
    else if f.File? then s.(vnodes := Put(s.vnodes, f.vnode))
    else s
  }

  /** process_fd_clear. */
  function Clear(s: Sys, i: nat): (r: Sys)
    requires i < |s.fds| && EntryOk(s, s.fds[i]) && (s.fds[i].File? ==> s.fds[i].vnode in s.vnodes)
  {
    ReleaseResources(s, s.fds[i]).(fds := s.fds[i := Unused])
  }

  /** The references an entry takes when it is copied. */
  function TakeResources(s: Sys, f: Fd): (r: Sys)
    requires EntryOk(s, f) && (f.File? ==> f.vnode in s.vnodes)
  {
    if f.PipeEnd? then s.(pipes := RefPipe(s.pipes, f.pipe, f.canRead, f.canWrite))
    else if f.File? then s.(vnodes := Get(s.vnodes, f.vnode))
    else s
  }

  /** An entry put into an empty slot with the references it takes. */
  function Install(s: Sys, i: nat, f: Fd): (r: Sys)
    requires i < |s.fds| && EntryOk(s, f) && (f.File? ==> f.vnode in s.vnodes)
  {
    TakeResources(s, f).(fds := s.fds[i := f])
  }

  /** The close-on-exec flag is not copied. */
  function Uncloexec(f: Fd): (g: Fd) {
    match f
    case Unused => Unused
    case Console(c, flags, _) => Console(c, flags, 0)
    case PipeEnd(p, r, w, flags, id, _) => PipeEnd(p, r, w, flags, id, 0)
    case File(v, flags, id, offset, _) => File(v, flags, id, offset, 0)
  }

  /** A live entry's vnode is live. */
  lemma {:induction false} HeldAlive(s: Sys, i: nat)
    requires Inv(s) && i < |s.fds|
    ensures s.fds[i].File? ==> s.fds[i].vnode in s.vnodes
    ensures s.fds[i].PipeEnd? ==> s.fds[i].pipe < |s.pipes| && s.pipes[s.fds[i].pipe].used
    ensures EntryOk(s, s.fds[i])
  {
    var f := s.fds[i];
    if f.File? {
      TallySet(s.fds, i, f, Holds(f.vnode));
      assert VnodeExact(s, f.vnode);
    }
    if f.PipeEnd? {
      TallySet(s.fds, i, f, Refs(f.pipe));
      assert PipeExact(s, f.pipe);
    }
  }

  lemma ClearPipe(s: Sys, i: nat, p: nat)
    requires Inv(s) && i < |s.fds| && (s.fds[i].File? ==> s.fds[i].vnode in s.vnodes)
    ensures PipeExact(Clear(s, i), p)
  {
    hide Tally;
    var f := s.fds[i];
    HeldAlive(s, i);
    assert PipeExact(s, p);
    TallySet(s.fds, i, Unused, Refs(p));
    TallySet(s.fds, i, Unused, Readers(p));
    TallySet(s.fds, i, Unused, Writers(p));
    TallyOrder(s.fds[i := Unused], p);
  }

  /** No more readers or writers than references. */
  lemma {:induction false} TallyOrder(fds: seq<Fd>, p: nat)
    ensures Tally(fds, Readers(p)) <= Tally(fds, Refs(p)) && Tally(fds, Writers(p)) <= Tally(fds, Refs(p))
  {
    if fds != [] { TallyOrder(fds[..|fds| - 1], p); }
  }

  lemma ClearVnode(s: Sys, i: nat, v: nat)
    requires Inv(s) && i < |s.fds| && (s.fds[i].File? ==> s.fds[i].vnode in s.vnodes)
    ensures VnodeExact(Clear(s, i), v)
  {
    hide Tally, Put;
    assert VnodeExact(s, v);
    TallySet(s.fds, i, Unused, Holds(v));
    if s.fds[i].File? { GetPut(s.vnodes, s.fds[i].vnode, v); }
  }

  /** Closing keeps every count exact. */
  lemma ClearKeeps(s: Sys, i: nat)
    requires Inv(s) && i < |s.fds|
    ensures s.fds[i].File? ==> s.fds[i].vnode in s.vnodes
    ensures Inv(Clear(s, i))
  {
    hide PipeExact, VnodeExact;
    HeldAlive(s, i);
    var r := Clear(s, i);
    forall p: nat ensures PipeExact(r, p) { ClearPipe(s, i, p); }
    forall v: nat ensures VnodeExact(r, v) { ClearVnode(s, i, v); }
    forall a, b | 0 <= a < |r.fds| && 0 <= b < |r.fds| ensures Agree(r, a, b) { assert Agree(s, a, b); }
  }

  /** An entry that may be installed: a console, an end of a pipe in use, or a file that agrees with its description. */
  ghost predicate Installable(s: Sys, i: nat, f: Fd) {
    i < |s.fds| && EntryOk(s, f) && !f.Unused?
    && (f.PipeEnd? ==> s.pipes[f.pipe].used && forall j :: 0 <= j < |s.fds| && s.fds[j].File? ==> s.fds[j].id != f.id)
    && (f.File? ==> forall j :: 0 <= j < |s.fds| && s.fds[j].PipeEnd? ==> s.fds[j].id != f.id)
    && (f.File? ==> f.vnode in s.vnodes && forall j :: 0 <= j < |s.fds| && s.fds[j].File? && s.fds[j].id == f.id ==>
          j / 16 == i / 16 && s.fds[j].vnode == f.vnode && s.fds[j].offset == f.offset && s.fds[j].flags == f.flags)
  }

  lemma InstallPipe(s: Sys, i: nat, f: Fd, p: nat)
    requires Inv(s) && Installable(s, i, f) && s.fds[i].Unused?
    ensures PipeExact(Install(s, i, f), p)
  {
    hide Tally;
    assert PipeExact(s, p);
    TallySet(s.fds, i, f, Refs(p));
    TallySet(s.fds, i, f, Readers(p));
    TallySet(s.fds, i, f, Writers(p));
  }

  lemma InstallVnode(s: Sys, i: nat, f: Fd, v: nat)
    requires Inv(s) && Installable(s, i, f) && s.fds[i].Unused?
    ensures VnodeExact(Install(s, i, f), v)
  {
    hide Tally, Get;
    assert VnodeExact(s, v);
    TallySet(s.fds, i, f, Holds(v));
    if f.File? { GetPut(s.vnodes, f.vnode, v); }
  }

  lemma InstallKeeps(s: Sys, i: nat, f: Fd)
    requires Inv(s) && Installable(s, i, f) && s.fds[i].Unused?
    ensures Inv(Install(s, i, f))
  {
    hide PipeExact, VnodeExact;
    var r := Install(s, i, f);
    forall p: nat ensures PipeExact(r, p) { InstallPipe(s, i, f, p); }
    forall v: nat ensures VnodeExact(r, v) { InstallVnode(s, i, f, v); }
    forall a, b | 0 <= a < |r.fds| && 0 <= b < |r.fds| ensures Agree(r, a, b) { assert Agree(s, a, b); }
  }

  /** process_fd_install_copy: the target is closed first, then becomes the source's twin. */
  function CopyTo(s: Sys, i: nat, src: Fd): (r: Sys)
    requires i < |s.fds| && EntryOk(s, s.fds[i]) && (s.fds[i].File? ==> s.fds[i].vnode in s.vnodes)
    requires EntryOk(s, src) && (src.File? ==> src.vnode in Clear(s, i).vnodes)
  {
    Install(Clear(s, i), i, Uncloexec(src))
  }

  /** What dup may copy: another entry of the same process, or a console that stands for an unused 0, 1 or 2. */
  ghost predicate CopySource(s: Sys, i: nat, src: Fd) {
    src.Console? || exists j :: 0 <= j < |s.fds| && j != i && j / 16 == i / 16 && src == s.fds[j] && !src.Unused?
  }

  lemma CopyKeeps(s: Sys, i: nat, src: Fd)
    requires Inv(s) && i < |s.fds| && CopySource(s, i, src)
    ensures EntryOk(s, src) && (s.fds[i].File? ==> s.fds[i].vnode in s.vnodes)
    ensures src.File? ==> src.vnode in Clear(s, i).vnodes
    ensures Inv(CopyTo(s, i, src))
  {
    hide Clear, Install;
    ClearKeeps(s, i);
    HeldAlive(s, i);
    var c, f := Clear(s, i), Uncloexec(src);
    ClearFrame(s, i);
    if !src.Console? {
      var j :| 0 <= j < |s.fds| && j != i && j / 16 == i / 16 && src == s.fds[j] && !src.Unused?;
      HeldAlive(c, j);
      forall k | 0 <= k < |c.fds| && src.File? && c.fds[k].File? && c.fds[k].id == src.id
        ensures k / 16 == i / 16 && c.fds[k].vnode == src.vnode && c.fds[k].offset == src.offset
                && c.fds[k].flags == src.flags
      {
        assert Agree(c, j, k);
      }
      forall k | 0 <= k < |c.fds| && src.File? && c.fds[k].PipeEnd? ensures c.fds[k].id != src.id {
        assert Agree(c, j, k);
      }
      forall k | 0 <= k < |c.fds| && src.PipeEnd? && c.fds[k].File? ensures c.fds[k].id != src.id {
        assert Agree(c, k, j);
      }
    }
    InstallKeeps(c, i, f);
  }

  lemma ClearFrame(s: Sys, i: nat)
    requires i < |s.fds| && EntryOk(s, s.fds[i]) && (s.fds[i].File? ==> s.fds[i].vnode in s.vnodes)
    ensures var c := Clear(s, i);
            c.fds == s.fds[i := Unused] && |c.pipes| == |s.pipes| && c.nextId == s.nextId
  {
  }

  // ---------- open ----------

  /** What vfs_resolve hands over: a vnode just made, with stored count 0 or 1, or one more reference to an open one. */
  datatype Resolved = Made(v: nat, stored: nat) | Shared(v: nat)

  predicate CanResolve(s: Sys, r: Resolved) {
    match r
    case Made(v, stored) => v !in s.vnodes && stored <= 1
    case Shared(v) => v in s.vnodes
  }

  function Resolve(s: Sys, r: Resolved): (vnodes: map<nat, nat>)
    requires CanResolve(s, r)
    ensures r.v in vnodes
  {
    match r
    case Made(v, stored) => s.vnodes[v := stored]
    case Shared(v) => Get(s.vnodes, v)
  }

  lemma ResolveHolders(s: Sys, r: Resolved, w: nat)
    requires CanResolve(s, r)
    ensures HoldersOf(Resolve(s, r), w) == HoldersOf(s.vnodes, w) + if w == r.v then 1 else 0
    ensures HoldersOf(Put(Resolve(s, r), r.v), w) == HoldersOf(s.vnodes, w)
  {
    match r {
      case Made(v, stored) =>
      case Shared(v) =>
        GetPut(s.vnodes, v, w);
    }
    GetPut(Resolve(s, r), r.v, w);
  }

  /** sys_open from the resolved vnode on: the entry holds the reference, or it is put back. */
  function OpenAt(s: Sys, slot: Option<nat>, r: Resolved, flags: nat, offset: nat): (t: Sys)
    requires CanResolve(s, r) && (slot.Some? ==> slot.value < |s.fds|)
  {
    match slot
    case None => s.(vnodes := Put(Resolve(s, r), r.v))
    case Some(i) => s.(vnodes := Resolve(s, r), fds := s.fds[i := File(r.v, flags, s.nextId, offset, 0)],
      nextId := s.nextId + 1)
  }

  lemma OpenVnode(s: Sys, slot: Option<nat>, r: Resolved, flags: nat, offset: nat, v: nat)
    requires Inv(s) && CanResolve(s, r) && (slot.Some? ==> slot.value < |s.fds| && s.fds[slot.value].Unused?)
    ensures VnodeExact(OpenAt(s, slot, r, flags, offset), v)
  {
    hide Tally, Resolve, Put;
    assert VnodeExact(s, v);
    ResolveHolders(s, r, v);
    if slot.Some? { TallySet(s.fds, slot.value, File(r.v, flags, s.nextId, offset, 0), Holds(v)); }
  }

  lemma OpenPipe(s: Sys, slot: Option<nat>, r: Resolved, flags: nat, offset: nat, p: nat)
    requires Inv(s) && CanResolve(s, r) && (slot.Some? ==> slot.value < |s.fds| && s.fds[slot.value].Unused?)
    ensures PipeExact(OpenAt(s, slot, r, flags, offset), p)
  {
    hide Tally, Resolve, Put;
    assert PipeExact(s, p);
    if slot.Some? {
      var f := File(r.v, flags, s.nextId, offset, 0);
      TallySet(s.fds, slot.value, f, Refs(p));
      TallySet(s.fds, slot.value, f, Readers(p));
      TallySet(s.fds, slot.value, f, Writers(p));
    }
  }

  /** A new description number is in nobody's use. */
  lemma OpenKeeps(s: Sys, slot: Option<nat>, r: Resolved, flags: nat, offset: nat)
    requires Inv(s) && CanResolve(s, r) && (slot.Some? ==> slot.value < |s.fds| && s.fds[slot.value].Unused?)
    ensures Inv(OpenAt(s, slot, r, flags, offset))
  {
    hide PipeExact, VnodeExact, Resolve, Put;
    var t := OpenAt(s, slot, r, flags, offset);
    forall p: nat ensures PipeExact(t, p) { OpenPipe(s, slot, r, flags, offset, p); }
    forall v: nat ensures VnodeExact(t, v) { OpenVnode(s, slot, r, flags, offset, v); }
    forall a, b | 0 <= a < |t.fds| && 0 <= b < |t.fds| ensures Agree(t, a, b) {
      assert Agree(s, a, b) && EntryOk(s, s.fds[a]) && EntryOk(s, s.fds[b]);
    }
    forall a | 0 <= a < |t.fds| ensures EntryOk(t, t.fds[a]) { assert EntryOk(s, s.fds[a]); }
  }

  // ---------- pipe ----------

  /** sys_pipe on a free slot and two free descriptors. */
  function MakePipe(s: Sys, p: nat, i: nat, j: nat): (t: Sys)
    requires i < |s.fds| && j < |s.fds| && p < |s.pipes|
  {
    s.(fds := s.fds[i := PipeEnd(p, true, false, RDONLY, s.nextId, 0)]
                   [j := PipeEnd(p, false, true, WRONLY, s.nextId + 1, 0)],
       pipes := s.pipes[p := Pipe(true, 2, 1, 1)], nextId := s.nextId + 2)
  }

  lemma MakePipeCounts(s: Sys, p: nat, i: nat, j: nat, k: Key)
    requires i < |s.fds| && j < |s.fds| && p < |s.pipes| && i != j && s.fds[i].Unused? && s.fds[j].Unused?
    ensures var t := MakePipe(s, p, i, j);
            Tally(t.fds, k) == Tally(s.fds, k) + Weight(t.fds[i], k) + Weight(t.fds[j], k)
  {
    hide Tally;
    var e, f := PipeEnd(p, true, false, RDONLY, s.nextId, 0), PipeEnd(p, false, true, WRONLY, s.nextId + 1, 0);
    TallySet(s.fds, i, e, k);
    TallySet(s.fds[i := e], j, f, k);
  }

  lemma MakePipeKeeps(s: Sys, p: nat, i: nat, j: nat)
    requires Inv(s) && i < |s.fds| && j < |s.fds| && p < |s.pipes| && i != j && s.fds[i].Unused? && s.fds[j].Unused?
    requires !s.pipes[p].used
    ensures Inv(MakePipe(s, p, i, j))
  {
    hide Tally;
    var t := MakePipe(s, p, i, j);
    forall q: nat ensures PipeExact(t, q) {
      assert PipeExact(s, q) && PipeExact(s, p);
      MakePipeCounts(s, p, i, j, Refs(q));
      MakePipeCounts(s, p, i, j, Readers(q));
      MakePipeCounts(s, p, i, j, Writers(q));
      TallyOrder(s.fds, p);
    }
    forall v: nat ensures VnodeExact(t, v) {
      assert VnodeExact(s, v);
      MakePipeCounts(s, p, i, j, Holds(v));
    }
    forall a, b | 0 <= a < |t.fds| && 0 <= b < |t.fds| ensures Agree(t, a, b) { assert Agree(s, a, b); }
    forall a | 0 <= a < |t.fds| ensures EntryOk(t, t.fds[a]) { assert EntryOk(s, s.fds[a]); }
  }

  // ---------- shared offsets and flags ----------

  /** Which entries process_fd_sync_offset and process_fd_sync_flags touch. */
  predicate Synced(f: Fd, id: nat) { id != 0 && f.File? && f.id == id }

  function SyncOne(f: Fd, id: nat, offset: Option<nat>, flags: Option<nat>): (g: Fd) {
    if Synced(f, id) then
      File(f.vnode, if flags.Some? then flags.value else f.flags, f.id,
           if offset.Some? then offset.value else f.offset, f.fdFlags)
    else f
  }

  /** The entries of one process given a new offset or new flags wherever the description is the same. */
  function Sync(s: Sys, proc: nat, id: nat, offset: Option<nat>, flags: Option<nat>): (t: Sys)
    ensures |t.fds| == |s.fds| && t.pipes == s.pipes && t.vnodes == s.vnodes && t.nextId == s.nextId
    ensures forall i :: 0 <= i < |s.fds| ==>
            t.fds[i] == if i / 16 == proc then SyncOne(s.fds[i], id, offset, flags) else s.fds[i]
  {
    s.(fds := seq(|s.fds|,
      i requires 0 <= i < |s.fds| => if i / 16 == proc then SyncOne(s.fds[i], id, offset, flags) else s.fds[i]))
  }

  lemma {:induction false} TallySame(a: seq<Fd>, b: seq<Fd>, k: Key)
    requires |a| == |b| && forall i :: 0 <= i < |a| ==> Weight(a[i], k) == Weight(b[i], k)
    ensures Tally(a, k) == Tally(b, k)
    decreases |a|
  {
    if a != [] { TallySame(a[..|a| - 1], b[..|b| - 1], k); }
  }

  lemma SyncKeeps(s: Sys, proc: nat, id: nat, offset: Option<nat>, flags: Option<nat>)
    requires Inv(s)
    ensures Inv(Sync(s, proc, id, offset, flags))
  {
    hide Tally, Sync;
    var t := Sync(s, proc, id, offset, flags);
    forall p: nat ensures PipeExact(t, p) {
      assert PipeExact(s, p);
      TallySame(s.fds, t.fds, Refs(p));
      TallySame(s.fds, t.fds, Readers(p));
      TallySame(s.fds, t.fds, Writers(p));
    }
    forall v: nat ensures VnodeExact(t, v) { assert VnodeExact(s, v); TallySame(s.fds, t.fds, Holds(v)); }
    forall a, b | 0 <= a < |t.fds| && 0 <= b < |t.fds| ensures Agree(t, a, b) { assert Agree(s, a, b); }
    forall a | 0 <= a < |t.fds| ensures EntryOk(t, t.fds[a]) { assert EntryOk(s, s.fds[a]); }
  }
}
