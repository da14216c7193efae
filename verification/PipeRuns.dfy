/** Descriptor calls together with reads and writes of pipes: what a reader gets over a whole run. */
module PipeRuns {
  import opened Base
  import opened FdModel
  import opened FdRuns
  import opened PipeRing

  /** A pipe slot's bytes: those that wait, and all that were written and read since the slot was last taken. */
  datatype Stream = Stream(waiting: Bytes, sent: Bytes, received: Bytes)

  function NoBytes(): (s: Stream) { Stream([], [], []) }

  datatype World = World(sys: Sys, streams: seq<Stream>)

  ghost predicate StreamOk(s: Stream) { s.sent == s.received + s.waiting && |s.waiting| <= CAPACITY }

  ghost predicate WorldOk(w: World) {
    Inv(w.sys) && |w.streams| == PIPES && forall k :: 0 <= k < |w.streams| ==> StreamOk(w.streams[k])
  }

  /** A slot that is taken or given up starts afresh; every other slot keeps its bytes. */
  function Follow(streams: seq<Stream>, before: seq<Pipe>, after: seq<Pipe>): (r: seq<Stream>)
    requires |streams| == |before| == |after|
    ensures |r| == |streams|
    ensures forall k :: 0 <= k < |r| ==> r[k] == if before[k].used == after[k].used then streams[k] else NoBytes()
  {
    seq(|streams|, k requires 0 <= k < |streams| => if before[k].used == after[k].used then streams[k] else NoBytes())
  }

  lemma FollowSame(streams: seq<Stream>, pipes: seq<Pipe>)
    requires |streams| == |pipes|
    ensures Follow(streams, pipes, pipes) == streams
  {
  }

  lemma FollowUse(streams: seq<Stream>, before: seq<Pipe>, mid: seq<Pipe>, after: seq<Pipe>)
    requires |streams| == |before| == |mid| == |after|
    requires forall k :: 0 <= k < |mid| ==> mid[k].used == after[k].used
    ensures Follow(streams, before, mid) == Follow(streams, before, after)
  {
  }

  lemma FollowTaken(streams: seq<Stream>, pipes: seq<Pipe>, p: nat, q: Pipe)
    requires |streams| == |pipes| && p < |pipes| && !pipes[p].used && q.used
    ensures Follow(streams, pipes, pipes[p := q]) == streams[p := NoBytes()]
  {
  }

  /** Slots that are only given up may be given up in any order. */
  lemma FollowDown(streams: seq<Stream>, before: seq<Pipe>, mid: seq<Pipe>, after: seq<Pipe>)
    requires |streams| == |before| == |mid| == |after|
    requires forall k :: 0 <= k < |mid| ==> (mid[k].used ==> before[k].used) && (after[k].used ==> mid[k].used)
    ensures Follow(Follow(streams, before, mid), mid, after) == Follow(streams, before, after)
  {
  }

  predicate Reads(f: Fd) { f.PipeEnd? && f.canRead && f.flags % 4 in {0, 2} }

  predicate Writes(f: Fd) { f.PipeEnd? && f.canWrite && f.flags % 4 in {1, 2} }

  function Taken(s: Stream, len: nat): (r: Stream) {
    var n := Min(len, |s.waiting|);
    Stream(s.waiting[n..], s.sent, s.received + s.waiting[..n])
  }

  function Appended(s: Stream, data: Bytes): (r: Stream)
    requires |s.waiting| <= CAPACITY
  {
    var n := Min(|data|, CAPACITY - |s.waiting|);
    Stream(s.waiting + data[..n], s.sent + data[..n], s.received)
  }

  /** A descriptor call, or a read or write. */
  datatype PipeCall = Descriptor(call: Call) | ReadBytes(fd: nat, len: nat) | WriteBytes(fd: nat, data: Bytes)

  predicate CanDo(w: World, c: PipeCall) { c.Descriptor? ==> CanCall(w.sys, c.call) }

  function Entry(w: World, proc: nat, fd: nat): (f: Fd)
    requires |w.sys.fds| == PROCS * FDS && proc < PROCS
  {
    if fd < FDS then w.sys.fds[Slot(proc, fd)] else Unused
  }

  /** A pipe end names a pipe slot. */
  lemma PipeInRange(w: World, proc: nat, fd: nat)
    requires WorldOk(w) && proc < PROCS
    ensures var f := Entry(w, proc, fd); f.PipeEnd? ==> f.pipe < PIPES
  {
    if fd < FDS { assert EntryOk(w.sys, w.sys.fds[Slot(proc, fd)]); }
  }

  /** One call: the new state, the number it returns and the bytes it delivers. A read or write of anything but a pipe
      leaves the pipes alone. */
  ghost function Step(w: World, proc: nat, c: PipeCall): (r: (World, int, Bytes))
    requires WorldOk(w) && proc < PROCS && CanDo(w, c)
  {
    match c
    case Descriptor(call) =>
      StepKeeps(w.sys, proc, call);
      var t := FdRuns.Step(w.sys, proc, call);
      (World(t.0, Follow(w.streams, w.sys.pipes, t.0.pipes)), t.1, [])
    case ReadBytes(fd, len) =>
      PipeInRange(w, proc, fd);
      var f := Entry(w, proc, fd);
      if !Reads(f) then (w, -1, [])
      else
        var s := w.streams[f.pipe];
        var n := Min(len, |s.waiting|);
        (w.(streams := w.streams[f.pipe := Taken(s, len)]), n, s.waiting[..n])
    case WriteBytes(fd, data) =>
      PipeInRange(w, proc, fd);
      var f := Entry(w, proc, fd);
      if !Writes(f) || w.sys.pipes[f.pipe].readers == 0 then (w, -1, [])
      else
        var s := w.streams[f.pipe];
        (w.(streams := w.streams[f.pipe := Appended(s, data)]), Min(|data|, CAPACITY - |s.waiting|), [])
  }

  lemma StepOk(w: World, proc: nat, c: PipeCall)
    requires WorldOk(w) && proc < PROCS && CanDo(w, c)
    ensures WorldOk(Step(w, proc, c).0)
  {
    hide Inv, FdRuns.Step, Follow;
    PipeInRange(w, proc, if c.Descriptor? then 0 else c.fd);
    if c.Descriptor? { StepKeeps(w.sys, proc, c.call); Sizes(w.sys); }
  }

  /** Calls of any processes one after the other; an open whose vnode cannot be resolved does not happen. */
  ghost function Run(w: World, calls: seq<(nat, PipeCall)>): (r: World)
    requires WorldOk(w) && forall i :: 0 <= i < |calls| ==> calls[i].0 < PROCS
    ensures WorldOk(r)
    decreases |calls|
  {
    if calls == [] then w else Run(Next(w, calls[0]), calls[1..])
  }

  ghost function Next(w: World, call: (nat, PipeCall)): (r: World)
    requires WorldOk(w) && call.0 < PROCS
    ensures WorldOk(r)
  {
    if CanDo(w, call.1) then StepOk(w, call.0, call.1); Step(w, call.0, call.1).0 else w
  }

  function Start(): (w: World)
    ensures |w.streams| == PIPES && forall k :: 0 <= k < PIPES ==> w.streams[k] == NoBytes()
  {
    World(Boot(), seq(32, _ => NoBytes()))
  }

  // ---------------------------------------------------------------- what the callers see

  /** What the callers have put into pipe p and got out of it, told by their calls and the answers alone: `sent` and
      `received` are so far, and a pipe slot that is taken or given up starts afresh. */
  ghost function Seen(w: World, call: (nat, PipeCall), p: nat, sent: Bytes, received: Bytes): (h: (Bytes, Bytes))
    requires WorldOk(w) && call.0 < PROCS && p < PIPES
  {
    if !CanDo(w, call.1) then (sent, received)
    else
      var (next, n, data) := Step(w, call.0, call.1);
      match call.1
      case Descriptor(_) =>
        StepOk(w, call.0, call.1);
        if w.sys.pipes[p].used == next.sys.pipes[p].used then (sent, received) else ([], [])
      case ReadBytes(fd, _) =>
        if Names(w, call.0, fd, p) then (sent, received + data) else (sent, received)
      case WriteBytes(fd, bytes) =>
        if Names(w, call.0, fd, p) && 0 <= n <= |bytes| then (sent + bytes[..n], received) else (sent, received)
  }

  ghost predicate Names(w: World, proc: nat, fd: nat, p: nat)
    requires WorldOk(w) && proc < PROCS
  {
    Entry(w, proc, fd).PipeEnd? && Entry(w, proc, fd).pipe == p
  }

  ghost function Exchanged(w: World, calls: seq<(nat, PipeCall)>, p: nat, sent: Bytes, received: Bytes)
      : (h: (Bytes, Bytes))
    requires WorldOk(w) && (forall i :: 0 <= i < |calls| ==> calls[i].0 < PROCS) && p < PIPES
    decreases |calls|
  {
    if calls == [] then (sent, received)
    else
      var h := Seen(w, calls[0], p, sent, received);
      Exchanged(Next(w, calls[0]), calls[1..], p, h.0, h.1)
  }

  /** One call: what the callers see is what the stream records. */
  lemma SeenIs(w: World, call: (nat, PipeCall), p: nat)
    requires WorldOk(w) && call.0 < PROCS && p < PIPES
    ensures var s, t := w.streams[p], Next(w, call).streams[p];
            Seen(w, call, p, s.sent, s.received) == (t.sent, t.received)
  {
    hide Inv, FdRuns.Step, Follow;
    assert w.streams[p].received + [] == w.streams[p].received;
    PipeInRange(w, call.0, if call.1.Descriptor? then 0 else call.1.fd);
    if CanDo(w, call.1) && call.1.Descriptor? { StepKeeps(w.sys, call.0, call.1.call); Sizes(w.sys); }
  }

  lemma {:induction false} ExchangedIs(w: World, calls: seq<(nat, PipeCall)>, p: nat)
    requires WorldOk(w) && (forall i :: 0 <= i < |calls| ==> calls[i].0 < PROCS) && p < PIPES
    ensures var s, t := w.streams[p], Run(w, calls).streams[p];
            Exchanged(w, calls, p, s.sent, s.received) == (t.sent, t.received)
    decreases |calls|
  {
    hide Inv, Seen, Next;
    if calls != [] {
      SeenIs(w, calls[0], p);
      ExchangedIs(Next(w, calls[0]), calls[1..], p);
    }
  }

  lemma StartOk()
    ensures WorldOk(Start())
  {
    hide Inv;
    BootInv();
  }

  /** After any calls of any processes, the bytes that the reads of a pipe delivered are a prefix of the bytes that the
      writes to it accepted, and the rest is what still waits in it. */
  lemma ReadsArePrefix(calls: seq<(nat, PipeCall)>, p: nat)
    requires (forall i :: 0 <= i < |calls| ==> calls[i].0 < PROCS) && p < PIPES
    ensures WorldOk(Start())
    ensures var (sent, received) := Exchanged(Start(), calls, p, [], []);
            received <= sent && sent == received + Run(Start(), calls).streams[p].waiting
  {
    hide Inv, Exchanged, Run;
    StartOk();
    ExchangedIs(Start(), calls, p);
    assert StreamOk(Run(Start(), calls).streams[p]);
  }
}
