/** Whole runs of the cache: any interleaving of calls, evictions and device failures. */
module CacheRuns {
  import opened Base
  import opened CacheModel
  import opened CacheInvariant

  /** A call of a client. A buffer is named by the number of the call that got it. */
  datatype Op =
    | GetOp(key: Key, io: WriteIo, readOk: bool)
    | PutOp(get: nat)
    | WriteOp(get: nat, data: Block)               // followed by bcache_mark_dirty
    | SyncOp(dev: Option<nat>, outcomes: seq<WriteIo>)

  /** A buffer a client holds, and the block it asked for. */
  datatype Hold = Hold(buf: nat, key: Key)

  /** The cache, and for every call so far the buffer that it got and that has not been put back. */
  datatype Session = Session(cache: Cache, held: seq<Option<Hold>>)

  predicate IsHeld(held: seq<Option<Hold>>, g: nat) { g < |held| && held[g].Some? }

  /** How many of the holds are on a buffer. */
  function Count(held: seq<Option<Hold>>, b: nat): (n: nat) {
    if held == [] then 0
    else Count(held[..|held| - 1], b) + if held[|held| - 1].Some? && held[|held| - 1].value.buf == b then 1 else 0
  }

  lemma CountPush(held: seq<Option<Hold>>, e: Option<Hold>, b: nat)
    ensures Count(held + [e], b) == Count(held, b) + if e.Some? && e.value.buf == b then 1 else 0
  {
    assert (held + [e])[..|held|] == held;
  }

  lemma {:induction false} CountDrop(held: seq<Option<Hold>>, g: nat, b: nat)
    requires IsHeld(held, g)
    ensures Count(held, b) == Count(held[g := None], b) + if held[g].value.buf == b then 1 else 0
    decreases |held|
  {
    var n := |held| - 1;
    if g == n {
      assert held[g := None][..n] == held[..n];
    } else {
      CountDrop(held[..n], g, b);
      assert held[g := None][..n] == held[..n][g := None];
    }
  }

  ghost predicate Good(c: Cache, e: Option<Hold>) {
    e.Some? ==> e.value.buf < |c.bufs| && Holds(c, e.value.buf, e.value.key)
  }

  /** Every hold is on a buffer that shows its block, and is counted. */
  ghost predicate SessionOk(h: Hash, s: Session) {
    Inv(h, s.cache) && (forall g :: 0 <= g < |s.held| ==> Good(s.cache, s.held[g]))
    && forall b :: 0 <= b < |s.cache.bufs| ==> Count(s.held, b) <= s.cache.bufs[b].refcnt
  }

  /** A held buffer has holders. */
  lemma HeldIsPinned(h: Hash, s: Session, g: nat)
    requires SessionOk(h, s) && IsHeld(s.held, g)
    ensures s.held[g].value.buf < |s.cache.bufs| && s.cache.bufs[s.held[g].value.buf].refcnt > 0
    ensures Holds(s.cache, s.held[g].value.buf, s.held[g].value.key)
  {
    hide Inv;
    assert Good(s.cache, s.held[g]);
    CountDrop(s.held, g, s.held[g].value.buf);
  }

  function Step(h: Hash, s: Session, op: Op): (r: Session)
    requires SessionOk(h, s)
  {
    var c := s.cache;
    match op
    case GetOp(k, io, readOk) =>
      GetOk(h, c, k, io, readOk, k);
      var (d, b) := Get(h, c, k, io, readOk);
      Session(d, s.held + [if b.Some? then Some(Hold(b.value, k)) else None])
    case PutOp(g) =>
      if !IsHeld(s.held, g) then Session(c, s.held + [None])
      else HeldIsPinned(h, s, g); Session(Put(c, s.held[g].value.buf), s.held[g := None] + [None])
    case WriteOp(g, data) =>
      if !IsHeld(s.held, g) then Session(c, s.held + [None])
      else HeldIsPinned(h, s, g); Session(Write(c, s.held[g].value.buf, data), s.held + [None])
    case SyncOp(dev, io) => Session(SyncFrom(c, dev, 0, io, true).0, s.held + [None])
  }

  /** Buffers keep what their holders see of them. */
  ghost predicate Keeps(c: Cache, d: Cache) {
    |d.bufs| == |c.bufs|
    && forall j :: 0 <= j < |c.bufs| && c.bufs[j].refcnt > 0 ==>
       d.bufs[j].key == c.bufs[j].key && d.bufs[j].valid == c.bufs[j].valid
  }

  lemma KeptGood(h: Hash, s: Session, d: Cache, g: nat)
    requires SessionOk(h, s) && Keeps(s.cache, d) && g < |s.held|
    ensures Good(d, s.held[g])
  {
    hide Inv;
    if s.held[g].Some? { HeldIsPinned(h, s, g); }
  }

  lemma {:induction false} SyncKeeps(c: Cache, dev: Option<nat>, i: nat, io: seq<WriteIo>, ok: bool)
    requires i <= |c.bufs|
    ensures var d := SyncFrom(c, dev, i, io, ok).0;
            Keeps(c, d) && forall j :: 0 <= j < |c.bufs| ==> d.bufs[j].refcnt == c.bufs[j].refcnt
    decreases |c.bufs| - i
  {
    if i < |c.bufs| {
      var (t, done) := Writeback(c, i, if i < |io| then io[i] else WriteOk);
      SyncKeeps(c, dev, i + 1, io, ok);
      SyncKeeps(t, dev, i + 1, io, ok && done);
    }
  }

  lemma GetCounts(h: Hash, c: Cache, k: Key, io: WriteIo, readOk: bool)
    requires Inv(h, c) && InRange(c)
    ensures var (d, r) := Get(h, c, k, io, readOk);
            && Keeps(c, d) && (forall j :: 0 <= j < |c.bufs| ==> d.bufs[j].refcnt >= c.bufs[j].refcnt)
            && (r.Some? ==> r.value < |c.bufs| && d.bufs[r.value].refcnt == c.bufs[r.value].refcnt + 1)
  {
    hide Inv, Get;
    GetSize(h, c, k, io, readOk);
    var (d, r) := Get(h, c, k, io, readOk);
    forall j | 0 <= j < |c.bufs| && c.bufs[j].refcnt > 0
      ensures d.bufs[j].key == c.bufs[j].key && d.bufs[j].valid == c.bufs[j].valid
              && d.bufs[j].refcnt >= c.bufs[j].refcnt
    {
      GetKeepsPinned(h, c, k, io, readOk, j);
    }
  }

  lemma GetSize(h: Hash, c: Cache, k: Key, io: WriteIo, readOk: bool)
    requires InRange(c)
    ensures var (d, r) := Get(h, c, k, io, readOk);
            && |d.bufs| == |c.bufs|
            && (r.Some? ==> r.value < |c.bufs| && d.bufs[r.value].refcnt == c.bufs[r.value].refcnt + 1)
  {
  }

  lemma StepOk(h: Hash, s: Session, op: Op)
    requires SessionOk(h, s)
    ensures SessionOk(h, Step(h, s, op))
  {
    hide Inv, Get, Put, Write, SyncFrom, View;
    var c, t := s.cache, Step(h, s, op);
    match op {
      case GetOp(k, io, readOk) =>
        GetOk(h, c, k, io, readOk, k);
        GetCounts(h, c, k, io, readOk);
      case PutOp(g) =>
        if IsHeld(s.held, g) {
          HeldIsPinned(h, s, g);
          PutOk(h, c, s.held[g].value.buf, Key(0, 0));
          PutCounts(c, s.held[g].value.buf);
        }
      case WriteOp(g, data) =>
        if IsHeld(s.held, g) {
          HeldIsPinned(h, s, g);
          WriteOkView(h, c, s.held[g].value.buf, data, Key(0, 0));
          WriteCounts(c, s.held[g].value.buf, data);
        }
      case SyncOp(dev, io) =>
        SyncOk(h, c, dev, 0, io, true, Key(0, 0));
        SyncKeeps(c, dev, 0, io, true);
    }
    forall g | 0 <= g < |t.held| ensures Good(t.cache, t.held[g]) { if g < |s.held| { KeptGood(h, s, t.cache, g); } }
    forall b | 0 <= b < |t.cache.bufs| ensures Count(t.held, b) <= t.cache.bufs[b].refcnt {
      CountPush(s.held, t.held[|s.held|], b);
      if op.PutOp? && IsHeld(s.held, op.get) {
        CountDrop(s.held, op.get, b);
        CountPush(s.held[op.get := None], None, b);
      }
    }
  }

  lemma PutCounts(c: Cache, i: nat)
    requires i < |c.bufs| && c.bufs[i].refcnt > 0
    ensures Keeps(c, Put(c, i))
    ensures forall j :: 0 <= j < |c.bufs| ==> Put(c, i).bufs[j].refcnt == c.bufs[j].refcnt - if j == i then 1 else 0
  {
  }

  lemma WriteCounts(c: Cache, i: nat, data: Block)
    requires i < |c.bufs|
    ensures Keeps(c, Write(c, i, data))
    ensures forall j :: 0 <= j < |c.bufs| ==> Write(c, i, data).bufs[j].refcnt == c.bufs[j].refcnt
  {
  }

  function Run(h: Hash, s: Session, ops: seq<Op>): (r: Session)
    requires SessionOk(h, s)
    ensures SessionOk(h, r)
    decreases |ops|
  {
    if ops == [] then s else StepOk(h, s, ops[0]); Run(h, Step(h, s, ops[0]), ops[1..])
  }

  // ---------------------------------------------------------------- the plain map

  /** What the clients know: which block each call got and still holds, and the value of block x. */
  datatype Plain = Plain(open: seq<Option<Key>>, value: Option<Block>)

  /** One call on the plain map. `got` is whether a get returned a buffer. */
  function PlainStep(p: Plain, op: Op, got: bool, x: Key): (r: Plain) {
    match op
    case GetOp(k, _, _) => p.(open := p.open + [if got then Some(k) else None])
    case PutOp(g) => p.(open := (if g < |p.open| then p.open[g := None] else p.open) + [None])
    case WriteOp(g, data) =>
      Plain(p.open + [None], if g < |p.open| && p.open[g] == Some(x) then Some(data) else p.value)
    case SyncOp(_, _) => p.(open := p.open + [None])
  }

  function PlainRun(p: Plain, ops: seq<Op>, got: seq<bool>, x: Key): (r: Plain)
    requires |got| == |ops|
    decreases |ops|
  {
    if ops == [] then p else PlainRun(PlainStep(p, ops[0], got[0], x), ops[1..], got[1..], x)
  }

  /** Which calls returned a buffer. */
  ghost function Got(h: Hash, s: Session, ops: seq<Op>): (r: seq<bool>)
    requires SessionOk(h, s)
    ensures |r| == |ops|
    decreases |ops|
  {
    if ops == [] then []
    else
      StepOk(h, s, ops[0]);
      var t := Step(h, s, ops[0]);
      [t.held[|t.held| - 1].Some?] + Got(h, t, ops[1..])
  }

  function Keys(held: seq<Option<Hold>>): (r: seq<Option<Key>>)
    ensures |r| == |held| && forall g :: 0 <= g < |held| ==>
            r[g] == if held[g].Some? then Some(held[g].value.key) else None
  {
    seq(|held|, g requires 0 <= g < |held| => if held[g].Some? then Some(held[g].value.key) else None)
  }

  ghost function PlainOf(s: Session, x: Key): (p: Plain) { Plain(Keys(s.held), View(s.cache, x)) }

  /** One call changes the cache's view as it changes the plain map. */
  lemma StepView(h: Hash, s: Session, op: Op, x: Key)
    requires SessionOk(h, s)
    ensures var t := Step(h, s, op);
            t.held != [] && PlainOf(t, x) == PlainStep(PlainOf(s, x), op, t.held[|t.held| - 1].Some?, x)
  {
    hide Inv, View, Get, Put, Write, SyncFrom;
    var t := Step(h, s, op);
    match op {
      case GetOp(k, io, readOk) => GetOk(h, s.cache, k, io, readOk, x);
      case PutOp(g) =>
        if IsHeld(s.held, g) {
          HeldIsPinned(h, s, g);
          PutOk(h, s.cache, s.held[g].value.buf, x);
        }
      case WriteOp(g, data) =>
        if IsHeld(s.held, g) {
          HeldIsPinned(h, s, g);
          WriteOkView(h, s.cache, s.held[g].value.buf, data, x);
        }
      case SyncOp(dev, io) => SyncOk(h, s.cache, dev, 0, io, true, x);
    }
    assert Keys(t.held) == PlainStep(PlainOf(s, x), op, t.held[|t.held| - 1].Some?, x).open;
  }

  /** Refinement: after any run, whatever the device failed to do and whatever was evicted, the cache shows the plain
      map, which is told nothing but the calls and which gets returned a buffer. */
  lemma {:induction false} CacheRefinesMap(h: Hash, s: Session, ops: seq<Op>, x: Key)
    requires SessionOk(h, s)
    ensures PlainOf(Run(h, s, ops), x) == PlainRun(PlainOf(s, x), ops, Got(h, s, ops), x)
    decreases |ops|
  {
    hide SessionOk, PlainOf, Step, PlainStep;
    if ops != [] {
      StepOk(h, s, ops[0]);
      StepView(h, s, ops[0], x);
      CacheRefinesMap(h, Step(h, s, ops[0]), ops[1..], x);
      assert Got(h, s, ops)[1..] == Got(h, Step(h, s, ops[0]), ops[1..]);
    }
  }

  /** So a get at the end of any run hands out the plain map's value of its block. */
  lemma GetReadsMap(h: Hash, c: Cache, ops: seq<Op>, k: Key, io: WriteIo, readOk: bool)
    requires Inv(h, c)
    ensures SessionOk(h, Session(c, [])) && InRange(Run(h, Session(c, []), ops).cache)
    ensures var s := Session(c, []);
            var (d, b) := Get(h, Run(h, s, ops).cache, k, io, readOk);
            b.Some? ==> b.value < |d.bufs|
                        && Some(d.bufs[b.value].data) == PlainRun(Plain([], View(c, k)), ops, Got(h, s, ops), k).value
  {
    hide Inv, Get, View;
    var s := Session(c, []);
    assert Keys([]) == [];
    CacheRefinesMap(h, s, ops, k);
    GetOk(h, Run(h, s, ops).cache, k, io, readOk, k);
  }
}
