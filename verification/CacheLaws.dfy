/** When the calls of the cache succeed, who is pinned, and who is evicted. */
module CacheLaws {
  import opened Base
  import opened CacheModel
  import opened CacheInvariant
  import opened CacheRuns

  // ---------------------------------------------------------------- when a get is served

  /** Buffer v is the least recently used one that nobody holds. */
  ghost predicate LastUnheld(c: Cache, v: nat) {
    exists p: nat :: At(c, p, v)
  }

  ghost predicate At(c: Cache, p: nat, v: nat) {
    p < |c.lru| && c.lru[p] == v && v < |c.bufs| && c.bufs[v].refcnt == 0
    && forall q :: p < q < |c.lru| ==> c.lru[q] < |c.bufs| && c.bufs[c.lru[q]].refcnt > 0
  }

  lemma {:induction false} EvictableIs(bufs: seq<Buf>, lru: seq<nat>) returns (p: nat)
    requires Below(lru, |bufs|) && Evictable(bufs, lru).Some?
    ensures p < |lru| && lru[p] == Evictable(bufs, lru).value
    ensures forall q :: p < q < |lru| ==> bufs[lru[q]].refcnt > 0
    decreases |lru|
  {
    var n := |lru| - 1;
    if bufs[lru[n]].refcnt == 0 { p := n; } else { p := EvictableIs(bufs, lru[..n]); }
  }

  /** The block can be had: it is cached, or there is a buffer to spare whose old contents, if dirty, can be written
      back, and the device has the block and reads it. */
  ghost predicate Served(c: Cache, k: Key, io: WriteIo, readOk: bool) {
    Cached(c, k) || (readOk && k in c.disk && exists v: nat :: Spare(c, v, io))
  }

  ghost predicate Spare(c: Cache, v: nat, io: WriteIo) {
    LastUnheld(c, v) && v < |c.bufs| && (c.bufs[v].dirty ==> io.WriteOk?)
  }

  lemma OneLast(c: Cache, v: nat, w: nat)
    requires LastUnheld(c, v) && LastUnheld(c, w)
    ensures v == w
  {
    var p: nat :| At(c, p, v);
    var q: nat :| At(c, q, w);
  }

  lemma InRangeIs(h: Hash, c: Cache)
    requires Inv(h, c)
    ensures InRange(c)
  {
    forall b | 0 <= b < |c.chains| ensures Below(c.chains[b], |c.bufs|) { assert ChainOk(h, c, b); }
  }

  lemma SpareIs(h: Hash, c: Cache, io: WriteIo)
    requires Inv(h, c)
    ensures InRange(c)
    ensures var v := Evictable(c.bufs, c.lru);
            if v.None? then forall w: nat :: !LastUnheld(c, w) else forall w: nat :: LastUnheld(c, w) <==> w == v.value
  {
    InRangeIs(h, c);
    hide Bucket, HashedExcept, InRange;
    var v := Evictable(c.bufs, c.lru);
    if v.Some? {
      var p := EvictableIs(c.bufs, c.lru);
      assert At(c, p, v.value);
      forall w: nat | LastUnheld(c, w) ensures w == v.value { OneLast(c, v.value, w); }
    } else {
      forall p: nat | p < |c.lru| ensures c.bufs[c.lru[p]].refcnt > 0 { assert c.lru[p] in c.lru; }
    }
  }

  /** bcache_get returns a buffer exactly when the block can be had. */
  lemma GetServes(h: Hash, c: Cache, k: Key, io: WriteIo, readOk: bool)
    requires Inv(h, c)
    ensures InRange(c) && (Get(h, c, k, io, readOk).1.Some? <==> Served(c, k, io, readOk))
  {
    hide HashedExcept, CleanOk, CountDirty, LruOk, LastUnheld;
    SpareIs(h, c, io);
    MissMeansUncached(h, c, k);
    var hit := LookupIn(c.bufs, c.chains[Bucket(h, c, k)], k);
    if hit.Some? {
      assert Holds(c, hit.value, k);
    } else {
      var v := Evictable(c.bufs, c.lru);
      if v.Some? {
        RefillServes(h, c, v.value, k, io, readOk);
        if c.bufs[v.value].dirty ==> io.WriteOk? { assert Spare(c, v.value, io); }
      }
    }
  }

  lemma RefillServes(h: Hash, c: Cache, v: nat, k: Key, io: WriteIo, readOk: bool)
    requires Inv(h, c) && v < |c.bufs| && !Cached(c, k)
    ensures Refill(h, c, v, k, io, readOk).1.Some? <==> (c.bufs[v].dirty ==> io.WriteOk?) && readOk && k in c.disk
  {
    hide HashedExcept, CountDirty, LruOk;
    if c.bufs[v].valid { assert Holds(c, v, c.bufs[v].key); }
  }

  // ---------------------------------------------------------------- what a get leaves

  ghost predicate Before(s: seq<nat>, x: nat, y: nat) { exists i, j :: 0 <= i < j < |s| && s[i] == x && s[j] == y }

  lemma {:induction false} WithoutOrder(s: seq<nat>, b: nat, x: nat, y: nat)
    requires x != b && y != b
    ensures Before(Without(s, b), x, y) <==> Before(s, x, y)
    ensures x in Without(s, b) <==> x in s
  {
    if s != [] {
      var t := Without(s[1..], b);
      if s[0] == b {
        Shift(s, x, y);
      } else {
        WithoutOrder(s[1..], b, x, y);
        WithoutOrder(s[1..], b, y, x);
        Shift(s, x, y);
        Shift([s[0]] + t, x, y);
        assert ([s[0]] + t)[1..] == t;
      }
    }
  }

  /** Before, by the first element. */
  lemma Shift(s: seq<nat>, x: nat, y: nat)
    requires s != []
    ensures Before(s, x, y) <==> (s[0] == x && y in s[1..]) || Before(s[1..], x, y)
    ensures x in s <==> x == s[0] || x in s[1..]
  {
    if Before(s, x, y) {
      var i, j :| 0 <= i < j < |s| && s[i] == x && s[j] == y;
      assert s[1..][j - 1] == y;
      if i > 0 { assert s[1..][i - 1] == x; }
    }
    if s[0] == x && y in s[1..] {
      var j :| 0 <= j < |s[1..]| && s[1..][j] == y;
      assert s[0] == x && s[j + 1] == y;
    }
    if Before(s[1..], x, y) {
      var i, j :| 0 <= i < j < |s[1..]| && s[1..][i] == x && s[1..][j] == y;
      assert s[i + 1] == x && s[j + 1] == y;
    }
  }

  /** A buffer moved to the front: the others keep their order, and nobody leaves the list. */
  lemma FrontOrder(s: seq<nat>, b: nat, x: nat, y: nat)
    requires NoDup(s) && b in s
    ensures var t := [b] + Without(s, b);
            && (x in t <==> x in s) && (Before(t, x, y) ==> y != b)
            && (x != b && y != b ==> (Before(t, x, y) <==> Before(s, x, y)))
            && (y in s && y != b ==> Before(t, b, y))
  {
    hide Before, Without;
    var t := [b] + Without(s, b);
    WithoutNoDup(s, b);
    assert t[1..] == Without(s, b);
    Shift(t, x, y);
    Shift(t, b, y);
    if Before(t, x, y) { InList(t, x, y); }
    if x != b && y != b { WithoutOrder(s, b, x, y); }
  }

  lemma InList(s: seq<nat>, x: nat, y: nat)
    requires Before(s, x, y)
    ensures x in s && y in s && (NoDup(s) ==> y != s[0]) && y in s[1..]
  {
    var i, j :| 0 <= i < j < |s| && s[i] == x && s[j] == y;
    assert s[1..][j - 1] == y;
  }

  /** The buffer got is held once more and is the most recent; a get that fails leaves counts and order alone. */
  lemma GetPins(h: Hash, c: Cache, k: Key, io: WriteIo, readOk: bool)
    requires Inv(h, c)
    ensures InRange(c)
    ensures var (d, r) := Get(h, c, k, io, readOk);
            && |d.bufs| == |c.bufs| && (r.Some? ==> r.value in c.lru)
            && d.lru == (if r.Some? then [r.value] + Without(c.lru, r.value) else c.lru)
            && forall j :: 0 <= j < |c.bufs| ==>
                 d.bufs[j].refcnt == c.bufs[j].refcnt + if r == Some(j) then 1 else 0
  {
    InRangeIs(h, c);
    hide HashedExcept, CleanOk, CountDirty, Without, InRange, Refill, Bucket;
    var hit := LookupIn(c.bufs, c.chains[Bucket(h, c, k)], k);
    if hit.None? {
      var v := Evictable(c.bufs, c.lru);
      if v.Some? { RefillPins(h, c, v.value, k, io, readOk); }
    }
  }

  lemma RefillPins(h: Hash, c: Cache, v: nat, k: Key, io: WriteIo, readOk: bool)
    requires v < |c.bufs| && |c.chains| > 0 && c.bufs[v].refcnt == 0
    ensures var (d, r) := Refill(h, c, v, k, io, readOk);
            && |d.bufs| == |c.bufs| && (r.Some? ==> r.value == v)
            && d.lru == (if r.Some? then [v] + Without(c.lru, v) else c.lru)
            && forall j :: 0 <= j < |c.bufs| ==>
                 d.bufs[j].refcnt == c.bufs[j].refcnt + if r == Some(j) then 1 else 0
  {
    hide Without, Bucket;
  }

  // ---------------------------------------------------------------- sync

  predicate Asked(c: Cache, dev: Option<nat>, j: nat)
    requires j < |c.bufs|
  {
    Selected(c.bufs[j], dev) && c.bufs[j].dirty
  }

  predicate Succeeds(io: seq<WriteIo>, j: nat) { j < |io| ==> io[j].WriteOk? }

  /** Exactly the selected dirty buffers whose write succeeds become clean, whatever happens to the others. */
  lemma {:induction false} SyncCleans(c: Cache, dev: Option<nat>, i: nat, io: seq<WriteIo>, ok: bool, j: nat)
    requires i <= |c.bufs| && j < |c.bufs|
    ensures var (d, r) := SyncFrom(c, dev, i, io, ok);
            && |d.bufs| == |c.bufs| && d.lru == c.lru
            && d.bufs[j] == c.bufs[j].(dirty := c.bufs[j].dirty && !(i <= j && Asked(c, dev, j) && Succeeds(io, j)))
    decreases |c.bufs| - i
  {
    if i < |c.bufs| {
      if Asked(c, dev, i) {
        var (t, done) := Writeback(c, i, if i < |io| then io[i] else WriteOk);
        SyncCleans(t, dev, i + 1, io, ok && done, j);
      } else {
        SyncCleans(c, dev, i + 1, io, ok, j);
      }
    }
  }

  /** The answer is true exactly when every write that was needed succeeded. */
  lemma {:induction false} SyncAnswers(c: Cache, dev: Option<nat>, i: nat, io: seq<WriteIo>, ok: bool)
    requires i <= |c.bufs|
    ensures SyncFrom(c, dev, i, io, ok).1 <==>
            ok && forall j :: i <= j < |c.bufs| && Asked(c, dev, j) ==> Succeeds(io, j)
    decreases |c.bufs| - i
  {
    if i < |c.bufs| {
      if Asked(c, dev, i) {
        var (t, done) := Writeback(c, i, if i < |io| then io[i] else WriteOk);
        SyncAnswers(t, dev, i + 1, io, ok && done);
        assert forall j :: i < j < |c.bufs| ==> Asked(t, dev, j) == Asked(c, dev, j);
      } else {
        SyncAnswers(c, dev, i + 1, io, ok);
      }
    }
  }

  // ---------------------------------------------------------------- over whole runs

  /** A buffer is pinned once for every holder. */
  ghost predicate Exact(s: Session) {
    forall b :: 0 <= b < |s.cache.bufs| ==> Count(s.held, b) == s.cache.bufs[b].refcnt
  }

  lemma StepExact(h: Hash, s: Session, op: Op)
    requires SessionOk(h, s) && Exact(s)
    ensures Exact(Step(h, s, op))
  {
    hide Inv, Get, Put, Write, SyncFrom, Before;
    var c, t := s.cache, Step(h, s, op);
    match op {
      case GetOp(k, io, readOk) => GetPins(h, c, k, io, readOk);
      case PutOp(g) => if IsHeld(s.held, g) { HeldIsPinned(h, s, g); PutCounts(c, s.held[g].value.buf); }
      case WriteOp(g, data) => if IsHeld(s.held, g) {
        HeldIsPinned(h, s, g);
        WriteCounts(c, s.held[g].value.buf, data);
      }
      case SyncOp(dev, io) => SyncKeeps(c, dev, 0, io, true);
    }
    forall b | 0 <= b < |t.cache.bufs| ensures Count(t.held, b) == t.cache.bufs[b].refcnt {
      CountPush(s.held, t.held[|s.held|], b);
      if op.PutOp? && IsHeld(s.held, op.get) {
        CountDrop(s.held, op.get, b);
        CountPush(s.held[op.get := None], None, b);
      }
    }
  }

  /** When buffers were last got: the stamp of a buffer is the number of the call, counted from 1. */
  ghost function Stamps(h: Hash, s: Session, ops: seq<Op>, st: seq<nat>): (r: seq<nat>)
    requires SessionOk(h, s)
    ensures |r| == |st|
    decreases |ops|
  {
    if ops == [] then st
    else StepOk(h, s, ops[0]); Stamps(h, Step(h, s, ops[0]), ops[1..], Stamp(Step(h, s, ops[0]), st))
  }

  function Stamp(t: Session, st: seq<nat>): (r: seq<nat>)
    ensures |r| == |st|
  {
    var n := |t.held|;
    if n > 0 && t.held[n - 1].Some? && t.held[n - 1].value.buf < |st| then st[t.held[n - 1].value.buf := n] else st
  }

  /** The list runs from the buffer got last to the one got longest ago. */
  ghost predicate ByRecency(lru: seq<nat>, st: seq<nat>) {
    Below(lru, |st|) && forall x: nat, y: nat :: Before(lru, x, y) ==> x < |st| && y < |st| && st[x] >= st[y]
  }

  ghost predicate NotAfter(st: seq<nat>, n: nat) { forall b :: 0 <= b < |st| ==> st[b] <= n }

  lemma FrontRecency(s: seq<nat>, st: seq<nat>, b: nat, n: nat)
    requires NoDup(s) && b in s && ByRecency(s, st) && NotAfter(st, n)
    ensures b < |st| && ByRecency([b] + Without(s, b), st[b := n + 1]) && NotAfter(st[b := n + 1], n + 1)
  {
    hide Before, Without;
    var t := [b] + Without(s, b);
    forall x: nat, y: nat | Before(t, x, y) ensures x < |st| && y < |st| && st[b := n + 1][x] >= st[b := n + 1][y] {
      FrontOrder(s, b, x, y);
      InList(t, x, y);
      FrontOrder(s, b, y, x);
    }
    forall j | 0 <= j < |t| ensures t[j] < |st| { FrontOrder(s, b, t[j], t[j]); assert t[j] in t; }
  }

  lemma StepRecency(h: Hash, s: Session, op: Op, st: seq<nat>)
    requires SessionOk(h, s) && |st| == |s.cache.bufs| && ByRecency(s.cache.lru, st) && NotAfter(st, |s.held|)
    ensures var t := Step(h, s, op);
            |st| == |t.cache.bufs| && ByRecency(t.cache.lru, Stamp(t, st)) && NotAfter(Stamp(t, st), |t.held|)
  {
    hide HashedExcept, CleanOk, CountDirty, BufsOk, Get, SyncFrom, ByRecency, Without;
    var c := s.cache;
    match op {
      case GetOp(k, io, readOk) =>
        GetPins(h, c, k, io, readOk);
        var r := Get(h, c, k, io, readOk).1;
        if r.Some? { FrontRecency(c.lru, st, r.value, |s.held|); }
      case PutOp(g) => if IsHeld(s.held, g) { HeldIsPinned(h, s, g); }
      case WriteOp(g, data) => if IsHeld(s.held, g) { HeldIsPinned(h, s, g); }
      case SyncOp(dev, io) =>
        if |c.bufs| > 0 { SyncCleans(c, dev, 0, io, true, 0); } else { SyncNothing(c, dev, io); }
    }
  }

  lemma SyncNothing(c: Cache, dev: Option<nat>, io: seq<WriteIo>)
    requires c.bufs == []
    ensures SyncFrom(c, dev, 0, io, true) == (c, true)
  {
  }

  /** After any run the recency list is in the order of the last gets. */
  lemma {:induction false} RunRecency(h: Hash, s: Session, ops: seq<Op>, st: seq<nat>)
    requires SessionOk(h, s) && |st| == |s.cache.bufs| && ByRecency(s.cache.lru, st) && NotAfter(st, |s.held|)
    ensures var t := Run(h, s, ops); |t.cache.bufs| == |st| && ByRecency(t.cache.lru, Stamps(h, s, ops, st))
    decreases |ops|
  {
    hide SessionOk, Step, ByRecency, NotAfter, Stamp;
    if ops != [] {
      StepOk(h, s, ops[0]);
      StepRecency(h, s, ops[0], st);
      RunRecency(h, Step(h, s, ops[0]), ops[1..], Stamp(Step(h, s, ops[0]), st));
    }
  }

  /** So the buffer that is evicted is, of those nobody holds, the one whose last get is longest ago. */
  lemma EvictsOldest(h: Hash, s: Session, ops: seq<Op>, st: seq<nat>, v: nat, u: nat)
    requires SessionOk(h, s) && |st| == |s.cache.bufs| && ByRecency(s.cache.lru, st) && NotAfter(st, |s.held|)
    requires var c := Run(h, s, ops).cache; LastUnheld(c, v) && u in c.lru && u < |c.bufs| && c.bufs[u].refcnt == 0
    ensures var r := Stamps(h, s, ops, st); v < |r| && u < |r| && r[v] <= r[u]
  {
    hide SessionOk, Stamps, Run;
    RunRecency(h, s, ops, st);
    var c := Run(h, s, ops).cache;
    var p: nat :| At(c, p, v);
    var q :| 0 <= q < |c.lru| && c.lru[q] == u;
    if q < p { assert Before(c.lru, u, v); }
  }

  /** From a cache that nobody uses, after any run a buffer has as many references as holders. */
  lemma {:induction false} RunExact(h: Hash, s: Session, ops: seq<Op>)
    requires SessionOk(h, s) && Exact(s)
    ensures Exact(Run(h, s, ops))
    decreases |ops|
  {
    hide SessionOk, Step, Exact;
    if ops != [] {
      StepOk(h, s, ops[0]);
      StepExact(h, s, ops[0]);
      RunExact(h, Step(h, s, ops[0]), ops[1..]);
    }
  }
}
