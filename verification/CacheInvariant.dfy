/** The cache shows one logical disk: its invariant, and what every operation does to the view. */
module CacheInvariant {
  import opened Base
  import opened CacheModel

  // ---------------------------------------------------------------- the invariant

  /** The recency list repeats nothing and holds every buffer in use. */
  ghost predicate LruOk(c: Cache) {
    && NoDup(c.lru) && Below(c.lru, |c.bufs|)
    && (forall i :: 0 <= i < |c.bufs| && c.bufs[i].valid ==> i in c.lru)
  }

  ghost predicate ChainOk(h: Hash, c: Cache, b: nat)
    requires b < |c.chains|
  {
    var s := c.chains[b];
    && NoDup(s) && Below(s, |c.bufs|)
    && (forall j :: 0 <= j < |s| ==> c.bufs[s[j]].valid && Bucket(h, c, c.bufs[s[j]].key) == b)
  }

  /** Each bucket holds valid buffers of that bucket once; buffer v (if any) is on no chain, all other
      valid buffers are on theirs. */
  ghost predicate HashedExcept(h: Hash, c: Cache, v: Option<nat>) {
    && |c.chains| > 0
    && (forall b :: 0 <= b < |c.chains| ==> ChainOk(h, c, b))
    && (forall i :: 0 <= i < |c.bufs| && c.bufs[i].valid && v != Some(i) ==> i in c.chains[Bucket(h, c, c.bufs[i].key)])
    && (v.Some? ==> forall b :: 0 <= b < |c.chains| ==> v.value !in c.chains[b])
  }

  /** No block is cached twice; only valid buffers are held or dirty. */
  ghost predicate BufsOk(c: Cache) {
    && (forall i, j :: 0 <= i < j < |c.bufs| && c.bufs[i].valid && c.bufs[j].valid ==> c.bufs[i].key != c.bufs[j].key)
    && (forall i :: 0 <= i < |c.bufs| && (c.bufs[i].dirty || c.bufs[i].refcnt > 0) ==> c.bufs[i].valid)
  }

  /** A clean buffer equals its block on disk. */
  ghost predicate CleanOk(c: Cache) {
    forall i :: 0 <= i < |c.bufs| && c.bufs[i].valid ==>
      c.bufs[i].key in c.disk && (!c.bufs[i].dirty ==> c.disk[c.bufs[i].key] == c.bufs[i].data)
  }

  function CountDirty(bufs: seq<Buf>): (n: nat)
  {
    if bufs == [] then 0 else CountDirty(bufs[..|bufs| - 1]) + (if bufs[|bufs| - 1].dirty then 1 else 0)
  }

  ghost predicate Inv(h: Hash, c: Cache) {
    LruOk(c) && HashedExcept(h, c, None) && BufsOk(c) && CleanOk(c) && c.dirtyBufs == CountDirty(c.bufs)
  }

  lemma {:induction false} CountSet(bufs: seq<Buf>, i: nat, b: Buf)
    requires i < |bufs|
    ensures CountDirty(bufs[i := b]) == CountDirty(bufs) - (if bufs[i].dirty then 1 else 0) + (if b.dirty then 1 else 0)
  {
    var n := |bufs| - 1;
    if i == n {
      assert bufs[i := b][..n] == bufs[..n];
    } else {
      assert bufs[i := b][..n] == bufs[..n][i := b];
      CountSet(bufs[..n], i, b);
    }
  }

  lemma {:induction false} NoneDirty(bufs: seq<Buf>)
    requires forall i :: 0 <= i < |bufs| ==> !bufs[i].dirty
    ensures CountDirty(bufs) == 0
  {
    if bufs != [] { NoneDirty(bufs[..|bufs| - 1]); }
  }

  // ---------------------------------------------------------------- the logical disk

  predicate Holds(c: Cache, i: nat, k: Key) { i < |c.bufs| && c.bufs[i].valid && c.bufs[i].key == k }

  ghost predicate Cached(c: Cache, k: Key) { exists i: nat :: Holds(c, i, k) }

  /** The block a reader of k sees: the cached copy if there is one, else the disk. */
  ghost function View(c: Cache, k: Key): (v: Option<Block>)
  {
    if Cached(c, k) then var i: nat :| Holds(c, i, k); Some(c.bufs[i].data)
    else if k in c.disk then Some(c.disk[k]) else None
  }

  lemma ViewCached(c: Cache, i: nat, k: Key)
    requires BufsOk(c) && Holds(c, i, k)
    ensures View(c, k) == Some(c.bufs[i].data)
  {
  }

  /** Two caches show the same block when their copies of it agree and, where there is no copy, the disk does. */
  lemma ViewAgrees(c: Cache, d: Cache, k: Key)
    requires BufsOk(c) && BufsOk(d)
    requires forall j: nat :: Holds(d, j, k) ==>
               if Holds(c, j, k) then d.bufs[j].data == c.bufs[j].data
               else !Cached(c, k) && k in c.disk && c.disk[k] == d.bufs[j].data
    requires !Cached(d, k) ==>
               if Cached(c, k) then k in d.disk && View(c, k) == Some(d.disk[k])
               else (k in d.disk <==> k in c.disk) && (k in c.disk ==> d.disk[k] == c.disk[k])
    ensures View(d, k) == View(c, k)
  {
  }

  // ---------------------------------------------------------------- write-back

  lemma WritebackBufs(h: Hash, c: Cache, i: nat, io: WriteIo)
    requires Inv(h, c) && i < |c.bufs|
    ensures Inv(h, Writeback(c, i, io).0)
    ensures Writeback(c, i, io).1 ==> !Writeback(c, i, io).0.bufs[i].dirty
  {
    hide CountDirty;
    var d := Writeback(c, i, io).0;
    if c.bufs[i].valid && c.bufs[i].dirty && io.WriteOk? {
      CountSet(c.bufs, i, c.bufs[i].(dirty := false));
      WritebackChains(h, c, i, io);
    } else {
      WritebackChains(h, c, i, io);
    }
  }

  lemma WritebackChains(h: Hash, c: Cache, i: nat, io: WriteIo)
    requires HashedExcept(h, c, None) && i < |c.bufs|
    ensures HashedExcept(h, Writeback(c, i, io).0, None)
  {
    var d := Writeback(c, i, io).0;
    forall b | 0 <= b < |d.chains| ensures ChainOk(h, d, b) { assert ChainOk(h, c, b); }
  }

  lemma WritebackView(h: Hash, c: Cache, i: nat, io: WriteIo, k: Key)
    requires Inv(h, c) && i < |c.bufs|
    ensures View(Writeback(c, i, io).0, k) == View(c, k)
  {
    hide HashedExcept, CountDirty, LruOk;
    WritebackBufs(h, c, i, io);
    var d := Writeback(c, i, io).0;
    if Cached(c, k) {
      var j: nat :| Holds(c, j, k);
      assert Holds(d, j, k);
    }
    ViewAgrees(c, d, k);
  }

  // ---------------------------------------------------------------- reading a block into a buffer

  lemma UnhashOk(h: Hash, c: Cache, v: nat)
    requires Inv(h, c) && v < |c.bufs|
    ensures c.bufs[v].valid ==> HashedExcept(h, Unhash(h, c, v), Some(v))
    ensures !c.bufs[v].valid ==> HashedExcept(h, c, Some(v))
  {
    hide LruOk, BufsOk, CleanOk, CountDirty;
    if c.bufs[v].valid {
      var b0 := Bucket(h, c, c.bufs[v].key);
      var d := Unhash(h, c, v);
      assert ChainOk(h, c, b0);
      WithoutNoDup(c.chains[b0], v);
      forall b | 0 <= b < |d.chains| ensures ChainOk(h, d, b) && v !in d.chains[b] {
        assert ChainOk(h, c, b);
        if b == b0 {
          forall j | 0 <= j < |d.chains[b]|
            ensures d.chains[b][j] < |d.bufs| && d.bufs[d.chains[b][j]].valid
                    && Bucket(h, d, d.bufs[d.chains[b][j]].key) == b
          {
            assert d.chains[b][j] in c.chains[b];
          }
        }
      }
    } else {
      forall b | 0 <= b < |c.chains| ensures v !in c.chains[b] { assert ChainOk(h, c, b); }
    }
  }

  /** A buffer off every chain may change freely, and may be put at the head of its bucket. */
  lemma RehashOk(h: Hash, c: Cache, v: nat, nb: Buf)
    requires HashedExcept(h, c, Some(v)) && v < |c.bufs|
    ensures var t := SetBuf(c, v, nb);
            && HashedExcept(h, t, Some(v))
            && (!nb.valid ==> HashedExcept(h, t, None))
            && (nb.valid ==> var b := Bucket(h, t, nb.key);
                             HashedExcept(h, t.(chains := t.chains[b := [v] + t.chains[b]]), None))
  {
    var t := SetBuf(c, v, nb);
    forall b | 0 <= b < |t.chains| ensures ChainOk(h, t, b) { assert ChainOk(h, c, b); assert v !in c.chains[b]; }
    if nb.valid {
      var b0 := Bucket(h, t, nb.key);
      var u := t.(chains := t.chains[b0 := [v] + t.chains[b0]]);
      forall b | 0 <= b < |u.chains| ensures ChainOk(h, u, b) { assert ChainOk(h, t, b); assert v !in t.chains[b]; }
      forall i | 0 <= i < |u.bufs| && u.bufs[i].valid ensures i in u.chains[Bucket(h, u, u.bufs[i].key)] {
        if i == v { assert u.chains[b0][0] == v; }
      }
    }
  }

  lemma TouchOk(c: Cache, i: nat)
    requires LruOk(c) && i < |c.bufs|
    ensures LruOk(Touch(c, i))
  {
    WithoutNoDup(c.lru, i);
    var d := Touch(c, i);
    assert d.lru[0] == i;
    forall j | 0 <= j < |d.lru| ensures d.lru[j] < |d.bufs| {
      if j > 0 { assert d.lru[j] in Without(c.lru, i); assert d.lru[j] in c.lru; }
    }
    forall j | 0 <= j < |d.bufs| && d.bufs[j].valid ensures j in d.lru {
      if j != i { assert j in Without(c.lru, i); }
    }
    forall a, b | 0 <= a < b < |d.lru| ensures d.lru[a] != d.lru[b] {
      assert d.lru[b] == Without(c.lru, i)[b - 1];
      if a > 0 { assert d.lru[a] == Without(c.lru, i)[a - 1]; } else { assert d.lru[b] in Without(c.lru, i); }
    }
  }

  /** The chosen victim is clean, unheld and off the chains, and the wanted block is nowhere in the cache. */
  ghost predicate ReadyToFill(h: Hash, c: Cache, v: nat, k: Key) {
    && LruOk(c) && BufsOk(c) && CleanOk(c) && c.dirtyBufs == CountDirty(c.bufs)
    && v < |c.bufs| && v in c.lru && HashedExcept(h, c, Some(v))
    && c.bufs[v].refcnt == 0 && !c.bufs[v].dirty
    && !Cached(c, k)
  }

  lemma FillInv(h: Hash, c: Cache, v: nat, k: Key, readOk: bool)
    requires ReadyToFill(h, c, v, k)
    ensures |c.chains| > 0 && Inv(h, Fill(h, c, v, k, readOk).0)
  {
    FillChains(h, c, v, k, readOk);
    hide HashedExcept, BufsOk, CleanOk, CountDirty, LruOk;
    FillBufs(h, c, v, k, readOk);
    FillLru(h, c, v, k, readOk);
    CountSet(c.bufs, v, Fill(h, c, v, k, readOk).0.bufs[v]);
  }

  lemma FillChains(h: Hash, c: Cache, v: nat, k: Key, readOk: bool)
    requires ReadyToFill(h, c, v, k)
    ensures |c.chains| > 0 && HashedExcept(h, Fill(h, c, v, k, readOk).0, None)
  {
    hide BufsOk, CleanOk, CountDirty, LruOk;
    var d := Fill(h, c, v, k, readOk).0;
    RehashOk(h, c, v, d.bufs[v]);
    var t := SetBuf(c, v, d.bufs[v]);
    if readOk && k in c.disk {
      HashedLru(h, t.(chains := d.chains), d.lru);
    }
  }

  lemma HashedLru(h: Hash, c: Cache, lru: seq<nat>)
    requires HashedExcept(h, c, None)
    ensures HashedExcept(h, c.(lru := lru), None)
  {
    forall b | 0 <= b < |c.chains| ensures ChainOk(h, c.(lru := lru), b) { assert ChainOk(h, c, b); }
  }

  lemma FillLru(h: Hash, c: Cache, v: nat, k: Key, readOk: bool)
    requires ReadyToFill(h, c, v, k) && |c.chains| > 0
    ensures LruOk(Fill(h, c, v, k, readOk).0)
  {
    hide BufsOk, CleanOk, CountDirty, HashedExcept;
    var d := Fill(h, c, v, k, readOk).0;
    if readOk && k in c.disk {
      TouchOk(SetBuf(c, v, d.bufs[v]).(chains := d.chains), v);
    }
  }

  lemma FillBufs(h: Hash, c: Cache, v: nat, k: Key, readOk: bool)
    requires ReadyToFill(h, c, v, k) && |c.chains| > 0
    ensures BufsOk(Fill(h, c, v, k, readOk).0) && CleanOk(Fill(h, c, v, k, readOk).0)
  {
    hide HashedExcept, LruOk, CountDirty;
    forall i | 0 <= i < |c.bufs| && c.bufs[i].valid ensures c.bufs[i].key != k { assert !Holds(c, i, k); }
  }

  lemma FillView(h: Hash, c: Cache, v: nat, k: Key, readOk: bool, x: Key)
    requires ReadyToFill(h, c, v, k) && |c.chains| > 0
    ensures View(Fill(h, c, v, k, readOk).0, x) == View(c, x)
  {
    hide HashedExcept, LruOk, CountDirty;
    var d := Fill(h, c, v, k, readOk).0;
    FillBufs(h, c, v, k, readOk);
    if Cached(c, x) {
      var j: nat :| Holds(c, j, x);
      ViewCached(c, j, x);
      assert j == v || Holds(d, j, x);
    }
    ViewAgrees(c, d, x);
  }

  // ---------------------------------------------------------------- bcache_get

  /** A miss in its bucket means the block is nowhere in the cache. */
  lemma MissMeansUncached(h: Hash, c: Cache, k: Key)
    requires Inv(h, c)
    ensures InRange(c)
    ensures LookupIn(c.bufs, c.chains[Bucket(h, c, k)], k).None? ==> !Cached(c, k)
  {
    hide LruOk, BufsOk, CleanOk, CountDirty;
    LruInRange(c);
    forall b | 0 <= b < |c.chains| ensures Below(c.chains[b], |c.bufs|) { assert ChainOk(h, c, b); }
    if Cached(c, k) {
      var i: nat :| Holds(c, i, k);
      assert i in c.chains[Bucket(h, c, k)];
    }
  }

  lemma LruInRange(c: Cache)
    requires LruOk(c)
    ensures Below(c.lru, |c.bufs|)
  {
  }

  /** What the victim looks like after its contents were written back and detached. */
  lemma EvictReady(h: Hash, c: Cache, v: nat, k: Key, io: WriteIo)
    requires Inv(h, c) && v < |c.bufs| && v in c.lru && c.bufs[v].refcnt == 0 && !Cached(c, k)
    requires Writeback(c, v, io).1
    ensures |c.chains| > 0
    ensures var t := Writeback(c, v, io).0;
            ReadyToFill(h, if t.bufs[v].valid then Unhash(h, t, v) else t, v, k)
  {
    WritebackBufs(h, c, v, io);
    hide HashedExcept, BufsOk, CleanOk, CountDirty, LruOk;
    var t := Writeback(c, v, io).0;
    UnhashOk(h, t, v);
    ChainsPositive(h, c);
    var u := if t.bufs[v].valid then Unhash(h, t, v) else t;
    SameBufsOk(t, u);
    forall i: nat ensures !Holds(u, i, k) { assert !Holds(c, i, k); }
  }

  lemma ChainsPositive(h: Hash, c: Cache)
    requires HashedExcept(h, c, None)
    ensures |c.chains| > 0
  {
  }

  lemma SameBufsOk(c: Cache, d: Cache)
    requires LruOk(c) && BufsOk(c) && CleanOk(c) && d.bufs == c.bufs && d.lru == c.lru && d.disk == c.disk
    ensures LruOk(d) && BufsOk(d) && CleanOk(d)
  {
  }

  lemma SameBufsView(c: Cache, d: Cache, k: Key)
    requires BufsOk(c) && BufsOk(d) && d.bufs == c.bufs && d.disk == c.disk
    ensures View(c, k) == View(d, k)
  {
    if Cached(c, k) { var i: nat :| Holds(c, i, k); assert Holds(d, i, k); ViewCached(c, i, k); }
    ViewAgrees(c, d, k);
  }

  lemma RefillOk(h: Hash, c: Cache, v: nat, k: Key, io: WriteIo, readOk: bool, x: Key)
    requires Inv(h, c) && v < |c.bufs| && v in c.lru && c.bufs[v].refcnt == 0 && !Cached(c, k)
    ensures |c.chains| > 0
    ensures var r := Refill(h, c, v, k, io, readOk); Inv(h, r.0) && View(r.0, x) == View(c, x)
  {
    hide HashedExcept, BufsOk, CleanOk, CountDirty, LruOk, View, Cached;
    ChainsPositive(h, c);
    WritebackBufs(h, c, v, io);
    WritebackView(h, c, v, io, x);
    var (t, ok) := Writeback(c, v, io);
    if ok {
      EvictReady(h, c, v, k, io);
      var u := if t.bufs[v].valid then Unhash(h, t, v) else t;
      SameBufsView(t, u, x);
      FillInv(h, u, v, k, readOk);
      FillView(h, u, v, k, readOk, x);
    }
  }

  /** The part of a buffer its holders rely on. */
  predicate SameForHolder(a: Buf, b: Buf) {
    b.valid == a.valid && b.key == a.key && b.data == a.data && b.dirty == a.dirty
  }

  /** bcache_get never changes what anyone sees, whatever the device does; it returns the wanted block,
      pinned and showing the view, or nothing; and it leaves every held buffer with its holder. */
  lemma GetOk(h: Hash, c: Cache, k: Key, io: WriteIo, readOk: bool, x: Key)
    requires Inv(h, c)
    ensures InRange(c)
    ensures var (d, r) := Get(h, c, k, io, readOk);
            && Inv(h, d) && |d.bufs| == |c.bufs|
            && View(d, x) == View(c, x)
            && (r.Some? ==>
               Holds(d, r.value, k) && d.bufs[r.value].refcnt > 0 && Some(d.bufs[r.value].data) == View(c, k))
  {
    hide HashedExcept, BufsOk, CleanOk, CountDirty, LruOk, View, Cached;
    MissMeansUncached(h, c, k);
    var hit := LookupIn(c.bufs, c.chains[Bucket(h, c, k)], k);
    if hit.Some? {
      HitOk(h, c, hit.value, x);
      ViewCached(c, hit.value, k);
    } else {
      var v := Evictable(c.bufs, c.lru);
      if v.Some? {
        RefillOk(h, c, v.value, k, io, readOk, x);
        RefillOk(h, c, v.value, k, io, readOk, k);
        var d := Refill(h, c, v.value, k, io, readOk).0;
        if Refill(h, c, v.value, k, io, readOk).1.Some? { ViewCached(d, v.value, k); }
      }
    }
  }

  /** Refilling the victim leaves every other buffer as it was. */
  lemma RefillFrame(h: Hash, c: Cache, v: nat, k: Key, io: WriteIo, readOk: bool, j: nat)
    requires v < |c.bufs| && |c.chains| > 0 && j < |c.bufs| && j != v
    ensures var d := Refill(h, c, v, k, io, readOk).0; |d.bufs| == |c.bufs| && d.bufs[j] == c.bufs[j]
  {
  }

  lemma GetKeepsPinned(h: Hash, c: Cache, k: Key, io: WriteIo, readOk: bool, j: nat)
    requires Inv(h, c) && InRange(c) && j < |c.bufs| && c.bufs[j].refcnt > 0
    ensures var d := Get(h, c, k, io, readOk).0;
            |d.bufs| == |c.bufs| && SameForHolder(c.bufs[j], d.bufs[j]) && d.bufs[j].refcnt >= c.bufs[j].refcnt
  {
    hide Inv, Refill;
    var hit := LookupIn(c.bufs, c.chains[Bucket(h, c, k)], k);
    var v := Evictable(c.bufs, c.lru);
    if hit.None? && v.Some? { RefillFrame(h, c, v.value, k, io, readOk, j); }
  }

  /** Changing reference counts of valid buffers touches nothing else. */
  lemma RefcntOk(h: Hash, c: Cache, i: nat, n: nat, x: Key)
    requires Inv(h, c) && i < |c.bufs| && (n > 0 ==> c.bufs[i].valid)
    ensures var d := SetBuf(c, i, c.bufs[i].(refcnt := n)); Inv(h, d) && View(d, x) == View(c, x)
  {
    hide HashedExcept, CountDirty;
    var d := SetBuf(c, i, c.bufs[i].(refcnt := n));
    RehashSame(h, c, i, c.bufs[i].(refcnt := n));
    CountSet(c.bufs, i, c.bufs[i].(refcnt := n));
    if Cached(c, x) { var j: nat :| Holds(c, j, x); assert Holds(d, j, x); }
    ViewAgrees(c, d, x);
  }

  /** A change that keeps key and validity keeps the chains. */
  lemma RehashSame(h: Hash, c: Cache, i: nat, nb: Buf)
    requires HashedExcept(h, c, None) && i < |c.bufs| && nb.valid == c.bufs[i].valid && nb.key == c.bufs[i].key
    ensures HashedExcept(h, SetBuf(c, i, nb), None)
  {
    var d := SetBuf(c, i, nb);
    forall b | 0 <= b < |d.chains| ensures ChainOk(h, d, b) { assert ChainOk(h, c, b); }
  }

  lemma HitOk(h: Hash, c: Cache, i: nat, x: Key)
    requires Inv(h, c) && i < |c.bufs| && c.bufs[i].valid
    ensures var d := Touch(SetBuf(c, i, c.bufs[i].(refcnt := c.bufs[i].refcnt + 1)), i);
            Inv(h, d) && View(d, x) == View(c, x)
  {
    hide HashedExcept, BufsOk, CleanOk, CountDirty, LruOk, View;
    var t := SetBuf(c, i, c.bufs[i].(refcnt := c.bufs[i].refcnt + 1));
    RefcntOk(h, c, i, c.bufs[i].refcnt + 1, x);
    TouchOk(t, i);
    HashedLru(h, t, Touch(t, i).lru);
    NoLru(t, Touch(t, i));
    SameBufsView(t, Touch(t, i), x);
  }

  lemma NoLru(c: Cache, d: Cache)
    requires BufsOk(c) && CleanOk(c) && d.bufs == c.bufs && d.disk == c.disk
    ensures BufsOk(d) && CleanOk(d)
  {
  }

  lemma PutOk(h: Hash, c: Cache, i: nat, x: Key)
    requires Inv(h, c) && i < |c.bufs|
    ensures Inv(h, Put(c, i)) && View(Put(c, i), x) == View(c, x)
  {
    hide HashedExcept, CleanOk, CountDirty, LruOk, View;
    if c.bufs[i].refcnt > 0 { RefcntOk(h, c, i, c.bufs[i].refcnt - 1, x); }
  }

  /** A holder's write changes the view of its own block and of no other. */
  lemma WriteOkView(h: Hash, c: Cache, i: nat, data: Block, x: Key)
    requires Inv(h, c) && i < |c.bufs| && c.bufs[i].refcnt > 0
    ensures var d := Write(c, i, data);
            Inv(h, d) && View(d, x) == if x == c.bufs[i].key then Some(data) else View(c, x)
  {
    hide HashedExcept, CountDirty;
    var nb := c.bufs[i].(data := data, dirty := true);
    var d := Write(c, i, data);
    RehashSame(h, c, i, nb);
    HashedCount(h, SetBuf(c, i, nb), d.dirtyBufs);
    CountSet(c.bufs, i, nb);
    if x == c.bufs[i].key {
      ViewCached(d, i, x);
    } else {
      if Cached(c, x) { var j: nat :| Holds(c, j, x); assert Holds(d, j, x); }
      ViewAgrees(c, d, x);
    }
  }

  lemma HashedCount(h: Hash, c: Cache, n: nat)
    requires HashedExcept(h, c, None)
    ensures HashedExcept(h, c.(dirtyBufs := n), None)
  {
    forall b | 0 <= b < |c.chains| ensures ChainOk(h, c.(dirtyBufs := n), b) { assert ChainOk(h, c, b); }
  }

  // ---------------------------------------------------------------- sync

  predicate Selected(b: Buf, dev: Option<nat>) { b.valid && (dev.None? || b.key.dev == dev.value) }

  /** Syncing never changes the view; a true result means every selected buffer is clean. */
  lemma {:induction false} SyncOk(h: Hash, c: Cache, dev: Option<nat>, i: nat, io: seq<WriteIo>, ok: bool, x: Key)
    requires Inv(h, c) && i <= |c.bufs|
    requires ok ==> forall j :: 0 <= j < i && Selected(c.bufs[j], dev) ==> !c.bufs[j].dirty
    ensures var (d, r) := SyncFrom(c, dev, i, io, ok);
            && Inv(h, d) && |d.bufs| == |c.bufs| && View(d, x) == View(c, x)
            && (r ==> forall j :: 0 <= j < |d.bufs| && Selected(d.bufs[j], dev) ==> !d.bufs[j].dirty)
    decreases |c.bufs| - i
  {
    hide Inv, View;
    if i < |c.bufs| {
      if !Selected(c.bufs[i], dev) || !c.bufs[i].dirty {
        SyncOk(h, c, dev, i + 1, io, ok, x);
      } else {
        var w := if i < |io| then io[i] else WriteOk;
        var (t, done) := Writeback(c, i, w);
        WritebackBufs(h, c, i, w);
        WritebackView(h, c, i, w, x);
        SyncOk(h, t, dev, i + 1, io, ok && done, x);
      }
    }
  }

  /** After a successful sync the disk itself shows the view of every selected block. */
  lemma SyncedDiskIsView(h: Hash, c: Cache, dev: Option<nat>, io: seq<WriteIo>, x: Key)
    requires Inv(h, c) && (dev.Some? ==> x.dev == dev.value) && SyncFrom(c, dev, 0, io, true).1
    ensures var d := SyncFrom(c, dev, 0, io, true).0;
            View(c, x) == if x in d.disk then Some(d.disk[x]) else None
  {
    hide HashedExcept, CountDirty, LruOk;
    SyncOk(h, c, dev, 0, io, true, x);
    var d := SyncFrom(c, dev, 0, io, true).0;
    if Cached(d, x) {
      var i: nat :| Holds(d, i, x);
      ViewCached(d, i, x);
      assert Selected(d.bufs[i], dev);
    }
  }
}
