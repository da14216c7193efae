/** The buffer cache as a function on values: buffers, hash buckets, recency order and disk. */
module CacheModel {
  import opened Base

  type Block = seq<bv8>
  datatype Key = Key(dev: nat, block: nat)
  type Hash = Key -> nat

  datatype Buf = Buf(key: Key, refcnt: nat, valid: bool, dirty: bool, data: Block)

  /** `chains[b]` lists bucket b from its head; `lru` lists buffers from most to least recently used. */
  datatype Cache = Cache(bufs: seq<Buf>, chains: seq<seq<nat>>, lru: seq<nat>, disk: map<Key, Block>, dirtyBufs: nat)

  /** What the device does with a write. A failed write may leave anything in the block. */
  datatype WriteIo = WriteOk | WriteFails(torn: Option<Block>)

  function Bucket(h: Hash, c: Cache, k: Key): (b: nat)
    requires |c.chains| > 0
    ensures b < |c.chains|
  {
    h(k) % |c.chains|
  }

  // ---------------------------------------------------------------- lists

  /** The list with the first occurrence of x taken out. */
  function Without(s: seq<nat>, x: nat): (r: seq<nat>)
    ensures forall y :: y in r ==> y in s
  {
    if s == [] then [] else if s[0] == x then s[1..] else [s[0]] + Without(s[1..], x)
  }

  lemma {:induction false} WithoutNoDup(s: seq<nat>, x: nat)
    requires NoDup(s)
    ensures NoDup(Without(s, x)) && forall y :: y in Without(s, x) <==> y in s && y != x
  {
    if s != [] && s[0] != x {
      WithoutNoDup(s[1..], x);
      var t := Without(s[1..], x);
      assert s == [s[0]] + s[1..];
      assert forall j :: 0 <= j < |t| ==> t[j] in s[1..];
    } else if s != [] {
      assert s == [s[0]] + s[1..];
    }
  }

  /** ht_lookup along one chain. */
  function LookupIn(bufs: seq<Buf>, chain: seq<nat>, k: Key): (r: Option<nat>)
    requires Below(chain, |bufs|)
    ensures r.Some? ==> r.value in chain && bufs[r.value].valid && bufs[r.value].key == k
    ensures r.None? ==> forall x :: x in chain ==> !(bufs[x].valid && bufs[x].key == k)
  {
    if chain == [] then None
    else if bufs[chain[0]].valid && bufs[chain[0]].key == k then Some(chain[0])
    else LookupIn(bufs, chain[1..], k)
  }

  /** find_evictable: the least recently used buffer nobody holds. */
  function Evictable(bufs: seq<Buf>, lru: seq<nat>): (r: Option<nat>)
    requires Below(lru, |bufs|)
    ensures r.Some? ==> r.value in lru && bufs[r.value].refcnt == 0
    ensures r.None? ==> forall x :: x in lru ==> bufs[x].refcnt > 0
  {
    if lru == [] then None
    else
      var last := lru[|lru| - 1];
      if bufs[last].refcnt == 0 then Some(last) else Evictable(bufs, lru[..|lru| - 1])
  }

  // ---------------------------------------------------------------- operations

  function SetBuf(c: Cache, i: nat, b: Buf): (r: Cache)
    requires i < |c.bufs|
  {
    c.(bufs := c.bufs[i := b])
  }

  function Touch(c: Cache, i: nat): (r: Cache) { c.(lru := [i] + Without(c.lru, i)) }

  /** writeback_one. */
  function Writeback(c: Cache, i: nat, io: WriteIo): (r: (Cache, bool))
    requires i < |c.bufs|
  {
    var b := c.bufs[i];
    if !b.valid || !b.dirty then (c, true)
    else
      match io
      case WriteFails(torn) => (if torn.Some? then c.(disk := c.disk[b.key := torn.value]) else c, false)
      case WriteOk =>
        (SetBuf(c, i, b.(dirty := false))
         .(disk := c.disk[b.key := b.data], dirtyBufs := if c.dirtyBufs > 0 then c.dirtyBufs - 1 else 0), true)
  }

  /** Detach the old contents of a victim. */
  function Unhash(h: Hash, c: Cache, v: nat): (r: Cache)
    requires v < |c.bufs| && |c.chains| > 0
  {
    var b := Bucket(h, c, c.bufs[v].key);
    c.(chains := c.chains[b := Without(c.chains[b], v)])
  }

  /** Read a block into a detached buffer; `readOk` is the device's answer. */
  function Fill(h: Hash, c: Cache, v: nat, k: Key, readOk: bool): (r: (Cache, bool))
    requires v < |c.bufs| && |c.chains| > 0
  {
    if !readOk || k !in c.disk then
      (SetBuf(c, v, c.bufs[v].(key := Key(0, 0), valid := false, dirty := false)), false)
    else
      var t := SetBuf(c, v, Buf(k, 1, true, false, c.disk[k]));
      var b := Bucket(h, t, k);
      (Touch(t.(chains := t.chains[b := [v] + t.chains[b]]), v), true)
  }

  /** bcache_get on a miss, once a victim is chosen. */
  function Refill(h: Hash, c: Cache, v: nat, k: Key, io: WriteIo, readOk: bool): (r: (Cache, Option<nat>))
    requires v < |c.bufs| && |c.chains| > 0
  {
    var (t, ok) := Writeback(c, v, io);
    if !ok then (t, None)
    else
      var u := if t.bufs[v].valid then Unhash(h, t, v) else t;
      var (w, filled) := Fill(h, u, v, k, readOk);
      (w, if filled then Some(v) else None)
  }

  ghost predicate InRange(c: Cache) {
    && |c.chains| > 0
    && (forall b :: 0 <= b < |c.chains| ==> Below(c.chains[b], |c.bufs|))
    && Below(c.lru, |c.bufs|)
  }

  /** bcache_get. */
  function Get(h: Hash, c: Cache, k: Key, io: WriteIo, readOk: bool): (r: (Cache, Option<nat>))
    requires InRange(c)
  {
    var hit := LookupIn(c.bufs, c.chains[Bucket(h, c, k)], k);
    if hit.Some? then
      (Touch(SetBuf(c, hit.value, c.bufs[hit.value].(refcnt := c.bufs[hit.value].refcnt + 1)), hit.value), hit)
    else
      var v := Evictable(c.bufs, c.lru);
      if v.None? then (c, None) else Refill(h, c, v.value, k, io, readOk)
  }

  /** bcache_put. */
  function Put(c: Cache, i: nat): (r: Cache)
    requires i < |c.bufs|
  {
    if c.bufs[i].refcnt == 0 then c else SetBuf(c, i, c.bufs[i].(refcnt := c.bufs[i].refcnt - 1))
  }

  /** A holder overwrites the data and calls bcache_mark_dirty. */
  function Write(c: Cache, i: nat, data: Block): (r: Cache)
    requires i < |c.bufs|
  {
    var b := c.bufs[i];
    if !b.valid then SetBuf(c, i, b.(data := data))
    else SetBuf(c, i, b.(data := data, dirty := true)).(dirtyBufs := if b.dirty then c.dirtyBufs else c.dirtyBufs + 1)
  }

  /** The write-back loop of bcache_sync_dev (dev given) and bcache_sync_all (no dev). */
  function SyncFrom(c: Cache, dev: Option<nat>, i: nat, io: seq<WriteIo>, ok: bool): (r: (Cache, bool))
    requires i <= |c.bufs|
    decreases |c.bufs| - i
  {
    if i == |c.bufs| then (c, ok)
    else if !c.bufs[i].valid || (dev.Some? && c.bufs[i].key.dev != dev.value) || !c.bufs[i].dirty then
      SyncFrom(c, dev, i + 1, io, ok)
    else
      var (t, done) := Writeback(c, i, if i < |io| then io[i] else WriteOk);
      SyncFrom(t, dev, i + 1, io, ok && done)
  }
}
