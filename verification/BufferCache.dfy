/** bcache.c as it runs: singly linked hash chains and a doubly linked recency list, threaded through
    link fields of a fixed table of buffers. Every method is proved against CacheModel. */
module BufferCache {
  import opened Base
  import opened IndexLists
  import opened CacheModel
  import opened CacheInvariant

  lemma {:induction false} WithoutAt(s: seq<nat>, p: nat)
    requires p < |s| && s[p] !in s[..p]
    ensures Without(s, s[p]) == s[..p] + s[p + 1..]
  {
    if p > 0 {
      assert s[1..][p - 1] == s[p];
      assert s[1..][..p - 1] == s[1..p];
      assert forall j :: 1 <= j < p ==> s[j] == s[..p][j];
      WithoutAt(s[1..], p - 1);
      assert s[0] == s[..p][0];
      assert [s[0]] + (s[1..][..p - 1] + s[1..][p..]) == s[..p] + s[p + 1..];
    }
  }

  lemma {:induction false} NotThere(s: seq<nat>, x: nat)
    requires x !in s
    ensures Without(s, x) == s
  {
    if s != [] {
      NotThere(s[1..], x);
      assert s == [s[0]] + s[1..];
    }
  }

  /** Recency list: forward through `next` from the head, backward through `prev` from the tail. */
  ghost predicate Recency(prev: seq<int>, next: seq<int>, head: int, tail: int, s: seq<nat>) {
    NoDup(s) && Chained(next, head, s) && ChainedBack(prev, tail, s)
  }

  /** What the two link fields say about position p. */
  lemma Neighbours(prev: seq<int>, next: seq<int>, head: int, tail: int, s: seq<nat>, p: nat)
    requires Recency(prev, next, head, tail, s) && p < |s| && |prev| == |next|
    ensures s[p] < |prev|
    ensures next[s[p]] == (if p + 1 < |s| then s[p + 1] else NIL)
            && (p + 1 < |s| ==> s[p + 1] < |prev| && s[p + 1] != s[p])
    ensures prev[s[p]] == (if p > 0 then s[p - 1] else NIL) && (p > 0 ==> s[p - 1] < |prev| && s[p - 1] != s[p])
    ensures (head == s[p] <==> p == 0) && (tail == s[p] <==> p == |s| - 1)
    ensures p + 1 < |s| && p > 0 ==> s[p + 1] != s[p - 1]
  {
  }

  lemma Unlinked(prev: seq<int>, next: seq<int>, head: int, tail: int, s: seq<nat>, p: nat, prev': seq<int>,
      next': seq<int>)
    requires Recency(prev, next, head, tail, s) && p < |s| && |prev| == |next| && s[p] < |prev|
    requires p > 0 ==> s[p - 1] < |prev|
    requires p + 1 < |s| ==> s[p + 1] < |prev|
    requires next' == if p > 0 then next[s[p - 1] := next[s[p]]][s[p] := NIL] else next[s[p] := NIL]
    requires prev' == if p + 1 < |s| then prev[s[p + 1] := prev[s[p]]][s[p] := NIL] else prev[s[p] := NIL]
    ensures var t := s[..p] + s[p + 1..];
            && t == Without(s, s[p]) && s[p] !in t
            && Recency(prev', next', if p > 0 then head else next[s[p]], if p + 1 < |s| then tail else prev[s[p]], t)
  {
    ChainedCut(next, head, s, p, next');
    BackCut(prev, tail, s, p, prev');
    WithoutAt(s, p);
    WithoutNoDup(s, s[p]);
  }

  /** Every bucket's chain, all threaded through one link field without sharing a buffer. */
  ghost predicate Buckets(hnext: seq<int>, ht: seq<int>, chains: seq<seq<nat>>) {
    && |ht| == |chains|
    && (forall b :: 0 <= b < |chains| ==> Chained(hnext, ht[b], chains[b]) && NoDup(chains[b]))
    && PairwiseApart(chains)
  }

  ghost predicate Apart(s: seq<nat>, t: seq<nat>) { forall i, j :: 0 <= i < |s| && 0 <= j < |t| ==> s[i] != t[j] }

  lemma ApartWithout(s: seq<nat>, t: seq<nat>, x: nat)
    requires Apart(s, t)
    ensures Apart(s, Without(t, x)) && Apart(Without(t, x), s)
  {
    var u := Without(t, x);
    forall i, j | 0 <= i < |s| && 0 <= j < |u| ensures s[i] != u[j] { assert u[j] in t; }
  }

  /** A chain apart from s does not notice writes to the link fields of s. */
  lemma ApartFrame(link: seq<int>, head: int, t: seq<nat>, s: seq<nat>, link': seq<int>)
    requires Chained(link, head, t) && Apart(t, s) && |link'| == |link|
    requires forall x :: 0 <= x < |link| && x !in s ==> link'[x] == link[x]
    ensures Chained(link', head, t)
  {
    ChainedFrame(link, head, t, link');
  }

  ghost predicate PairwiseApart(chains: seq<seq<nat>>) {
    forall a, b :: 0 <= a < b < |chains| ==> Apart(chains[a], chains[b])
  }

  lemma ApartAfterCut(chains: seq<seq<nat>>, b: nat, x: nat)
    requires PairwiseApart(chains) && b < |chains|
    ensures PairwiseApart(chains[b := Without(chains[b], x)])
  {
    var cs := chains[b := Without(chains[b], x)];
    forall i, j | 0 <= i < j < |cs| ensures Apart(cs[i], cs[j]) {
      assert Apart(chains[i], chains[j]);
      if i == b { assert Apart(chains[j], chains[b]); ApartWithout(chains[j], chains[b], x); }
      if j == b { ApartWithout(chains[i], chains[b], x); }
    }
  }

  /** Unlinking position p of bucket b. */
  lemma BucketsCut(hnext: seq<int>, ht: seq<int>, chains: seq<seq<nat>>, b: nat, p: nat, hnext': seq<int>,
      ht': seq<int>)
    requires Buckets(hnext, ht, chains) && b < |chains| && p < |chains[b]| && Below(chains[b], |hnext|)
    requires hnext' == if p > 0 then hnext[chains[b][p - 1] := hnext[chains[b][p]]][chains[b][p] := NIL]
                       else hnext[chains[b][p] := NIL]
    requires ht' == if p > 0 then ht else ht[b := hnext[chains[b][p]]]
    ensures Buckets(hnext', ht', chains[b := Without(chains[b], chains[b][p])])
  {
    hide Chained, NoDup, Apart, Without, PairwiseApart;
    var s := chains[b];
    var cs := chains[b := Without(s, s[p])];
    CutOne(hnext, ht[b], s, p, hnext');
    ApartAfterCut(chains, b, s[p]);
    forall a | 0 <= a < |cs| && a != b ensures Chained(hnext', ht'[a], cs[a]) {
      PairApart(chains, a, b);
      ApartFrame(hnext, ht[a], chains[a], s, hnext');
    }
  }

  lemma PairApart(chains: seq<seq<nat>>, a: nat, b: nat)
    requires PairwiseApart(chains) && a < |chains| && b < |chains| && a != b
    ensures Apart(chains[a], chains[b])
  {
    assert Apart(chains[if a < b then a else b], chains[if a < b then b else a]);
  }

  lemma CutOne(hnext: seq<int>, head: int, s: seq<nat>, p: nat, hnext': seq<int>)
    requires Chained(hnext, head, s) && NoDup(s) && p < |s| && Below(s, |hnext|)
    requires hnext' == if p > 0 then hnext[s[p - 1] := hnext[s[p]]][s[p] := NIL] else hnext[s[p] := NIL]
    ensures Chained(hnext', if p > 0 then head else hnext[s[p]], Without(s, s[p])) && NoDup(Without(s, s[p]))
  {
    ChainedCut(hnext, head, s, p, hnext');
    WithoutAt(s, p);
    WithoutNoDup(s, s[p]);
  }

  /** Pushing a buffer that is on no chain at the head of bucket b. */
  lemma BucketsPush(hnext: seq<int>, ht: seq<int>, chains: seq<seq<nat>>, b: nat, v: nat)
    requires Buckets(hnext, ht, chains) && b < |chains| && v < |hnext|
    requires forall a :: 0 <= a < |chains| ==> v !in chains[a]
    ensures Buckets(hnext[v := ht[b]], ht[b := v], chains[b := [v] + chains[b]])
  {
    hide Chained, PairwiseApart, Apart;
    var hnext', ht', cs := hnext[v := ht[b]], ht[b := v], chains[b := [v] + chains[b]];
    ChainedPush(hnext, ht[b], chains[b], v);
    assert NoDup(cs[b]) by { assert v !in chains[b]; }
    ApartAfterPush(chains, b, v);
    forall a | 0 <= a < |cs| && a != b ensures Chained(hnext', ht'[a], cs[a]) {
      assert v !in chains[a];
      OffChain(hnext, ht[a], chains[a], v);
      ChainedFrame(hnext, ht[a], chains[a], hnext');
    }
  }

  lemma OffChain(link: seq<int>, head: int, s: seq<nat>, v: nat)
    requires Chained(link, head, s) && v !in s
    ensures forall j :: 0 <= j < |s| ==> s[j] < |link| && s[j] != v
  {
  }

  lemma ApartAfterPush(chains: seq<seq<nat>>, b: nat, v: nat)
    requires PairwiseApart(chains) && b < |chains| && forall a :: 0 <= a < |chains| ==> v !in chains[a]
    ensures PairwiseApart(chains[b := [v] + chains[b]])
  {
    var cs := chains[b := [v] + chains[b]];
    forall i, j | 0 <= i < j < |cs| ensures Apart(cs[i], cs[j]) {
      assert Apart(chains[i], chains[j]);
      assert v !in chains[i] && v !in chains[j];
    }
  }

  class Bcache {
    const bufs: array<Buf>
    const hnext: array<int>
    const ht: array<int>
    const prev: array<int>
    const next: array<int>
    const hash: Hash
    var lruHead: int
    var lruTail: int
    var dirtyBufs: nat
    var disk: map<Key, Block>
    ghost var chains: seq<seq<nat>>
    ghost var lru: seq<nat>

    ghost predicate Layout() {
      && hnext != ht && hnext != prev && hnext != next && ht != prev && ht != next && prev != next
      && hnext.Length == prev.Length == next.Length == bufs.Length
    }

    ghost predicate LruLinked()
      reads `lruHead, `lruTail, `lru, prev, next
    {
      Layout() && Recency(prev[..], next[..], lruHead, lruTail, lru)
    }

    lemma LayoutHolds()
      requires LruLinked()
      ensures Layout()
    {
    }

    ghost predicate HashLinked()
      reads `chains, hnext, ht
    {
      Layout() && Buckets(hnext[..], ht[..], chains)
    }

    ghost function Abs(): (c: Cache)
      reads this, bufs
    {
      Cache(bufs[..], chains, lru, disk, dirtyBufs)
    }

    ghost predicate Valid()
      reads this, bufs, hnext, ht, prev, next
    {
      LruLinked() && HashLinked() && Inv(hash, Abs())
    }

    /** bcache_init. `pages[i]` says whether the page for buffer i could be allocated: a buffer without one
        never enters the recency list and is never used. */
    constructor (numBufs: nat, h: Hash, pages: seq<bool>, d: map<Key, Block>)
      ensures Valid() && disk == d && hash == h && bufs.Length == (if numBufs == 0 then 128 else numBufs)
      ensures forall i :: 0 <= i < bufs.Length ==> !bufs[i].valid
      ensures forall i :: 0 <= i < bufs.Length ==> (i in lru <==> !(i < |pages| && !pages[i]))
    {
      var n := if numBufs == 0 then 128 else numBufs;
      hash, disk, dirtyBufs := h, d, 0;
      bufs := new Buf[n](_ => Buf(Key(0, 0), 0, false, false, []));
      hnext := new int[n](_ => NIL);
      ht := new int[2 * n + 1](_ => NIL);
      prev := new int[n](_ => NIL);
      next := new int[n](_ => NIL);
      lruHead, lruTail, lru := NIL, NIL, [];
      chains := seq(2 * n + 1, _ => []);
      new;
      assert HashLinked();
      for i := 0 to n
        invariant LruLinked() && HashLinked() && Below(lru, i)
        invariant chains == seq(2 * n + 1, _ => []) && dirtyBufs == 0 && disk == d
        invariant forall j :: 0 <= j < n ==> bufs[j] == Buf(Key(0, 0), 0, false, false, [])
        invariant forall j :: 0 <= j < i ==> (j in lru <==> !(j < |pages| && !pages[j]))
      {
        if !(i < |pages| && !pages[i]) {
          LruPushFront(i);
        }
      }
      EmptyInv();
    }

    lemma EmptyInv()
      requires LruLinked() && HashLinked() && dirtyBufs == 0 && |chains| > 0
      requires forall b :: 0 <= b < |chains| ==> chains[b] == []
      requires forall j :: 0 <= j < bufs.Length ==> bufs[j] == Buf(Key(0, 0), 0, false, false, [])
      ensures Inv(hash, Abs())
    {
      var c := Abs();
      NoneDirty(c.bufs);
      forall b | 0 <= b < |c.chains| ensures ChainOk(hash, c, b) { }
    }

    // -------------------------------------------------------------- recency list

    method LruRemove(b: nat)
      requires LruLinked() && b in lru
      modifies `lruHead, `lruTail, `lru, prev, next
      ensures LruLinked() && lru == Without(old(lru), b) && b !in lru
    {
      hide Chained, ChainedBack, NoDup, Without;
      ghost var p :| 0 <= p < |lru| && lru[p] == b;
      ghost var pv, nx := prev[..], next[..];
      Neighbours(pv, nx, lruHead, lruTail, lru, p);
      var before, after := prev[b], next[b];
      if before != NIL { next[before] := after; }
      if after != NIL { prev[after] := before; }
      if lruHead == b { lruHead := after; }
      if lruTail == b { lruTail := before; }
      prev[b], next[b] := NIL, NIL;
      Unlinked(pv, nx, old(lruHead), old(lruTail), lru, p, prev[..], next[..]);
      lru := lru[..p] + lru[p + 1..];
    }

    method LruPushFront(b: nat)
      requires LruLinked() && b < bufs.Length && b !in lru
      modifies `lruHead, `lruTail, `lru, prev, next
      ensures LruLinked() && lru == [b] + old(lru)
    {
      ghost var pv, nx := prev[..], next[..];
      prev[b] := NIL;
      next[b] := lruHead;
      if lruHead != NIL { prev[lruHead] := b; }
      BackPush(pv, lruTail, lru, b, prev[..]);
      ChainedPush(nx, lruHead, lru, b);
      lruHead := b;
      if lruTail == NIL { lruTail := b; }
      lru := [b] + lru;
    }

    method LruTouch(b: nat)
      requires LruLinked() && b in lru
      modifies `lruHead, `lruTail, `lru, prev, next
      ensures LruLinked() && lru == [b] + Without(old(lru), b)
    {
      LruRange(b);
      LruRemove(b);
      LruPushFront(b);
    }

    lemma LruRange(b: nat)
      requires LruLinked() && b in lru
      ensures b < bufs.Length
    {
    }

    /** The least recently used buffer that nobody holds. */
    method FindEvictable() returns (r: Option<nat>)
      requires LruLinked()
      ensures Below(lru, bufs.Length) && r == Evictable(bufs[..], lru)
    {
      ghost var n := |lru|;
      var cur := lruTail;
      assert lru[..n] == lru;
      while cur != NIL
        invariant 0 <= n <= |lru| && cur == (if n > 0 then lru[n - 1] else NIL)
        invariant Evictable(bufs[..], lru[..n]) == Evictable(bufs[..], lru)
        decreases n
      {
        assert lru[..n][n - 1] == lru[n - 1] && lru[..n][..n - 1] == lru[..n - 1];
        if bufs[cur].refcnt == 0 {
          return Some(cur);
        }
        assert prev[..][lru[n - 1]] == (if n - 1 > 0 then lru[n - 2] else NIL);
        cur := prev[cur];
        n := n - 1;
      }
      return None;
    }

    // -------------------------------------------------------------- hash chains

    lemma ChainShape(b: nat)
      requires HashLinked() && b < |chains|
      ensures |chains| == ht.Length && Below(chains[b], bufs.Length)
      ensures ht[b] == (if chains[b] == [] then NIL else chains[b][0])
      ensures forall j {:trigger hnext[chains[b][j]]} :: 0 <= j < |chains[b]| ==>
                hnext[chains[b][j]] == (if j + 1 < |chains[b]| then chains[b][j + 1] else NIL)
      ensures NoDup(chains[b])
    {
      assert Chained(hnext[..], ht[..][b], chains[b]);
      forall j | 0 <= j < |chains[b]|
        ensures hnext[chains[b][j]] == (if j + 1 < |chains[b]| then chains[b][j + 1] else NIL)
      {
        assert hnext[..][chains[b][j]] == hnext[chains[b][j]];
      }
    }

    method HtLookup(k: Key) returns (r: Option<nat>)
      requires HashLinked() && |chains| > 0
      ensures Below(chains[Bucket(hash, Abs(), k)], bufs.Length)
      ensures r == LookupIn(bufs[..], chains[Bucket(hash, Abs(), k)], k)
    {
      ghost var b := Bucket(hash, Abs(), k);
      ghost var s := chains[b];
      ChainShape(b);
      hide HashLinked;
      var cur := ht[hash(k) % ht.Length];
      ghost var n := 0;
      assert s[0..] == s;
      while cur != NIL
        invariant 0 <= n <= |s| && cur == (if n < |s| then s[n] else NIL)
        invariant LookupIn(bufs[..], s[n..], k) == LookupIn(bufs[..], s, k)
        decreases |s| - n
      {
        assert s[n..][0] == s[n] && s[n..][1..] == s[n + 1..];
        if bufs[cur].valid && bufs[cur].key == k {
          return Some(cur);
        }
        assert hnext[s[n]] == (if n + 1 < |s| then s[n + 1] else NIL);
        cur := hnext[cur];
        n := n + 1;
      }
      return None;
    }

    method HtRemove(v: nat)
      requires HashLinked() && |chains| > 0 && v < bufs.Length
      modifies `chains, hnext, ht
      ensures HashLinked() && Abs() == Unhash(hash, old(Abs()), v)
    {
      ghost var b := Bucket(hash, Abs(), bufs[v].key);
      ghost var s := chains[b];
      ChainShape(b);
      hide Buckets;
      var idx := hash(bufs[v].key) % ht.Length;
      var cur, before := ht[idx], NIL;
      ghost var n, hn, h0 := 0, hnext[..], ht[..];
      while cur != NIL
        invariant 0 <= n <= |s| && cur == (if n < |s| then s[n] else NIL)
        invariant before == (if n > 0 then s[n - 1] else NIL) && v !in s[..n]
        invariant hnext[..] == hn && ht[..] == h0
        decreases |s| - n
      {
        assert hnext[s[n]] == (if n + 1 < |s| then s[n + 1] else NIL);
        if cur == v {
          if before != NIL { hnext[before] := hnext[cur]; } else { ht[idx] := hnext[cur]; }
          hnext[cur] := NIL;
          BucketsCut(hn, h0, chains, b, n, hnext[..], ht[..]);
          chains := chains[b := Without(s, v)];
          return;
        }
        assert s[..n + 1] == s[..n] + [s[n]];
        before := cur;
        cur := hnext[cur];
        n := n + 1;
      }
      assert s[..n] == s;
      NotThere(s, v);
      assert chains == chains[b := Without(s, v)];
    }

    method HtInsert(v: nat)
      requires HashLinked() && |chains| > 0 && v < bufs.Length
      requires forall a :: 0 <= a < |chains| ==> v !in chains[a]
      modifies `chains, hnext, ht
      ensures HashLinked()
      ensures var b := Bucket(hash, old(Abs()), bufs[v].key); chains == old(chains)[b := [v] + old(chains)[b]]
    {
      ghost var b := Bucket(hash, Abs(), bufs[v].key);
      ChainShape(b);
      hide Buckets;
      ghost var hn, h0 := hnext[..], ht[..];
      var idx := hash(bufs[v].key) % ht.Length;
      hnext[v] := ht[idx];
      ht[idx] := v;
      BucketsPush(hn, h0, chains, b, v);
      assert hnext[..] == hn[v := h0[b]] && ht[..] == h0[b := v];
      chains := chains[b := [v] + chains[b]];
    }

    // -------------------------------------------------------------- the public interface

    /** `io` is what the device does if a write is issued. */
    method WritebackOne(i: nat, io: WriteIo) returns (ok: bool)
      requires i < bufs.Length
      modifies `disk, `dirtyBufs, bufs
      ensures (Abs(), ok) == Writeback(old(Abs()), i, io)
    {
      var b := bufs[i];
      if !b.valid || !b.dirty {
        return true;
      }
      match io
      case WriteFails(torn) =>
        if torn.Some? { disk := disk[b.key := torn.value]; }
        return false;
      case WriteOk =>
        disk := disk[b.key := b.data];
        bufs[i] := b.(dirty := false);
        assert bufs[..] == old(bufs[..])[i := bufs[i]];
        if dirtyBufs > 0 { dirtyBufs := dirtyBufs - 1; }
        return true;
    }

    /** `io` and `readOk` are what the device does if the call needs it. */
    method Get(k: Key, io: WriteIo, readOk: bool) returns (r: Option<nat>)
      requires Valid()
      modifies this, bufs, hnext, ht, prev, next
      ensures Valid() && InRange(old(Abs())) && (Abs(), r) == CacheModel.Get(hash, old(Abs()), k, io, readOk)
    {
      hide Inv, LruLinked, HashLinked, Cached, InRange, Refill;
      GetOk(hash, Abs(), k, io, readOk, k);
      MissMeansUncached(hash, Abs(), k);
      LayoutHolds();
      r := HtLookup(k);
      if r.Some? {
        HitOnLru(r.value);
        Pin(r.value);
        return;
      }
      var victim := FindEvictable();
      if victim.None? {
        return None;
      }
      r := Reuse(victim.value, k, io, readOk);
    }

    /** A hit: one more holder, and the buffer becomes the most recent. */
    method Pin(i: nat)
      requires LruLinked() && HashLinked() && i in lru && i < bufs.Length
      modifies `lruHead, `lruTail, `lru, bufs, prev, next
      ensures LruLinked() && HashLinked()
      ensures Abs() ==
              Touch(old(Abs()).(bufs := old(bufs[..])[i := old(bufs[i]).(refcnt := old(bufs[i]).refcnt + 1)]), i)
    {
      hide LruLinked, Buckets;
      bufs[i] := bufs[i].(refcnt := bufs[i].refcnt + 1);
      assert bufs[..] == old(bufs[..])[i := bufs[i]];
      LruTouch(i);
    }

    lemma HitOnLru(i: nat)
      requires Inv(hash, Abs()) && i < bufs.Length && bufs[i].valid
      ensures i in lru
    {
    }

    /** The rest of bcache_get: empty the victim and read the block into it. */
    method Reuse(v: nat, k: Key, io: WriteIo, readOk: bool) returns (r: Option<nat>)
      requires LruLinked() && HashLinked() && Inv(hash, Abs()) && v in lru && v < bufs.Length && bufs[v].refcnt == 0
      requires |chains| > 0 && !Cached(Abs(), k)
      modifies this, bufs, hnext, ht, prev, next
      ensures LruLinked() && HashLinked()
      ensures (Abs(), r) == Refill(hash, old(Abs()), v, k, io, readOk)
    {
      ghost var c := Abs();
      LayoutHolds();
      hide Inv, LruLinked, HashLinked, Cached;
      var ok := WritebackOne(v, io);
      if !ok {
        return None;
      }
      EvictReady(hash, c, v, k, io);
      ReadyOffChains(if bufs[v].valid then Unhash(hash, Abs(), v) else Abs(), v, k);
      if bufs[v].valid {
        HtRemove(v);
      }
      ghost var u := Abs();
      if !readOk || k !in disk {
        bufs[v] := bufs[v].(key := Key(0, 0), valid := false, dirty := false);
        assert bufs[..] == u.bufs[v := bufs[v]];
        return None;
      }
      bufs[v] := Buf(k, 1, true, false, disk[k]);
      assert bufs[..] == u.bufs[v := bufs[v]];
      HtInsert(v);
      LruTouch(v);
      return Some(v);
    }

    lemma ReadyOffChains(c: Cache, v: nat, k: Key)
      requires ReadyToFill(hash, c, v, k)
      ensures |c.chains| > 0 && forall a :: 0 <= a < |c.chains| ==> v !in c.chains[a]
    {
    }

    method PutBuf(i: nat)
      requires Valid() && i < bufs.Length
      modifies bufs
      ensures Valid() && Abs() == Put(old(Abs()), i)
    {
      hide Inv, LruLinked, HashLinked;
      PutOk(hash, Abs(), i, Key(0, 0));
      if bufs[i].refcnt == 0 {
        return;
      }
      bufs[i] := bufs[i].(refcnt := bufs[i].refcnt - 1);
      assert bufs[..] == old(bufs[..])[i := bufs[i]];
    }

    /** A holder stores new data and marks the buffer dirty. */
    method WriteBuf(i: nat, data: Block)
      requires Valid() && i < bufs.Length && bufs[i].refcnt > 0
      modifies `dirtyBufs, bufs
      ensures Valid() && Abs() == Write(old(Abs()), i, data)
    {
      hide Inv, LruLinked, HashLinked;
      WriteOkView(hash, Abs(), i, data, Key(0, 0));
      bufs[i] := bufs[i].(data := data);
      if bufs[i].valid && !bufs[i].dirty {
        bufs[i] := bufs[i].(dirty := true);
        dirtyBufs := dirtyBufs + 1;
      }
      assert bufs[..] == old(bufs[..])[i := bufs[i]];
    }

    /** bcache_sync_dev and bcache_sync_all; `flushOk` is the device's answer to the final flush, if it is asked. */
    method Sync(dev: Option<nat>, io: seq<WriteIo>, flushOk: bool) returns (ok: bool)
      requires Valid()
      modifies `disk, `dirtyBufs, bufs
      ensures Valid() && Abs() == SyncFrom(old(Abs()), dev, 0, io, true).0
      ensures ok == (SyncFrom(old(Abs()), dev, 0, io, true).1 && (dev.Some? ==> flushOk))
    {
      hide Inv, LruLinked, HashLinked;
      SyncOk(hash, Abs(), dev, 0, io, true, Key(0, 0));
      ok := true;
      for i := 0 to bufs.Length
        invariant SyncFrom(Abs(), dev, i, io, ok) == SyncFrom(old(Abs()), dev, 0, io, true)
        invariant lru == old(lru) && chains == old(chains)
      {
        if bufs[i].valid && (dev.None? || bufs[i].key.dev == dev.value) && bufs[i].dirty {
          var done := WritebackOne(i, if i < |io| then io[i] else WriteOk);
          if !done { ok := false; }
        }
      }
      if dev.Some? && !flushOk { ok := false; }
    }
  }
}
