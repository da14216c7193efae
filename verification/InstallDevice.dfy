/** limine.c: the installer's one-block write-back cache, the log of overwritten ranges, and uninstall.
    A device call may fail at any time; a plan says how the device answers each call. */
module InstallDevice {
  import opened Base
  import opened UndoLog

  const NO_BLOCK := -1
  const UNINSTALL_DATA_MAX := 256

  /** The first byte of a block. */
  function Start(block: nat, size: nat): (p: nat) { block * size }

  /** The block a position falls in. */
  function BlockOf(p: nat, size: nat): (b: nat)
    requires size > 0
  {
    p / size
  }

  /** And the offset inside it: the two give the position back. */
  function OffsetOf(p: nat, size: nat): (o: nat)
    requires size > 0
    ensures o < size && Start(BlockOf(p, size), size) + o == p
  {
    assert p == (p / size) * size + p % size;
    p % size
  }

  /** Every byte of d is the byte of one of two older contents, or of a range laid over them. */
  ghost predicate Outside(d: Bytes, e: Record, before: Bytes, after: Bytes) {
    |d| == |before| == |after|
    && forall p :: 0 <= p < |d| ==> d[p] == before[p] || d[p] == after[p] || (Covers(e, p) && d[p] == e.data[p - e.loc])
  }

  /** What is asked of the machine, and how it may answer. A write that fails may have written some bytes of the block,
      and a read that fails may leave anything in the buffer. */
  datatype Call = Alloc | ReadBlock(block: int) | WriteBlock(block: int, bytes: Bytes)

  datatype Answer = Done | Fails(written: set<nat>, junk: Bytes)

  /** A block of which only some bytes reached the device. */
  function PartWritten(d: Bytes, e: Record, some: set<nat>): (r: Bytes)
    ensures |r| == |d|
    ensures forall p :: 0 <= p < |d| ==> r[p] == if Covers(e, p) && p - e.loc in some then e.data[p - e.loc] else d[p]
  {
    seq(|d|, p requires 0 <= p < |d| => if Covers(e, p) && p - e.loc in some then e.data[p - e.loc] else d[p])
  }

  // ---------- a device that fails once ----------

  /** The device fails the first write of a block that changes one byte; only that byte is written. A trap that is not
      armed never fails. */
  datatype Trap = Trap(pos: nat, value: Byte, armed: bool)

  predicate Bad(t: Trap, size: nat, c: Call)
    requires size > 0
  {
    t.armed && c.WriteBlock? && c.block == BlockOf(t.pos, size) && |c.bytes| == size
    && c.bytes[OffsetOf(t.pos, size)] != t.value
  }

  predicate AnyBad(t: Trap, size: nat, calls: seq<Call>)
    requires size > 0
  {
    exists i :: 0 <= i < |calls| && Bad(t, size, calls[i])
  }

  function TrapAnswer(t: Trap, size: nat, calls: seq<Call>): (a: Answer)
    requires size > 0
  {
    if calls != [] && Bad(t, size, calls[|calls| - 1]) && !AnyBad(t, size, calls[..|calls| - 1])
    then Fails({OffsetOf(t.pos, size)}, []) else Done
  }

  lemma BadNext(t: Trap, size: nat, calls: seq<Call>, c: Call)
    requires size > 0
    ensures AnyBad(t, size, calls + [c]) <==> AnyBad(t, size, calls) || Bad(t, size, c)
    ensures TrapAnswer(t, size, calls + [c]) ==
            if Bad(t, size, c) && !AnyBad(t, size, calls) then Fails({OffsetOf(t.pos, size)}, []) else Done
  {
    hide Bad;
    var l := calls + [c];
    assert l[..|calls|] == calls;
    if AnyBad(t, size, calls) { var i :| 0 <= i < |calls| && Bad(t, size, calls[i]); assert Bad(t, size, l[i]); }
    if Bad(t, size, c) { assert Bad(t, size, l[|calls|]); }
    if AnyBad(t, size, l) {
      var i :| 0 <= i < |l| && Bad(t, size, l[i]);
      assert i < |calls| ==> Bad(t, size, calls[i]);
    }
  }

  /** Where the last block of a range starts. */
  function LastStart(loc: nat, count: nat, size: nat): (p: nat)
    requires size > 0 && count > 0
  {
    Start(BlockOf(loc + count - 1, size), size)
  }

  /** Every block of a range is on the device. */
  predicate InDisk(loc: nat, count: nat, size: nat, len: nat)
    requires size > 0
  {
    count > 0 ==> LastStart(loc, count, size) + size <= len
  }

  lemma BlocksInDisk(loc: nat, count: nat, size: nat, len: nat, p: nat)
    requires size > 0 && InDisk(loc, count, size, len) && loc <= p < loc + count
    ensures Start(BlockOf(p, size), size) + size <= len
  {
    BlockMono(p, loc + count - 1, size);
  }

  /** A position before the end of the block of an earlier one is in that block. */
  lemma SameBlock(p: nat, q: nat, size: nat)
    requires size > 0 && p <= q < Start(BlockOf(p, size), size) + size
    ensures BlockOf(q, size) == BlockOf(p, size)
  {
    BlockMono(p, q, size);
    assert OffsetOf(q, size) < size;
    if BlockOf(p, size) < BlockOf(q, size) { MulGap(BlockOf(p, size), BlockOf(q, size), size); }
  }

  lemma NextBlock(p: nat, size: nat)
    requires size > 0
    ensures BlockOf(Start(BlockOf(p, size), size) + size, size) != BlockOf(p, size)
  {
    var e := Start(BlockOf(p, size), size) + size;
    assert OffsetOf(e, size) < size;
  }

  lemma BlockMono(p: nat, q: nat, size: nat)
    requires size > 0 && p <= q
    ensures BlockOf(p, size) <= BlockOf(q, size) && Start(BlockOf(p, size), size) <= Start(BlockOf(q, size), size)
  {
    var a, b := p / size, q / size;
    assert p == a * size + p % size && q == b * size + q % size;
    if b < a { MulGap(b, a, size); }
    MulMono(a, b, size);
  }

  /** A block boundary at or before a position is at or before the start of its block. */
  lemma BoundaryBeforeLast(p: nat, edge: nat, q: nat, size: nat)
    requires size > 0 && Start(BlockOf(p, size), size) + size == edge <= q
    ensures edge <= Start(BlockOf(q, size), size)
  {
    var a, b := p / size, q / size;
    assert q == b * size + q % size;
    assert (a + 1) * size == a * size + size;
    if b < a + 1 { MulMono(b, a, size); }
    MulMono(a + 1, b, size);
  }

  lemma AtLast(loc: nat, count: nat, size: nat)
    requires size > 0 && count > 0
    ensures LastStart(loc, count, size) == Start(BlockOf(loc + count - 1, size), size)
  {
  }

  /** The range of a write that touches nothing. */
  function Nowhere(): Record { Record(0, []) }

  /** Laying the next chunk over a partly written range. */
  lemma PatchNext(v: Bytes, loc: nat, buf: Bytes, n: nat, m: nat)
    requires n <= m <= |buf|
    ensures Patch(Patch(v, Record(loc, buf[..n])), Record(loc + n, buf[n..m])) == Patch(v, Record(loc, buf[..m]))
  {
    var one, all := Patch(v, Record(loc, buf[..n])), Patch(v, Record(loc, buf[..m]));
    forall p | 0 <= p < |v| ensures Patch(one, Record(loc + n, buf[n..m]))[p] == all[p] {
    }
  }

  lemma PatchNothing(v: Bytes, loc: nat)
    ensures Patch(v, Record(loc, [])) == v
  {
  }

  /** Writing part of a range and then the whole of it is writing the whole of it. */
  lemma PatchAgain(v: Bytes, loc: nat, buf: Bytes, n: nat)
    requires n <= |buf|
    ensures Patch(Patch(v, Record(loc, buf[..n])), Record(loc, buf)) == Patch(v, Record(loc, buf))
  {
    var one := Patch(v, Record(loc, buf[..n]));
    forall p | 0 <= p < |v| ensures Patch(one, Record(loc, buf))[p] == Patch(v, Record(loc, buf))[p] {
    }
  }

  /** A slice of the cached block is the slice of the device. */
  lemma BlockShows(d: Bytes, start: nat, c: Bytes, offset: nat, n: nat)
    requires offset + n <= |c| && start + |c| <= |d|
    ensures Patch(d, Record(start, c))[start + offset..start + offset + n] == c[offset..offset + n]
  {
  }

  /** A change inside the cached block is the same change in the device. */
  lemma PatchInBlock(d: Bytes, start: nat, c: Bytes, offset: nat, bytes: Bytes)
    requires offset + |bytes| <= |c|
    ensures Patch(d, Record(start, c[..offset] + bytes + c[offset + |bytes|..]))
         == Patch(Patch(d, Record(start, c)), Record(start + offset, bytes))
  {
    var c1 := c[..offset] + bytes + c[offset + |bytes|..];
    var one := Patch(d, Record(start, c));
    forall p | 0 <= p < |d| ensures Patch(d, Record(start, c1))[p] == Patch(one, Record(start + offset, bytes))[p] {
    }
  }

  /** The records in reverse. */
  function Reversed(log: seq<Record>): (r: seq<Record>) {
    seq(|log|, i requires 0 <= i < |log| => log[|log| - 1 - i])
  }

  /** Laying the newest records first is undoing. */
  lemma UndoNext(d: Bytes, log: seq<Record>, i: nat)
    requires i < |log|
    ensures Undo(d, log[i..]) == Patch(Undo(d, log[i + 1..]), log[i])
  {
    assert log[i..][0] == log[i] && log[i..][1..] == log[i + 1..];
  }

  /** The contents before a write, whether the cache was sound, and how the write meets the trap. */
  datatype Scene = Scene(disk: Bytes, settled: Bytes, sound: bool, steady: bool, springing: bool, sprung: bool,
      quiet: bool)

  class Device {
    var disk: Bytes
    const blockSize: nat
    var cache: Bytes
    var cachedBlock: int
    var dirty: bool
    var log: seq<Record>
    var uninstalling: bool
    const plan: seq<Call> -> Answer     // how the machine answers a call, given all calls up to it
    var calls: seq<Call>
    ghost const trap: Trap

    constructor (contents: Bytes, size: nat, answers: seq<Call> -> Answer, ghost t: Trap)
      requires size > 0
      ensures disk == contents && blockSize == size && plan == answers && trap == t && calls == []
      ensures Sound() && !dirty && cachedBlock == NO_BLOCK && log == [] && !uninstalling
    {
      disk, blockSize, plan, trap := contents, size, answers, t;
      cache, cachedBlock, dirty, log, uninstalling, calls := Zeros(size), NO_BLOCK, false, [], false, [];
    }

    /** The machine behaves as the trap says. */
    ghost predicate Trapped() {
      blockSize > 0 && forall h: seq<Call> :: plan(h) == TrapAnswer(trap, blockSize, h)
    }

    ghost predicate Sprung()
      requires blockSize > 0
      reads `calls
    {
      AnyBad(trap, blockSize, calls)
    }

    /** The machine will not fail any more. */
    ghost predicate Quiet()
      requires blockSize > 0
      reads `calls
    {
      !trap.armed || Sprung()
    }

    /** Nothing that is about to be written springs the trap. */
    ghost predicate Calm()
      reads `disk, `cache, `dirty, `cachedBlock, `calls
    {
      Shape() && Trapped() && (Quiet() || (trap.pos < |disk| && Settled()[trap.pos] == trap.value))
    }

    /** Writing the dirty block springs the trap. */
    ghost predicate Springs()
      reads `disk, `cache, `dirty, `cachedBlock, `calls
    {
      Shape() && Trapped() && trap.pos < |disk| && !Quiet() && dirty && cachedBlock == BlockOf(trap.pos, blockSize)
      && Settled()[trap.pos] != trap.value
    }

    /** One call: the machine answers. */
    method Ask(c: Call) returns (a: Answer)
      requires blockSize > 0
      modifies `calls
      ensures calls == old(calls) + [c] && a == plan(calls)
      ensures Sprung() <==> old(Sprung()) || Bad(trap, blockSize, c)
      ensures Trapped() ==>
              a == if Bad(trap, blockSize, c) && !old(Sprung())
                   then Fails({OffsetOf(trap.pos, blockSize)}, []) else Done
    {
      hide Bad, TrapAnswer, AnyBad, OffsetOf;
      BadNext(trap, blockSize, calls, c);
      calls := calls + [c];
      a := plan(calls);
    }

    ghost predicate Shape()
      reads `disk, `cache, `dirty, `cachedBlock
    {
      blockSize > 0 && |cache| == blockSize && (dirty ==> cachedBlock != NO_BLOCK)
      && (cachedBlock == NO_BLOCK || (cachedBlock >= 0 && Start(cachedBlock, blockSize) + blockSize <= |disk|))
    }

    /** The disk with the cached block laid over it. */
    ghost function View(): (v: Bytes)
      requires Shape()
      reads `disk, `cache, `dirty, `cachedBlock
      ensures |v| == |disk|
    {
      if cachedBlock == NO_BLOCK then disk else Patch(disk, Record(Start(cachedBlock, blockSize), cache))
    }

    /** What has been written so far, whether or not it reached the disk. */
    ghost function Settled(): (v: Bytes)
      requires Shape()
      reads `disk, `cache, `dirty, `cachedBlock
      ensures |v| == |disk|
    {
      if dirty then View() else disk
    }

    /** A clean cache shows the disk. A failed read breaks this: it may leave anything in a clean cache. */
    ghost predicate Sound()
      reads `disk, `cache, `dirty, `cachedBlock
    {
      Shape() && View() == Settled()
    }

    /** device_flush_cache. A failed write may leave some bytes of the block written. */
    method FlushCache() returns (ok: bool)
      requires Shape()
      modifies `disk, `dirty, `calls
      ensures Shape() && Settled() == old(Settled()) && (old(Sound()) ==> Sound())
      ensures Outside(disk, Nowhere(), old(disk), old(Settled()))
      ensures ok ==> !dirty && disk == old(Settled())
      ensures old(Calm()) ==> ok && Calm() && Sprung() == old(Sprung())
      ensures old(Springs()) ==> !ok && Sprung() && Calm() && disk[trap.pos] == old(Settled())[trap.pos]
    {
      hide Start, BlockOf, Bad, AnyBad, TrapAnswer, Trapped;
      if !dirty {
        return true;
      }
      var target := Record(Start(cachedBlock, blockSize), cache);
      FlushIsBad();
      var a := Ask(WriteBlock(cachedBlock, cache));
      if a.Fails? {
        disk := PartWritten(disk, target, a.written);
        return false;
      }
      disk := Written(disk, target);
      dirty := false;
      return true;
    }

    /** Writing the dirty block springs the trap exactly when it changes the trapped byte. */
    lemma FlushIsBad()
      requires Shape() && dirty
      ensures Bad(trap, blockSize, WriteBlock(cachedBlock, cache)) ==>
                trap.armed && trap.pos < |disk| && Settled()[trap.pos] != trap.value
      ensures trap.armed && cachedBlock == BlockOf(trap.pos, blockSize) ==>
                trap.pos < |disk| && Settled()[trap.pos] != trap.value ==>
                  Bad(trap, blockSize, WriteBlock(cachedBlock, cache))
    {
      hide BlockOf, Start;
      assert OffsetOf(trap.pos, blockSize) < blockSize;
    }

    /** A whole block written to the device. */
    static function Written(d: Bytes, e: Record): (r: Bytes)
      ensures r == Patch(d, e)
    {
      seq(|d|, p requires 0 <= p < |d| => if Covers(e, p) then e.data[p - e.loc] else d[p])
    }

    /** device_cache_block. It writes nothing new; a failed read may leave anything in the buffer. */
    method CacheBlock(block: nat) returns (ok: bool)
      requires Shape()
      modifies `disk, `dirty, `cache, `cachedBlock, `calls
      ensures Shape() && Settled() == old(Settled())
      ensures Outside(disk, Nowhere(), old(disk), old(Settled()))
      ensures ok ==> cachedBlock == block && (old(Sound()) ==> Sound())
      ensures old(Calm()) ==>
              Calm() && Sprung() == old(Sprung())
              && (ok <==> Start(block, blockSize) + blockSize <= |disk|)
      ensures old(Springs()) && block != old(cachedBlock) ==>
              !ok && Sprung() && Calm() && disk[trap.pos] == old(Settled())[trap.pos]
    {
      hide Start, BlockOf;
      if cachedBlock == block {
        return true;
      }
      if dirty {
        var flushed := FlushCache();
        if !flushed {
          return false;
        }
      }
      var a := Ask(ReadBlock(block));
      if a.Fails? || Start(block, blockSize) + blockSize > |disk| {
        if a.Fails? && |a.junk| == blockSize {
          cache := a.junk;
        }
        return false;
      }
      cache := disk[Start(block, blockSize)..Start(block, blockSize) + blockSize];
      cachedBlock := block;
      assert Patch(disk, Record(Start(block, blockSize), cache)) == disk;
      return true;
    }

    /** One turn of the loop of _device_read: the next bytes of the range that share a block. */
    method ReadChunk(pos: nat, left: nat) returns (ok: bool, chunk: Bytes)
      requires Sound() && left > 0
      modifies `disk, `dirty, `cache, `cachedBlock, `calls
      ensures Shape() && Settled() == old(Settled())
      ensures Outside(disk, Nowhere(), old(disk), old(Settled()))
      ensures ok ==> Sound() && 0 < |chunk| <= left && pos + |chunk| <= |Settled()|
      ensures ok ==> chunk == Settled()[pos..pos + |chunk|]
      ensures ok ==> pos + |chunk| <= Start(BlockOf(pos, blockSize), blockSize) + blockSize <= |disk|
      ensures old(Calm()) ==> Calm() && Sprung() == old(Sprung())
      ensures old(Calm()) && Start(BlockOf(pos, blockSize), blockSize) + blockSize <= |disk| ==> ok
    {
      hide Start, BlockOf, OffsetOf;
      ok := CacheBlock(BlockOf(pos, blockSize));
      chunk := [];
      if ok {
        var offset := OffsetOf(pos, blockSize);
        var n := if left > blockSize - offset then blockSize - offset else left;
        chunk := cache[offset..offset + n];
        BlockShows(disk, Start(cachedBlock, blockSize), cache, offset, n);
      }
    }

    /** _device_read: the bytes as written so far, whatever is cached. */
    method Read(loc: nat, count: nat) returns (ok: bool, data: Bytes)
      requires Sound()
      modifies `disk, `dirty, `cache, `cachedBlock, `calls
      ensures Shape() && Settled() == old(Settled())
      ensures Outside(disk, Nowhere(), old(disk), old(Settled()))
      ensures ok ==> Sound() && |data| == count
      ensures ok && count > 0 ==> loc + count <= |Settled()| && data == Settled()[loc..loc + count]
      ensures ok ==> InDisk(loc, count, blockSize, |disk|)
      ensures old(Calm()) ==> Calm() && Sprung() == old(Sprung()) && (InDisk(loc, count, blockSize, |disk|) ==> ok)
    {
      hide View, Start, BlockOf, LastStart;
      ghost var d0, v0, calm, sprung := disk, Settled(), Calm(), Sprung();
      data := [];
      while |data| < count
        invariant Sound() && Settled() == v0 && Outside(disk, Nowhere(), d0, v0)
        invariant |data| <= count && |disk| == |d0|
        invariant |data| > 0 ==> loc + |data| <= |v0| && data == v0[loc..loc + |data|]
        invariant |data| == count ==> InDisk(loc, count, blockSize, |disk|)
        invariant calm ==> Calm() && Sprung() == sprung
        decreases count - |data|
      {
        if InDisk(loc, count, blockSize, |disk|) { BlocksInDisk(loc, count, blockSize, |disk|, loc + |data|); }
        ghost var pos := loc + |data|;
        var chunk;
        ok, chunk := ReadChunk(loc + |data|, count - |data|);
        if !ok {
          return;
        }
        assert v0[loc..loc + |data| + |chunk|] == v0[loc..loc + |data|] + v0[loc + |data|..loc + |data| + |chunk|];
        if |data| + |chunk| == count {
          SameBlock(pos, loc + count - 1, blockSize);
          AtLast(loc, count, blockSize);
        }
        data := data + chunk;
      }
      ok := true;
    }

    /** Bytes copied into the cached block, which is then dirty. */
    method Overlay(offset: nat, bytes: Bytes)
      requires Shape() && cachedBlock != NO_BLOCK && offset + |bytes| <= blockSize
      modifies `cache, `dirty
      ensures Shape() && dirty
      ensures View() == Patch(old(View()), Record(Start(cachedBlock, blockSize) + offset, bytes))
    {
      hide Start;
      PatchInBlock(disk, Start(cachedBlock, blockSize), cache, offset, bytes);
      cache := cache[..offset] + bytes + cache[offset + |bytes|..];
      dirty := true;
    }

    /** One turn of the loop of _device_write. */
    method WriteChunk(pos: nat, bytes: Bytes) returns (ok: bool, n: nat)
      requires Shape() && |bytes| > 0
      modifies `disk, `dirty, `cache, `cachedBlock, `calls
      ensures Shape() && |disk| == old(|disk|) && n <= |bytes| && (ok ==> n > 0) && (!ok ==> n == 0)
      ensures Outside(disk, Nowhere(), old(disk), old(Settled()))
      ensures ok && n < |bytes| ==> Start(BlockOf(pos, blockSize), blockSize) + blockSize == pos + n
      ensures ok ==> dirty && cachedBlock == BlockOf(pos, blockSize)
                     && pos + n <= Start(BlockOf(pos, blockSize), blockSize) + blockSize <= |disk|
      ensures old(Calm()) ==> Sprung() == old(Sprung()) && (Quiet() ==> Calm()) && (!ok ==> Calm())
                              && (ok <==> Start(BlockOf(pos, blockSize), blockSize) + blockSize <= |disk|)
      ensures old(Springs()) && BlockOf(pos, blockSize) != old(cachedBlock) ==>
                !ok && Sprung() && Calm() && disk[trap.pos] == old(Settled())[trap.pos]
      ensures old(Sound()) ==> Settled() == Patch(old(Settled()), Record(pos, bytes[..n])) && (ok ==> Sound())
    {
      hide Start, BlockOf, OffsetOf, Patch;
      ok := CacheBlock(BlockOf(pos, blockSize));
      n := 0;
      if ok {
        var offset := OffsetOf(pos, blockSize);
        n := if |bytes| > blockSize - offset then blockSize - offset else |bytes|;
        Overlay(offset, bytes[..n]);
      } else {
        PatchNothing(Settled(), pos);
        assert bytes[..0] == [];
      }
    }

    /** The disk after one more chunk is between the contents before and the bytes laid down so far. */
    static lemma OutsideNext(d: Bytes, q: Bytes, d0: Bytes, v0: Bytes, loc: nat, buf: Bytes, n: nat, m: nat)
      requires n <= m <= |buf| && Outside(q, Record(loc, buf[..n]), d0, v0)
      requires Outside(d, Nowhere(), q, Patch(v0, Record(loc, buf[..n])))
      ensures Outside(d, Record(loc, buf[..m]), d0, v0)
    {
    }

    /** A write that leaves the trap alone, or comes after it. */
    ghost predicate Steady(loc: nat, count: nat)
      reads `disk, `cache, `dirty, `cachedBlock, `calls
    {
      Calm() && InDisk(loc, count, blockSize, |disk|) && (Quiet() || (Sound() && !(loc <= trap.pos < loc + count)))
    }

    /** A write that changes the trapped byte before its last block. */
    ghost predicate Springing(loc: nat, buf: Bytes)
      reads `disk, `cache, `dirty, `cachedBlock, `calls
    {
      Calm() && !Quiet() && Sound() && InDisk(loc, |buf|, blockSize, |disk|)
      && loc <= trap.pos < loc + |buf| && trap.pos < LastStart(loc, |buf|, blockSize)
      && buf[trap.pos - loc] != trap.value
    }

    /** One turn of the loop of a write that will spring the trap: it is ahead, or the block is in the cache and
        dirty. */
    ghost predicate Armed(loc: nat, buf: Bytes, progress: nat)
      reads `disk, `cache, `dirty, `cachedBlock, `calls
    {
      Shape() && if loc + progress <= trap.pos then Calm() && !Quiet()
      else loc <= trap.pos < loc + |buf| && Springs() && BlockOf(loc + progress, blockSize) != cachedBlock
           && Settled()[trap.pos] == buf[trap.pos - loc]
    }

    /** Bytes laid down elsewhere leave the trapped byte as it was. */
    lemma StaysCalm(v: Bytes, loc: nat, bytes: Bytes, quiet: bool)
      requires Shape() && Trapped() && |disk| == |v| && Quiet() == quiet && (quiet ==> Calm())
      requires !quiet ==> trap.pos < |disk| && Settled() == Patch(v, Record(loc, bytes)) && v[trap.pos] == trap.value
                          && !(loc <= trap.pos < loc + |bytes|)
      ensures Calm()
    {
      hide Start;
    }

    /** The chunk that holds the trapped byte leaves its block in the cache, dirty, with more to come. */
    lemma StaysArmed(v: Bytes, loc: nat, buf: Bytes, n: nat, m: nat)
      requires Shape() && Trapped() && trap.pos < |disk| == |v| && !Quiet() && n < m <= |buf|
      requires loc + n <= trap.pos < loc + |buf| && v[trap.pos] == trap.value != buf[trap.pos - loc]
      requires Settled() == Patch(v, Record(loc, buf[..m])) && trap.pos < LastStart(loc, |buf|, blockSize)
      requires dirty && cachedBlock == BlockOf(loc + n, blockSize)
      requires loc + m <= Start(BlockOf(loc + n, blockSize), blockSize) + blockSize
      requires m < |buf| ==> loc + m == Start(BlockOf(loc + n, blockSize), blockSize) + blockSize
      ensures m < |buf| && Armed(loc, buf, m)
    {
      hide Start, BlockOf, View;
      if loc + m <= trap.pos {
        StaysCalm(v, loc, buf[..m], false);
      } else {
        SameBlock(loc + n, trap.pos, blockSize);
        assert Start(BlockOf(loc + n, blockSize), blockSize) + OffsetOf(loc + n, blockSize) == loc + n;
        if m == |buf| { SameBlock(loc + n, loc + |buf| - 1, blockSize); }
        NextBlock(loc + n, blockSize);
      }
    }

    /** What the loop of _device_write keeps, with the contents before it and which of the two kinds of write it is. */
    ghost predicate Going(sc: Scene, loc: nat, buf: Bytes, progress: nat)
      reads `disk, `cache, `dirty, `cachedBlock, `calls
    {
      progress <= |buf| && Shape() && |disk| == |sc.disk| == |sc.settled|
      && (0 < progress < |buf| ==> loc + progress <= LastStart(loc, |buf|, blockSize))
      && (sc.sound ==> Sound() && Laid(sc, loc, buf, progress))
      && (sc.steady ==> Calm() && Sprung() == sc.sprung && Quiet() == sc.quiet)
      && (sc.springing ==> progress < |buf| && Armed(loc, buf, progress))
    }

    /** A prefix of the buffer is laid down; the disk lags behind. */
    ghost predicate Laid(sc: Scene, loc: nat, buf: Bytes, n: nat)
      requires Shape() && n <= |buf|
      reads `disk, `cache, `dirty, `cachedBlock
    {
      Settled() == Patch(sc.settled, Record(loc, buf[..n])) && Outside(disk, Record(loc, buf[..n]), sc.disk, sc.settled)
    }

    ghost predicate SceneOk(sc: Scene, loc: nat, buf: Bytes) {
      (sc.steady || sc.springing ==>
         Trapped() && |sc.disk| == |sc.settled| && InDisk(loc, |buf|, blockSize, |sc.disk|))
      && (sc.steady && !sc.quiet ==>
            sc.sound && trap.pos < |sc.settled| && sc.settled[trap.pos] == trap.value
            && !(loc <= trap.pos < loc + |buf|))
      && (sc.springing ==>
            sc.sound && trap.pos < |sc.settled| && loc <= trap.pos < loc + |buf|
            && trap.pos < LastStart(loc, |buf|, blockSize)
            && sc.settled[trap.pos] == trap.value != buf[trap.pos - loc])
    }

    /** The bytes that one turn lays down. */
    method NextChunk(buf: Bytes, loc: nat, progress: nat, ghost sc: Scene) returns (ok: bool, n: nat)
      requires Shape() && progress < |buf| && |disk| == |sc.disk| == |sc.settled|
      requires sc.sound ==> Sound() && Laid(sc, loc, buf, progress)
      modifies `disk, `dirty, `cache, `cachedBlock, `calls
      ensures Shape() && |disk| == |sc.disk| && progress + n <= |buf| && (ok ==> n > 0) && (!ok ==> n == 0)
      ensures sc.sound ==> Laid(sc, loc, buf, progress + n) && (ok ==> Sound())
      ensures ok && progress + n < |buf| ==>
                Start(BlockOf(loc + progress, blockSize), blockSize) + blockSize == loc + progress + n
                <= LastStart(loc, |buf|, blockSize)
      ensures ok ==> dirty && cachedBlock == BlockOf(loc + progress, blockSize)
                     && loc + progress + n <= Start(BlockOf(loc + progress, blockSize), blockSize) + blockSize <= |disk|
      ensures old(Calm()) ==> Sprung() == old(Sprung()) && (Quiet() ==> Calm())
                              && (ok <==> Start(BlockOf(loc + progress, blockSize), blockSize) + blockSize <= |disk|)
      ensures old(Springs()) && BlockOf(loc + progress, blockSize) != old(cachedBlock) ==>
                !ok && Sprung() && Calm() && disk[trap.pos] == old(Settled())[trap.pos]
    {
      hide View, Start, Patch, LastStart, BlockOf, Calm, Springs, Outside, Bad, AnyBad, Settled, Sound, Trapped, Sprung;
      ghost var q := disk;
      ok, n := WriteChunk(loc + progress, buf[progress..]);
      assert buf[progress..][..n] == buf[progress..progress + n];
      PatchNext(sc.settled, loc, buf, progress, progress + n);
      if sc.sound { OutsideNext(disk, q, sc.disk, sc.settled, loc, buf, progress, progress + n); }
      if ok && progress + n < |buf| {
        AtLast(loc, |buf|, blockSize);
        BoundaryBeforeLast(loc + progress, loc + progress + n, loc + |buf| - 1, blockSize);
      }
    }

    /** One turn of the loop. */
    method WriteStep(buf: Bytes, loc: nat, progress: nat, ghost sc: Scene) returns (ok: bool, n: nat)
      requires SceneOk(sc, loc, buf) && Going(sc, loc, buf, progress) && progress < |buf|
      modifies `disk, `dirty, `cache, `cachedBlock, `calls
      ensures Shape() && |disk| == |sc.disk|
      ensures ok ==> n > 0 && Going(sc, loc, buf, progress + n) && progress + n <= |buf|
      ensures !ok ==> n == 0 && !sc.steady && (sc.sound ==> Laid(sc, loc, buf, progress))
      ensures !ok && sc.springing ==> Calm() && Sprung() && disk[trap.pos] == buf[trap.pos - loc]
    {
      hide View, Start, Patch, LastStart, BlockOf, Calm, Springs, Outside, Bad, AnyBad, Settled, Sound, Trapped, Sprung,
           InDisk;
      if sc.steady || sc.springing { BlocksInDisk(loc, |buf|, blockSize, |disk|, loc + progress); }
      ok, n := NextChunk(buf, loc, progress, sc);
      if ok && sc.steady { StaysCalm(sc.settled, loc, buf[..progress + n], sc.quiet); }
      if ok && sc.springing { StaysArmed(sc.settled, loc, buf, progress, progress + n); }
    }

    /** The loop of _device_write: on failure, exactly a prefix of the buffer has been laid down, and nothing in the
        last block of the range. */
    method WriteAll(buf: Bytes, loc: nat) returns (ok: bool, ghost done: nat)
      requires Shape()
      modifies `disk, `dirty, `cache, `cachedBlock, `calls
      ensures Shape() && |disk| == old(|disk|) && done <= |buf| && (ok ==> done == |buf|)
      ensures !ok ==> done < |buf| && (done > 0 ==> loc + done <= LastStart(loc, |buf|, blockSize))
      ensures old(Sound()) ==> Settled() == Patch(old(Settled()), Record(loc, buf[..done])) && (ok ==> Sound())
      ensures old(Sound()) ==> Outside(disk, Record(loc, buf[..done]), old(disk), old(Settled()))
      ensures old(Steady(loc, |buf|)) ==> ok && Calm() && Sprung() == old(Sprung())
      ensures old(Springing(loc, buf)) ==> !ok && Calm() && Sprung() && disk[trap.pos] == buf[trap.pos - loc]
    {
      ghost var sc := Scene(disk, Settled(), Sound(), Steady(loc, |buf|), Springing(loc, buf), Sprung(), Quiet());
      Begin(sc, loc, buf);
      hide View, Start, Patch, LastStart, BlockOf, Calm, Springs, Outside, Bad, AnyBad, Armed, SceneOk, Going, Settled,
           Steady, Springing, Sound;
      ok, done := WriteLoop(buf, loc, sc);
    }

    method WriteLoop(buf: Bytes, loc: nat, ghost sc: Scene) returns (ok: bool, ghost done: nat)
      requires SceneOk(sc, loc, buf) && Going(sc, loc, buf, 0)
      modifies `disk, `dirty, `cache, `cachedBlock, `calls
      ensures Shape() && |disk| == |sc.disk| && done <= |buf| && (ok ==> done == |buf|)
      ensures !ok ==> done < |buf| && (done > 0 ==> loc + done <= LastStart(loc, |buf|, blockSize))
      ensures sc.sound ==> Laid(sc, loc, buf, done) && (ok ==> Sound())
      ensures sc.steady ==> ok && Calm() && Sprung() == sc.sprung
      ensures sc.springing ==> !ok && Calm() && Sprung() && disk[trap.pos] == buf[trap.pos - loc]
    {
      hide View, Start, Patch, LastStart, BlockOf, Calm, Springs, Outside, Bad, AnyBad, Armed, SceneOk, Going, Settled,
           Sound, Laid;
      var progress := 0;
      while progress < |buf|
        invariant SceneOk(sc, loc, buf) && Going(sc, loc, buf, progress) && progress <= |buf|
      {
        GoingIs(sc, loc, buf, progress);
        var n;
        ok, n := WriteStep(buf, loc, progress, sc);
        progress := progress + n;
        if !ok {
          return false, progress;
        }
      }
      GoingIs(sc, loc, buf, progress);
      return true, progress;
    }

    lemma GoingIs(sc: Scene, loc: nat, buf: Bytes, progress: nat)
      requires Going(sc, loc, buf, progress)
      ensures progress <= |buf| && Shape() && |disk| == |sc.disk|
      ensures 0 < progress < |buf| ==> loc + progress <= LastStart(loc, |buf|, blockSize)
      ensures sc.sound ==> Sound() && Laid(sc, loc, buf, progress)
      ensures progress == |buf| ==> !sc.springing && (sc.steady ==> Calm() && Sprung() == sc.sprung)
    {
    }

    lemma Begin(sc: Scene, loc: nat, buf: Bytes)
      requires Shape() && sc == Scene(disk, Settled(), Sound(), Steady(loc, |buf|), Springing(loc, buf), Sprung(),
                                      Quiet())
      ensures SceneOk(sc, loc, buf) && Going(sc, loc, buf, 0)
    {
      hide View, Start, Bad;
      PatchNothing(sc.settled, loc);
      assert buf[..0] == [];
    }

    /** _device_write while installing: the bytes it replaces are read first and logged once all are replaced. */
    method LoggedWrite(buf: Bytes, loc: nat) returns (ok: bool, ghost done: nat)
      requires Sound()
      modifies `disk, `dirty, `cache, `cachedBlock, `calls, `log
      ensures Shape() && |disk| == old(|disk|) && done <= |buf|
      ensures !ok && done > 0 ==> loc + done <= LastStart(loc, |buf|, blockSize)
      ensures Settled() == Patch(old(Settled()), Record(loc, buf[..done]))
      ensures Outside(disk, Record(loc, buf[..done]), old(disk), old(Settled()))
      ensures ok || done > 0 ==> InDisk(loc, |buf|, blockSize, |disk|) && |old(log)| < UNINSTALL_DATA_MAX
      ensures ok ==> Sound() && done == |buf| && |log| <= UNINSTALL_DATA_MAX
      ensures ok ==> exists e :: log == old(log) + [e] && Saves(e, old(Settled()), loc, |buf|)
      ensures !ok ==> log == old(log)
      ensures old(Steady(loc, |buf|)) && |old(log)| < UNINSTALL_DATA_MAX ==> ok && Calm() && Sprung() == old(Sprung())
      ensures old(Springing(loc, buf)) && |old(log)| < UNINSTALL_DATA_MAX ==>
                !ok && Calm() && Sprung() && disk[trap.pos] == buf[trap.pos - loc]
    {
      hide View, Start, Patch, Bad, AnyBad, LastStart;
      PatchNothing(Settled(), loc);
      assert buf[..0] == [];
      done := 0;
      if |log| >= UNINSTALL_DATA_MAX {
        return false, 0;
      }
      ghost var d0, v0 := disk, Settled();
      ghost var steady, springing := Steady(loc, |buf|), Springing(loc, buf);
      var memory := AskMemory();
      if memory.Fails? {
        return false, 0;
      }
      assert steady ==> Steady(loc, |buf|);
      assert springing ==> Springing(loc, buf);
      var saved;
      ok, saved := Read(loc, |buf|);
      if !ok {
        return;
      }
      assert steady ==> Steady(loc, |buf|);
      assert springing ==> Springing(loc, buf);
      ghost var d1 := disk;
      ok, done := WriteAll(buf, loc);
      OutsideStep(disk, d1, d0, v0, Record(loc, buf[..done]));
      if ok {
        log := log + [Record(loc, saved)];
        assert Saves(Record(loc, saved), v0, loc, |buf|);
      }
    }

    /** malloc: the trap is about blocks. */
    method AskMemory() returns (a: Answer)
      requires blockSize > 0
      modifies `calls
      ensures Sprung() == old(Sprung()) && (Trapped() ==> a.Done?)
    {
      a := Ask(Alloc);
    }

    /** A record that holds what a range held. */
    static ghost predicate Saves(e: Record, v: Bytes, loc: nat, count: nat) {
      e.loc == loc && |e.data| == count && (count > 0 ==> loc + count <= |v| && e.data == v[loc..loc + count])
    }

    static lemma OutsideStep(d: Bytes, d1: Bytes, d0: Bytes, v: Bytes, e: Record)
      requires Outside(d1, Nowhere(), d0, v) && Outside(d, e, d1, v)
      ensures Outside(d, e, d0, v)
    {
    }

    /** reverse_uninstall_data: through a second table and back. */
    method ReverseLog()
      modifies `log
      ensures log == Reversed(old(log))
    {
      var rev := log;
      var i := 0;
      while i < |log|
        invariant i <= |log| == |rev| && log == old(log)
        invariant forall k :: |log| - i <= k < |log| ==> rev[k] == log[|log| - 1 - k]
      {
        rev := rev[|log| - 1 - i := log[i]];
        i := i + 1;
      }
      log := rev;
    }

    /** The cache forgotten: what the disk holds is what there is. */
    method DropCache()
      requires blockSize > 0 && |cache| == blockSize
      modifies `dirty, `cachedBlock
      ensures Sound() && !dirty && cachedBlock == NO_BLOCK
    {
      dirty := false;
      cachedBlock := NO_BLOCK;
    }

    /** One record of uninstall put back, with one retry from a fresh cache. A true result means that it is written
        and that nothing written before was lost. */
    method PutBack(e: Record) returns (ok: bool)
      requires Shape()
      modifies `disk, `dirty, `cache, `cachedBlock, `calls
      ensures Shape() && |disk| == old(|disk|)
      ensures ok && old(Sound()) ==> Sound() && Settled() == Patch(old(Settled()), e)
      ensures old(Calm()) && old(Quiet()) && InDisk(e.loc, |e.data|, blockSize, |disk|) ==> ok && Calm() && Quiet()
    {
      hide View, Start, Patch, Calm, Springs, Bad, AnyBad, Springing, Outside, LastStart;
      ghost var v0 := Settled();
      ghost var done, again;
      ok, done := WriteAll(e.data, e.loc);
      assert e.data[..|e.data|] == e.data;
      if ok {
        return;
      }
      var flushed := FlushCache();
      DropCache();
      ok, again := WriteAll(e.data, e.loc);
      PatchAgain(v0, e.loc, e.data, done);
      ok := ok && flushed;
    }

    lemma QuietIsCalm()
      requires Shape() && Trapped() && Quiet()
      ensures Calm()
    {
    }

    static lemma UndoNothing(d: Bytes)
      ensures Undo(d, []) == d
    {
    }

    /** uninstall: a true result means that every record reached the disk, in the order of the log. */
    method Uninstall() returns (ok: bool)
      requires Shape()
      modifies `disk, `dirty, `cache, `cachedBlock, `calls, `uninstalling
      ensures Shape() && |disk| == old(|disk|) && uninstalling
      ensures ok ==> disk == Undo(old(disk), Reversed(log))
      ensures Trapped() && old(Quiet()) && AllInDisk(log, blockSize, |disk|) ==> ok
    {
      hide View, Start, Patch, Outside, LastStart, Bad, AnyBad, InDisk, Calm, Springs, Trapped, Quiet, Undo;
      ghost var d0, newest := disk, Reversed(log);
      ghost var quiet := Trapped() && Quiet() && AllInDisk(log, blockSize, |disk|);
      uninstalling := true;
      DropCache();
      if quiet { QuietIsCalm(); }
      ok := true;
      var i := 0;
      assert newest[|log|..] == [];
      UndoNothing(d0);
      while i < |log|
        invariant i <= |log| == |newest| && newest == Reversed(log) && Shape() && |disk| == |d0| && uninstalling
        invariant ok ==> Sound() && Settled() == Undo(d0, newest[|log| - i..])
        invariant quiet ==> ok && Calm() && Quiet()
      {
        var put := PutBack(log[i]);
        UndoNext(d0, newest, |log| - 1 - i);
        ok := ok && put;
        i := i + 1;
      }
      assert newest[0..] == newest;
      var flushed := FlushCache();
      ok := ok && flushed;
    }
  }

  /** A byte that the log does not cover is original, or was laid down by a write that failed. */
  ghost predicate Intact(log: seq<Record>, lost: Record, origin: Bytes, d: Bytes) {
    |d| == |origin| && forall p :: 0 <= p < |d| && !CoveredBy(log, p) ==>
      d[p] == origin[p] || (Covers(lost, p) && d[p] == lost.data[p - lost.loc])
  }

  ghost predicate AllInDisk(log: seq<Record>, size: nat, len: nat)
    requires size > 0
  {
    forall k :: 0 <= k < |log| ==> InDisk(log[k].loc, |log[k].data|, size, len)
  }

  /** A completed write: its range joins the log. */
  lemma WriteKeepsIntact(log: seq<Record>, origin: Bytes, d0: Bytes, v0: Bytes, e: Record, range: Record, d: Bytes)
    requires Intact(log, Nowhere(), origin, d0) && Intact(log, Nowhere(), origin, v0)
    requires e.loc == range.loc && |e.data| == |range.data| && Outside(d, range, d0, v0)
    ensures Intact(log + [e], Nowhere(), origin, d)
  {
    forall p | 0 <= p < |d| && !CoveredBy(log + [e], p) ensures d[p] == origin[p] { CoverGrows(log, e, p); }
  }

  lemma ReversedTwice(log: seq<Record>)
    ensures Reversed(Reversed(log)) == log
  {
  }

  /** What a step of bios_install asks of the device. */
  datatype Request = Read(loc: nat, count: nat) | Write(loc: nat, buf: Bytes) | Flush

  predicate Replaces(r: Request, p: nat) { r.Write? && r.loc <= p < r.loc + |r.buf| }

  ghost predicate WrittenBy(rs: seq<Request>, p: nat) { exists k :: 0 <= k < |rs| && Replaces(rs[k], p) }

  lemma WrittenNext(rs: seq<Request>, i: nat, p: nat)
    requires i < |rs|
    ensures WrittenBy(rs[..i + 1], p) <==> WrittenBy(rs[..i], p) || Replaces(rs[i], p)
  {
    var l := rs[..i + 1];
    if WrittenBy(rs[..i], p) { var k :| 0 <= k < i && Replaces(rs[..i][k], p); assert Replaces(l[k], p); }
    if Replaces(rs[i], p) { assert Replaces(l[i], p); }
    if WrittenBy(l, p) { var k :| 0 <= k < |l| && Replaces(l[k], p); assert k < i ==> Replaces(rs[..i][k], p); }
  }

  /** A byte that a write changes for the first time, before the last block of its range. */
  predicate Exposes(r: Request, p: nat, origin: Bytes, size: nat)
    requires size > 0
  {
    Replaces(r, p) && p < LastStart(r.loc, |r.buf|, size) && p < |origin| && r.buf[p - r.loc] != origin[p]
  }

  /** All of the blocks a request touches are on the device. */
  predicate Servable(r: Request, size: nat, len: nat)
    requires size > 0
  {
    match r
    case Read(loc, count) => InDisk(loc, count, size, len)
    case Write(loc, buf) => InDisk(loc, |buf|, size, len)
    case Flush => true
  }

  function Writes(rs: seq<Request>): (n: nat) {
    if rs == [] then 0 else Writes(rs[..|rs| - 1]) + if rs[|rs| - 1].Write? then 1 else 0
  }

  /** Request k is reached and changes byte p for the first time, before the last block of its range. */
  ghost predicate Loses(requests: seq<Request>, origin: Bytes, size: nat, k: nat, p: nat)
    requires size > 0
  {
    k < |requests| && Exposes(requests[k], p, origin, size) && !WrittenBy(requests[..k], p)
    && Writes(requests[..k]) < UNINSTALL_DATA_MAX && forall j :: 0 <= j <= k ==> Servable(requests[j], size, |origin|)
  }

  ghost predicate Safe(requests: seq<Request>, origin: Bytes, size: nat)
    requires size > 0
  {
    forall k: nat, p: nat :: !Loses(requests, origin, size, k, p)
  }

  /** Writes inside one block are safe. */
  predicate OneBlock(r: Request, size: nat)
    requires size > 0
  {
    r.Write? && r.buf != [] ==> BlockOf(r.loc, size) == BlockOf(r.loc + |r.buf| - 1, size)
  }

  lemma OneBlockIsSafe(requests: seq<Request>, origin: Bytes, size: nat)
    requires size > 0 && forall k :: 0 <= k < |requests| ==> OneBlock(requests[k], size)
    ensures Safe(requests, origin, size)
  {
    forall k: nat, p: nat ensures !Loses(requests, origin, size, k, p) {
      if k < |requests| && requests[k].Write? {
        var loc := requests[k].loc;
        assert Start(BlockOf(loc, size), size) + OffsetOf(loc, size) == loc;
      }
    }
  }

  /** What a failed request may have laid down: nothing, or a part of a write before its last block. */
  ghost predicate Torn(lost: Record, r: Request, size: nat)
    requires size > 0
  {
    lost == Nowhere()
    || (r.Write? && lost.loc == r.loc && lost.data <= r.buf
        && (|lost.data| > 0 ==> r.loc + |lost.data| <= LastStart(r.loc, |r.buf|, size)))
  }

  /** A request that leaves an armed trap alone, and one that springs it. */
  ghost predicate Passes(dev: Device, r: Request)
    reads dev
  {
    dev.Calm() && !dev.Sprung() && Servable(r, dev.blockSize, |dev.disk|)
    && (dev.trap.armed ==> !Replaces(r, dev.trap.pos)) && (r.Write? ==> |dev.log| < UNINSTALL_DATA_MAX)
  }

  ghost predicate Catches(dev: Device, r: Request)
    reads dev
  {
    r.Write? && dev.Springing(r.loc, r.buf) && |dev.log| < UNINSTALL_DATA_MAX
  }

  /** Byte p once the requests have been served: the last of them that writes it decides. */
  function ByteAfter(origin: Bytes, rs: seq<Request>, p: nat): (b: Byte)
    requires p < |origin|
  {
    if rs == [] then origin[p]
    else
      var r := rs[|rs| - 1];
      if Replaces(r, p) then r.buf[p - r.loc] else ByteAfter(origin, rs[..|rs| - 1], p)
  }

  /** The device holds what was asked for, and is otherwise as it was. */
  ghost predicate Asked(d: Bytes, origin: Bytes, rs: seq<Request>) {
    |d| == |origin| && forall p :: 0 <= p < |d| ==> d[p] == ByteAfter(origin, rs, p)
  }

  /** The contents after one request. */
  ghost function Followed(v: Bytes, r: Request): (w: Bytes) { if r.Write? then Patch(v, Record(r.loc, r.buf)) else v }

  lemma AskedNext(v: Bytes, origin: Bytes, rs: seq<Request>, i: nat)
    requires i < |rs| && Asked(v, origin, rs[..i])
    ensures Asked(Followed(v, rs[i]), origin, rs[..i + 1])
  {
    assert rs[..i + 1][..i] == rs[..i];
    var w := Followed(v, rs[i]);
    forall p | 0 <= p < |w| ensures w[p] == ByteAfter(origin, rs[..i + 1], p) {
      assert v[p] == ByteAfter(origin, rs[..i], p);
    }
  }

  /** One request. `lost` is the range that a failed write replaced without logging it. */
  method Serve(dev: Device, r: Request, ghost origin: Bytes) returns (ok: bool, ghost lost: Record)
    requires dev.Sound() && Faithful(dev.log, origin)
    requires Intact(dev.log, Nowhere(), origin, dev.disk) && Intact(dev.log, Nowhere(), origin, dev.Settled())
    modifies dev`disk, dev`dirty, dev`cache, dev`cachedBlock, dev`calls, dev`log
    ensures dev.Shape() && |dev.disk| == |old(dev.disk)|
    ensures Faithful(dev.log, origin) && Intact(dev.log, lost, origin, dev.disk)
    ensures ok ==> dev.Sound() && lost == Nowhere() && Intact(dev.log, Nowhere(), origin, dev.Settled())
    ensures ok ==> dev.Settled() == Followed(old(dev.Settled()), r)
    ensures ok ==> forall p: nat :: CoveredBy(dev.log, p) <==> CoveredBy(old(dev.log), p) || Replaces(r, p)
    ensures ok ==> |dev.log| == |old(dev.log)| + if r.Write? then 1 else 0
    ensures ok || lost.data != [] ==> Servable(r, dev.blockSize, |dev.disk|)
    ensures lost.data != [] ==> |dev.log| < UNINSTALL_DATA_MAX
    ensures ok && AllInDisk(old(dev.log), dev.blockSize, |dev.disk|) ==> AllInDisk(dev.log, dev.blockSize, |dev.disk|)
    ensures !ok ==> dev.log == old(dev.log) && Torn(lost, r, dev.blockSize)
    ensures old(Passes(dev, r)) ==> ok && dev.Calm() && !dev.Sprung()
    ensures old(Catches(dev, r)) ==> !ok && dev.Trapped() && dev.Sprung() && dev.trap.pos < |dev.disk|
                                     && dev.disk[dev.trap.pos] != dev.trap.value
  {
    hide Faithful, CoveredBy, Patch, Start, LastStart, Bad, AnyBad, Intact, Outside, Device.View, InDisk;
    ghost var d0, v0, l0 := dev.disk, dev.Settled(), dev.log;
    NoneLost(l0, origin, v0);
    lost := Nowhere();
    match r {
      case Read(loc, count) =>
        var data;
        ok, data := dev.Read(loc, count);
        TornIntact(l0, origin, d0, v0, lost, dev.disk);
      case Write(loc, buf) =>
        ghost var done;
        ok, done := dev.LoggedWrite(buf, loc);
        ghost var range := Record(loc, buf[..done]);
        if ok {
          ghost var e :| dev.log == l0 + [e] && Device.Saves(e, v0, loc, |buf|);
          assert buf[..done] == buf;
          LogKeepsFaithful(l0, origin, v0, e);
          WriteKeepsIntact(l0, origin, d0, v0, e, range, dev.disk);
          PatchOutside(v0, d0, range);
          WriteKeepsIntact(l0, origin, d0, v0, e, range, dev.Settled());
          forall p: nat ensures CoveredBy(dev.log, p) <==> CoveredBy(l0, p) || Replaces(r, p) { CoverGrows(l0, e, p); }
        } else {
          lost := range;
          TornIntact(l0, origin, d0, v0, range, dev.disk);
        }
      case Flush =>
        ok := dev.FlushCache();
        TornIntact(l0, origin, d0, v0, lost, dev.disk);
    }
  }

  lemma TornIntact(log: seq<Record>, origin: Bytes, d: Bytes, v: Bytes, range: Record, e: Bytes)
    requires Intact(log, Nowhere(), origin, d) && Intact(log, Nowhere(), origin, v) && Outside(e, range, d, v)
    ensures Intact(log, range, origin, e)
  {
    hide CoveredBy;
  }

  lemma PatchOutside(v: Bytes, d: Bytes, range: Record)
    requires |v| == |d|
    ensures Outside(Patch(v, range), range, d, v)
  {
  }

  /** The device will fail at a byte that some request loses. */
  ghost predicate Caught(dev: Device, requests: seq<Request>, k: nat)
    reads dev
  {
    dev.Trapped() && !dev.Quiet() && dev.trap.pos < |dev.disk| && dev.trap.value == dev.disk[dev.trap.pos]
    && Loses(requests, dev.disk, dev.blockSize, k, dev.trap.pos)
  }

  /** What holds before request i, and what a failure leaves. */
  ghost predicate Installing(dev: Device, requests: seq<Request>, i: nat, origin: Bytes, going: bool, lost: Record)
    reads dev
  {
    i <= |requests| && Faithful(dev.log, origin) && dev.Shape() && Intact(dev.log, lost, origin, dev.disk)
    && AllInDisk(dev.log, dev.blockSize, |dev.disk|) && |dev.log| == Writes(requests[..i])
    && (forall p: nat :: CoveredBy(dev.log, p) <==> WrittenBy(requests[..i], p))
    && (forall j :: 0 <= j < i ==> Servable(requests[j], dev.blockSize, |dev.disk|))
    && (going ==> dev.Sound() && lost == Nowhere() && Intact(dev.log, Nowhere(), origin, dev.Settled())
                  && Asked(dev.Settled(), origin, requests[..i]))
    && (lost.data != [] ==> i < |requests| && Torn(lost, requests[i], dev.blockSize)
                            && Servable(requests[i], dev.blockSize, |dev.disk|) && |dev.log| < UNINSTALL_DATA_MAX)
  }

  /** The trap before request i, and after request k has sprung it. */
  ghost predicate Waiting(dev: Device, i: nat, k: nat, going: bool)
    reads dev
  {
    dev.Trapped() && dev.trap.pos < |dev.disk| && dev.trap.armed
    && if going then i <= k && dev.Calm() && !dev.Sprung()
       else i == k && dev.Sprung() && dev.disk[dev.trap.pos] != dev.trap.value
  }

  /** One turn: a request served, or the failure. */
  method InstallStep(dev: Device, requests: seq<Request>, i: nat, ghost origin: Bytes, ghost caught: bool, ghost k: nat)
    returns (ok: bool, ghost lost: Record)
    requires i < |requests| && Installing(dev, requests, i, origin, true, Nowhere())
    requires caught ==> Waiting(dev, i, k, true) && Loses(requests, origin, dev.blockSize, k, dev.trap.pos)
                        && dev.trap.value == origin[dev.trap.pos]
    modifies dev`disk, dev`dirty, dev`cache, dev`cachedBlock, dev`calls, dev`log
    ensures Installing(dev, requests, if ok then i + 1 else i, origin, ok, lost)
    ensures caught ==> Waiting(dev, if ok then i + 1 else i, k, ok)
    ensures old(Passes(dev, requests[i])) ==> ok && dev.Calm() && !dev.Sprung()
  {
    hide Faithful, CoveredBy, Patch, Start, Device.View, WrittenBy, Bad, AnyBad, LastStart, Device.Springs, InDisk,
         Intact, Outside, Writes, Asked;
    WritesNext(requests, i);
    AskedNext(dev.Settled(), origin, requests, i);
    if caught { MeetsTrap(dev, requests, i, origin, k); }
    hide Loses, Passes, Catches;
    ok, lost := Serve(dev, requests[i], origin);
    if ok {
      forall p: nat ensures CoveredBy(dev.log, p) <==> WrittenBy(requests[..i + 1], p) { WrittenNext(requests, i, p); }
    }
  }

  lemma WritesNext(rs: seq<Request>, i: nat)
    requires i < |rs|
    ensures Writes(rs[..i + 1]) == Writes(rs[..i]) + if rs[i].Write? then 1 else 0
  {
    assert rs[..i + 1][..i] == rs[..i];
  }

  lemma {:induction false} WritesMono(rs: seq<Request>, i: nat, k: nat)
    requires i <= k <= |rs|
    ensures Writes(rs[..i]) <= Writes(rs[..k])
    decreases k
  {
    if i < k {
      WritesNext(rs, k - 1);
      WritesMono(rs, i, k - 1);
    }
  }

  /** Requests before the losing one pass the trap; the losing one springs it. */
  lemma MeetsTrap(dev: Device, requests: seq<Request>, i: nat, origin: Bytes, k: nat)
    requires i < |requests| && Installing(dev, requests, i, origin, true, Nowhere()) && Waiting(dev, i, k, true)
    requires Loses(requests, origin, dev.blockSize, k, dev.trap.pos) && dev.trap.value == origin[dev.trap.pos]
    ensures i <= k && if i < k then Passes(dev, requests[i]) else Catches(dev, requests[i])
  {
    hide Faithful, CoveredBy, Patch, Start, Device.View, Bad, AnyBad, LastStart, Device.Springs, Device.Calm, InDisk,
         Writes, Outside, Device.Sound, Asked;
    WritesMono(requests, i, k);
    if i < k { assert requests[..k][i] == requests[i]; }
  }

  /** The requests of bios_install one after the other, and the flush at the end. */
  method ServeAll(dev: Device, requests: seq<Request>, ghost k: nat)
      returns (ok: bool, ghost lost: Record, ghost served: nat)
    requires dev.Sound() && !dev.dirty && dev.log == []
    modifies dev`disk, dev`dirty, dev`cache, dev`cachedBlock, dev`calls, dev`log
    ensures Installing(dev, requests, served, old(dev.disk), false, lost) && (ok ==> lost == Nowhere())
    ensures old(Caught(dev, requests, k)) ==> !ok && Waiting(dev, served, k, false)
    ensures ok ==> served == |requests| && Asked(dev.disk, old(dev.disk), requests)
    ensures dev.Trapped() && !dev.trap.armed && Feasible(requests, dev.blockSize, |dev.disk|) ==> ok
  {
    ghost var origin, caught := dev.disk, Caught(dev, requests, k);
    ghost var healthy := dev.Trapped() && !dev.trap.armed && Feasible(requests, dev.blockSize, |dev.disk|);
    Ready(dev, requests, k);
    if healthy { NeverSprung(dev); }
    hide Asked, Feasible, Passes, Device.Trapped, Device.Calm, Faithful, CoveredBy, Patch, Start, Device.View,
         WrittenBy, Bad, AnyBad, LastStart, Loses, Writes, Servable, AllInDisk, Intact, Device.Springs, Caught, Torn;
    var i := 0;
    ok, lost := true, Nowhere();
    while i < |requests| && ok
      invariant Installing(dev, requests, i, origin, ok, lost)
      invariant caught ==>
                Waiting(dev, i, k, ok) && k < |requests|
                && Loses(requests, origin, dev.blockSize, k, dev.trap.pos)
                           && dev.trap.value == origin[dev.trap.pos]
      invariant healthy ==> ok && dev.Calm() && !dev.Sprung()
      decreases |requests| - i, if ok then 1 else 0
    {
      if healthy { WillPass(dev, requests, i, origin); }
      ok, lost := InstallStep(dev, requests, i, origin, caught, k);
      if ok {
        i := i + 1;
      }
    }
    served := i;
    if ok {
      ghost var d, v := dev.disk, dev.Settled();
      ok := dev.FlushCache();
      TornIntact(dev.log, origin, d, v, Nowhere(), dev.disk);
      assert requests[..served] == requests;
    }
  }

  /** Every request is on the device, and the writes fit the log. */
  ghost predicate Feasible(requests: seq<Request>, size: nat, len: nat)
    requires size > 0
  {
    Writes(requests) <= UNINSTALL_DATA_MAX && forall j :: 0 <= j < |requests| ==> Servable(requests[j], size, len)
  }

  lemma NeverSprung(dev: Device)
    requires dev.Shape() && dev.Trapped() && !dev.trap.armed
    ensures dev.Calm() && !dev.Sprung()
  {
  }

  lemma WillPass(dev: Device, requests: seq<Request>, i: nat, origin: Bytes)
    requires i < |requests| && Installing(dev, requests, i, origin, true, Nowhere()) && !dev.trap.armed
    requires dev.Calm() && !dev.Sprung() && Feasible(requests, dev.blockSize, |dev.disk|)
    ensures Passes(dev, requests[i])
  {
    hide Faithful, CoveredBy, Patch, Start, Device.View, Bad, AnyBad, Device.Calm, Asked, Intact, WrittenBy, InDisk;
    WritesNext(requests, i);
    WritesMono(requests, i + 1, |requests|);
    assert requests[..|requests|] == requests;
  }

  lemma Ready(dev: Device, requests: seq<Request>, k: nat)
    requires dev.Sound() && !dev.dirty && dev.log == []
    ensures Installing(dev, requests, 0, dev.disk, true, Nowhere())
    ensures Caught(dev, requests, k) ==>
              Waiting(dev, 0, k, true) && k < |requests| && Loses(requests, dev.disk, dev.blockSize, k, dev.trap.pos)
              && dev.trap.value == dev.disk[dev.trap.pos]
  {
    hide Start, Patch, LastStart, Bad;
    Fresh(dev.disk);
    assert requests[..0] == [];
  }

  /** What undoing leaves, read off the state in which it starts. */
  lemma Aftermath(requests: seq<Request>, k: nat, log: seq<Record>, lost: Record, origin: Bytes, d: Bytes, size: nat)
    requires size > 0 && k <= |requests| && Faithful(log, origin) && Intact(log, lost, origin, d)
    requires |log| == Writes(requests[..k]) && forall p: nat :: CoveredBy(log, p) <==> WrittenBy(requests[..k], p)
    requires forall j :: 0 <= j < k ==> Servable(requests[j], size, |origin|)
    requires lost.data != [] ==> k < |requests| && Torn(lost, requests[k], size) && |log| < UNINSTALL_DATA_MAX
                                 && Servable(requests[k], size, |origin|)
    ensures forall p :: 0 <= p < |d| && (CoveredBy(log, p) || !Covers(lost, p)) ==> Undo(d, log)[p] == origin[p]
    ensures Safe(requests, origin, size) ==> RestIntact(log, origin, d)
    ensures forall p :: 0 <= p < |d| && !WrittenBy(requests[..k], p) ==> Undo(d, log)[p] == d[p]
  {
    hide CoveredBy, WrittenBy, LastStart, Servable, Writes, Undo, Faithful;
    forall p | 0 <= p < |d| && (CoveredBy(log, p) || !Covers(lost, p)) ensures Undo(d, log)[p] == origin[p] {
      UndoRestoresAt(origin, d, log, p);
    }
    forall p | 0 <= p < |d| && !WrittenBy(requests[..k], p) ensures Undo(d, log)[p] == d[p] { UndoAt(d, log, p); }
    if Safe(requests, origin, size) {
      forall p | 0 <= p < |d| && !CoveredBy(log, p) ensures d[p] == origin[p] {
        assert !Loses(requests, origin, size, k, p);
      }
    }
  }

  lemma InstallingIs(dev: Device, requests: seq<Request>, i: nat, origin: Bytes, lost: Record)
    requires Installing(dev, requests, i, origin, false, lost)
    ensures dev.Shape() && |dev.disk| == |origin| && AllInDisk(dev.log, dev.blockSize, |dev.disk|)
    ensures Faithful(dev.log, origin) && Intact(dev.log, lost, origin, dev.disk) && |dev.log| == Writes(requests[..i])
  {
    hide CoveredBy, WrittenBy, Servable, Writes, Faithful;
  }

  /** bios_install over any requests and any answers of the device: a failure undoes the work. An undone install
      restores every byte but those that a write which failed part way changed for the first time. If no request can
      lose a byte it restores the device; if one can, some device makes it lose that byte and report that all was
      undone. */
  method Install(dev: Device, requests: seq<Request>, ghost k: nat)
    returns (installed: bool, undone: bool, ghost lost: Record)
    requires dev.Sound() && !dev.dirty && dev.log == [] && !dev.uninstalling
    modifies dev
    ensures dev.Shape() && |dev.disk| == old(|dev.disk|)
    ensures installed ==> Faithful(Reversed(dev.log), old(dev.disk))
    ensures installed ==> RestIntact(Reversed(dev.log), old(dev.disk), dev.disk)
    ensures installed ==> Asked(dev.disk, old(dev.disk), requests) && AllInDisk(dev.log, dev.blockSize, |dev.disk|)
    ensures dev.Trapped() && !dev.trap.armed && Feasible(requests, dev.blockSize, |dev.disk|) ==> installed
    ensures undone ==> forall p :: 0 <= p < |dev.disk| && (CoveredBy(Reversed(dev.log), p) || !Covers(lost, p)) ==>
                         dev.disk[p] == old(dev.disk)[p]
    ensures undone && Safe(requests, old(dev.disk), dev.blockSize) ==> dev.disk == old(dev.disk)
    ensures old(Caught(dev, requests, k)) ==>
              !installed && undone && dev.disk[dev.trap.pos] != old(dev.disk)[dev.trap.pos]
  {
    ghost var origin, caught := dev.disk, Caught(dev, requests, k);
    assert caught ==> !WrittenBy(requests[..k], dev.trap.pos) && dev.trap.value == origin[dev.trap.pos];
    hide Asked, Feasible, Faithful, CoveredBy, Patch, Start, Device.View, WrittenBy, Safe, Torn, Bad, AnyBad, LastStart,
         Loses, Writes, Caught, Servable, AllInDisk, Intact, Device.Calm, Undo;
    ghost var served;
    undone := false;
    installed, lost, served := ServeAll(dev, requests, k);
    InstallingIs(dev, requests, served, origin, lost);
    ghost var log, d := dev.log, dev.disk;
    Aftermath(requests, served, log, lost, origin, d, dev.blockSize);
    NoneLost(log, origin, d);
    dev.ReverseLog();
    ReversedTwice(log);
    ReversedInDisk(log, dev.blockSize, |dev.disk|);
    if !installed {
      undone := dev.Uninstall();
      UndoRestores(origin, d, log);
    }
  }

  lemma NoneLost(log: seq<Record>, origin: Bytes, d: Bytes)
    ensures Intact(log, Nowhere(), origin, d) ==> RestIntact(log, origin, d)
  {
    hide CoveredBy;
  }

  lemma ReversedInDisk(log: seq<Record>, size: nat, len: nat)
    requires size > 0 && AllInDisk(log, size, len)
    ensures AllInDisk(Reversed(log), size, len)
  {
    hide InDisk;
  }

  lemma Fresh(origin: Bytes)
    ensures Faithful([], origin) && Intact([], Nowhere(), origin, origin)
    ensures forall p: nat :: !CoveredBy([], p) && !WrittenBy([], p)
  {
  }

  /** Installing and later uninstalling from the stored log gives the device back, byte for byte. */
  method InstallThenUninstall(dev: Device, requests: seq<Request>) returns (installed: bool, restored: bool)
    requires dev.Sound() && !dev.dirty && dev.log == [] && !dev.uninstalling
    modifies dev
    ensures dev.Shape() && (installed && restored ==> dev.disk == old(dev.disk))
  {
    hide Faithful, RestIntact, CoveredBy, Patch, Start, Device.View;
    var undone;
    ghost var lost;
    installed, undone, lost := Install(dev, requests, 0);
    restored := false;
    if installed {
      ghost var d := dev.disk;
      restored := dev.Uninstall();
      UndoRestores(old(dev.disk), d, Reversed(dev.log));
    }
  }

  /** `Safe` is exact: if some request can lose a byte, a device that fails once makes it. The install reports that its
      work was undone, and the byte is not what it was. */
  method UnsafeInstall(contents: Bytes, size: nat, requests: seq<Request>, ghost k: nat, p: nat)
    returns (dev: Device, installed: bool, undone: bool)
    requires size > 0 && Loses(requests, contents, size, k, p)
    ensures !installed && undone && |dev.disk| == |contents| && dev.disk[p] != contents[p]
  {
    hide Loses, Bad, AnyBad, LastStart, Start;
    assert p < |contents| by { LosesInside(requests, contents, size, k, p); }
    var t := Trap(p, contents[p], true);
    dev := new Device(contents, size, h => TrapAnswer(t, size, h), t);
    NoCalls(t, size);
    ghost var lost;
    installed, undone, lost := Install(dev, requests, k);
  }

  lemma LosesInside(requests: seq<Request>, contents: Bytes, size: nat, k: nat, p: nat)
    requires size > 0 && Loses(requests, contents, size, k, p)
    ensures p < |contents|
  {
    hide WrittenBy, LastStart, Writes;
  }

  lemma NoCalls(t: Trap, size: nat)
    requires size > 0
    ensures !AnyBad(t, size, [])
  {
  }

  /** Four bytes across the border of two blocks of 512: the byte at 510 is lost. */
  method TwoBlockWriteLoses() returns (dev: Device, installed: bool, undone: bool)
    ensures !installed && undone && |dev.disk| == 1024 && dev.disk[510] != 0
  {
    var requests := [Write(510, [1, 1, 1, 1])];
    assert BlockOf(513, 512) == 1 && LastStart(510, 4, 512) == 512;
    assert requests[..0] == [];
    assert Loses(requests, Zeros(1024), 512, 0, 510);
    dev, installed, undone := UnsafeInstall(Zeros(1024), 512, requests, 0, 510);
  }

  /** On a device that does not fail, a feasible list of requests is installed, the device then holds what was asked
      for, and uninstalling gives back what it held before. */
  method HealthyInstall(contents: Bytes, size: nat, requests: seq<Request>) returns (after: Bytes, dev: Device)
    requires size > 0 && Feasible(requests, size, |contents|)
    ensures Asked(after, contents, requests) && dev.disk == contents
  {
    hide Asked, Feasible, Bad, AnyBad;
    dev := new Device(contents, size, h => Done, Trap(0, 0, false));
    Harmless(dev);
    ghost var lost;
    var installed, undone;
    installed, undone, lost := Install(dev, requests, 0);
    after := dev.disk;
    var restored := dev.Uninstall();
    UndoRestores(contents, after, Reversed(dev.log));
  }

  lemma Harmless(dev: Device)
    requires dev.blockSize > 0 && !dev.trap.armed && forall h: seq<Call> :: dev.plan(h) == Done
    ensures dev.Trapped()
  {
  }
}
