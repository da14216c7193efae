/** syscall.c: the ring buffer of a pipe. */
module PipeRing {
  import opened Base

  const CAPACITY := 4096

  /** The place of the i-th byte from a position on. */
  function At(pos: nat, i: nat): (p: nat)
    ensures p < 4096
  {
    (pos + i) % 4096
  }

  /** Bytes of a ring from a position on. */
  function Window(b: Bytes, pos: nat, n: nat): (s: Bytes)
    requires |b| == 4096
    ensures |s| == n && forall i :: 0 <= i < n ==> s[i] == b[At(pos, i)]
  {
    seq(n, i requires 0 <= i < n => b[At(pos, i)])
  }

  lemma WindowPop(b: Bytes, pos: nat, n: nat)
    requires |b| == 4096 && pos < 4096 && n > 0
    ensures Window(b, pos, n) == [b[pos]] + Window(b, At(pos, 1), n - 1) && At(At(pos, 1), n - 1) == At(pos, n)
  {
    var w := [b[pos]] + Window(b, At(pos, 1), n - 1);
    forall i | 0 <= i < n ensures Window(b, pos, n)[i] == w[i] {
      if i > 0 { assert At(At(pos, 1), i - 1) == At(pos, i); }
    }
  }

  lemma WindowPush(b: Bytes, pos: nat, n: nat, v: Byte)
    requires |b| == 4096 && pos < 4096 && n < 4096
    ensures Window(b[At(pos, n) := v], pos, n + 1) == Window(b, pos, n) + [v] && At(At(pos, n), 1) == At(pos, n + 1)
  {
  }

  lemma Regroup(a: Bytes, b: Bytes, c: Bytes)
    ensures a + b + c == a + (b + c)
  {
  }

  class Ring {
    const buffer: array<Byte>
    var readPos: nat
    var writePos: nat
    var count: nat
    ghost var sent: Bytes
    ghost var received: Bytes

    /** The bytes waiting, oldest first. */
    ghost function Contents(): (s: Bytes)
      requires buffer.Length == CAPACITY
      reads this, buffer
      ensures |s| == count
    {
      Window(buffer[..], readPos, count)
    }

    /** What was written is what was read and then what waits. */
    ghost predicate Valid()
      reads this, buffer
    {
      buffer.Length == CAPACITY && readPos < CAPACITY && count <= CAPACITY && writePos == At(readPos, count)
      && sent == received + Contents()
    }

    constructor ()
      ensures Valid() && sent == [] && received == [] && Contents() == [] && fresh(buffer)
    {
      buffer := new Byte[4096](i => 0);
      readPos, writePos, count, sent, received := 0, 0, 0, [], [];
    }

    /** The clearing of a pipe slot. */
    method Reset()
      requires buffer.Length == CAPACITY
      modifies this, buffer
      ensures Valid() && sent == [] && received == [] && Contents() == []
    {
      forall i | 0 <= i < CAPACITY {
        buffer[i] := 0;
      }
      readPos, writePos, count, sent, received := 0, 0, 0, [], [];
    }

    /** pipe_read_bytes: the oldest bytes, as many as asked for and waiting. */
    method Read(len: nat) returns (data: Bytes)
      requires Valid()
      modifies this
      ensures Valid() && sent == old(sent) && received == old(received) + data
      ensures data == old(Contents())[..Min(len, |old(Contents())|)]
      ensures Contents() == old(Contents())[Min(len, |old(Contents())|)..]
    {
      hide At, Window;
      ghost var all := Contents();
      data := [];
      while |data| < len && count > 0
        invariant Valid() && sent == old(sent) && received == old(received) + data
        invariant |data| <= len && all == data + Contents()
        decreases count
      {
        var b := Pop();
        Regroup(data, [b], Contents());
        Regroup(old(received), data, [b]);
        data := data + [b];
      }
    }

    /** The oldest byte taken out. */
    method Pop() returns (b: Byte)
      requires Valid() && count > 0
      modifies this
      ensures Valid() && sent == old(sent) && received == old(received) + [b] && count == old(count) - 1
      ensures old(Contents()) == [b] + Contents()
    {
      hide At, Window;
      WindowPop(buffer[..], readPos, count);
      b := buffer[readPos];
      Regroup(received, [b], Window(buffer[..], At(readPos, 1), count - 1));
      readPos := At(readPos, 1);
      count := count - 1;
      received := received + [b];
    }

    /** pipe_write_bytes: as many bytes as there is room for, after those that wait. */
    method Write(data: Bytes) returns (n: nat)
      requires Valid()
      modifies this, buffer
      ensures Valid() && received == old(received) && n == Min(|data|, CAPACITY - old(count))
      ensures Contents() == old(Contents()) + data[..n] && sent == old(sent) + data[..n]
    {
      hide At, Window;
      n := 0;
      while n < |data| && count < CAPACITY
        invariant Valid() && received == old(received) && n <= |data| && count == old(count) + n <= CAPACITY
        invariant Contents() == old(Contents()) + data[..n] && sent == old(sent) + data[..n]
      {
        WindowPush(buffer[..], readPos, count, data[n]);
        ghost var before := buffer[..];
        buffer[writePos] := data[n];
        assert buffer[..] == before[writePos := data[n]];
        writePos := At(writePos, 1);
        count := count + 1;
        sent := sent + [data[n]];
        assert data[..n + 1] == data[..n] + [data[n]];
        n := n + 1;
      }
    }
  }
}
