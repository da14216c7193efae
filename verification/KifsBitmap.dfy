/** kifs_cp.c: bitmaps kept as whole blocks, each with a 20-byte header and 32608 bits of payload. */
module KifsBitmap {
  import opened Bitmap

  /** The byte of the buffer that holds a bit. */
  function ByteOf(i: nat): (p: nat) { i / 32608 * 4096 + 20 + i % 32608 / 8 }

  /** And the bit inside it. */
  function BitOf(i: nat): (k: nat)
    ensures k < 8
  {
    i % 32608 % 8
  }

  /** Two bits share a byte and a position only when they are the same bit. */
  lemma Placement(i: nat, j: nat, blocks: nat)
    requires i < blocks * 32608 && j < blocks * 32608
    ensures ByteOf(i) < blocks * 4096
    ensures ByteOf(i) == ByteOf(j) && BitOf(i) == BitOf(j) ==> i == j
  {
    assert i / 32608 < blocks;
    assert i % 32608 / 8 < 4076 && j % 32608 / 8 < 4076;
  }

  predicate At(mem: seq<bv8>, i: nat)
    requires ByteOf(i) < |mem|
  {
    TestBit(mem[ByteOf(i)], BitOf(i))
  }

  /** The bits that a bitmap of so many blocks holds. */
  ghost function Bits(mem: seq<bv8>, blocks: nat): (r: seq<bool>)
    requires |mem| == blocks * 4096
    ensures |r| == blocks * 32608
    ensures forall i: nat :: i < blocks * 32608 ==> ByteOf(i) < |mem| && r[i] == At(mem, i)
  {
    assert forall i: nat {:trigger ByteOf(i)} :: i < blocks * 32608 ==> ByteOf(i) < |mem| by {
      forall i: nat | i < blocks * 32608 ensures ByteOf(i) < |mem| { Placement(i, i, blocks); }
    }
    seq(blocks * 32608, (i: nat) requires i < blocks * 32608 && ByteOf(i) < |mem| => At(mem, i))
  }

  lemma BitsSet(mem: seq<bv8>, blocks: nat, i: nat)
    requires |mem| == blocks * 4096 && i < blocks * 32608
    ensures ByteOf(i) < |mem|
    ensures Bits(mem[ByteOf(i) := mem[ByteOf(i)] | Mask(BitOf(i))], blocks) == Bits(mem, blocks)[i := true]
  {
    hide ByteOf, BitOf, TestBit, Mask;
    Placement(i, i, blocks);
    var m := mem[ByteOf(i) := mem[ByteOf(i)] | Mask(BitOf(i))];
    forall j: nat | j < blocks * 32608 ensures Bits(m, blocks)[j] == Bits(mem, blocks)[i := true][j] {
      Placement(i, j, blocks);
      Placement(j, i, blocks);
      ByteSet(mem[ByteOf(i)], BitOf(i), BitOf(j));
    }
  }

  function Without(x: bv8, k: nat): (r: bv8)
    requires k < 8
  {
    x & !Mask(k)
  }

  lemma BitsClear(mem: seq<bv8>, blocks: nat, i: nat)
    requires |mem| == blocks * 4096 && i < blocks * 32608
    ensures ByteOf(i) < |mem|
    ensures Bits(mem[ByteOf(i) := Without(mem[ByteOf(i)], BitOf(i))], blocks) == Bits(mem, blocks)[i := false]
  {
    hide ByteOf, BitOf, TestBit, Mask;
    Placement(i, i, blocks);
    var m := mem[ByteOf(i) := Without(mem[ByteOf(i)], BitOf(i))];
    forall j: nat | j < blocks * 32608 ensures Bits(m, blocks)[j] == Bits(mem, blocks)[i := false][j] {
      Placement(i, j, blocks);
      Placement(j, i, blocks);
      ByteClear(mem[ByteOf(i)], BitOf(i), BitOf(j));
    }
  }

  /** A bit outside the bitmap reads as used and is not set or cleared. */
  predicate UsedAt(bits: seq<bool>, i: nat) { i < |bits| ==> bits[i] }

  function Marked(bits: seq<bool>, i: nat, v: bool): (r: seq<bool>)
    ensures |r| == |bits|
  {
    if i < |bits| then bits[i := v] else bits
  }

  class BitmapMem {
    const blocks: nat
    const mem: array<bv8>

    constructor (blocks: nat, bytes: seq<bv8>)
      requires |bytes| == blocks * 4096
      ensures this.blocks == blocks && Valid() && mem[..] == bytes && fresh(mem)
    {
      this.blocks := blocks;
      var m := new bv8[|bytes|](i requires 0 <= i < |bytes| => bytes[i]);
      mem := m;
      new;
      assert mem[..] == bytes;
    }

    ghost predicate Valid() { mem.Length == blocks * 4096 }

    ghost function View(): (r: seq<bool>)
      requires Valid()
      reads mem
    {
      Bits(mem[..], blocks)
    }

    /** bitmap_get_mem. */
    method Get(i: nat) returns (v: bool)
      requires Valid()
      ensures v == UsedAt(View(), i)
    {
      hide ByteOf, BitOf, TestBit;
      if i / 32608 >= blocks {
        return true;
      }
      Placement(i, i, blocks);
      return TestBit(mem[ByteOf(i)], BitOf(i));
    }

    /** bitmap_set_mem. */
    method Set(i: nat)
      requires Valid()
      modifies mem
      ensures View() == Marked(old(View()), i, true)
    {
      hide ByteOf, BitOf, TestBit, Mask, Bits;
      if i / 32608 < blocks {
        BitsSet(mem[..], blocks, i);
        ghost var m := mem[..];
        mem[ByteOf(i)] := mem[ByteOf(i)] | Mask(BitOf(i));
        assert mem[..] == m[ByteOf(i) := m[ByteOf(i)] | Mask(BitOf(i))];
      }
    }

    /** bitmap_clear_mem. */
    method Clear(i: nat)
      requires Valid()
      modifies mem
      ensures View() == Marked(old(View()), i, false)
    {
      hide ByteOf, BitOf, TestBit, Without, Bits;
      if i / 32608 < blocks {
        BitsClear(mem[..], blocks, i);
        ghost var m := mem[..];
        mem[ByteOf(i)] := Without(mem[ByteOf(i)], BitOf(i));
        assert mem[..] == m[ByteOf(i) := Without(m[ByteOf(i)], BitOf(i))];
      }
    }
  }
}
