/** Packed little-endian structures: fields of given widths laid end to end. */
module ByteFields {
  import opened Base

  function Pow(w: nat): (p: nat)
    ensures p >= 1
  {
    if w == 0 then 1 else 256 * Pow(w - 1)
  }

  lemma Widths()
    ensures Pow(1) == 256 && Pow(2) == 0x1_0000 && Pow(4) == 0x1_0000_0000 && Pow(8) == 0x1_0000_0000_0000_0000
  {
  }

  function LE(v: nat, w: nat): (r: Bytes)
    requires v < Pow(w)
    ensures |r| == w
  {
    if w == 0 then [] else [v % 256] + LE(v / 256, w - 1)
  }

  function FromLE(b: Bytes): (v: nat) { if b == [] then 0 else b[0] as int + 256 * FromLE(b[1..]) }

  lemma {:induction false} FromLEOfLE(v: nat, w: nat)
    requires v < Pow(w)
    ensures FromLE(LE(v, w)) == v
  {
    if w > 0 {
      FromLEOfLE(v / 256, w - 1);
      assert LE(v, w)[1..] == LE(v / 256, w - 1);
    }
  }

  lemma {:induction false} FromLEBound(b: Bytes)
    ensures FromLE(b) < Pow(|b|)
  {
    if b != [] { FromLEBound(b[1..]); }
  }

  function Total(widths: seq<nat>): (n: nat) { if widths == [] then 0 else widths[0] + Total(widths[1..]) }

  ghost predicate FitsFields(vals: seq<nat>, widths: seq<nat>) {
    |vals| == |widths| && forall i :: 0 <= i < |vals| ==> vals[i] < Pow(widths[i])
  }

  function Pack(vals: seq<nat>, widths: seq<nat>): (r: Bytes)
    requires FitsFields(vals, widths)
    ensures |r| == Total(widths)
  {
    if vals == [] then []
    else
      assert FitsFields(vals[1..], widths[1..]);
      LE(vals[0], widths[0]) + Pack(vals[1..], widths[1..])
  }

  function Unpack(b: Bytes, widths: seq<nat>): (vals: seq<nat>)
    requires |b| >= Total(widths)
    ensures |vals| == |widths|
  {
    if widths == [] then [] else [FromLE(b[..widths[0]])] + Unpack(b[widths[0]..], widths[1..])
  }

  /** What is packed unpacks, whatever follows it. */
  lemma {:induction false} UnpackOfPack(vals: seq<nat>, widths: seq<nat>, rest: Bytes)
    requires FitsFields(vals, widths)
    ensures Unpack(Pack(vals, widths) + rest, widths) == vals
  {
    if vals != [] {
      var head, tail := LE(vals[0], widths[0]), Pack(vals[1..], widths[1..]);
      var b := Pack(vals, widths) + rest;
      assert b == head + (tail + rest);
      assert b[..widths[0]] == head && b[widths[0]..] == tail + rest;
      FromLEOfLE(vals[0], widths[0]);
      UnpackOfPack(vals[1..], widths[1..], rest);
    }
  }

  lemma {:induction false} LEOfFromLE(b: Bytes)
    ensures FromLE(b) < Pow(|b|) && LE(FromLE(b), |b|) == b
  {
    FromLEBound(b);
    if b != [] { LEOfFromLE(b[1..]); }
  }

  /** What is unpacked packs to the bytes it was read from. */
  lemma {:induction false} PackOfUnpack(b: Bytes, widths: seq<nat>)
    requires |b| >= Total(widths)
    ensures FitsFields(Unpack(b, widths), widths) && Pack(Unpack(b, widths), widths) == b[..Total(widths)]
  {
    if widths != [] {
      var w, rest := widths[0], b[widths[0]..];
      LEOfFromLE(b[..w]);
      PackOfUnpack(rest, widths[1..]);
      var vals := Unpack(b, widths);
      assert vals[1..] == Unpack(rest, widths[1..]);
      forall i | 0 <= i < |vals| ensures vals[i] < Pow(widths[i]) {
        if i > 0 { assert vals[i] == vals[1..][i - 1] && widths[i] == widths[1..][i - 1]; }
      }
      assert b[..Total(widths)] == b[..w] + rest[..Total(widths[1..])];
    }
  }

  /** Each value is read at the sum of the widths before it. */
  lemma {:induction false} UnpackIs(b: Bytes, widths: seq<nat>, i: nat)
    requires |b| >= Total(widths) && i < |widths|
    ensures Total(widths[..i]) + widths[i] <= |b|
    ensures Unpack(b, widths)[i] == FromLE(b[Total(widths[..i])..Total(widths[..i]) + widths[i]])
    decreases |widths|
  {
    hide FromLE;
    if i > 0 {
      var w := widths[0];
      UnpackIs(b[w..], widths[1..], i - 1);
      assert widths[..i][1..] == widths[1..][..i - 1];
      SliceOfRest(b, w, Total(widths[1..][..i - 1]), widths[i]);
    }
  }

  lemma SliceOfRest(b: Bytes, w: nat, o: nat, n: nat)
    requires w + o + n <= |b|
    ensures b[w..][o..o + n] == b[w + o..w + o + n]
  {
  }

  lemma {:induction false} TotalNext(widths: seq<nat>, i: nat)
    requires i < |widths|
    ensures Total(widths[..i + 1]) == Total(widths[..i]) + widths[i]
    decreases |widths|
  {
    if i == 0 {
      assert widths[..1][1..] == [];
    } else {
      TotalNext(widths[1..], i - 1);
      assert widths[..i + 1][1..] == widths[1..][..i] && widths[..i][1..] == widths[1..][..i - 1];
    }
  }

  // ---------- numbers at an offset, lowest byte first ----------

  function U16(b: Bytes, o: nat): (v: nat)
    requires o + 2 <= |b|
  {
    b[o] as int + 0x100 * (b[o + 1] as int)
  }

  function U32(b: Bytes, o: nat): (v: nat)
    requires o + 4 <= |b|
  {
    U16(b, o) + 0x1_0000 * U16(b, o + 2)
  }

  function U64(b: Bytes, o: nat): (v: nat)
    requires o + 8 <= |b|
  {
    U32(b, o) + 0x1_0000_0000 * U32(b, o + 4)
  }

  lemma {:induction false} FromLEConcat(a: Bytes, b: Bytes)
    ensures FromLE(a + b) == FromLE(a) + Pow(|a|) * FromLE(b)
  {
    if a == [] {
      assert a + b == b;
    } else {
      assert (a + b)[1..] == a[1..] + b;
      FromLEConcat(a[1..], b);
      Spread(a[0] as int, FromLE(a[1..]), Pow(|a| - 1), FromLE(b));
    }
  }

  lemma Spread(c: nat, x: nat, p: nat, y: nat)
    ensures c + 256 * (x + p * y) == c + 256 * x + (256 * p) * y
  {
  }

  lemma FieldsAt(b: Bytes, o: nat)
    ensures o + 2 <= |b| ==> FromLE(b[o..o + 2]) == U16(b, o)
    ensures o + 4 <= |b| ==> FromLE(b[o..o + 4]) == U32(b, o)
    ensures o + 8 <= |b| ==> FromLE(b[o..o + 8]) == U64(b, o)
  {
    Widths();
    if o + 2 <= |b| { Two(b, o); }
    if o + 4 <= |b| { Four(b, o); }
    if o + 8 <= |b| {
      Four(b, o);
      Four(b, o + 4);
      assert b[o..o + 8] == b[o..o + 4] + b[o + 4..o + 8];
      FromLEConcat(b[o..o + 4], b[o + 4..o + 8]);
    }
  }

  lemma Two(b: Bytes, o: nat)
    requires o + 2 <= |b|
    ensures FromLE(b[o..o + 2]) == U16(b, o)
  {
    var s := b[o..o + 2];
    assert s[1..] == [b[o + 1]] && [b[o + 1]][1..] == [];
    assert FromLE([b[o + 1]]) == b[o + 1] as int;
  }

  lemma Four(b: Bytes, o: nat)
    requires o + 4 <= |b|
    ensures FromLE(b[o..o + 4]) == U32(b, o)
  {
    Widths();
    Two(b, o);
    Two(b, o + 2);
    assert b[o..o + 4] == b[o..o + 2] + b[o + 2..o + 4];
    FromLEConcat(b[o..o + 2], b[o + 2..o + 4]);
  }
}
