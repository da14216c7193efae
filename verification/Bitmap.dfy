/** Bitmaps packed eight to a byte, as pmm.c and the KiFS tools keep them. */
module Bitmap {
  /** `1 << k`. */
  function Mask(k: nat): (m: bv8)
    requires k < 8
  {
    if k == 0 then 1 else if k == 1 then 2 else if k == 2 then 4 else if k == 3 then 8
    else if k == 4 then 16 else if k == 5 then 32 else if k == 6 then 64 else 128
  }

  predicate TestBit(x: bv8, k: nat)
    requires k < 8
  {
    x & Mask(k) != 0
  }

  lemma ByteSet(x: bv8, k: nat, j: nat)
    requires k < 8 && j < 8
    ensures TestBit(x | Mask(k), j) == (j == k || TestBit(x, j))
  {
  }

  lemma ByteClear(x: bv8, k: nat, j: nat)
    requires k < 8 && j < 8
    ensures TestBit(x & !Mask(k), j) == (j != k && TestBit(x, j))
  {
  }

  /** Bit i of a packed bitmap. */
  predicate Bit(s: seq<bv8>, i: nat)
    requires i / 8 < |s|
  {
    TestBit(s[i / 8], i % 8)
  }

  lemma SetBit(s: seq<bv8>, i: nat, j: nat)
    requires i / 8 < |s| && j / 8 < |s|
    ensures Bit(s[i / 8 := s[i / 8] | Mask(i % 8)], j) == (j == i || Bit(s, j))
  {
  }

  lemma ClearBit(s: seq<bv8>, i: nat, j: nat)
    requires i / 8 < |s| && j / 8 < |s|
    ensures Bit(s[i / 8 := s[i / 8] & !Mask(i % 8)], j) == (j != i && Bit(s, j))
  {
  }

  /** The first n bits, unpacked. */
  ghost function Unpack(s: seq<bv8>, n: nat): (r: seq<bool>)
    requires n <= 8 * |s|
    ensures |r| == n && forall i :: 0 <= i < n ==> r[i] == Bit(s, i)
  {
    if n == 0 then [] else Unpack(s, n - 1) + [Bit(s, n - 1)]
  }

  lemma UnpackSet(s: seq<bv8>, n: nat, i: nat)
    requires n <= 8 * |s| && i < n
    ensures Unpack(s[i / 8 := s[i / 8] | Mask(i % 8)], n) == Unpack(s, n)[i := true]
  {
    var t := s[i / 8 := s[i / 8] | Mask(i % 8)];
    forall j | 0 <= j < n ensures Unpack(t, n)[j] == Unpack(s, n)[i := true][j] { SetBit(s, i, j); }
  }

  lemma UnpackClear(s: seq<bv8>, n: nat, i: nat)
    requires n <= 8 * |s| && i < n
    ensures Unpack(s[i / 8 := s[i / 8] & !Mask(i % 8)], n) == Unpack(s, n)[i := false]
  {
    var t := s[i / 8 := s[i / 8] & !Mask(i % 8)];
    forall j | 0 <= j < n ensures Unpack(t, n)[j] == Unpack(s, n)[i := false][j] { ClearBit(s, i, j); }
  }

  /** How many of the bits are set. */
  function Count(b: seq<bool>): (n: nat)
    ensures n <= |b|
  {
    if b == [] then 0 else Count(b[..|b| - 1]) + (if b[|b| - 1] then 1 else 0)
  }

  lemma {:induction false} CountUpdate(b: seq<bool>, i: nat, v: bool)
    requires i < |b|
    ensures Count(b[i := v]) == Count(b) - (if b[i] then 1 else 0) + (if v then 1 else 0)
  {
    var n := |b| - 1;
    if i == n {
      assert b[i := v][..n] == b[..n];
    } else {
      assert b[i := v][..n] == b[..n][i := v];
      CountUpdate(b[..n], i, v);
    }
  }
}
