/** Small shared vocabulary: optional values, bytes and words, duplicate-free sequences, products. */
module Base {
  datatype Option<+T> = None | Some(value: T)

  type Byte = b: int | 0 <= b < 256 witness 0
  type Bytes = seq<Byte>

  /** A 32-bit word, and the number of 64-bit ones. */
  type Word = w: int | 0 <= w < 0x1_0000_0000 witness 0
  const WORD := 0x1_0000_0000_0000_0000

  function Zeros(n: nat): (z: Bytes)
    ensures |z| == n && forall i :: 0 <= i < n ==> z[i] == 0
  {
    seq(n, i => 0)
  }

  /** No element occurs at two positions of the sequence. */
  ghost predicate NoDup<T>(s: seq<T>) {
    forall i, j :: 0 <= i < j < |s| ==> s[i] != s[j]
  }

  function Min(a: nat, b: nat): (m: nat) { if a <= b then a else b }

  lemma MulMono(a: nat, b: nat, n: nat)
    requires a <= b
    ensures a * n <= b * n
  {
  }

  lemma MulGap(a: nat, b: nat, n: nat)
    requires a < b
    ensures a * n + n <= b * n
  {
    assert b * n == (b - a - 1) * n + a * n + n;
  }

  /** Every element of the list is a slot number below n. */
  ghost predicate Below(s: seq<nat>, n: nat) { forall j :: 0 <= j < |s| ==> s[j] < n }
}
