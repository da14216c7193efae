/** crc32.c: the table-driven CRC-32 of IEEE 802.3 section 3.2.9, against the bit-serial register. */
module Crc32 {
  function Xor(a: bv32, b: bv32): (r: bv32) { a ^ b }

  function Half(a: bv32): (r: bv32) { a >> 1 }

  predicate Odd(a: bv32) { a & 1 != 0 }

  /** The feedback for the bit that is shifted out. */
  function Feedback(odd: bool): (r: bv32) { if odd then 0xEDB88320 else 0 }

  /** One shift of the reflected register. */
  function Shift(c: bv32): (r: bv32) { Xor(Half(c), Feedback(Odd(c))) }

  function Shifts(c: bv32, k: nat): (r: bv32)
    decreases k
  {
    if k == 0 then c else Shifts(Shift(c), k - 1)
  }

  function BitWord(bit: bool): (r: bv32) { if bit then 1 else 0 }

  /** One message bit fed into the register. */
  function Feed(c: bv32, bit: bool): (r: bv32) { Shift(Xor(c, BitWord(bit))) }

  /** The low k bits of x, least significant first. */
  function Serial(c: bv32, x: bv32, k: nat): (r: bv32)
    decreases k
  {
    if k == 0 then c else Serial(Feed(c, Odd(x)), Half(x), k - 1)
  }

  function Widen(b: bv8): (r: bv32) { b as bv32 }

  /** The register after a message, bit by bit. */
  function Register(c: bv32, data: seq<bv8>): (r: bv32)
    decreases |data|
  {
    if data == [] then c else Register(Serial(c, Widen(data[0]), 8), data[1..])
  }

  /** CRC-32: preset to ones, and complemented at the end. */
  function Crc(data: seq<bv8>): (r: bv32) { Xor(Register(0xFFFFFFFF, data), 0xFFFFFFFF) }

  // ---------- bit identities ----------

  lemma XorHalf(a: bv32, b: bv32)
    ensures Half(Xor(a, b)) == Xor(Half(a), Half(b)) && (Odd(Xor(a, b)) <==> Odd(a) != Odd(b))
  {
  }

  lemma FeedbackLinear(p: bool, q: bool)
    ensures Feedback(p != q) == Xor(Feedback(p), Feedback(q))
  {
  }

  lemma Interchange(x: bv32, y: bv32, r: bv32, s: bv32)
    ensures Xor(Xor(x, y), Xor(r, s)) == Xor(Xor(x, r), Xor(y, s))
  {
    hide Xor;
    XorAssoc(x, y, Xor(r, s));
    XorAssoc(y, r, s);
    XorComm(y, r);
    XorAssoc(r, y, s);
    XorAssoc(x, r, Xor(y, s));
  }

  lemma XorAssoc(a: bv32, b: bv32, c: bv32)
    ensures Xor(Xor(a, b), c) == Xor(a, Xor(b, c))
  {
  }

  lemma XorComm(a: bv32, b: bv32)
    ensures Xor(a, b) == Xor(b, a)
  {
  }

  lemma XorZero(c: bv32)
    ensures Xor(c, 0) == c && Xor(c, c) == 0
  {
  }

  lemma ShiftLinear(a: bv32, b: bv32)
    ensures Shift(Xor(a, b)) == Xor(Shift(a), Shift(b))
  {
    hide Feedback, Xor, Half, Odd;
    XorHalf(a, b);
    FeedbackLinear(Odd(a), Odd(b));
    Interchange(Half(a), Half(b), Feedback(Odd(a)), Feedback(Odd(b)));
  }

  lemma {:induction false} ShiftsLinear(a: bv32, b: bv32, k: nat)
    ensures Shifts(Xor(a, b), k) == Xor(Shifts(a, k), Shifts(b, k))
    decreases k
  {
    hide Shift, Xor;
    if k > 0 {
      ShiftLinear(a, b);
      ShiftsLinear(Shift(a), Shift(b), k - 1);
    }
  }

  // ---------- feeding bits is feeding a byte ----------

  /** All but the lowest bit. */
  function Even(x: bv32): (r: bv32) { x & 0xFFFFFFFE }

  lemma SplitLow(c: bv32, x: bv32)
    ensures Xor(c, x) == Xor(Xor(c, BitWord(Odd(x))), Even(x))
  {
  }

  lemma EvenShift(x: bv32)
    ensures Shift(Even(x)) == Half(x)
  {
  }

  /** x is spent after k halvings. */
  predicate Spent(x: bv32, k: nat)
    decreases k
  {
    if k == 0 then x == 0 else Spent(Half(x), k - 1)
  }

  /** The k low bits fed one by one are the same as x xored in and k shifts, when x has no more bits. */
  lemma {:induction false} SerialIsShifts(c: bv32, x: bv32, k: nat)
    requires Spent(x, k)
    ensures Serial(c, x, k) == Shifts(Xor(c, x), k)
    decreases k
  {
    hide Shift, Xor, Half, Odd, Even, BitWord;
    if k == 0 {
      XorZero(c);
    } else {
      SplitLow(c, x);
      ShiftLinear(Xor(c, BitWord(Odd(x))), Even(x));
      EvenShift(x);
      SerialIsShifts(Feed(c, Odd(x)), Half(x), k - 1);
    }
  }

  lemma ByteSpent(b: bv8)
    ensures Spent(Widen(b), 8)
  {
  }

  // ---------- the table ----------

  function LowByte(x: bv32): (r: bv32) { x & 0xFF }

  function HighBytes(x: bv32): (r: bv32) { x & 0xFFFFFF00 }

  lemma SplitByte(x: bv32)
    ensures x == Xor(LowByte(x), HighBytes(x))
  {
  }

  /** Eight shifts of a register whose low byte is zero move it down by a byte. */
  lemma HighShifts(x: bv32)
    ensures Shifts(HighBytes(x), 8) == x >> 8
  {
  }

  lemma ShiftsStep(c: bv32, k: nat)
    ensures Shifts(c, k + 1) == Shifts(Shift(c), k) && Shifts(Shift(c), 0) == Shift(c)
  {
  }

  /** One table look-up does the work of eight shifts. */
  lemma TableStep(x: bv32)
    ensures Shifts(x, 8) == Xor(Shifts(LowByte(x), 8), x >> 8)
  {
    hide Shifts, Xor, LowByte, HighBytes;
    SplitByte(x);
    ShiftsLinear(LowByte(x), HighBytes(x), 8);
    HighShifts(x);
  }

  /** Entry i of the table. */
  function TableEntry(i: nat): (r: bv32)
    requires i < 256
  {
    Shifts(i as bv32, 8)
  }

  lemma ByteIndex(x: bv32)
    ensures LowByte(x) as nat < 256 && TableEntry(LowByte(x) as nat) == Shifts(LowByte(x), 8)
  {
  }

  ghost predicate IsTable(t: seq<bv32>) { |t| == 256 && forall i: nat :: i < 256 ==> t[i] == TableEntry(i) }

  /** crc32_init_table. */
  method InitTable(table: array<bv32>)
    requires table.Length == 256
    modifies table
    ensures IsTable(table[..])
  {
    hide TableEntry;
    for i := 0 to 256
      invariant forall k: nat :: k < i ==> table[k] == TableEntry(k)
    {
      var c := MakeEntry(i);
      table[i] := c;
    }
  }

  /** One entry: eight shifts of its index. */
  method MakeEntry(i: nat) returns (c: bv32)
    requires i < 256
    ensures c == TableEntry(i)
  {
    hide Shifts, Shift, Xor, Half, Odd;
    c := i as bv32;
    ghost var c0 := c;
    for j := 0 to 8
      invariant Shifts(c0, 8) == Shifts(c, 8 - j)
    {
      ShiftsStep(c, 7 - j);
      ShiftIs(c);
      if Odd(c) {
        c := Xor(0xEDB88320, Half(c));
      } else {
        c := Half(c);
      }
    }
    ShiftsNone(c);
  }

  lemma ShiftsNone(c: bv32)
    ensures Shifts(c, 0) == c
  {
  }

  lemma ShiftIs(c: bv32)
    ensures Shift(c) == if Odd(c) then Xor(0xEDB88320, Half(c)) else Half(c)
  {
    hide Xor, Half, Odd;
    XorComm(Half(c), 0xEDB88320);
    XorZero(Half(c));
  }

  /** crc32_ieee computes the CRC of IEEE 802.3. */
  method Crc32Ieee(data: seq<bv8>) returns (r: bv32)
    ensures r == Crc(data)
  {
    hide Shifts, Serial, Xor, Register, LowByte, Widen, TableEntry;
    var table := new bv32[256];
    InitTable(table);
    var crc: bv32 := 0xFFFFFFFF;
    assert data[0..] == data;
    for i := 0 to |data|
      invariant Register(0xFFFFFFFF, data) == Register(crc, data[i..]) && IsTable(table[..])
    {
      ghost var x := Xor(crc, Widen(data[i]));
      ByteSpent(data[i]);
      SerialIsShifts(crc, Widen(data[i]), 8);
      TableStep(x);
      ByteIndex(x);
      RegisterNext(crc, data, i);
      ShiftDown(crc, data[i]);
      crc := Xor(table[LowByte(Xor(crc, Widen(data[i]))) as nat], crc >> 8);
    }
    RegisterEnd(crc, data);
    r := Xor(crc, 0xFFFFFFFF);
  }

  lemma RegisterNext(c: bv32, data: seq<bv8>, i: nat)
    requires i < |data|
    ensures Register(c, data[i..]) == Register(Serial(c, Widen(data[i]), 8), data[i + 1..])
  {
  }

  lemma RegisterEnd(c: bv32, data: seq<bv8>)
    ensures Register(c, data[|data|..]) == c
  {
  }

  lemma ShiftDown(c: bv32, b: bv8)
    ensures Xor(c, Widen(b)) >> 8 == c >> 8
  {
  }

  // ---------- errors in one byte ----------

  lemma ShiftInjective(a: bv32, b: bv32)
    requires Shift(a) == Shift(b)
    ensures a == b
  {
  }

  lemma {:induction false} ShiftsInjective(a: bv32, b: bv32, k: nat)
    requires Shifts(a, k) == Shifts(b, k)
    ensures a == b
    decreases k
  {
    hide Shift;
    if k > 0 {
      ShiftsInjective(Shift(a), Shift(b), k - 1);
      ShiftInjective(a, b);
    }
  }

  lemma XorCancel(a: bv32, b: bv32, x: bv32)
    ensures Xor(a, x) == Xor(b, x) ==> a == b
    ensures Xor(x, a) == Xor(x, b) ==> a == b
  {
  }

  lemma WidenInjective(a: bv8, b: bv8)
    ensures Widen(a) == Widen(b) ==> a == b
  {
  }

  /** Registers that differ stay different under the same bytes. */
  lemma {:induction false} RegisterInjective(a: bv32, b: bv32, data: seq<bv8>)
    requires Register(a, data) == Register(b, data)
    ensures a == b
    decreases |data|
  {
    hide Serial, Xor, Widen, Shifts;
    if data != [] {
      RegisterInjective(Serial(a, Widen(data[0]), 8), Serial(b, Widen(data[0]), 8), data[1..]);
      ByteSpent(data[0]);
      SerialIsShifts(a, Widen(data[0]), 8);
      SerialIsShifts(b, Widen(data[0]), 8);
      ShiftsInjective(Xor(a, Widen(data[0])), Xor(b, Widen(data[0])), 8);
      XorCancel(a, b, Widen(data[0]));
    }
  }

  lemma {:induction false} RegisterConcat(c: bv32, pre: seq<bv8>, post: seq<bv8>)
    ensures Register(c, pre + post) == Register(Register(c, pre), post)
    decreases |pre|
  {
    hide Serial, Widen;
    if pre == [] {
      assert pre + post == post;
    } else {
      assert (pre + post)[0] == pre[0] && (pre + post)[1..] == pre[1..] + post;
      RegisterConcat(Serial(c, Widen(pre[0]), 8), pre[1..], post);
    }
  }

  /** A message with one byte changed, however it is changed, has a different CRC. */
  lemma OneByteErrorDetected(pre: seq<bv8>, a: bv8, b: bv8, post: seq<bv8>)
    requires a != b
    ensures Crc(pre + [a] + post) != Crc(pre + [b] + post)
  {
    hide Serial, Widen, Xor, Shifts, Register;
    var ones: bv32 := 0xFFFFFFFF;
    var c := Register(ones, pre);
    assert pre + [a] + post == pre + ([a] + post) && pre + [b] + post == pre + ([b] + post);
    RegisterConcat(ones, pre, [a] + post);
    RegisterConcat(ones, pre, [b] + post);
    RegisterFirst(c, a, post);
    RegisterFirst(c, b, post);
    XorCancel(Register(c, [a] + post), Register(c, [b] + post), ones);
    if Register(c, [a] + post) == Register(c, [b] + post) {
      RegisterInjective(Serial(c, Widen(a), 8), Serial(c, Widen(b), 8), post);
      ByteSpent(a);
      ByteSpent(b);
      SerialIsShifts(c, Widen(a), 8);
      SerialIsShifts(c, Widen(b), 8);
      ShiftsInjective(Xor(c, Widen(a)), Xor(c, Widen(b)), 8);
      XorCancel(Widen(a), Widen(b), c);
      WidenInjective(a, b);
    }
  }

  lemma RegisterFirst(c: bv32, b: bv8, post: seq<bv8>)
    ensures Register(c, [b] + post) == Register(Serial(c, Widen(b), 8), post)
  {
  }
}
