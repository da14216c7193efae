/** KiFS directory blocks as bytes: the record chain a scan walks, and what rewriting one record does to it. */
module DirRecords {
  import opened Base

  function U16(b: Bytes, o: nat): (v: nat)
    requires o + 2 <= |b|
    ensures v < 0x1_0000
  {
    b[o] as int + 256 * (b[o + 1] as int)
  }

  function U32(b: Bytes, o: nat): (v: nat)
    requires o + 4 <= |b|
    ensures v < 0x1_0000_0000
  {
    b[o] as int + 0x100 * (b[o + 1] as int) + 0x1_0000 * (b[o + 2] as int) + 0x100_0000 * (b[o + 3] as int)
  }

  function LE16(v: nat): (r: Bytes)
    requires v < 0x1_0000
    ensures |r| == 2 && U16(r, 0) == v
  {
    [v % 256, v / 256]
  }

  function LE32(v: nat): (r: Bytes)
    requires v < 0x1_0000_0000
    ensures |r| == 4 && U32(r, 0) == v
  {
    var lo, hi := v % 0x1_0000, v / 0x1_0000;
    [lo % 256, lo / 256, hi % 256, hi / 256]
  }

  /** dir_rec_len. */
  function RecLen(nameLen: nat): (n: nat)
    ensures n % 8 == 0 && 8 + nameLen <= n < 16 + nameLen
  {
    (8 + nameLen + 7) / 8 * 8
  }

  datatype Entry = Entry(off: nat, reclen: nat, ino: nat, name: Bytes, ftype: Byte)

  function Stop(e: Entry): (o: nat) { e.off + e.reclen }

  /** A record that the scan accepts at an offset. */
  predicate WellAt(b: Bytes, off: nat, end: nat)
    requires end <= |b|
  {
    off + 8 <= end && U16(b, off + 4) >= RecLen(b[off + 6]) && U16(b, off + 4) % 8 == 0 && off + U16(b, off + 4) <= end
  }

  function EntryAt(b: Bytes, off: nat, end: nat): (e: Entry)
    requires end <= |b| && WellAt(b, off, end)
    ensures e.off == off && 8 + |e.name| <= RecLen(|e.name|) <= e.reclen && Stop(e) <= end && |e.name| < 256
  {
    Entry(off, U16(b, off + 4), U32(b, off), b[off + 8..off + 8 + b[off + 6]], b[off + 7])
  }

  /** The records from an offset on: up to the end of the payload or the first record that is not well formed. */
  ghost function Chain(b: Bytes, off: nat, end: nat): (es: seq<Entry>)
    requires end <= |b|
    decreases if off <= end then end - off else 0
  {
    if !WellAt(b, off, end) then []
    else [EntryAt(b, off, end)] + Chain(b, off + U16(b, off + 4), end)
  }

  /** Where the chain stops. */
  function ChainStop(es: seq<Entry>, start: nat): (o: nat) { if es == [] then start else Stop(es[|es| - 1]) }

  /** Bytes agree on a range. */
  ghost predicate Same(a: Bytes, b: Bytes, lo: nat, hi: nat) {
    |a| == |b| && forall p :: lo <= p < hi && p < |a| ==> a[p] == b[p]
  }

  lemma {:induction false} ChainFrame(a: Bytes, b: Bytes, off: nat, end: nat)
    requires end <= |a| && Same(a, b, off, end)
    ensures Chain(a, off, end) == Chain(b, off, end)
    decreases if off <= end then end - off else 0
  {
    hide U16, U32, RecLen;
    if off + 8 <= end {
      HeaderFrame(a, b, off, end, end);
      if WellAt(a, off, end) {
        ChainFirst(a, off, end);
        ChainFirst(b, off, end);
        SameShorter(a, b, off, end, Stop(EntryAt(a, off, end)));
        ChainFrame(a, b, Stop(EntryAt(a, off, end)), end);
      }
    }
  }

  /** A record depends only on its own bytes. */
  lemma HeaderFrame(a: Bytes, b: Bytes, off: nat, hi: nat, end: nat)
    requires hi <= end <= |a| && Same(a, b, off, hi) && off + 8 <= hi
    ensures WellAt(a, off, end) <==> WellAt(b, off, end)
    ensures U16(a, off + 4) == U16(b, off + 4)
    ensures WellAt(a, off, end) && off + U16(a, off + 4) <= hi ==> EntryAt(a, off, end) == EntryAt(b, off, end)
  {
    assert a[off + 4] == b[off + 4] && a[off + 5] == b[off + 5] && a[off + 6] == b[off + 6] && a[off + 7] == b[off + 7];
    assert a[off] == b[off] && a[off + 1] == b[off + 1] && a[off + 2] == b[off + 2] && a[off + 3] == b[off + 3];
  }

  /** The tail of the chain is the chain from there. */
  lemma {:induction false} ChainTail(b: Bytes, off: nat, end: nat, k: nat)
    requires end <= |b| && k < |Chain(b, off, end)|
    ensures var e := Chain(b, off, end)[k];
            off <= e.off && WellAt(b, e.off, end) && e == EntryAt(b, e.off, end)
            && Chain(b, e.off, end) == Chain(b, off, end)[k..]
            && Chain(b, Stop(e), end) == Chain(b, off, end)[k + 1..]
    decreases k
  {
    var rest := Chain(b, off + U16(b, off + 4), end);
    assert Chain(b, off, end)[1..] == rest;
    if k > 0 {
      ChainTail(b, off + U16(b, off + 4), end, k - 1);
      assert Chain(b, off, end)[k..] == rest[k - 1..] && Chain(b, off, end)[k + 1..] == rest[k..];
    }
  }

  /** The head of the chain survives a change behind it. */
  lemma {:induction false} ChainHead(a: Bytes, b: Bytes, off: nat, end: nat, k: nat)
    requires end <= |a| && k < |Chain(a, off, end)| && Same(a, b, off, Chain(a, off, end)[k].off)
    ensures Chain(b, off, end) == Chain(a, off, end)[..k] + Chain(b, Chain(a, off, end)[k].off, end)
    decreases k
  {
    hide U16, U32, RecLen, WellAt, EntryAt, Same, Chain;
    var es := Chain(a, off, end);
    ChainStarts(a, off, end);
    ChainFirst(a, off, end);
    if k > 0 {
      var next := Stop(es[0]);
      assert es[k] == es[1..][k - 1] && es[..k] == [es[0]] + es[1..][..k - 1];
      ChainTail(a, next, end, k - 1);
      HeadFrame(a, b, off, es[k].off, end);
      ChainFirst(b, off, end);
      ChainHead(a, b, next, end, k - 1);
    }
  }

  /** A chain that is not empty starts with a well-formed record. */
  lemma ChainStarts(a: Bytes, off: nat, end: nat)
    requires end <= |a| && Chain(a, off, end) != []
    ensures WellAt(a, off, end) && off < Stop(EntryAt(a, off, end))
  {
  }

  /** The first record of a chain survives a change behind it. */
  lemma HeadFrame(a: Bytes, b: Bytes, off: nat, hi: nat, end: nat)
    requires end <= |a| && WellAt(a, off, end) && Stop(EntryAt(a, off, end)) <= hi <= end && Same(a, b, off, hi)
    ensures |a| == |b| && WellAt(b, off, end) && EntryAt(b, off, end) == EntryAt(a, off, end)
    ensures Same(a, b, Stop(EntryAt(a, off, end)), hi)
  {
    hide U16, U32, RecLen;
    HeaderFrame(a, b, off, hi, end);
    SameShorter(a, b, off, hi, Stop(EntryAt(a, off, end)));
  }

  lemma ChainFirst(a: Bytes, off: nat, end: nat)
    requires end <= |a| && WellAt(a, off, end)
    ensures Chain(a, off, end) != [] && Chain(a, off, end)[0] == EntryAt(a, off, end)
    ensures Chain(a, off, end)[1..] == Chain(a, Stop(EntryAt(a, off, end)), end)
    ensures Chain(a, off, end) == [EntryAt(a, off, end)] + Chain(a, Stop(EntryAt(a, off, end)), end)
  {
  }

  lemma SameShorter(a: Bytes, b: Bytes, lo: nat, hi: nat, mid: nat)
    requires Same(a, b, lo, hi) && lo <= mid
    ensures Same(a, b, mid, hi)
  {
  }

  /** Rewriting the bytes of record k replaces it by whatever is written there. */
  lemma Rewrite(a: Bytes, b: Bytes, off: nat, end: nat, k: nat, ins: seq<Entry>)
    requires end <= |a| && k < |Chain(a, off, end)|
    requires var e := Chain(a, off, end)[k];
             Same(a, b, off, e.off) && Same(a, b, Stop(e), end)
             && Chain(b, e.off, end) == ins + Chain(b, Stop(e), end)
    ensures Chain(b, off, end) == Chain(a, off, end)[..k] + ins + Chain(a, off, end)[k + 1..]
  {
    var e := Chain(a, off, end)[k];
    ChainTail(a, off, end, k);
    ChainHead(a, b, off, end, k);
    ChainFrame(a, b, Stop(e), end);
  }

  // ---------- writing ----------

  /** The bytes of dir_write_entry. */
  function Packed(ino: nat, name: Bytes, ftype: Byte, reclen: nat): (r: Bytes)
    requires ino < 0x1_0000_0000 && |name| < 256 && 8 + |name| <= reclen < 0x1_0000
    ensures |r| == reclen
  {
    LE32(ino) + LE16(reclen) + [|name|, ftype] + name + Zeros(reclen - 8 - |name|)
  }

  function PutEntry(b: Bytes, off: nat, ino: nat, name: Bytes, ftype: Byte, reclen: nat): (r: Bytes)
    requires ino < 0x1_0000_0000 && |name| < 256 && 8 + |name| <= reclen < 0x1_0000 && off + reclen <= |b|
    ensures |r| == |b| && Same(b, r, 0, off) && Same(b, r, off + reclen, |b|)
  {
    b[..off] + Packed(ino, name, ftype, reclen) + b[off + reclen..]
  }

  lemma PackedFields(ino: nat, name: Bytes, ftype: Byte, reclen: nat)
    requires ino < 0x1_0000_0000 && |name| < 256 && 8 + |name| <= reclen < 0x1_0000
    ensures var p := Packed(ino, name, ftype, reclen);
            U32(p, 0) == ino && U16(p, 4) == reclen && p[6] == |name| && p[7] == ftype && p[8..8 + |name|] == name
  {
    hide LE32, LE16;
    var p := Packed(ino, name, ftype, reclen);
    assert p[0..4] == LE32(ino) && p[4..6] == LE16(reclen);
    Shift(p, LE32(ino), 0, 0);
    Shift(p, LE16(reclen), 4, 0);
  }

  /** Fields read through a slice. */
  lemma Shift(b: Bytes, p: Bytes, off: nat, o: nat)
    requires off + |p| <= |b| && b[off..off + |p|] == p
    ensures forall i :: 0 <= i < |p| ==> b[off..off + |p|][i] == p[i]
    ensures o + 4 <= |p| ==> U32(b, off + o) == U32(p, o)
    ensures o + 2 <= |p| ==> U16(b, off + o) == U16(p, o)
  {
    assert forall i {:trigger p[i]} :: 0 <= i < |p| ==> b[off + i] == p[i];
  }

  lemma SliceOf(b: Bytes, p: Bytes, off: nat, lo: nat, hi: nat)
    requires off + |p| <= |b| && b[off..off + |p|] == p && lo <= hi <= |p|
    ensures b[off + lo..off + hi] == p[lo..hi] && (lo < |p| ==> b[off + lo] == p[lo])
  {
    assert forall i {:trigger p[i]} :: 0 <= i < |p| ==> b[off + i] == p[i];
  }

  lemma PutSlice(b: Bytes, off: nat, ino: nat, name: Bytes, ftype: Byte, reclen: nat)
    requires ino < 0x1_0000_0000 && |name| < 256 && 8 + |name| <= reclen < 0x1_0000 && off + reclen <= |b|
    ensures PutEntry(b, off, ino, name, ftype, reclen)[off..off + reclen] == Packed(ino, name, ftype, reclen)
  {
    hide Packed;
  }

  /** What was written is what a scan reads. */
  lemma PutParses(b: Bytes, off: nat, ino: nat, name: Bytes, ftype: Byte, reclen: nat, end: nat)
    requires ino < 0x1_0000_0000 && |name| < 256 && RecLen(|name|) <= reclen < 0x1_0000 && reclen % 8 == 0
    requires off + reclen <= end <= |b|
    ensures var r := PutEntry(b, off, ino, name, ftype, reclen);
            WellAt(r, off, end) && EntryAt(r, off, end) == Entry(off, reclen, ino, name, ftype)
            && Chain(r, off, end) == [Entry(off, reclen, ino, name, ftype)] + Chain(r, off + reclen, end)
  {
    hide Packed, RecLen, U16, U32, PutEntry, Same;
    var r, p := PutEntry(b, off, ino, name, ftype, reclen), Packed(ino, name, ftype, reclen);
    PackedFields(ino, name, ftype, reclen);
    PutSlice(b, off, ino, name, ftype, reclen);
    Shift(r, p, off, 0);
    Shift(r, p, off, 4);
    SliceOf(r, p, off, 6, 6);
    SliceOf(r, p, off, 7, 7);
    SliceOf(r, p, off, 8, 8 + |name|);
  }

  // ---------- names ----------

  /** A buffer as a C string: up to its first zero byte. */
  function CStr(s: Bytes): (r: Bytes) { if s == [] || s[0] == 0 then [] else [s[0]] + CStr(s[1..]) }

  lemma {:induction false} CStrWhole(s: Bytes)
    requires 0 !in s
    ensures CStr(s) == s
  {
    if s != [] { CStrWhole(s[1..]); }
  }

  lemma {:induction false} CStrShorter(s: Bytes)
    ensures |CStr(s)| <= |s|
  {
    if s != [] && s[0] != 0 { CStrShorter(s[1..]); }
  }

  /** strcmp against a record in use. */
  predicate Binds(e: Entry, name: Bytes) { e.ino != 0 && CStr(e.name) == name }

  /** What a name is bound to. */
  datatype Target = Target(ino: nat, ftype: Byte)

  /** The last record that binds the name wins. */
  function TargetOf(es: seq<Entry>, name: Bytes): (r: Option<Target>) {
    if es == [] then None
    else if Binds(es[|es| - 1], name) then Some(Target(es[|es| - 1].ino, es[|es| - 1].ftype))
    else TargetOf(es[..|es| - 1], name)
  }

  /** The inode a name is bound to. */
  function Lookup(es: seq<Entry>, name: Bytes): (r: Option<nat>) {
    var t := TargetOf(es, name);
    if t.None? then None else Some(t.value.ino)
  }

  lemma {:induction false} LookupConcat(a: seq<Entry>, b: seq<Entry>, name: Bytes)
    ensures TargetOf(a + b, name) == if TargetOf(b, name).Some? then TargetOf(b, name) else TargetOf(a, name)
    decreases |b|
  {
    if b == [] {
      assert a + b == a;
    } else {
      assert (a + b)[|a + b| - 1] == b[|b| - 1] && (a + b)[..|a + b| - 1] == a + b[..|b| - 1];
      LookupConcat(a, b[..|b| - 1], name);
    }
  }

  lemma LookupThree(a: seq<Entry>, m: seq<Entry>, c: seq<Entry>, name: Bytes)
    ensures TargetOf(a + m + c, name) ==
            if TargetOf(c, name).Some? then TargetOf(c, name)
            else if TargetOf(m, name).Some? then TargetOf(m, name) else TargetOf(a, name)
  {
    LookupConcat(a + m, c, name);
    LookupConcat(a, m, name);
  }

  /** The last record with a property, or -1. */
  ghost predicate LastBinding(es: seq<Entry>, name: Bytes, i: int) {
    -1 <= i < |es| && (i >= 0 ==> Binds(es[i], name)) && forall j :: i < j < |es| ==> !Binds(es[j], name)
  }

  lemma {:induction false} LookupLast(es: seq<Entry>, name: Bytes, i: int)
    requires LastBinding(es, name, i)
    ensures TargetOf(es, name) == if i < 0 then None else Some(Target(es[i].ino, es[i].ftype))
    decreases |es|
  {
    if es != [] && i < |es| - 1 { LookupLast(es[..|es| - 1], name, i); }
  }

  /** A record that can take a new entry: in use, or free and long enough. */
  predicate Candidate(e: Entry, need: nat) { e.ino != 0 || e.reclen >= need }

  ghost predicate LastCandidate(es: seq<Entry>, need: nat, i: int) {
    -1 <= i < |es| && (i >= 0 ==> Candidate(es[i], need)) && forall j :: i < j < |es| ==> !Candidate(es[j], need)
  }

  /** The bytes of a record that its own name needs. */
  function Used(e: Entry): (n: nat) { if e.ino == 0 then 0 else RecLen(|e.name|) }

  /** One name bound anew, every other name as before. */
  ghost predicate Rebinds(before: seq<Entry>, after: seq<Entry>, name: Bytes, ino: nat, ftype: Byte) {
    TargetOf(after, name) == Some(Target(ino, ftype))
    && forall n: Bytes :: n != name ==> TargetOf(after, n) == TargetOf(before, n)
  }

  /** Records replaced by records that bind nothing else. */
  lemma ReplaceRebinds(es: seq<Entry>, k: nat, ins: seq<Entry>, name: Bytes, ino: nat, ftype: Byte)
    requires k < |es| && TargetOf(ins, name) == Some(Target(ino, ftype))
             && forall j :: k < j < |es| ==> !Binds(es[j], name)
    requires forall n: Bytes :: n != name ==> TargetOf(ins, n) == TargetOf([es[k]], n)
    ensures Rebinds(es, es[..k] + ins + es[k + 1..], name, ino, ftype)
  {
    hide TargetOf;
    var front, rest := es[..k], es[k + 1..];
    assert es == front + [es[k]] + rest;
    assert forall j :: 0 <= j < |rest| ==> rest[j] == es[k + 1 + j];
    LookupLast(rest, name, -1);
    LookupThree(front, ins, rest, name);
    forall n: Bytes | n != name ensures TargetOf(front + ins + rest, n) == TargetOf(es, n) {
      LookupThree(front, ins, rest, n);
      LookupThree(front, [es[k]], rest, n);
    }
  }

  lemma LookupOne(e: Entry, f: Entry, name: Bytes)
    ensures TargetOf([e], name) == if Binds(e, name) then Some(Target(e.ino, e.ftype)) else None
    ensures TargetOf([e, f], name) == if Binds(f, name) then Some(Target(f.ino, f.ftype)) else TargetOf([e], name)
  {
    assert [e][..0] == [] && [e, f][..1] == [e];
  }
}
