/** kifs_cp.c: scanning a directory block and editing it in place. */
module DirBlock {
  import opened Base
  import opened DirRecords

  const BLOCK_SIZE := 4096
  const HEADER_SIZE := 20

  function HeaderBytes(b: Bytes): (n: nat)
    requires |b| == 4096
  {
    U16(b, 8)
  }

  function PayloadEnd(b: Bytes): (n: nat)
    requires |b| == 4096
  {
    U16(b, 8) + U16(b, 10)
  }

  /** Magic, version and block type of a directory block. */
  function DirTag(): (t: Bytes) { [0x4B, 0x44, 0x49, 0x52, 1, 0, 4, 0] }

  /** What validate_shdr asks of the header, but for the checksum. */
  predicate Framed(b: Bytes) {
    |b| == 4096 && b[..8] == DirTag() && HEADER_SIZE <= HeaderBytes(b) && PayloadEnd(b) <= BLOCK_SIZE
  }

  /** The records of a block. */
  ghost function Entries(b: Bytes): (es: seq<Entry>)
    requires Framed(b)
  {
    Chain(b, HeaderBytes(b), PayloadEnd(b))
  }

  // ---------- the three edits ----------

  /** The new length stored in a record. */
  function SetLen(b: Bytes, off: nat, v: nat): (r: Bytes)
    requires off + 6 <= |b| && v < 0x1_0000
    ensures |r| == |b| && Same(b, r, 0, off + 4) && Same(b, r, off + 6, |b|)
  {
    b[..off + 4] + LE16(v) + b[off + 6..]
  }

  /** Record k becomes a record for the name: it was one already, or it was free and long enough. */
  lemma PutOver(b: Bytes, off: nat, end: nat, k: nat, ino: nat, name: Bytes, ftype: Byte)
    requires end <= |b| && k < |Chain(b, off, end)| && 0 < ino < 0x1_0000_0000 && |name| < 256 && 0 !in name
    requires forall j :: k < j < |Chain(b, off, end)| ==> !Binds(Chain(b, off, end)[j], name)
    requires var e := Chain(b, off, end)[k]; Binds(e, name) || (e.ino == 0 && e.reclen >= RecLen(|name|))
    ensures var es := Chain(b, off, end);
            var e := es[k];
            off <= e.off && Stop(e) <= end && RecLen(|name|) <= e.reclen < 0x1_0000
            && (var r := PutEntry(b, e.off, ino, name, ftype, e.reclen);
                Chain(r, off, end) == es[..k] + [Entry(e.off, e.reclen, ino, name, ftype)] + es[k + 1..]
                && Rebinds(es, Chain(r, off, end), name, ino, ftype))
  {
    hide Chain, RecLen, PutEntry;
    var es := Chain(b, off, end);
    var e := es[k];
    ChainTail(b, off, end, k);
    RoomForSame(e, name);
    var r, f := PutEntry(b, e.off, ino, name, ftype, e.reclen), Entry(e.off, e.reclen, ino, name, ftype);
    PutParses(b, e.off, ino, name, ftype, e.reclen, end);
    Rewrite(b, r, off, end, k, [f]);
    CStrWhole(name);
    forall n: Bytes ensures TargetOf([f], n) == if n == name then Some(Target(ino, ftype)) else TargetOf([e], n) {
      LookupOne(f, f, n);
      LookupOne(e, e, n);
    }
    ReplaceRebinds(es, k, [f], name, ino, ftype);
  }

  lemma RoomForSame(e: Entry, name: Bytes)
    requires (Binds(e, name) && RecLen(|e.name|) <= e.reclen) || e.reclen >= RecLen(|name|)
    ensures RecLen(|name|) <= e.reclen
  {
    CStrShorter(e.name);
  }

  /** Record k gives up its slack to a new record for an unbound name. */
  lemma PutAfter(b: Bytes, off: nat, end: nat, k: nat, ino: nat, name: Bytes, ftype: Byte)
    requires end <= |b| && k < |Chain(b, off, end)| && 0 < ino < 0x1_0000_0000 && |name| < 256 && 0 !in name
    requires LastBinding(Chain(b, off, end), name, -1)
    requires var e := Chain(b, off, end)[k]; e.ino != 0 && e.reclen >= Used(e) + RecLen(|name|)
    ensures var es := Chain(b, off, end);
            var e := es[k];
            off <= e.off && Stop(e) <= end && e.reclen < 0x1_0000
            && (var r := PutEntry(SetLen(b, e.off, Used(e)), e.off + Used(e), ino, name, ftype, e.reclen - Used(e));
                Chain(r, off, end) == es[..k] + [e.(reclen := Used(e)),
                  Entry(e.off + Used(e), e.reclen - Used(e), ino, name, ftype)] + es[k + 1..]
                && Rebinds(es, Chain(r, off, end), name, ino, ftype))
  {
    hide Chain, RecLen, PutEntry, SetLen;
    var es := Chain(b, off, end);
    var e := es[k];
    ChainTail(b, off, end, k);
    var b1 := SetLen(b, e.off, Used(e));
    var r := PutEntry(b1, e.off + Used(e), ino, name, ftype, e.reclen - Used(e));
    var g, f := e.(reclen := Used(e)), Entry(e.off + Used(e), e.reclen - Used(e), ino, name, ftype);
    RecLenMultiple(e, name);
    PutParses(b1, e.off + Used(e), ino, name, ftype, e.reclen - Used(e), end);
    ShortenParses(b, e.off, end, r);
    assert Chain(r, e.off, end) == [g, f] + Chain(r, Stop(e), end);
    Rewrite(b, r, off, end, k, [g, f]);
    CStrWhole(name);
    forall n: Bytes ensures TargetOf([g, f], n) == if n == name then Some(Target(ino, ftype)) else TargetOf([e], n) {
      LookupOne(g, f, n);
      LookupOne(e, e, n);
    }
    ReplaceRebinds(es, k, [g, f], name, ino, ftype);
  }

  lemma RecLenMultiple(e: Entry, name: Bytes)
    requires e.reclen % 8 == 0 && e.reclen >= Used(e)
    ensures (e.reclen - Used(e)) % 8 == 0 && 8 + |name| <= RecLen(|name|)
  {
  }

  lemma ShortenFields(b: Bytes, off: nat, v: nat)
    requires off + 8 <= |b| && v < 0x1_0000
    ensures var r := SetLen(b, off, v);
            U16(r, off + 4) == v && U32(r, off) == U32(b, off) && r[off + 6] == b[off + 6] && r[off + 7] == b[off + 7]
  {
  }

  /** The shortened record still parses, and what follows it is next. */
  lemma ShortenParses(b: Bytes, off: nat, end: nat, r: Bytes)
    requires end <= |b| && WellAt(b, off, end) && EntryAt(b, off, end).ino != 0
    requires var n := Used(EntryAt(b, off, end)); Same(SetLen(b, off, n), r, 0, off + n)
    ensures var e := EntryAt(b, off, end);
            Chain(r, off, end) == [e.(reclen := Used(e))] + Chain(r, off + Used(e), end)
  {
    hide U16, U32, RecLen, SetLen;
    var e := EntryAt(b, off, end);
    var b1 := SetLen(b, off, Used(e));
    ShortenFields(b, off, Used(e));
    assert b1[off + 8..off + 8 + b[off + 6]] == b[off + 8..off + 8 + b[off + 6]];
    assert WellAt(b1, off, end) && EntryAt(b1, off, end) == e.(reclen := Used(e));
    HeaderFrame(b1, r, off, off + Used(e), end);
  }

  // ---------- the scan ----------

  datatype DirScan = DirScan(found: bool, ino: nat, entryOff: nat, entryReclen: nat, lastOff: nat, lastReclen: nat,
                             lastMinReclen: nat)

  /** What a scan reports of a record list. */
  ghost predicate Reports(s: DirScan, es: seq<Entry>, hit: int, last: int) {
    -1 <= hit < |es| && -1 <= last < |es| && (s.found <==> hit >= 0)
    && (hit >= 0 ==> s.ino == es[hit].ino && s.entryOff == es[hit].off && s.entryReclen == es[hit].reclen)
    && (last >= 0 ==> s.lastOff == es[last].off && s.lastReclen == es[last].reclen && s.lastMinReclen == Used(es[last]))
    && (last < 0 ==> s.lastReclen == 0 && s.lastMinReclen == 0)
  }

  /** scan_dir_block: the last record that binds the name, and the last record a new entry could go into. */
  method ScanDirBlock(blk: array<Byte>, name: Bytes) returns (s: DirScan, ghost hit: int, ghost last: int)
    requires blk.Length == BLOCK_SIZE && Framed(blk[..]) && |name| < 256
    ensures LastBinding(Entries(blk[..]), name, hit) && LastCandidate(Entries(blk[..]), RecLen(|name|), last)
    ensures Reports(s, Entries(blk[..]), hit, last)
  {
    hide Chain, RecLen;
    var off, end := HeaderBytes(blk[..]), PayloadEnd(blk[..]);
    ghost var es := Entries(blk[..]);
    ghost var k := 0;
    hit, last := -1, -1;
    s := DirScan(false, 0, 0, 0, 0, 0, 0);
    while WellAt(blk[..], off, end)
      invariant k <= |es| && Chain(blk[..], off, end) == es[k..]
      invariant -1 <= hit < k && (hit >= 0 ==> Binds(es[hit], name)) && forall j :: hit < j < k ==> !Binds(es[j], name)
      invariant -1 <= last < k && (last >= 0 ==> Candidate(es[last], RecLen(|name|)))
      invariant forall j :: last < j < k ==> !Candidate(es[j], RecLen(|name|))
      invariant Reports(s, es, hit, last)
      decreases end - off
    {
      ChainStep(blk[..], off, end, es, k);
      var e := EntryAt(blk[..], off, end);
      if e.ino == 0 {
        if e.reclen >= RecLen(|name|) {
          s := s.(lastOff := off, lastReclen := e.reclen, lastMinReclen := 0);
          last := k;
        }
      } else {
        s := s.(lastOff := off, lastReclen := e.reclen, lastMinReclen := RecLen(|e.name|));
        last := k;
        if CStr(e.name) == name {
          s := s.(found := true, ino := e.ino, entryOff := off, entryReclen := e.reclen);
          hit := k;
        }
      }
      off := off + e.reclen;
      k := k + 1;
    }
    ChainDone(blk[..], off, end);
  }

  lemma ChainStep(b: Bytes, off: nat, end: nat, es: seq<Entry>, k: nat)
    requires end <= |b| && WellAt(b, off, end) && k <= |es| && Chain(b, off, end) == es[k..]
    ensures k < |es| && es[k] == EntryAt(b, off, end) && Chain(b, Stop(es[k]), end) == es[k + 1..]
    ensures es[k].reclen > 0
  {
  }

  lemma ChainDone(b: Bytes, off: nat, end: nat)
    requires end <= |b| && !WellAt(b, off, end)
    ensures Chain(b, off, end) == []
  {
  }

  // ---------- the edit ----------

  /** dir_write_entry, in place. */
  method DirWriteEntry(blk: array<Byte>, off: nat, ino: nat, name: Bytes, ftype: Byte, reclen: nat)
    requires ino < 0x1_0000_0000 && |name| < 256 && 8 + |name| <= reclen < 0x1_0000 && off + reclen <= blk.Length
    modifies blk
    ensures blk[..] == PutEntry(old(blk[..]), off, ino, name, ftype, reclen)
  {
    hide LE32, LE16;
    ghost var b := blk[..];
    var head := LE32(ino) + LE16(reclen) + [|name|, ftype];
    forall i | off <= i < off + reclen {
      blk[i] := 0;
    }
    forall i | 0 <= i < 8 {
      blk[off + i] := head[i];
    }
    forall i | 0 <= i < |name| {
      blk[off + 8 + i] := name[i];
    }
    ghost var r := PutEntry(b, off, ino, name, ftype, reclen);
    forall p | 0 <= p < |r| ensures blk[p] == r[p] {
      if off <= p < off + 8 {
        assert r[p] == head[p - off] && blk[off + (p - off)] == head[p - off];
      } else if off + 8 <= p < off + 8 + |name| {
        assert r[p] == name[p - off - 8] && blk[off + 8 + (p - off - 8)] == name[p - off - 8];
      }
    }
  }

  /** The block with its checksum field cleared. */
  function Unsealed(b: Bytes): (r: Bytes)
    requires |b| == 4096
    ensures |r| == 4096 && Same(b, r, 0, 16) && Same(b, r, 20, 4096)
  {
    b[..16] + [0, 0, 0, 0] + b[20..]
  }

  /** The checksum field holds what validate_shdr will compute. */
  predicate Sealed(b: Bytes, metaCrc: bool, crc: Bytes -> Word)
    requires |b| == 4096
  {
    metaCrc ==> U32(b, 16) == crc(Unsealed(b))
  }

  /** update_dir_checksum. */
  method UpdateDirChecksum(blk: array<Byte>, metaCrc: bool, crc: Bytes -> Word)
    requires blk.Length == BLOCK_SIZE
    modifies blk
    ensures Same(old(blk[..]), blk[..], 0, 16) && Same(old(blk[..]), blk[..], 20, 4096) && Sealed(blk[..], metaCrc, crc)
  {
    hide LE32;
    ghost var b := blk[..];
    blk[16], blk[17], blk[18], blk[19] := 0, 0, 0, 0;
    if metaCrc {
      assert blk[..] == Unsealed(b);
      var sum := LE32(crc(blk[..]));
      blk[16], blk[17], blk[18], blk[19] := sum[0], sum[1], sum[2], sum[3];
      assert Unsealed(blk[..]) == Unsealed(b);
      assert blk[..][16..20] == sum;
      Shift(blk[..], sum, 16, 0);
    }
  }

  /** Bytes outside the payload, but for the checksum, hold the frame. */
  lemma FrameKept(a: Bytes, b: Bytes, c: Bytes)
    requires Framed(a) && Same(a, b, 0, HeaderBytes(a)) && Same(b, c, 0, 16) && Same(b, c, 20, 4096)
    ensures |c| == 4096 && HeaderBytes(c) == HeaderBytes(a) && PayloadEnd(c) == PayloadEnd(a) && Framed(c)
    ensures Entries(c) == Chain(b, HeaderBytes(a), PayloadEnd(a))
  {
    hide Chain;
    assert a[8] == c[8] && a[9] == c[9] && a[10] == c[10] && a[11] == c[11] && a[..8] == c[..8];
    ChainFrame(b, c, HeaderBytes(a), PayloadEnd(a));
  }

  /** There is room behind the last record that a new entry could go into. */
  ghost predicate Room(es: seq<Entry>, name: Bytes) {
    exists i :: 0 <= i < |es| && LastCandidate(es, RecLen(|name|), i) && es[i].reclen >= Used(es[i]) + RecLen(|name|)
  }

  /** The new record list: the name bound to the inode, all else as it was, and the chain as long as it was. */
  ghost predicate Bound(before: seq<Entry>, after: seq<Entry>, start: nat, name: Bytes, ino: nat, ftype: Byte) {
    Rebinds(before, after, name, ino, ftype) && ChainStop(after, start) == ChainStop(before, start)
  }

  lemma StopKept(es: seq<Entry>, k: nat, ins: seq<Entry>, start: nat)
    requires k < |es| && ins != [] && Stop(ins[|ins| - 1]) == Stop(es[k])
    ensures ChainStop(es[..k] + ins + es[k + 1..], start) == ChainStop(es, start)
  {
  }

  /** The entry written over record k. */
  method WriteOver(dirblk: array<Byte>, ghost k: nat, off: nat, reclen: nat, name: Bytes, ino: nat, ftype: Byte)
    requires dirblk.Length == BLOCK_SIZE && Framed(dirblk[..]) && k < |Entries(dirblk[..])|
    requires 0 < ino < 0x1_0000_0000 && |name| < 256 && 0 !in name
    requires forall j :: k < j < |Entries(dirblk[..])| ==> !Binds(Entries(dirblk[..])[j], name)
    requires var e := Entries(dirblk[..])[k];
             e.off == off && e.reclen == reclen && (Binds(e, name) || (e.ino == 0 && e.reclen >= RecLen(|name|)))
    modifies dirblk
    ensures var b := old(dirblk[..]);
            Same(b, dirblk[..], 0, HeaderBytes(b))
            && Bound(Entries(b), Chain(dirblk[..], HeaderBytes(b), PayloadEnd(b)), HeaderBytes(b), name, ino, ftype)
  {
    hide Chain, RecLen, PutEntry, TargetOf;
    ghost var b := dirblk[..];
    ghost var es := Entries(b);
    PutOver(b, HeaderBytes(b), PayloadEnd(b), k, ino, name, ftype);
    StopKept(es, k, [Entry(off, reclen, ino, name, ftype)], HeaderBytes(b));
    DirWriteEntry(dirblk, off, ino, name, ftype, reclen);
  }

  /** The entry written into the slack of record k. */
  method WriteAfter(dirblk: array<Byte>, ghost k: nat, off: nat, reclen: nat, used: nat, name: Bytes, ino: nat,
      ftype: Byte)
    requires dirblk.Length == BLOCK_SIZE && Framed(dirblk[..]) && k < |Entries(dirblk[..])|
    requires 0 < ino < 0x1_0000_0000 && |name| < 256 && 0 !in name && LastBinding(Entries(dirblk[..]), name, -1)
    requires var e := Entries(dirblk[..])[k];
             e.off == off && e.reclen == reclen && e.ino != 0 && used == Used(e) && reclen >= used + RecLen(|name|)
    modifies dirblk
    ensures var b := old(dirblk[..]);
            Same(b, dirblk[..], 0, HeaderBytes(b))
            && Bound(Entries(b), Chain(dirblk[..], HeaderBytes(b), PayloadEnd(b)), HeaderBytes(b), name, ino, ftype)
  {
    hide Chain, RecLen, PutEntry, TargetOf, U16, LE16;
    ghost var b := dirblk[..];
    ghost var es := Entries(b);
    PutAfter(b, HeaderBytes(b), PayloadEnd(b), k, ino, name, ftype);
    StopKept(es, k, [es[k].(reclen := used), Entry(off + used, reclen - used, ino, name, ftype)], HeaderBytes(b));
    var len := LE16(used);
    dirblk[off + 4], dirblk[off + 5] := len[0], len[1];
    assert dirblk[..] == SetLen(b, off, used);
    DirWriteEntry(dirblk, off + used, ino, name, ftype, reclen - used);
  }

  /** The two branches of ensure_dir_entry that edit the block copy. */
  method EditBlock(dirblk: array<Byte>, name: Bytes, ino: nat, ftype: Byte, overwriteExisting: bool)
    returns (ok: bool, edited: bool)
    requires dirblk.Length == BLOCK_SIZE && Framed(dirblk[..])
    requires 0 < ino < 0x1_0000_0000 && |name| < 256 && 0 !in name
    modifies dirblk
    ensures ok <==> Lookup(old(Entries(dirblk[..])), name).Some? || Room(old(Entries(dirblk[..])), name)
    ensures edited <==> ok && (Lookup(old(Entries(dirblk[..])), name).None? || overwriteExisting)
    ensures var b := old(dirblk[..]);
            Same(b, dirblk[..], 0, HeaderBytes(b))
            && (edited ==>
                Bound(Entries(b), Chain(dirblk[..], HeaderBytes(b), PayloadEnd(b)), HeaderBytes(b), name, ino, ftype))
  {
    hide Chain, RecLen, Room, Bound, U16, TargetOf;
    ghost var es := Entries(dirblk[..]);
    var scan;
    ghost var hit, last;
    scan, hit, last := ScanDirBlock(dirblk, name);
    LookupLast(es, name, hit);
    RoomAtLast(es, name, last);
    if scan.found {
      if overwriteExisting {
        WriteOver(dirblk, hit, scan.entryOff, scan.entryReclen, name, ino, ftype);
      }
      return true, overwriteExisting;
    }
    if scan.lastReclen < scan.lastMinReclen || scan.lastReclen - scan.lastMinReclen < RecLen(|name|) {
      return false, false;
    }
    if scan.lastMinReclen == 0 {
      WriteOver(dirblk, last, scan.lastOff, scan.lastReclen, name, ino, ftype);
    } else {
      WriteAfter(dirblk, last, scan.lastOff, scan.lastReclen, scan.lastMinReclen, name, ino, ftype);
    }
    return true, true;
  }

  /** ensure_dir_entry on the block as it is on disk: nothing is written back unless it succeeds. */
  method EnsureDirEntry(disk: array<Byte>, name: Bytes, ino: nat, ftype: Byte, overwriteExisting: bool,
                        metaCrc: bool, crc: Bytes -> Word)
    returns (ok: bool)
    requires disk.Length == BLOCK_SIZE && Framed(disk[..]) && Sealed(disk[..], metaCrc, crc)
    requires 0 < ino < 0x1_0000_0000 && |name| < 256 && 0 !in name
    modifies disk
    ensures Framed(disk[..]) && Sealed(disk[..], metaCrc, crc) && Same(old(disk[..]), disk[..], 0, 16)
    ensures ok <==> Lookup(old(Entries(disk[..])), name).Some? || Room(old(Entries(disk[..])), name)
    ensures !ok || (Lookup(old(Entries(disk[..])), name).Some? && !overwriteExisting) ==> disk[..] == old(disk[..])
    ensures ok && (Lookup(old(Entries(disk[..])), name).None? || overwriteExisting) ==>
              Bound(old(Entries(disk[..])), Entries(disk[..]), HeaderBytes(disk[..]), name, ino, ftype)
  {
    hide Chain, RecLen, Room, Bound, TargetOf;
    var dirblk := new Byte[BLOCK_SIZE];
    forall i | 0 <= i < BLOCK_SIZE {
      dirblk[i] := disk[i];
    }
    ghost var b := disk[..];
    assert dirblk[..] == b;
    assert b == old(disk[..]);
    var edited;
    ok, edited := EditBlock(dirblk, name, ino, ftype, overwriteExisting);
    assert disk[..] == b;
    if !edited {
      return;
    }
    ghost var c := dirblk[..];
    UpdateDirChecksum(dirblk, metaCrc, crc);
    ghost var d := dirblk[..];
    FrameKept(b, c, d);
    forall i | 0 <= i < BLOCK_SIZE {
      disk[i] := dirblk[i];
    }
    assert disk[..] == d;
    assert Sealed(d, metaCrc, crc);
  }

  lemma RoomAtLast(es: seq<Entry>, name: Bytes, last: int)
    requires LastCandidate(es, RecLen(|name|), last)
    ensures Room(es, name) <==> last >= 0 && es[last].reclen >= Used(es[last]) + RecLen(|name|)
  {
  }

  /** Some record has room for the name. */
  ghost predicate RoomSomewhere(es: seq<Entry>, name: Bytes) {
    exists k :: 0 <= k < |es| && es[k].reclen >= Used(es[k]) + RecLen(|name|)
  }

  /** Only the last record that is in use or long enough is looked at: room is overlooked exactly when that record is
      in use and has no slack. */
  lemma RoomOverlooked(es: seq<Entry>, name: Bytes, last: int)
    requires LastCandidate(es, RecLen(|name|), last) && RoomSomewhere(es, name)
    ensures last >= 0 && (!Room(es, name) <==> es[last].ino != 0 && es[last].reclen < Used(es[last]) + RecLen(|name|))
  {
    hide RecLen;
    var k :| 0 <= k < |es| && es[k].reclen >= Used(es[k]) + RecLen(|name|);
    assert Candidate(es[k], RecLen(|name|));
    RoomAtLast(es, name, last);
  }

  /** A free record of 64 bytes and then a record in use without slack. */
  function Overlooked(): (es: seq<Entry>) { [Entry(24, 64, 0, [], 0), Entry(88, 16, 5, [97], 1)] }

  /** A directory block with these two records is refused a new name of one letter, although the first record is free
      and long enough. */
  method FreeRecordPassedOver(metaCrc: bool, crc: Bytes -> Word) returns (disk: array<Byte>, ok: bool)
    ensures fresh(disk) && disk.Length == BLOCK_SIZE && Framed(disk[..]) && Entries(disk[..]) == Overlooked()
    ensures RoomSomewhere(Overlooked(), [98]) && !ok
  {
    hide Chain, PutEntry, RecLen, U16, WellAt, EntryAt;
    disk := new Byte[4096](i => 0);
    var tag: Bytes := DirTag() + [24, 0, 232, 15];
    forall i | 0 <= i < 12 {
      disk[i] := tag[i];
    }
    TwoRecordBlock(disk[..]);
    DirWriteEntry(disk, 24, 0, [], 0, 64);
    DirWriteEntry(disk, 88, 5, [97], 1, 16);
    ghost var b := disk[..];
    UpdateDirChecksum(disk, metaCrc, crc);
    SameChain(b, disk[..]);
    NoRoom();
    ok := EnsureDirEntry(disk, [98], 7, 1, false, metaCrc, crc);
  }

  lemma TwoRecordBlock(b: Bytes)
    requires |b| == 4096 && b[..8] == DirTag() && b[8..12] == [24, 0, 232, 15]
             && forall p :: 12 <= p < 4096 ==> b[p] == 0
    ensures RecLen(0) <= 64 && RecLen(1) == 16
    ensures var c := PutEntry(PutEntry(b, 24, 0, [], 0, 64), 88, 5, [97], 1, 16);
            Framed(c) && HeaderBytes(c) == 24 && PayloadEnd(c) == 4096 && Chain(c, 24, 4096) == Overlooked()
  {
    hide Chain, PutEntry, U32;
    var one := PutEntry(b, 24, 0, [], 0, 64);
    var c := PutEntry(one, 88, 5, [97], 1, 16);
    assert c[..8] == DirTag() && c[8] == b[8] == 24 && c[9] == b[9] == 0 && c[10] == b[10] == 232
           && c[11] == b[11] == 15 by {
      assert b[8..12][0] == b[8] && b[8..12][1] == b[9] && b[8..12][2] == b[10] && b[8..12][3] == b[11];
      assert c[..8] == b[..8];
    }
    PutParses(b, 24, 0, [], 0, 64, 4096);
    PutParses(one, 88, 5, [97], 1, 16, 4096);
    HeaderFrame(one, c, 24, 88, 4096);
    ChainFirst(c, 24, 4096);
    assert forall p :: 104 <= p < 4096 ==> c[p] == 0;
    NoRecord(c);
  }

  lemma NoRecord(c: Bytes)
    requires |c| == 4096 && forall p :: 104 <= p < 4096 ==> c[p] == 0
    ensures Chain(c, 104, 4096) == []
  {
  }

  lemma SameChain(b: Bytes, c: Bytes)
    requires Framed(b) && HeaderBytes(b) == 24 && PayloadEnd(b) == 4096 && Same(b, c, 0, 16) && Same(b, c, 20, 4096)
    ensures Framed(c) && Entries(c) == Chain(b, 24, 4096)
  {
    hide Chain;
    assert c[8] == b[8] && c[9] == b[9] && c[10] == b[10] && c[11] == b[11] && c[..8] == b[..8];
    ChainFrame(b, c, 24, 4096);
  }

  lemma NoRoom()
    ensures RoomSomewhere(Overlooked(), [98]) && !Room(Overlooked(), [98]) && Lookup(Overlooked(), [98]).None?
  {
    var es := Overlooked();
    assert RecLen(1) == 16 && LastCandidate(es, 16, 1);
    assert es[0].reclen >= Used(es[0]) + RecLen(|[98]|);
    RoomOverlooked(es, [98], 1);
    assert CStr(es[1].name)[0] == 97 && !Binds(es[1], [98]) && !Binds(es[0], [98]);
    LookupLast(es, [98], -1);
  }
}
