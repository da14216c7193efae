/** The KXE executable format: packed header and section table, and what kxe_validate accepts. */
module Kxe {
  import opened Base
  import opened ByteFields

  const MAGIC := 0x0045_584B
  const HEADER_SIZE := 64
  const SECTION_SIZE := 48
  const MAX_SECTIONS := 16
  const USER_MIN := 0x1000
  const USER_MAX := 0x8000_0000_0000
  const TYPE_LOAD := 1
  const TYPE_NOBITS := 2

  /** kxe_header_t. */
  datatype Header = Header(magic: nat, major: nat, minor: nat, flags: nat, headerSize: nat, entrySize: nat, count: nat,
                           abi: nat, crc: nat, entry: nat, tableOffset: nat, imageMin: nat, imageMax: nat,
                           fileSize: nat)

  /** kxe_section_t. */
  datatype Section = Section(name: nat, typ: nat, flags: nat, reserved: nat, vaddr: nat, vsize: nat, fileOffset: nat,
                             fileSize: nat)

  function HeaderWidths(): seq<nat> { [4, 2, 2, 4] + ([2, 2, 2, 2, 4] + [8, 8, 8, 8, 8]) }

  function SectionWidths(): seq<nat> { [8, 2, 2, 4] + [8, 8, 8, 8] }

  lemma Sizes()
    ensures Total(HeaderWidths()) == HEADER_SIZE && Total(SectionWidths()) == SECTION_SIZE
  {
    hide Total;
    TotalIs([4, 2, 2, 4], [2, 2, 2, 2, 4] + [8, 8, 8, 8, 8]);
    TotalIs([2, 2, 2, 2, 4], [8, 8, 8, 8, 8]);
    TotalIs([8, 2, 2, 4], [8, 8, 8, 8]);
    TotalSmall();
  }

  lemma {:induction false} TotalIs(a: seq<nat>, b: seq<nat>)
    ensures Total(a + b) == Total(a) + Total(b)
  {
    if a == [] { assert a + b == b; } else {
      assert (a + b)[1..] == a[1..] + b;
      TotalIs(a[1..], b);
    }
  }

  lemma TotalSmall()
    ensures Total([4, 2, 2, 4]) == 12 && Total([2, 2, 2, 2, 4]) == 12 && Total([8, 8, 8, 8, 8]) == 40
    ensures Total([8, 2, 2, 4]) == 16 && Total([8, 8, 8, 8]) == 32
  {
  }

  function HeaderFields(h: Header): seq<nat> {
    [h.magic, h.major, h.minor, h.flags, h.headerSize, h.entrySize, h.count, h.abi, h.crc, h.entry, h.tableOffset,
     h.imageMin, h.imageMax, h.fileSize]
  }

  function HeaderOf(f: seq<nat>): Header
    requires |f| == 14
  {
    Header(f[0], f[1], f[2], f[3], f[4], f[5], f[6], f[7], f[8], f[9], f[10], f[11], f[12], f[13])
  }

  function SectionFields(s: Section): seq<nat> {
    [s.name, s.typ, s.flags, s.reserved, s.vaddr, s.vsize, s.fileOffset, s.fileSize]
  }

  function SectionOf(f: seq<nat>): Section
    requires |f| == 8
  {
    Section(f[0], f[1], f[2], f[3], f[4], f[5], f[6], f[7])
  }

  /** The fields fit their widths. */
  ghost predicate HeaderFits(h: Header) { FitsFields(HeaderFields(h), HeaderWidths()) }

  ghost predicate SectionFits(s: Section) { FitsFields(SectionFields(s), SectionWidths()) }

  function PackHeader(h: Header): (r: Bytes)
    requires HeaderFits(h)
    ensures |r| == HEADER_SIZE
  {
    Sizes();
    Pack(HeaderFields(h), HeaderWidths())
  }

  /** The header at the start of a page. */
  function ReadHeader(page: Bytes): (h: Header)
    requires |page| >= HEADER_SIZE
  {
    Sizes();
    HeaderOf(Unpack(page, HeaderWidths()))
  }

  function PackSection(s: Section): (r: Bytes)
    requires SectionFits(s)
    ensures |r| == SECTION_SIZE
  {
    Sizes();
    Pack(SectionFields(s), SectionWidths())
  }

  function ReadSection(page: Bytes, off: nat): (s: Section)
    requires off + SECTION_SIZE <= |page|
  {
    Sizes();
    SectionOf(Unpack(page[off..], SectionWidths()))
  }

  lemma HeaderReadsBack(h: Header, rest: Bytes)
    requires HeaderFits(h)
    ensures ReadHeader(PackHeader(h) + rest) == h
  {
    hide Pack, Unpack, Total, HeaderWidths, FitsFields;
    Sizes();
    UnpackOfPack(HeaderFields(h), HeaderWidths(), rest);
  }

  /** The section table. */
  function PackTable(secs: seq<Section>): (r: Bytes)
    requires forall i :: 0 <= i < |secs| ==> SectionFits(secs[i])
    ensures |r| == 48 * |secs|
  {
    if secs == [] then [] else PackTable(secs[..|secs| - 1]) + PackSection(secs[|secs| - 1])
  }

  lemma SectionReadsBack(pre: Bytes, s: Section, rest: Bytes)
    requires SectionFits(s)
    ensures ReadSection(pre + PackSection(s) + rest, |pre|) == s
  {
    hide Pack, Unpack, Total, SectionWidths, FitsFields;
    Sizes();
    var page := pre + PackSection(s) + rest;
    assert page[|pre|..] == PackSection(s) + rest;
    UnpackOfPack(SectionFields(s), SectionWidths(), rest);
  }

  lemma {:induction false} TableReadsBack(head: Bytes, secs: seq<Section>, rest: Bytes, i: nat)
    requires (forall k :: 0 <= k < |secs| ==> SectionFits(secs[k])) && i < |secs|
    ensures |head| + 48 * i + 48 <= |head + PackTable(secs) + rest|
    ensures ReadSection(head + PackTable(secs) + rest, |head| + 48 * i) == secs[i]
    decreases |secs|
  {
    hide PackSection, ReadSection, SectionFits;
    var n := |secs| - 1;
    var last := PackSection(secs[n]);
    var page := head + PackTable(secs) + rest;
    assert page == head + PackTable(secs[..n]) + (last + rest);
    if i < n {
      TableReadsBack(head, secs[..n], last + rest, i);
    } else {
      assert page == (head + PackTable(secs[..n])) + last + rest;
      SectionReadsBack(head + PackTable(secs[..n]), secs[n], rest);
    }
  }

  // ---------- what is accepted ----------

  predicate Writable(flags: nat) { flags / 2 % 2 == 1 }

  predicate Executable(flags: nat) { flags / 4 % 2 == 1 }

  function PageUp(x: nat): nat { (x + 4095) / 4096 * 4096 }

  predicate InUser(a: nat) { USER_MIN <= a < USER_MAX }

  /** section_validate. */
  predicate SectionOk(h: Header, s: Section) {
    (s.typ == TYPE_LOAD || s.typ == TYPE_NOBITS) && s.flags < 8 && s.reserved == 0 && s.vsize != 0
    && !(Writable(s.flags) && Executable(s.flags))
    && s.vaddr % 4096 == 0 && InUser(s.vaddr) && s.vaddr + s.vsize <= USER_MAX
    && h.imageMin <= s.vaddr && s.vaddr + s.vsize <= h.imageMax
    && if s.typ == TYPE_LOAD then
         s.fileSize <= s.vsize && (s.fileSize > 0 ==> s.fileOffset >= 4096) && s.fileOffset + s.fileSize <= h.fileSize
       else s.fileSize == 0
  }

  /** The pages of a section. */
  predicate PagesApart(s: Section, t: Section) {
    PageUp(s.vaddr + s.vsize) <= t.vaddr / 4096 * 4096 || PageUp(t.vaddr + t.vsize) <= s.vaddr / 4096 * 4096
  }

  predicate Enters(h: Header, s: Section) { Executable(s.flags) && s.vaddr <= h.entry < s.vaddr + s.vsize }

  /** The checks on the header fields. */
  predicate HeaderOk(h: Header, size: nat) {
    size >= 4096 && h.magic == MAGIC && h.major == 0 && h.minor == 1 && h.flags == 0
    && h.headerSize == HEADER_SIZE && h.entrySize == SECTION_SIZE && 0 < h.count <= MAX_SECTIONS
    && h.tableOffset >= h.headerSize && h.tableOffset + 48 * h.count <= 4096
    && InUser(h.imageMin) && h.imageMax <= USER_MAX && h.imageMin < h.imageMax && size >= h.fileSize
  }

  ghost predicate SectionsOk(h: Header, secs: seq<Section>) {
    (forall i :: 0 <= i < |secs| ==> SectionOk(h, secs[i]))
    && (forall j, i :: 0 <= j < i < |secs| ==> PagesApart(secs[i], secs[j]))
    && exists i :: 0 <= i < |secs| && Enters(h, secs[i])
  }

  ghost predicate CrcOk(h: Header, crc: Bytes -> Word) {
    HeaderFits(h.(crc := 0)) && crc(PackHeader(h.(crc := 0))) == h.crc
  }

  /** The sections the table of a page holds. */
  ghost function Table(page: Bytes, off: nat, count: nat): (secs: seq<Section>)
    requires off + 48 * count <= |page|
    ensures |secs| == count
  {
    seq(count, (i: nat) requires i < count => ReadSection(page, off + 48 * i))
  }

  ghost predicate Accepts(page: Bytes, size: nat, crc: Bytes -> Word)
    requires |page| == 4096
  {
    var h := ReadHeader(page);
    HeaderOk(h, size) && CrcOk(h, crc) && SectionsOk(h, Table(page, h.tableOffset, h.count))
  }

  lemma {:induction false} UnpackFits(b: Bytes, widths: seq<nat>)
    requires |b| >= Total(widths)
    ensures FitsFields(Unpack(b, widths), widths)
  {
    if widths != [] {
      FromLEBound(b[..widths[0]]);
      UnpackFits(b[widths[0]..], widths[1..]);
      var vals := Unpack(b, widths);
      forall i | 0 <= i < |vals| ensures vals[i] < Pow(widths[i]) {
        if i > 0 { assert vals[i] == Unpack(b[widths[0]..], widths[1..])[i - 1] && widths[i] == widths[1..][i - 1]; }
      }
    }
  }

  /** A header read from bytes can be packed again, also with its checksum cleared. */
  lemma ReadHeaderFits(page: Bytes)
    requires |page| >= HEADER_SIZE
    ensures HeaderFits(ReadHeader(page)) && HeaderFits(ReadHeader(page).(crc := 0))
  {
    hide Unpack, Total, Pow;
    Sizes();
    var f := Unpack(page, HeaderWidths());
    UnpackFits(page, HeaderWidths());
    assert HeaderFields(HeaderOf(f)) == f;
    assert HeaderFields(HeaderOf(f).(crc := 0)) == f[8 := 0];
  }

  // ---------- the validator ----------

  /** kxe_validate: it accepts exactly the pages above and returns what they hold. */
  method KxeValidate(page: Bytes, size: nat, crc: Bytes -> Word) returns (ok: bool, h: Header, secs: seq<Section>)
    requires |page| == 4096
    ensures ok <==> Accepts(page, size, crc)
    ensures ok ==> h == ReadHeader(page) && secs == Table(page, h.tableOffset, h.count)
  {
    hide PackHeader, ReadHeader, ReadSection, HeaderFits, SectionOk, PagesApart, Enters;
    h, secs := ReadHeader(page), [];
    ReadHeaderFits(page);
    if !HeaderOk(h, size) {
      return false, h, [];
    }
    if crc(PackHeader(h.(crc := 0))) != h.crc {
      return false, h, [];
    }
    var entryFound := false;
    ghost var all := Table(page, h.tableOffset, h.count);
    for i := 0 to h.count
      invariant |secs| == i && secs == all[..i]
      invariant forall k :: 0 <= k < i ==> SectionOk(h, secs[k])
      invariant forall j, k :: 0 <= j < k < i ==> PagesApart(secs[k], secs[j])
      invariant entryFound <==> exists k :: 0 <= k < i && Enters(h, secs[k])
    {
      var s := ReadSection(page, h.tableOffset + 48 * i);
      assert s == all[i];
      if !SectionOk(h, s) {
        return false, h, [];
      }
      for j := 0 to i
        invariant forall k :: 0 <= k < j ==> PagesApart(s, secs[k])
      {
        if !PagesApart(s, secs[j]) {
          assert !PagesApart(all[i], all[j]);
          return false, h, [];
        }
      }
      secs := secs + [s];
      if Enters(h, s) {
        entryFound := true;
        assert Enters(h, secs[i]);
      }
    }
    assert secs == all;
    ok := entryFound;
  }
}
