/** What an executable file is, said of the bytes of its first page and of the addresses and pages it asks for, without
    the format's own records. kxe_validate accepts exactly these files. */
module KxeImage {
  import opened Base
  import opened ByteFields
  import opened Kxe

  // ---------- where the fields are ----------

  lemma HeaderOffsets()
    ensures var w := HeaderWidths();
            |w| == 14 && w[0] == 4 && w[1] == 2 && w[2] == 2 && w[3] == 4 && w[4] == 2 && w[5] == 2 && w[6] == 2
            && w[7] == 2 && w[8] == 4 && w[9] == 8 && w[10] == 8 && w[11] == 8 && w[12] == 8 && w[13] == 8
    ensures var w := HeaderWidths();
            Total(w[..0]) == 0 && Total(w[..1]) == 4 && Total(w[..2]) == 6 && Total(w[..3]) == 8 && Total(w[..4]) == 12
            && Total(w[..5]) == 14 && Total(w[..6]) == 16 && Total(w[..7]) == 18 && Total(w[..8]) == 20
            && Total(w[..9]) == 24 && Total(w[..10]) == 32 && Total(w[..11]) == 40 && Total(w[..12]) == 48
            && Total(w[..13]) == 56
  {
    hide Total;
    var w := HeaderWidths();
    assert w[..0] == [] && Total([]) == 0 by { NoTotal(); }
    for i := 0 to 13
      invariant forall k :: 0 < k <= i ==> Total(w[..k]) == Total(w[..k - 1]) + w[k - 1]
    {
      TotalNext(w, i);
    }
  }

  lemma NoTotal()
    ensures Total([]) == 0
  {
  }

  lemma SectionOffsets()
    ensures var w := SectionWidths();
            |w| == 8 && w[0] == 8 && w[1] == 2 && w[2] == 2 && w[3] == 4 && w[4] == 8 && w[5] == 8 && w[6] == 8
            && w[7] == 8
    ensures var w := SectionWidths();
            Total(w[..0]) == 0 && Total(w[..1]) == 8 && Total(w[..2]) == 10 && Total(w[..3]) == 12
            && Total(w[..4]) == 16 && Total(w[..5]) == 24 && Total(w[..6]) == 32 && Total(w[..7]) == 40
  {
    hide Total;
    var w := SectionWidths();
    assert w[..0] == [] && Total([]) == 0 by { NoTotal(); }
    for i := 0 to 7
      invariant forall k :: 0 < k <= i ==> Total(w[..k]) == Total(w[..k - 1]) + w[k - 1]
    {
      TotalNext(w, i);
    }
  }

  /** The header is read from these places. */
  lemma HeaderLayout(page: Bytes)
    requires |page| >= 64
    ensures ReadHeader(page) ==
            Header(U32(page, 0), U16(page, 4), U16(page, 6), U32(page, 8), U16(page, 12), U16(page, 14), U16(page, 16),
                   U16(page, 18), U32(page, 20), U64(page, 24), U64(page, 32), U64(page, 40), U64(page, 48),
                   U64(page, 56))
  {
    hide Unpack, FromLE, U16, U32, U64, Total, HeaderWidths;
    Sizes();
    HeaderOffsets();
    var w := HeaderWidths();
    forall i | 0 <= i < 14
      ensures Total(w[..i]) + w[i] <= |page|
              && Unpack(page, w)[i] == FromLE(page[Total(w[..i])..Total(w[..i]) + w[i]])
    {
      UnpackIs(page, w, i);
    }
    forall o: nat {
      FieldsAt(page, o);
    }
  }

  /** And a section from these. */
  lemma SectionLayout(page: Bytes, o: nat)
    requires o + 48 <= |page|
    ensures ReadSection(page, o) ==
            Section(U64(page, o), U16(page, o + 8), U16(page, o + 10), U32(page, o + 12), U64(page, o + 16),
                    U64(page, o + 24), U64(page, o + 32), U64(page, o + 40))
  {
    hide Unpack, FromLE, U16, U32, U64, Total, SectionWidths;
    Sizes();
    SectionOffsets();
    var w, b := SectionWidths(), page[o..];
    forall i | 0 <= i < 8
      ensures Total(w[..i]) + w[i] <= |b|
              && Unpack(b, w)[i] == FromLE(page[o + Total(w[..i])..o + Total(w[..i]) + w[i]])
    {
      UnpackIs(b, w, i);
      assert b[Total(w[..i])..Total(w[..i]) + w[i]] == page[o + Total(w[..i])..o + Total(w[..i]) + w[i]];
    }
    forall k: nat {
      FieldsAt(page, k);
    }
  }

  // ---------- the checksum ----------

  /** The header with zeros in the place of its checksum. */
  function Unsigned(page: Bytes): (b: Bytes)
    requires |page| >= 64
    ensures |b| == 64
  {
    page[..20] + [0, 0, 0, 0] + page[24..64]
  }

  lemma UnsignedIs(page: Bytes)
    requires |page| >= 64
    ensures HeaderFits(ReadHeader(page).(crc := 0)) && PackHeader(ReadHeader(page).(crc := 0)) == Unsigned(page)
  {
    hide Pack, Unpack, FitsFields, Total;
    Sizes();
    var b := Unsigned(page);
    ReadHeaderFits(page);
    HeaderLayout(page);
    HeaderLayout(b);
    assert U32(b, 20) == 0;
    FieldsMoved(page, b);
    assert ReadHeader(b) == ReadHeader(page).(crc := 0);
    PackOfUnpack(b, HeaderWidths());
    assert HeaderFields(HeaderOf(Unpack(b, HeaderWidths()))) == Unpack(b, HeaderWidths());
    assert b[..64] == b;
  }

  lemma FieldsMoved(page: Bytes, b: Bytes)
    requires |page| >= 64 && b == Unsigned(page)
    ensures U32(b, 0) == U32(page, 0) && U16(b, 4) == U16(page, 4) && U16(b, 6) == U16(page, 6)
    ensures U32(b, 8) == U32(page, 8) && U16(b, 12) == U16(page, 12) && U16(b, 14) == U16(page, 14)
    ensures U16(b, 16) == U16(page, 16) && U16(b, 18) == U16(page, 18) && U64(b, 24) == U64(page, 24)
    ensures U64(b, 32) == U64(page, 32) && U64(b, 40) == U64(page, 40) && U64(b, 48) == U64(page, 48)
    ensures U64(b, 56) == U64(page, 56)
  {
    assert forall o :: 0 <= o < 20 || 24 <= o < 64 ==> b[o] == page[o];
  }

  // ---------- what a program asks for ----------

  /** Address a belongs to section s. */
  predicate Covers(s: Section, a: nat) { s.vaddr <= a < s.vaddr + s.vsize }

  /** So some address of page p belongs to it. */
  predicate OnPage(s: Section, p: nat) { s.vaddr < 4096 * p + 4096 && 4096 * p < s.vaddr + s.vsize }

  /** Byte k of the file is loaded into it. */
  predicate Loads(s: Section, k: nat) { s.fileOffset <= k < s.fileOffset + s.fileSize }

  /** A section is read-only, writable or executable, never the last two; it starts on a page, every address it asks for
      is a user address within the announced bounds, and every byte it takes lies behind the first page and within the
      announced size. */
  ghost predicate SaneSection(s: Section, lo: nat, hi: nat, fileSize: nat) {
    && s.typ in {1, 2} && s.flags in {0, 1, 2, 3, 4, 5} && s.reserved == 0 && s.vaddr % 4096 == 0 && s.vsize > 0
    && (forall a: nat :: Covers(s, a) ==> 0x1000 <= a < 0x8000_0000_0000 && lo <= a < hi)
    && (s.typ == 1 ==> s.fileSize <= s.vsize && s.fileOffset + s.fileSize <= fileSize
                       && forall k: nat :: Loads(s, k) ==> k >= 4096)
    && (s.typ == 2 ==> s.fileSize == 0)
  }

  ghost predicate SaneSections(secs: seq<Section>, lo: nat, hi: nat, fileSize: nat, entry: nat) {
    && (forall i :: 0 <= i < |secs| ==> SaneSection(secs[i], lo, hi, fileSize))
    && (forall i, j, p: nat :: 0 <= i < j < |secs| && OnPage(secs[i], p) ==> !OnPage(secs[j], p))
    && exists i :: 0 <= i < |secs| && secs[i].flags in {4, 5} && Covers(secs[i], entry)
  }

  /** The sections announced at an offset. */
  ghost function Announced(page: Bytes, o: nat, n: nat): (secs: seq<Section>)
    requires o + 48 * n <= |page|
    ensures |secs| == n
  {
    seq(n, (i: nat) requires i < n =>
      Section(U64(page, o + 48 * i), U16(page, o + 48 * i + 8), U16(page, o + 48 * i + 10), U32(page, o + 48 * i + 12),
              U64(page, o + 48 * i + 16), U64(page, o + 48 * i + 24), U64(page, o + 48 * i + 32),
              U64(page, o + 48 * i + 40)))
  }

  /** A file of the given size that starts with this page is an executable. */
  ghost predicate IsExecutable(page: Bytes, size: nat, crc: Bytes -> Word)
    requires |page| == 4096
  {
    && size >= 4096 && page[..4] == [0x4B, 0x58, 0x45, 0]
    && U16(page, 4) == 0 && U16(page, 6) == 1 && U32(page, 8) == 0 && U16(page, 12) == 64 && U16(page, 14) == 48
    && crc(Unsigned(page)) == U32(page, 20)
    && U64(page, 56) <= size
    && var n, table, lo, hi := U16(page, 16), U64(page, 32), U64(page, 40), U64(page, 48);
       1 <= n <= 16 && 64 <= table && table + 48 * n <= 4096 && 0x1000 <= lo < hi <= 0x8000_0000_0000
       && SaneSections(Announced(page, table, n), lo, hi, U64(page, 56), U64(page, 24))
  }

  lemma SectionOkIs(h: Header, s: Section)
    ensures SectionOk(h, s) <==> SaneSection(s, h.imageMin, h.imageMax, h.fileSize)
  {
    if s.vsize > 0 {
      assert Covers(s, s.vaddr) && Covers(s, s.vaddr + s.vsize - 1);
    }
    if s.fileSize > 0 { assert Loads(s, s.fileOffset); }
    FlagsAre(s.flags);
  }

  lemma FlagsAre(f: nat)
    ensures f < 8 && !(Writable(f) && Executable(f)) <==> f in {0, 1, 2, 3, 4, 5}
    ensures f in {0, 1, 2, 3, 4, 5} ==> (Executable(f) <==> f in {4, 5})
  {
  }

  lemma ApartIs(s: Section, t: Section)
    requires s.vaddr % 4096 == 0 && t.vaddr % 4096 == 0 && s.vsize > 0 && t.vsize > 0
    ensures PagesApart(s, t) <==> forall p: nat :: OnPage(s, p) ==> !OnPage(t, p)
  {
    var a, b := s.vaddr / 4096, t.vaddr / 4096;
    if a <= b {
      if !PagesApart(s, t) { assert OnPage(t, b) && OnPage(s, b); }
    } else {
      if !PagesApart(s, t) { assert OnPage(s, a) && OnPage(t, a); }
    }
  }

  lemma SectionsOkIs(h: Header, secs: seq<Section>)
    ensures SectionsOk(h, secs) <==> SaneSections(secs, h.imageMin, h.imageMax, h.fileSize, h.entry)
  {
    hide SectionOk, SaneSection, PagesApart, OnPage;
    forall i | 0 <= i < |secs| ensures SectionOk(h, secs[i]) <==>
      SaneSection(secs[i], h.imageMin, h.imageMax, h.fileSize) {
      SectionOkIs(h, secs[i]);
    }
    if forall i :: 0 <= i < |secs| ==> SaneSection(secs[i], h.imageMin, h.imageMax, h.fileSize) {
      forall i | 0 <= i < |secs| ensures secs[i].vaddr % 4096 == 0 && secs[i].vsize > 0
                                         && secs[i].flags in {0, 1, 2, 3, 4, 5} {
        Aligned(secs[i], h.imageMin, h.imageMax, h.fileSize);
      }
      forall j, i | 0 <= j < i < |secs|
        ensures PagesApart(secs[i], secs[j]) <==> forall p: nat :: OnPage(secs[j], p) ==> !OnPage(secs[i], p)
      {
        ApartIs(secs[i], secs[j]);
      }
      forall i | 0 <= i < |secs| ensures Enters(h, secs[i]) <==> secs[i].flags in {4, 5} && Covers(secs[i], h.entry) {
        FlagsAre(secs[i].flags);
      }
    }
  }

  lemma Aligned(s: Section, lo: nat, hi: nat, fileSize: nat)
    requires SaneSection(s, lo, hi, fileSize)
    ensures s.vaddr % 4096 == 0 && s.vsize > 0 && s.flags in {0, 1, 2, 3, 4, 5}
  {
  }

  lemma MagicIs(page: Bytes)
    requires |page| >= 64
    ensures U32(page, 0) == MAGIC <==> page[..4] == [0x4B, 0x58, 0x45, 0]
  {
    assert page[..4] == [page[0], page[1], page[2], page[3]];
  }

  lemma TableIs(page: Bytes, o: nat, n: nat)
    requires o + 48 * n <= |page|
    ensures Table(page, o, n) == Announced(page, o, n)
  {
    hide ReadSection, U16, U32, U64;
    forall i | 0 <= i < n ensures Table(page, o, n)[i] == Announced(page, o, n)[i] { SectionLayout(page, o + 48 * i); }
  }

  /** kxe_validate accepts exactly the executables. */
  lemma AcceptsExecutables(page: Bytes, size: nat, crc: Bytes -> Word)
    requires |page| == 4096
    ensures Accepts(page, size, crc) <==> IsExecutable(page, size, crc)
  {
    hide ReadHeader, ReadSection, PackHeader, HeaderFits, U16, U32, U64, SectionsOk, SaneSections, Table, Announced,
         Unsigned;
    HeaderLayout(page);
    MagicIs(page);
    UnsignedIs(page);
    var h := ReadHeader(page);
    if h.tableOffset + 48 * h.count <= 4096 {
      TableIs(page, h.tableOffset, h.count);
      SectionsOkIs(h, Announced(page, h.tableOffset, h.count));
    }
  }
}
