/** elf2kxe.c: the loadable segments of an ELF64 image planned, laid out and written as a KXE file. */
module Elf2Kxe {
  import opened Base
  import opened ByteFields
  import opened Kxe

  /** A program header; flags are the low bits of p_flags: execute 1, write 2, read 4. */
  datatype Phdr = Phdr(load: bool, flags: nat, offset: nat, vaddr: nat, filesz: nat, memsz: nat)

  /** The fields are 64-bit words. */
  predicate Wide(p: Phdr) {
    p.flags < 8 && p.offset < WORD && p.vaddr < WORD && p.filesz < WORD && p.memsz < WORD
  }

  /** The segments that are converted. */
  function Kept(phs: seq<Phdr>): (r: seq<Phdr>) {
    if phs == [] then []
    else Kept(phs[..|phs| - 1]) + (var p := phs[|phs| - 1]; if p.load && p.memsz != 0 then [p] else [])
  }

  predicate Converts(p: Phdr) { p.load && p.memsz != 0 }

  /** They are the PT_LOAD segments that take up memory: each as often as it occurs, and no other. */
  lemma {:induction false} KeptExactly(phs: seq<Phdr>, p: Phdr)
    ensures multiset(Kept(phs))[p] == if Converts(p) then multiset(phs)[p] else 0
  {
    if phs != [] {
      var front, last := phs[..|phs| - 1], phs[|phs| - 1];
      KeptExactly(front, p);
      assert phs == front + [last];
    }
  }

  /** And in the order of the program headers. */
  lemma {:induction false} KeptOrder(before: seq<Phdr>, after: seq<Phdr>)
    ensures Kept(before + after) == Kept(before) + Kept(after)
  {
    if after == [] {
      assert before + after == before;
    } else {
      var front, last := after[..|after| - 1], after[|after| - 1];
      KeptOrder(before, front);
      assert (before + after)[..|before + after| - 1] == before + front
             && (before + after)[|before + after| - 1] == last;
    }
  }

  /** kxe_flags_from_elf. */
  function KxeFlags(f: nat): (r: nat)
    ensures r < 8
  {
    f / 4 % 2 + 2 * (f / 2 % 2) + 4 * (f % 2)
  }

  lemma FlagsMean(f: nat)
    ensures Writable(KxeFlags(f)) <==> f / 2 % 2 == 1
    ensures Executable(KxeFlags(f)) <==> f % 2 == 1
  {
  }

  function AlignUp16(x: nat): (r: nat)
    ensures x <= r < x + 16 && r % 16 == 0
  {
    (x + 15) / 16 * 16
  }

  /** Where the output stands after the first i segments. */
  function Cursor(segs: seq<Phdr>, i: nat): (c: nat)
    requires i <= |segs|
    ensures c >= 4096
  {
    if i == 0 then 4096
    else if segs[i - 1].filesz == 0 then Cursor(segs, i - 1)
    else AlignUp16(Cursor(segs, i - 1)) + segs[i - 1].filesz
  }

  lemma {:induction false} CursorMono(segs: seq<Phdr>, i: nat, j: nat)
    requires i <= j <= |segs|
    ensures Cursor(segs, i) <= Cursor(segs, j)
    decreases j
  {
    if i < j { CursorMono(segs, i, j - 1); }
  }

  function NameBytes(flags: nat, filesz: nat): (n: Bytes)
    ensures |n| == 8
  {
    if Executable(flags) then [0x2E, 0x74, 0x65, 0x78, 0x74, 0, 0, 0]
    else if Writable(flags) then
      if filesz == 0 then [0x2E, 0x62, 0x73, 0x73, 0, 0, 0, 0] else [0x2E, 0x64, 0x61, 0x74, 0x61, 0, 0, 0]
    else [0x2E, 0x72, 0x6F, 0x64, 0x61, 0x74, 0x61, 0]
  }

  /** A segment's section before it has a place in the output. */
  function Unplaced(p: Phdr): (s: Section) {
    Section(FromLE(NameBytes(KxeFlags(p.flags), p.filesz)), if p.filesz == 0 then TYPE_NOBITS else TYPE_LOAD,
            KxeFlags(p.flags), 0, p.vaddr, p.memsz, 0, p.filesz)
  }

  /** The section that segment i becomes. */
  function SectionFor(segs: seq<Phdr>, i: nat): (s: Section)
    requires i < |segs|
  {
    var p := segs[i];
    Unplaced(p).(fileOffset := if p.filesz == 0 then 0 else AlignUp16(Cursor(segs, i)))
  }

  function Sections(segs: seq<Phdr>): (r: seq<Section>)
    ensures |r| == |segs| && forall i :: 0 <= i < |segs| ==> r[i] == SectionFor(segs, i)
  {
    seq(|segs|, i requires 0 <= i < |segs| => SectionFor(segs, i))
  }

  /** image_min and image_max as the loop computes them, on 64-bit words. */
  function Lowest(segs: seq<Phdr>): (m: nat) {
    if segs == [] then WORD - 1
    else var (m, v) := (Lowest(segs[..|segs| - 1]), segs[|segs| - 1].vaddr); if v < m then v else m
  }

  function SegEnd(p: Phdr): (e: nat) { (p.vaddr + p.memsz) % WORD }

  function Highest(segs: seq<Phdr>): (m: nat) {
    if segs == [] then 0
    else var (m, v) := (Highest(segs[..|segs| - 1]), SegEnd(segs[|segs| - 1])); if v > m then v else m
  }

  predicate WriteExec(p: Phdr) { p.flags / 2 % 2 == 1 && p.flags % 2 == 1 }

  /** What should be refused: too many or no segments, a truncated one, a writable and executable one. */
  ghost predicate Convertible(segs: seq<Phdr>, elfLen: nat) {
    0 < |segs| <= MAX_SECTIONS
    && forall i :: 0 <= i < |segs| ==> segs[i].offset + segs[i].filesz <= elfLen && !WriteExec(segs[i])
  }

  /** What is refused: the end of a segment is computed on 64-bit words. */
  ghost predicate Planned(segs: seq<Phdr>, elfLen: nat) {
    0 < |segs| <= MAX_SECTIONS
    && forall i :: 0 <= i < |segs| ==> (segs[i].offset + segs[i].filesz) % WORD <= elfLen && !WriteExec(segs[i])
  }

  /** The end of the segment does not fit 64 bits. */
  predicate Wraps(p: Phdr) { p.offset + p.filesz >= WORD }

  /** The truncation test is right exactly for segments that do not wrap: every one that does not is in the file, and
      none that does is. */
  lemma {:induction false} TruncationTest(segs: seq<Phdr>, elfLen: nat)
    requires elfLen < WORD && forall i :: 0 <= i < |segs| ==> Wide(segs[i])
    ensures Convertible(segs, elfLen) <==> Planned(segs, elfLen) && forall i :: 0 <= i < |segs| ==> !Wraps(segs[i])
  {
    forall i | 0 <= i < |segs|
      ensures segs[i].offset + segs[i].filesz <= elfLen <==>
              (segs[i].offset + segs[i].filesz) % WORD <= elfLen && !Wraps(segs[i])
    {
      SumMod(segs[i].offset + segs[i].filesz);
    }
  }

  lemma SumMod(n: nat)
    requires n < 2 * WORD
    ensures n % WORD == if n < WORD then n else n - WORD
  {
  }

  // ---------- what the converter reads ----------

  /** The byte p places after the start of the input, on 64-bit addresses; `beyond` is the memory outside the input. */
  function Fetch(elf: Bytes, beyond: nat -> Byte, p: nat): (v: Byte) {
    if p % WORD < |elf| then elf[p % WORD] else beyond(p % WORD)
  }

  function Payload(elf: Bytes, beyond: nat -> Byte, p: Phdr): (r: Bytes)
    ensures |r| == p.filesz && forall k :: 0 <= k < p.filesz ==> r[k] == Fetch(elf, beyond, p.offset + k)
  {
    seq<Byte>(p.filesz, (k: nat) => Fetch(elf, beyond, p.offset + k))
  }

  /** A segment that lies in the file is read from the file. */
  lemma PayloadInFile(elf: Bytes, beyond: nat -> Byte, p: Phdr)
    requires p.offset + p.filesz <= |elf| < WORD
    ensures Payload(elf, beyond, p) == elf[p.offset..p.offset + p.filesz]
  {
    forall k | 0 <= k < p.filesz ensures Payload(elf, beyond, p)[k] == elf[p.offset..p.offset + p.filesz][k] {
      SumMod(p.offset + k);
    }
  }

  function TheHeader(segs: seq<Phdr>, entry: nat): (h: Header) {
    HeaderWith(|segs|, entry, Lowest(segs), Highest(segs), Cursor(segs, |segs|))
  }

  // ---------- planning ----------

  /** The first loop of main, on 64-bit words. The plan is the one laid out by `Cursor` whenever that fits a word. */
  method PlanSections(phs: seq<Phdr>, elfLen: nat)
    returns (ok: bool, secs: seq<Section>, inputs: seq<nat>, imageMin: nat, imageMax: nat, cursor: nat)
    requires forall i :: 0 <= i < |phs| ==> Wide(phs[i])
    ensures ok <==> Planned(Kept(phs), elfLen)
    ensures ok ==> |inputs| == |secs| == |Kept(phs)| && cursor < WORD
    ensures ok ==> forall i :: 0 <= i < |secs| ==> inputs[i] == Kept(phs)[i].offset && IsPlanOf(secs[i], Kept(phs)[i])
    ensures ok ==> imageMin == Lowest(Kept(phs)) && imageMax == Highest(Kept(phs))
    ensures ok && Cursor(Kept(phs), |Kept(phs)|) < WORD ==>
              secs == Sections(Kept(phs)) && cursor == Cursor(Kept(phs), |Kept(phs)|)
  {
    hide KxeFlags, NameBytes, FromLE, AlignUp16, Cursor, Lowest, Highest, Kept, SegEnd, WriteExec, Planned, Sections,
         Unplaced, SectionFor;
    ghost var segs: seq<Phdr> := [];
    secs, inputs, imageMin, imageMax, cursor := [], [], WORD - 1, 0, 4096;
    NothingYet();
    assert phs[..0] == [];
    for i := 0 to |phs|
      invariant segs == Kept(phs[..i]) && |secs| == |inputs| == |segs| <= MAX_SECTIONS && cursor < WORD
      invariant forall k :: 0 <= k < |segs| ==> inputs[k] == segs[k].offset && IsPlanOf(secs[k], segs[k])
      invariant forall k :: 0 <= k < |segs| ==>
                (segs[k].offset + segs[k].filesz) % WORD <= elfLen && !WriteExec(segs[k])
      invariant imageMin == Lowest(segs) && imageMax == Highest(segs)
      invariant Cursor(segs, |segs|) < WORD ==> secs == Sections(segs) && cursor == Cursor(segs, |segs|)
    {
      var p := phs[i];
      KeptStep(phs, i);
      if p.load && p.memsz != 0 {
        Refused(phs, i, elfLen);
        if |secs| >= MAX_SECTIONS || (p.offset + p.filesz) % WORD > elfLen || WriteExec(p) {
          return false, [], [], 0, 0, 0;
        }
        Grown(segs, p);
        var s;
        s, cursor := PlaceSection(p, cursor);
        secs, inputs := secs + [s], inputs + [p.offset];
        if p.vaddr < imageMin {
          imageMin := p.vaddr;
        }
        if SegEnd(p) > imageMax {
          imageMax := SegEnd(p);
        }
        segs := segs + [p];
      }
    }
    assert phs[..|phs|] == phs;
    ok := |secs| > 0;
    Accepted(segs, elfLen);
  }

  /** A section carries its segment's fields and some place in the output. */
  predicate IsPlanOf(s: Section, p: Phdr) { s.fileOffset < WORD && s == Unplaced(p).(fileOffset := s.fileOffset) }

  /** One section planned at the output cursor. */
  method PlaceSection(p: Phdr, cursor: nat) returns (s: Section, next: nat)
    requires Wide(p) && cursor < WORD
    ensures next < WORD && IsPlanOf(s, p)
    ensures p.filesz == 0 ==> next == cursor && s == Unplaced(p).(fileOffset := 0)
    ensures p.filesz != 0 && AlignUp16(cursor) + p.filesz < WORD ==>
              next == AlignUp16(cursor) + p.filesz && s == Unplaced(p).(fileOffset := AlignUp16(cursor))
  {
    hide KxeFlags, NameBytes, FromLE;
    s, next := Unplaced(p), cursor;
    if s.typ == TYPE_LOAD {
      next := (next + 15) % WORD / 16 * 16;
      s := s.(fileOffset := next);
      next := (next + p.filesz) % WORD;
    }
  }

  lemma NothingYet()
    ensures Kept([]) == [] && Sections([]) == [] && Lowest([]) == WORD - 1 && Highest([]) == 0 && Cursor([], 0) == 4096
  {
  }

  lemma Accepted(segs: seq<Phdr>, elfLen: nat)
    requires |segs| <= MAX_SECTIONS
    requires forall k :: 0 <= k < |segs| ==> (segs[k].offset + segs[k].filesz) % WORD <= elfLen && !WriteExec(segs[k])
    ensures Planned(segs, elfLen) <==> |segs| > 0
  {
  }

  lemma KeptStep(phs: seq<Phdr>, i: nat)
    requires i < |phs|
    ensures var p := phs[i]; Kept(phs[..i + 1]) == Kept(phs[..i]) + if p.load && p.memsz != 0 then [p] else []
  {
    assert phs[..i + 1][..i] == phs[..i];
  }

  /** A kept segment that is one too many, cut short, or writable and executable spoils the image. */
  lemma Refused(phs: seq<Phdr>, i: nat, elfLen: nat)
    requires i < |phs| && phs[i].load && phs[i].memsz != 0
    ensures |Kept(phs[..i])| >= MAX_SECTIONS || (phs[i].offset + phs[i].filesz) % WORD > elfLen || WriteExec(phs[i]) ==>
              !Planned(Kept(phs), elfLen)
  {
    KeptStep(phs, i);
    KeptPrefix(phs, i + 1);
    assert Kept(phs)[|Kept(phs[..i])|] == phs[i];
  }

  lemma {:induction false} KeptPrefix(phs: seq<Phdr>, i: nat)
    requires i <= |phs|
    ensures Kept(phs[..i]) <= Kept(phs)
    decreases |phs|
  {
    if i < |phs| {
      assert phs[..|phs| - 1][..i] == phs[..i];
      KeptPrefix(phs[..|phs| - 1], i);
    } else {
      assert phs[..i] == phs;
    }
  }

  /** One more segment leaves the plan of the others as it is. */
  lemma Grown(segs: seq<Phdr>, p: Phdr)
    ensures var more := segs + [p];
            more[..|segs|] == segs && Cursor(more, |segs|) == Cursor(segs, |segs|)
            && Sections(more) == Sections(segs) + [SectionFor(more, |segs|)] && more[|segs|] == p
            && SectionFor(more, |segs|) ==
               Unplaced(p).(fileOffset := if p.filesz == 0 then 0 else AlignUp16(Cursor(segs, |segs|)))
            && Cursor(more, |more|) ==
               (if p.filesz == 0 then Cursor(segs, |segs|) else AlignUp16(Cursor(segs, |segs|)) + p.filesz)
            && Lowest(more) == (if p.vaddr < Lowest(segs) then p.vaddr else Lowest(segs))
            && Highest(more) == (if SegEnd(p) > Highest(segs) then SegEnd(p) else Highest(segs))
  {
    hide KxeFlags, NameBytes, FromLE, AlignUp16, Unplaced;
    var more := segs + [p];
    assert more[..|segs|] == segs && more[|segs|] == p;
    forall i | 0 <= i <= |segs| ensures Cursor(more, i) == Cursor(segs, i) { CursorPrefix(segs, p, i); }
    assert Sections(more) == Sections(segs) + [SectionFor(more, |segs|)];
  }

  lemma {:induction false} CursorPrefix(segs: seq<Phdr>, p: Phdr, i: nat)
    requires i <= |segs|
    ensures Cursor(segs + [p], i) == Cursor(segs, i)
  {
    if i > 0 { CursorPrefix(segs, p, i - 1); }
  }

  // ---------- the header page ----------

  lemma {:induction false} Bounds(segs: seq<Phdr>)
    requires forall k :: 0 <= k < |segs| ==> segs[k].vaddr < WORD
    ensures Lowest(segs) < WORD && Highest(segs) < WORD
    decreases |segs|
  {
    if segs != [] { Bounds(segs[..|segs| - 1]); }
  }

  /** The header of a file with n sections. */
  function HeaderWith(n: nat, entry: nat, imageMin: nat, imageMax: nat, cursor: nat): (h: Header) {
    Header(MAGIC, 0, 1, 0, HEADER_SIZE, SECTION_SIZE, n, 1, 0, entry, HEADER_SIZE, imageMin, imageMax, cursor)
  }

  lemma HeaderFitsWidths(n: nat, entry: nat, imageMin: nat, imageMax: nat, cursor: nat, crc: Word)
    requires n <= MAX_SECTIONS && entry < WORD && imageMin < WORD && imageMax < WORD && cursor < WORD
    ensures HeaderFits(HeaderWith(n, entry, imageMin, imageMax, cursor).(crc := crc))
  {
    hide HeaderFits;
    HeaderFitsIf(HeaderWith(n, entry, imageMin, imageMax, cursor).(crc := crc));
  }

  lemma HeaderFitsIf(h: Header)
    requires h.magic < 0x1_0000_0000 && h.flags < 0x1_0000_0000 && h.crc < 0x1_0000_0000
    requires h.major < 0x1_0000 && h.minor < 0x1_0000 && h.headerSize < 0x1_0000 && h.entrySize < 0x1_0000
    requires h.count < 0x1_0000 && h.abi < 0x1_0000
    requires h.entry < WORD && h.tableOffset < WORD && h.imageMin < WORD && h.imageMax < WORD && h.fileSize < WORD
    ensures HeaderFits(h)
  {
    hide Pow;
    Widths();
    var w := HeaderWidths();
    assert w[0] == 4 && w[1] == 2 && w[2] == 2 && w[3] == 4 && w[4] == 2 && w[5] == 2 && w[6] == 2 && w[7] == 2
           && w[8] == 4;
    assert w[9] == 8 && w[10] == 8 && w[11] == 8 && w[12] == 8 && w[13] == 8;
  }

  lemma SectionFitsWidths(s: Section, p: Phdr)
    requires IsPlanOf(s, p) && Wide(p)
    ensures SectionFits(s)
  {
    hide Pow, NameBytes, KxeFlags, FromLE;
    Widths();
    FromLEBound(NameBytes(s.flags, s.fileSize));
    var f, w := SectionFields(s), SectionWidths();
    assert w[0] == 8 && w[1] == 2 && w[2] == 2 && w[3] == 4 && w[4] == 8 && w[5] == 8 && w[6] == 8 && w[7] == 8;
  }

  /** A header and sections that can be packed. */
  ghost predicate Packable(h: Header, secs: seq<Section>) {
    |secs| <= MAX_SECTIONS && h.crc == 0 && (forall i :: 0 <= i < |secs| ==> SectionFits(secs[i]))
    && forall crc: Word :: HeaderFits(h.(crc := crc))
  }

  /** The header with its checksum. */
  function Sealed(h: Header, secs: seq<Section>, crc: Bytes -> Word): (r: Header)
    requires Packable(h, secs)
    ensures HeaderFits(r)
  {
    assert h.(crc := 0) == h;
    h.(crc := crc(PackHeader(h)))
  }

  function HeaderPage(h: Header, secs: seq<Section>, crc: Bytes -> Word): (r: Bytes)
    requires Packable(h, secs)
    ensures |r| == 4096
  {
    PackHeader(Sealed(h, secs, crc)) + PackTable(secs) + Zeros(4032 - 48 * |secs|)
  }

  /** The loader reads back what was planned. */
  lemma PageReadsBack(h: Header, secs: seq<Section>, crc: Bytes -> Word)
    requires Packable(h, secs)
    ensures var page, r := HeaderPage(h, secs, crc), Sealed(h, secs, crc);
            ReadHeader(page) == r && CrcOk(r, crc) && Table(page, HEADER_SIZE, |secs|) == secs
  {
    hide PackHeader, PackTable, ReadHeader, ReadSection, HeaderFits, SectionFits;
    var r, pad := Sealed(h, secs, crc), Zeros(4032 - 48 * |secs|);
    var page, head := HeaderPage(h, secs, crc), PackHeader(r);
    assert page == head + (PackTable(secs) + pad);
    HeaderReadsBack(r, PackTable(secs) + pad);
    SealedCrc(h, secs, crc);
    forall i: nat | i < |secs| ensures ReadSection(page, 64 + 48 * i) == secs[i] {
      TableReadsBack(head, secs, pad, i);
    }
  }

  lemma SealedCrc(h: Header, secs: seq<Section>, crc: Bytes -> Word)
    requires Packable(h, secs)
    ensures CrcOk(Sealed(h, secs, crc), crc)
  {
    hide PackHeader;
    var r := Sealed(h, secs, crc);
    assert r.(crc := 0) == h;
  }

  // ---------- the output ----------

  /** Where segment i's bytes go and what they are. */
  ghost predicate Emitted(out: Bytes, elf: Bytes, beyond: nat -> Byte, segs: seq<Phdr>, i: nat) {
    i < |segs| && segs[i].filesz > 0 ==>
      var o := SectionFor(segs, i).fileOffset;
      o + segs[i].filesz <= |out| && out[o..o + segs[i].filesz] == Payload(elf, beyond, segs[i])
  }

  /** The output is laid out by `Cursor`. */
  ghost predicate Converted(out: Bytes, elf: Bytes, beyond: nat -> Byte, segs: seq<Phdr>, entry: nat,
      crc: Bytes -> Word) {
    Packable(TheHeader(segs, entry), Sections(segs)) && |out| == Cursor(segs, |segs|)
    && out[..4096] == HeaderPage(TheHeader(segs, entry), Sections(segs), crc)
    && forall i: nat :: Emitted(out, elf, beyond, segs, i)
  }

  /** main of elf2kxe, from program headers to the bytes of the output file. `beyond` is what lies in memory outside the
      input. For a layout of 2^64 bytes or more only the header page is described. */
  method Convert(elf: Bytes, beyond: nat -> Byte, phs: seq<Phdr>, entry: nat, crc: Bytes -> Word)
    returns (ok: bool, out: Bytes, ghost h: Header, ghost secs: seq<Section>)
    requires entry < WORD && forall i :: 0 <= i < |phs| ==> Wide(phs[i])
    ensures ok ==>
            Planned(Kept(phs), |elf|) && Packable(h, secs) && 4096 <= |out| && out[..4096] == HeaderPage(h, secs, crc)
    ensures ok ==> h.count == |secs| == |Kept(phs)| && h.tableOffset == HEADER_SIZE
    ensures ok ==> forall i :: 0 <= i < |secs| ==> IsPlanOf(secs[i], Kept(phs)[i])
    ensures Cursor(Kept(phs), |Kept(phs)|) < WORD ==> (ok <==> Planned(Kept(phs), |elf|))
    ensures ok && Cursor(Kept(phs), |Kept(phs)|) < WORD ==>
              h == TheHeader(Kept(phs), entry) && secs == Sections(Kept(phs))
              && Converted(out, elf, beyond, Kept(phs), entry, crc)
  {
    hide Planned, Packable, AlignUp16, Cursor, Lowest, Highest, Kept, HeaderPage, Unplaced, SectionFor, Sections,
         Emitted;
    var plan, inputs, imageMin, imageMax, cursor;
    ok, plan, inputs, imageMin, imageMax, cursor := PlanSections(phs, |elf|);
    secs := plan;
    h := HeaderWith(|secs|, entry, imageMin, imageMax, cursor);
    out := [];
    if !ok {
      return;
    }
    ghost var segs := Kept(phs);
    KeptWide(phs);
    AtMost(segs, |elf|);
    AllPackable(segs, plan, entry, cursor);
    var page := BuildPage(plan, imageMin, imageMax, cursor, entry, crc);
    ok, out := EmitPayloads(page, plan, inputs, elf, beyond, segs);
  }

  lemma AtMost(segs: seq<Phdr>, elfLen: nat)
    requires Planned(segs, elfLen)
    ensures 0 < |segs| <= MAX_SECTIONS
  {
  }

  lemma {:induction false} AllPackable(segs: seq<Phdr>, secs: seq<Section>, entry: nat, cursor: nat)
    requires |secs| == |segs| <= MAX_SECTIONS && entry < WORD && cursor < WORD
    requires forall i :: 0 <= i < |segs| ==> Wide(segs[i]) && IsPlanOf(secs[i], segs[i])
    ensures Packable(HeaderWith(|secs|, entry, Lowest(segs), Highest(segs), cursor), secs)
  {
    hide HeaderFits, SectionFits, Lowest, Highest, IsPlanOf;
    Bounds(segs);
    forall i | 0 <= i < |secs| ensures SectionFits(secs[i]) { SectionFitsWidths(secs[i], segs[i]); }
    forall crc: Word ensures HeaderFits(HeaderWith(|secs|, entry, Lowest(segs), Highest(segs), cursor).(crc := crc)) {
      HeaderFitsWidths(|secs|, entry, Lowest(segs), Highest(segs), cursor, crc);
    }
  }

  lemma {:induction false} KeptWide(phs: seq<Phdr>)
    requires forall i :: 0 <= i < |phs| ==> Wide(phs[i])
    ensures forall i :: 0 <= i < |Kept(phs)| ==> Wide(Kept(phs)[i])
    decreases |phs|
  {
    if phs != [] { KeptWide(phs[..|phs| - 1]); }
  }

  /** The header filled in, packed, checksummed and packed again. */
  method BuildPage(secs: seq<Section>, imageMin: nat, imageMax: nat, cursor: nat, entry: nat, crc: Bytes -> Word)
    returns (page: Bytes)
    requires Packable(HeaderWith(|secs|, entry, imageMin, imageMax, cursor), secs)
    ensures page == HeaderPage(HeaderWith(|secs|, entry, imageMin, imageMax, cursor), secs, crc)
  {
    hide PackHeader, PackTable, HeaderFits, SectionFits;
    var h := Header(MAGIC, 0, 1, 0, HEADER_SIZE, SECTION_SIZE, |secs|, 1, 0, entry, HEADER_SIZE, imageMin, imageMax,
        cursor);
    assert h.(crc := 0) == h;
    var sealedHdr := h.(crc := crc(PackHeader(h)));
    page := PackHeader(sealedHdr) + PackTable(secs) + Zeros(4032 - 48 * |secs|);
  }

  /** The last loop of main: padding up to each section's offset, then its bytes; an offset that lies behind is an
      error. */
  method EmitPayloads(page: Bytes, secs: seq<Section>, inputs: seq<nat>, elf: Bytes, beyond: nat -> Byte,
      ghost segs: seq<Phdr>)
    returns (ok: bool, out: Bytes)
    requires |page| == 4096 && |secs| == |inputs| == |segs|
    requires forall i :: 0 <= i < |segs| ==> inputs[i] == segs[i].offset && IsPlanOf(secs[i], segs[i])
    ensures ok ==> |out| >= 4096 && out[..4096] == page
    ensures secs == Sections(segs) ==>
            ok && |out| == Cursor(segs, |segs|)
            && forall i: nat :: Emitted(out, elf, beyond, segs, i)
  {
    hide KxeFlags, NameBytes, FromLE, AlignUp16, Cursor, Emitted, Sections;
    out := page;
    CursorStart(segs);
    for i := 0 to |secs|
      invariant |out| >= 4096 && out[..4096] == page
      invariant secs == Sections(segs) ==>
                |out| == Cursor(segs, i)
                && forall k: nat :: k < i ==> Emitted(out, elf, beyond, segs, k)
    {
      var s := secs[i];
      CursorNext(segs, i);
      SectionAt(segs, secs, i);
      if s.typ == TYPE_LOAD && s.fileSize != 0 {
        if |out| > s.fileOffset {
          return false, out;
        }
        ghost var before := out;
        var payload := seq<Byte>(s.fileSize, (k: nat) => Fetch(elf, beyond, inputs[i] + k));
        assert payload == Payload(elf, beyond, segs[i]);
        out := out + Zeros(s.fileOffset - |out|) + payload;
        assert out[s.fileOffset..s.fileOffset + s.fileSize] == payload;
        if secs == Sections(segs) {
          EmittedHere(out, elf, beyond, segs, i);
          forall k: nat | k < i ensures Emitted(out, elf, beyond, segs, k) {
            EmittedStays(before, out, elf, beyond, segs, k);
          }
        }
      } else {
        NothingToEmit(out, elf, beyond, segs, i);
      }
    }
    forall i: nat | i >= |segs| ensures Emitted(out, elf, beyond, segs, i) { BeyondEmits(out, elf, beyond, segs, i); }
    ok := true;
  }

  lemma {:induction false} SectionAt(segs: seq<Phdr>, secs: seq<Section>, i: nat)
    requires i < |segs| == |secs|
    ensures secs == Sections(segs) ==> secs[i] == SectionFor(segs, i)
  {
  }

  lemma CursorStart(segs: seq<Phdr>)
    ensures Cursor(segs, 0) == 4096
  {
  }

  lemma CursorNext(segs: seq<Phdr>, i: nat)
    requires i < |segs|
    ensures var s := SectionFor(segs, i);
            if s.typ == TYPE_LOAD && s.fileSize != 0 then
              s.fileOffset >= Cursor(segs, i) && Cursor(segs, i + 1) == s.fileOffset + s.fileSize
            else segs[i].filesz == 0 && Cursor(segs, i + 1) == Cursor(segs, i)
  {
    hide FromLE, NameBytes, KxeFlags;
  }

  lemma EmittedHere(out: Bytes, elf: Bytes, beyond: nat -> Byte, segs: seq<Phdr>, i: nat)
    requires i < |segs| && segs[i].filesz > 0
    requires var s := SectionFor(segs, i);
             s.fileOffset + s.fileSize <= |out|
             && out[s.fileOffset..s.fileOffset + s.fileSize] == Payload(elf, beyond, segs[i])
    ensures Emitted(out, elf, beyond, segs, i)
  {
  }

  lemma EmittedStays(before: Bytes, after: Bytes, elf: Bytes, beyond: nat -> Byte, segs: seq<Phdr>, k: nat)
    requires Emitted(before, elf, beyond, segs, k) && before <= after
    ensures Emitted(after, elf, beyond, segs, k)
  {
  }

  lemma NothingToEmit(out: Bytes, elf: Bytes, beyond: nat -> Byte, segs: seq<Phdr>, i: nat)
    requires i < |segs| && segs[i].filesz == 0
    ensures Emitted(out, elf, beyond, segs, i)
  {
  }

  lemma BeyondEmits(out: Bytes, elf: Bytes, beyond: nat -> Byte, segs: seq<Phdr>, i: nat)
    requires i >= |segs|
    ensures Emitted(out, elf, beyond, segs, i)
  {
  }

  // ---------- when the converter is right ----------

  /** The output holds the bytes of the file that the segment's header names. */
  ghost predicate FromFile(out: Bytes, elf: Bytes, segs: seq<Phdr>, i: nat) {
    i < |segs| ==>
      segs[i].offset + segs[i].filesz <= |elf|
      && (segs[i].filesz > 0 ==>
            var o := SectionFor(segs, i).fileOffset;
            o + segs[i].filesz <= |out|
            && out[o..o + segs[i].filesz] == elf[segs[i].offset..segs[i].offset + segs[i].filesz])
  }

  /** The output holds every segment as the file has it exactly when no segment wraps. */
  lemma {:induction false} RightIffNoWrap(out: Bytes, elf: Bytes, beyond: nat -> Byte, segs: seq<Phdr>, entry: nat,
      crc: Bytes -> Word)
    requires |elf| < WORD && Planned(segs, |elf|) && Converted(out, elf, beyond, segs, entry, crc)
    requires forall i :: 0 <= i < |segs| ==> Wide(segs[i])
    ensures (forall i: nat :: FromFile(out, elf, segs, i)) <==> forall i :: 0 <= i < |segs| ==> !Wraps(segs[i])
  {
    hide Cursor, SectionFor, HeaderPage, Packable, Payload;
    TruncationTest(segs, |elf|);
    if forall i :: 0 <= i < |segs| ==> !Wraps(segs[i]) {
      forall i: nat | i < |segs| ensures FromFile(out, elf, segs, i) {
        assert Emitted(out, elf, beyond, segs, i);
        PayloadInFile(elf, beyond, segs[i]);
      }
    }
    if forall i: nat :: FromFile(out, elf, segs, i) {
      forall i | 0 <= i < |segs| ensures !Wraps(segs[i]) { assert FromFile(out, elf, segs, i); }
    }
  }

  /** A segment of sixteen bytes that starts eight before the file: accepted, and eight of its bytes are not the
      file's. */
  function BeforeTheFile(): (p: Phdr) { Phdr(true, 4, WORD - 8, 0x40_0000, 16, 16) }

  lemma PlanBeforeTheFile(elfLen: nat)
    requires 8 <= elfLen <= WORD - 8
    ensures var segs := [BeforeTheFile()];
            && Kept(segs) == segs && Planned(segs, elfLen) && !Convertible(segs, elfLen)
            && Cursor(segs, 1) == 4112 && SectionFor(segs, 0).fileOffset == 4096
  {
    hide FromLE, NameBytes, KxeFlags;
    var p := BeforeTheFile();
    assert [p][..0] == [] && Kept([]) == [];
    SumMod(p.offset + p.filesz);
    assert Cursor([p], 0) == 4096;
  }

  /** The eight bytes of memory before the file. */
  function Before(beyond: nat -> Byte): (r: Bytes)
    ensures |r| == 8 && forall k :: 0 <= k < 8 ==> r[k] == beyond(WORD - 8 + k)
  {
    seq<Byte>(8, (k: nat) => beyond(WORD - 8 + k))
  }

  lemma PayloadBeforeTheFile(elf: Bytes, beyond: nat -> Byte)
    requires 8 <= |elf| <= WORD - 8
    ensures Payload(elf, beyond, BeforeTheFile()) == Before(beyond) + elf[..8]
  {
    var r := Payload(elf, beyond, BeforeTheFile());
    forall k: nat | k < 16 ensures r[k] == (Before(beyond) + elf[..8])[k] { SumMod(WORD - 8 + k); }
  }

  method BytesBeforeTheFile(elf: Bytes, beyond: nat -> Byte, entry: nat, crc: Bytes -> Word)
      returns (ok: bool, out: Bytes)
    requires 8 <= |elf| <= WORD - 8 && entry < WORD
    ensures ok && |out| == 4112 && !Convertible([BeforeTheFile()], |elf|) && out[4096..] == Before(beyond) + elf[..8]
  {
    hide HeaderPage, Packable, SectionFor, Cursor, Kept, Planned, Convertible, Payload, TheHeader, Before, Emitted;
    ghost var segs := [BeforeTheFile()];
    PlanBeforeTheFile(|elf|);
    PayloadBeforeTheFile(elf, beyond);
    ghost var h, secs;
    ok, out, h, secs := Convert(elf, beyond, [BeforeTheFile()], entry, crc);
    OneSegment(out, elf, beyond, segs);
  }

  lemma OneSegment(out: Bytes, elf: Bytes, beyond: nat -> Byte, segs: seq<Phdr>)
    requires |segs| == 1 && segs[0].filesz == 16 && |out| == 4112 && SectionFor(segs, 0).fileOffset == 4096
    requires Emitted(out, elf, beyond, segs, 0)
    ensures out[4096..] == Payload(elf, beyond, segs[0])
  {
    hide SectionFor, Payload;
    assert out[4096..] == out[4096..4112];
  }
}
