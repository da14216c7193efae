/** kxe.c: loading the sections of an accepted image, and the whole way from ELF segments to memory. */
module KxeLoad {
  import opened Base
  import opened ByteFields
  import opened Kxe
  import opened Elf2Kxe

  const STACK_BASE := 0x7F_0000

  // ---------- which converted images are accepted ----------

  predicate SegLoads(p: Phdr) {
    p.vaddr % 4096 == 0 && InUser(p.vaddr) && p.vaddr + p.memsz <= USER_MAX && p.filesz <= p.memsz
  }

  predicate SegsApart(p: Phdr, q: Phdr) { PageUp(p.vaddr + p.memsz) <= q.vaddr || PageUp(q.vaddr + q.memsz) <= p.vaddr }

  predicate SegEnters(p: Phdr, entry: nat) { p.flags % 2 == 1 && p.vaddr <= entry < p.vaddr + p.memsz }

  /** Page-aligned segments in the user range, sharing no page, no longer in the file than in memory, with the entry
      point in an executable one. */
  ghost predicate Loadable(segs: seq<Phdr>, entry: nat) {
    (forall i :: 0 <= i < |segs| ==> SegLoads(segs[i]))
    && (forall j, i :: 0 <= j < i < |segs| ==> SegsApart(segs[i], segs[j]))
    && exists i :: 0 <= i < |segs| && SegEnters(segs[i], entry)
  }

  lemma {:induction false} LowestIs(segs: seq<Phdr>, i: nat)
    requires i < |segs| && segs[i].vaddr < WORD
    ensures Lowest(segs) <= segs[i].vaddr
    decreases |segs|
  {
    if i < |segs| - 1 { LowestIs(segs[..|segs| - 1], i); }
  }

  lemma {:induction false} HighestIs(segs: seq<Phdr>, i: nat)
    requires i < |segs|
    ensures Highest(segs) >= SegEnd(segs[i])
    decreases |segs|
  {
    if i < |segs| - 1 { HighestIs(segs[..|segs| - 1], i); }
  }

  lemma {:induction false} LowestAttained(segs: seq<Phdr>) returns (i: nat)
    requires segs != [] && forall k :: 0 <= k < |segs| ==> segs[k].vaddr < WORD
    ensures i < |segs| && Lowest(segs) == segs[i].vaddr
    decreases |segs|
  {
    i := |segs| - 1;
    if i > 0 {
      var k := LowestAttained(segs[..i]);
      if segs[k].vaddr <= segs[i].vaddr { i := k; }
    }
  }

  lemma {:induction false} HighestBelow(segs: seq<Phdr>, m: nat)
    requires forall k :: 0 <= k < |segs| ==> SegEnd(segs[k]) <= m
    ensures Highest(segs) <= m
    decreases |segs|
  {
    if segs != [] { HighestBelow(segs[..|segs| - 1], m); }
  }

  /** A section is valid exactly when its segment loads. */
  lemma SectionOkIff(segs: seq<Phdr>, entry: nat, i: nat, h: Header)
    requires i < |segs| && Wide(segs[i]) && segs[i].memsz > 0 && !WriteExec(segs[i])
    requires h.imageMin == Lowest(segs) && h.imageMax == Highest(segs) && h.fileSize == Cursor(segs, |segs|)
    ensures SectionOk(h, SectionFor(segs, i)) <==> SegLoads(segs[i])
  {
    hide Lowest, Highest, Cursor, FromLE, NameBytes;
    var p, s := segs[i], SectionFor(segs, i);
    FlagsMean(p.flags);
    LowestIs(segs, i);
    HighestIs(segs, i);
    CursorNext(segs, i);
    CursorMono(segs, i + 1, |segs|);
    assert s.flags < 8 && !(Writable(s.flags) && Executable(s.flags));
    assert SegLoads(p) ==> SegEnd(p) == p.vaddr + p.memsz;
  }

  lemma HeaderOkIf(segs: seq<Phdr>, entry: nat, h: Header)
    requires 0 < |segs| <= MAX_SECTIONS && h == TheHeader(segs, entry).(crc := h.crc)
    requires forall i :: 0 <= i < |segs| ==> SegLoads(segs[i]) && segs[i].memsz > 0
    ensures HeaderOk(h, Cursor(segs, |segs|))
  {
    hide Lowest, Highest, Cursor;
    var i := LowestAttained(segs);
    assert forall k :: 0 <= k < |segs| ==> SegEnd(segs[k]) == segs[k].vaddr + segs[k].memsz;
    HighestBelow(segs, USER_MAX);
    HighestIs(segs, i);
  }

  /** elf2kxe's output passes kxe_validate exactly when the image is loadable. */
  lemma {:induction false} AcceptedIff(segs: seq<Phdr>, entry: nat, crc: Bytes -> Word, elfLen: nat)
    requires Planned(segs, elfLen) && Packable(TheHeader(segs, entry), Sections(segs))
    requires forall i :: 0 <= i < |segs| ==> Wide(segs[i]) && segs[i].memsz > 0
    ensures Accepts(HeaderPage(TheHeader(segs, entry), Sections(segs), crc), Cursor(segs, |segs|), crc)
            <==> Loadable(segs, entry)
  {
    hide HeaderPage, Packable, SectionOk, SegLoads, CrcOk, ReadHeader, Cursor, Lowest, Highest, HeaderOk, PagesApart,
         SegsApart, Enters, SegEnters, SectionFor;
    var secs := Sections(segs);
    var page, h := HeaderPage(TheHeader(segs, entry), secs, crc), Sealed(TheHeader(segs, entry), secs, crc);
    PageReadsBack(TheHeader(segs, entry), secs, crc);
    SealedIs(segs, entry, crc);
    forall i | 0 <= i < |segs| ensures SectionOk(h, secs[i]) <==> SegLoads(segs[i]) { SectionOkIff(segs, entry, i, h); }
    forall i | 0 <= i < |segs| ensures Enters(h, secs[i]) <==> SegEnters(segs[i], entry) {
      EntersIff(segs, i, h, entry);
    }
    if Loadable(segs, entry) { HeaderOkIf(segs, entry, h); }
    if forall i :: 0 <= i < |segs| ==> SegLoads(segs[i]) {
      forall j, i | 0 <= j < i < |segs| ensures PagesApart(secs[i], secs[j]) <==> SegsApart(segs[i], segs[j]) {
        ApartIff(segs, i, j);
      }
    }
    SectionsIff(segs, entry, h);
  }

  lemma {:induction false} SealedIs(segs: seq<Phdr>, entry: nat, crc: Bytes -> Word)
    requires Packable(TheHeader(segs, entry), Sections(segs))
    ensures var h := Sealed(TheHeader(segs, entry), Sections(segs), crc);
            h == TheHeader(segs, entry).(crc := h.crc) && h.entry == entry && h.tableOffset == HEADER_SIZE
            && h.count == |segs|
            && h.imageMin == Lowest(segs) && h.imageMax == Highest(segs) && h.fileSize == Cursor(segs, |segs|)
  {
    hide Packable, PackHeader;
  }

  lemma {:induction false} CursorBound(segs: seq<Phdr>, i: nat, most: nat)
    requires i <= |segs| && forall k :: 0 <= k < |segs| ==> segs[k].filesz <= most
    ensures Cursor(segs, i) <= 4096 + i * (most + 16)
  {
    if i > 0 {
      CursorBound(segs, i - 1, most);
      assert i * (most + 16) == (i - 1) * (most + 16) + (most + 16);
    }
  }

  /** Loadable segments are short, so that their layout fits 64 bits. */
  lemma ShortLayout(segs: seq<Phdr>)
    requires |segs| <= MAX_SECTIONS && forall i :: 0 <= i < |segs| ==> segs[i].filesz <= USER_MAX
    ensures Cursor(segs, |segs|) < WORD
  {
    hide Cursor;
    CursorBound(segs, |segs|, USER_MAX);
    assert |segs| * (USER_MAX + 16) <= 16 * (USER_MAX + 16);
  }

  /** No page is accepted whose segments do not fit: not even when the layout wrapped. */
  lemma {:induction false} AcceptedIsShort(segs: seq<Phdr>, h: Header, secs: seq<Section>, size: nat,
      crc: Bytes -> Word)
    requires Packable(h, secs) && h.count == |secs| == |segs| && h.tableOffset == HEADER_SIZE
    requires forall i :: 0 <= i < |secs| ==> IsPlanOf(secs[i], segs[i])
    requires Accepts(HeaderPage(h, secs, crc), size, crc)
    ensures Cursor(segs, |segs|) < WORD
  {
    hide HeaderPage, Packable, CrcOk, ReadHeader, Cursor, HeaderOk, PagesApart, Enters, FromLE, NameBytes, KxeFlags;
    PageReadsBack(h, secs, crc);
    SealedCount(h, secs, crc);
    forall i | 0 <= i < |segs| ensures segs[i].filesz <= USER_MAX {
      assert SectionOk(ReadHeader(HeaderPage(h, secs, crc)), secs[i]);
    }
    ShortLayout(segs);
  }

  lemma SealedCount(h: Header, secs: seq<Section>, crc: Bytes -> Word)
    requires Packable(h, secs)
    ensures Sealed(h, secs, crc).count == h.count && Sealed(h, secs, crc).tableOffset == h.tableOffset
            && |secs| <= MAX_SECTIONS
  {
    hide PackHeader;
  }

  lemma EntersIff(segs: seq<Phdr>, i: nat, h: Header, entry: nat)
    requires i < |segs| && h.entry == entry
    ensures Enters(h, SectionFor(segs, i)) <==> SegEnters(segs[i], entry)
  {
    hide FromLE, NameBytes, Cursor;
    FlagsMean(segs[i].flags);
  }

  lemma ApartIff(segs: seq<Phdr>, i: nat, j: nat)
    requires i < |segs| && j < |segs| && SegLoads(segs[i]) && SegLoads(segs[j])
    ensures PagesApart(SectionFor(segs, i), SectionFor(segs, j)) <==> SegsApart(segs[i], segs[j])
  {
    hide FromLE, NameBytes, Cursor;
  }

  lemma SectionsIff(segs: seq<Phdr>, entry: nat, h: Header)
    requires forall i :: 0 <= i < |segs| ==> (SectionOk(h, SectionFor(segs, i)) <==> SegLoads(segs[i]))
    requires forall i :: 0 <= i < |segs| ==> (Enters(h, SectionFor(segs, i)) <==> SegEnters(segs[i], entry))
    requires (forall i :: 0 <= i < |segs| ==> SegLoads(segs[i])) ==>
               forall j, i :: 0 <= j < i < |segs| ==>
                 (PagesApart(SectionFor(segs, i), SectionFor(segs, j)) <==> SegsApart(segs[i], segs[j]))
    ensures SectionsOk(h, Sections(segs)) <==> Loadable(segs, entry)
  {
    hide SectionFor, SectionOk, SegLoads, Enters, SegEnters, PagesApart, SegsApart;
    var secs := Sections(segs);
    assert forall i :: 0 <= i < |segs| ==> secs[i] == SectionFor(segs, i);
  }

  // ---------- loading ----------

  datatype Page = Page(bytes: Bytes, writable: bool)

  type Memory = map<nat, Page>

  /** First page of a section and how many it takes. */
  function FirstPage(s: Section): (p: nat) { s.vaddr / 4096 }

  function PageCount(s: Section): (n: nat) { PageUp(s.vsize) / 4096 }

  predicate InSection(s: Section, p: nat) { FirstPage(s) <= p < FirstPage(s) + PageCount(s) }

  predicate FileHolds(file: Bytes, s: Section) { s.fileOffset + s.fileSize <= |file| && s.fileSize <= PageUp(s.vsize) }

  /** The buffer of kxe_load_section: zeroed, then the file's bytes read over its start. */
  function Buffer(file: Bytes, s: Section): (b: Bytes)
    requires FileHolds(file, s)
    ensures |b| == PageUp(s.vsize)
    ensures forall k: nat :: k < |b| ==>
            b[k] == if s.typ == TYPE_LOAD && k < s.fileSize then file[s.fileOffset + k] else 0
  {
    if s.typ == TYPE_LOAD && s.fileSize > 0 then
      file[s.fileOffset..s.fileOffset + s.fileSize] + Zeros(PageUp(s.vsize) - s.fileSize)
    else Zeros(PageUp(s.vsize))
  }

  /** The pages of a section hold its buffer. */
  ghost predicate Mapped(mem: Memory, b: Bytes, s: Section, n: nat) {
    n * 4096 <= |b| && forall i: nat :: i < n ==> PageHolds(mem, b, s, i)
  }

  ghost predicate PageHolds(mem: Memory, b: Bytes, s: Section, i: nat) {
    i * 4096 + 4096 <= |b| && FirstPage(s) + i in mem
    && mem[FirstPage(s) + i] == Page(b[i * 4096..i * 4096 + 4096], Writable(s.flags))
  }

  /** kxe_load_section once its frames are allocated: every page of the section, and no other, is mapped anew. */
  method LoadSection(mem: Memory, file: Bytes, s: Section) returns (r: Memory)
    requires FileHolds(file, s)
    ensures Mapped(r, Buffer(file, s), s, PageCount(s))
    ensures forall p: nat :: !InSection(s, p) ==> (p in r <==> p in mem) && (p in r ==> r[p] == mem[p])
  {
    hide Buffer, Writable;
    var b := Buffer(file, s);
    r := mem;
    for i := 0 to PageCount(s)
      invariant Mapped(r, b, s, i)
      invariant forall p: nat :: !InSection(s, p) ==> (p in r <==> p in mem) && (p in r ==> r[p] == mem[p])
    {
      ghost var before := r;
      r := r[FirstPage(s) + i := Page(b[i * 4096..i * 4096 + 4096], Writable(s.flags))];
      forall k: nat | k < i ensures PageHolds(r, b, s, k) { assert PageHolds(before, b, s, k); }
      assert PageHolds(r, b, s, i);
    }
  }

  ghost predicate SectionsApart(secs: seq<Section>) {
    forall i, j, p: nat :: 0 <= i < |secs| && 0 <= j < |secs| && i != j && InSection(secs[i], p) ==>
      !InSection(secs[j], p)
  }

  /** The loop of kxe_load_argv over the sections. */
  method LoadSections(file: Bytes, secs: seq<Section>) returns (mem: Memory)
    requires SectionsApart(secs) && forall i :: 0 <= i < |secs| ==> FileHolds(file, secs[i])
    ensures forall i :: 0 <= i < |secs| ==> Mapped(mem, Buffer(file, secs[i]), secs[i], PageCount(secs[i]))
    ensures forall p: nat :: p in mem <==> exists i :: 0 <= i < |secs| && InSection(secs[i], p)
  {
    hide Buffer, PageCount, FirstPage, Mapped;
    mem := map[];
    for i := 0 to |secs|
      invariant forall k :: 0 <= k < i ==> Mapped(mem, Buffer(file, secs[k]), secs[k], PageCount(secs[k]))
      invariant forall p: nat :: p in mem <==> exists k :: 0 <= k < i && InSection(secs[k], p)
    {
      var s := secs[i];
      assert FileHolds(file, s);
      ghost var before := mem;
      mem := LoadSection(mem, file, s);
      forall k | 0 <= k < i ensures Mapped(mem, Buffer(file, secs[k]), secs[k], PageCount(secs[k])) {
        MappedStays(before, mem, Buffer(file, secs[k]), secs[k], s);
      }
      forall p: nat ensures p in mem <==> exists k :: 0 <= k < i + 1 && InSection(secs[k], p) {
        if InSection(s, p) { MappedHas(mem, Buffer(file, s), s, p); }
      }
    }
  }

  lemma MappedStays(before: Memory, after: Memory, b: Bytes, s: Section, t: Section)
    requires Mapped(before, b, s, PageCount(s)) && forall p: nat :: InSection(s, p) ==> !InSection(t, p)
    requires forall p: nat :: !InSection(t, p) ==>
             (p in after <==> p in before) && (p in after ==> after[p] == before[p])
    ensures Mapped(after, b, s, PageCount(s))
  {
    hide PageCount;
    forall i: nat | i < PageCount(s) ensures PageHolds(after, b, s, i) {
      assert PageHolds(before, b, s, i) && InSection(s, FirstPage(s) + i);
    }
  }

  lemma MappedHas(mem: Memory, b: Bytes, s: Section, p: nat)
    requires Mapped(mem, b, s, PageCount(s)) && InSection(s, p)
    ensures p in mem
  {
    assert PageHolds(mem, b, s, p - FirstPage(s));
  }

  // ---------- from ELF to memory ----------

  /** Byte a of the address space. */
  ghost predicate ByteIs(mem: Memory, a: nat, v: Byte, writable: bool) {
    a / 4096 in mem && |mem[a / 4096].bytes| == 4096 && mem[a / 4096].bytes[a % 4096] == v
    && mem[a / 4096].writable == writable
  }

  /** A segment in memory: the given bytes, then zeros to the end of its last page; writable when the segment is. */
  ghost predicate Holds(mem: Memory, bytes: Bytes, p: Phdr) {
    forall k: nat :: k < PageUp(p.memsz) ==> ByteLoaded(mem, bytes, p, k)
  }

  ghost predicate ByteLoaded(mem: Memory, bytes: Bytes, p: Phdr, k: nat) {
    ByteIs(mem, p.vaddr + k, if k < |bytes| then bytes[k] else 0, p.flags / 2 % 2 == 1)
  }

  /** The segment as the file has it. */
  ghost predicate InMemory(mem: Memory, elf: Bytes, p: Phdr) {
    p.offset + p.filesz <= |elf| && Holds(mem, elf[p.offset..p.offset + p.filesz], p)
  }

  lemma SegmentLoaded(mem: Memory, elf: Bytes, beyond: nat -> Byte, out: Bytes, segs: seq<Phdr>, i: nat)
    requires i < |segs| && SegLoads(segs[i]) && Emitted(out, elf, beyond, segs, i)
             && FileHolds(out, SectionFor(segs, i))
    requires Mapped(mem, Buffer(out, SectionFor(segs, i)), SectionFor(segs, i), PageCount(SectionFor(segs, i)))
    ensures Holds(mem, Payload(elf, beyond, segs[i]), segs[i])
  {
    hide FromLE, NameBytes, Cursor, Writable, Executable, KxeFlags, Mapped, Fetch;
    var p, s := segs[i], SectionFor(segs, i);
    FlagsMean(p.flags);
    var b := Buffer(out, s);
    forall k: nat | k < PageUp(p.memsz) ensures ByteLoaded(mem, Payload(elf, beyond, p), p, k) {
      MappedByte(mem, b, s, k);
      if k < p.filesz { assert out[s.fileOffset..s.fileOffset + p.filesz][k] == Payload(elf, beyond, p)[k]; }
    }
  }

  lemma MappedByte(mem: Memory, b: Bytes, s: Section, k: nat)
    requires Mapped(mem, b, s, PageCount(s)) && |b| == PageUp(s.vsize) && k < |b| && s.vaddr % 4096 == 0
    ensures ByteIs(mem, s.vaddr + k, b[k], Writable(s.flags))
  {
    var i := k / 4096;
    assert i < PageCount(s) && (s.vaddr + k) / 4096 == FirstPage(s) + i && (s.vaddr + k) % 4096 == k - i * 4096;
    assert PageHolds(mem, b, s, i) && b[i * 4096..i * 4096 + 4096][k - i * 4096] == b[k];
  }

  lemma LoadableSections(segs: seq<Phdr>, entry: nat, out: Bytes)
    requires Loadable(segs, entry) && |out| == Cursor(segs, |segs|)
    ensures SectionsApart(Sections(segs))
    ensures forall i :: 0 <= i < |segs| ==> FileHolds(out, Sections(segs)[i])
  {
    hide FromLE, NameBytes, Cursor, KxeFlags;
    var secs := Sections(segs);
    forall i, j, p: nat | 0 <= i < |secs| && 0 <= j < |secs| && i != j && InSection(secs[i], p)
      ensures !InSection(secs[j], p) {
      assert SegLoads(segs[i]) && SegLoads(segs[j]);
      if j < i { assert SegsApart(segs[i], segs[j]); } else { assert SegsApart(segs[j], segs[i]); }
      NoSharedPage(segs[i], segs[j], secs[i], secs[j], p);
    }
    forall i | 0 <= i < |segs| ensures FileHolds(out, secs[i]) { HeldInFile(segs, i, out); }
  }

  lemma HeldInFile(segs: seq<Phdr>, i: nat, out: Bytes)
    requires i < |segs| && SegLoads(segs[i]) && |out| == Cursor(segs, |segs|)
    ensures FileHolds(out, SectionFor(segs, i))
  {
    hide FromLE, NameBytes, Cursor, KxeFlags;
    CursorNext(segs, i);
    CursorMono(segs, i + 1, |segs|);
  }

  lemma NoSharedPage(p: Phdr, q: Phdr, s: Section, t: Section, x: nat)
    requires SegLoads(p) && SegLoads(q) && (SegsApart(p, q) || SegsApart(q, p))
    requires s.vaddr == p.vaddr && s.vsize == p.memsz && t.vaddr == q.vaddr && t.vsize == q.memsz && InSection(s, x)
    ensures !InSection(t, x)
  {
  }

  /** elf2kxe followed by kxe_load. It loads exactly when the converter takes it, its segments are loadable and it ends
      below the stack. Then the memory is the ELF image, exactly when no segment's end wraps. */
  method ElfToMemory(elf: Bytes, beyond: nat -> Byte, phs: seq<Phdr>, entry: nat, crc: Bytes -> Word)
    returns (ok: bool, mem: Memory, rip: nat)
    requires |elf| < WORD && entry < WORD && forall i :: 0 <= i < |phs| ==> Wide(phs[i])
    ensures ok <==> Planned(Kept(phs), |elf|) && Loadable(Kept(phs), entry) && Highest(Kept(phs)) <= STACK_BASE
    ensures ok ==> rip == entry && forall i :: 0 <= i < |Kept(phs)| ==>
            Holds(mem, Payload(elf, beyond, Kept(phs)[i]), Kept(phs)[i])
    ensures ok ==> ((forall i :: 0 <= i < |Kept(phs)| ==> InMemory(mem, elf, Kept(phs)[i]))
                    <==> forall i :: 0 <= i < |Kept(phs)| ==> !Wraps(Kept(phs)[i]))
    ensures ok ==> forall p: nat :: p in mem <==>
            exists i :: 0 <= i < |Kept(phs)| && InSection(SectionFor(Kept(phs), i), p)
  {
    hide Planned, Loadable, Packable, Kept, Cursor, Highest, Lowest, HeaderPage, Accepts, Holds, InMemory, Emitted,
         SectionsApart, InSection, Mapped, Buffer, FileHolds, Sealed, SegLoads, Payload, SectionFor, TheHeader,
         IsPlanOf;
    mem, rip := map[], 0;
    var out;
    ghost var segs := Kept(phs);
    KeptWide(phs);
    KeptNonempty(phs);
    LoadableIsShort(segs, entry, |elf|);
    ghost var head, plan;
    ok, out, head, plan := Convert(elf, beyond, phs, entry, crc);
    if !ok {
      return;
    }
    var h, secs;
    ok, h, secs := KxeValidate(out[..4096], |out|, crc);
    if ok { AcceptedIsShort(segs, head, plan, |out|, crc); }
    if Cursor(segs, |segs|) < WORD {
      AcceptedIff(segs, entry, crc, |elf|);
      PageReadsBack(head, plan, crc);
      SealedIs(segs, entry, crc);
    }
    if !ok {
      return;
    }
    if h.imageMax > STACK_BASE {
      return false, map[], 0;
    }
    LoadableSections(segs, entry, out);
    mem := LoadSections(out, secs);
    rip := h.entry;
    forall i | 0 <= i < |segs| ensures Holds(mem, Payload(elf, beyond, segs[i]), segs[i]) {
      LoadsAt(segs, entry, i);
      SegmentLoaded(mem, elf, beyond, out, segs, i);
    }
    InMemoryIff(mem, elf, beyond, segs);
  }

  lemma LoadableIsShort(segs: seq<Phdr>, entry: nat, elfLen: nat)
    ensures Planned(segs, elfLen) && Loadable(segs, entry) ==> Cursor(segs, |segs|) < WORD
  {
    hide Cursor;
    if Planned(segs, elfLen) && Loadable(segs, entry) { ShortLayout(segs); }
  }

  lemma LoadsAt(segs: seq<Phdr>, entry: nat, i: nat)
    requires Loadable(segs, entry) && i < |segs|
    ensures SegLoads(segs[i])
  {
  }

  lemma {:induction false} InMemoryIff(mem: Memory, elf: Bytes, beyond: nat -> Byte, segs: seq<Phdr>)
    requires |elf| < WORD && Planned(segs, |elf|) && forall i :: 0 <= i < |segs| ==> Wide(segs[i])
    requires forall i :: 0 <= i < |segs| ==> Holds(mem, Payload(elf, beyond, segs[i]), segs[i])
    ensures (forall i :: 0 <= i < |segs| ==> InMemory(mem, elf, segs[i])) <==>
            forall i :: 0 <= i < |segs| ==> !Wraps(segs[i])
  {
    hide Holds, Payload;
    TruncationTest(segs, |elf|);
    if forall i :: 0 <= i < |segs| ==> !Wraps(segs[i]) {
      forall i | 0 <= i < |segs| ensures InMemory(mem, elf, segs[i]) { PayloadInFile(elf, beyond, segs[i]); }
    }
  }

  lemma {:induction false} KeptNonempty(phs: seq<Phdr>)
    ensures forall i :: 0 <= i < |Kept(phs)| ==> Kept(phs)[i].memsz > 0
    decreases |phs|
  {
    if phs != [] { KeptNonempty(phs[..|phs| - 1]); }
  }
}
