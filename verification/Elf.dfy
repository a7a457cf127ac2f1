/** Loading a firmware image from a 32-bit little-endian ELF file. */
module Elf {
  import opened Bytes
  import opened Blocks
  import opened Image

  const HEADER_SIZE: nat := 52
  const PROGRAM_SIZE: nat := 32
  const SECTION_SIZE: nat := 40
  const PT_LOAD: uint32 := 1
  const SHT_NOBITS: uint32 := 8

  /** Magic number, ELFCLASS32, ELFDATA2LSB, EV_CURRENT. */
  const SUPPORTED: seq<byte> := [0x7F, 0x45, 0x4C, 0x46, 1, 1, 1]

  datatype Header = Header(ident: seq<byte>, version: uint32, phoff: uint32, shoff: uint32, ehsize: uint16,
                           phentsize: uint16, phnum: uint16, shentsize: uint16, shnum: uint16, shstrndx: uint16)

  datatype ProgramHeader = ProgramHeader(type_: uint32, off: uint32, paddr: uint32, filesz: uint32, memsz: uint32)

  datatype SectionHeader = SectionHeader(type_: uint32, off: uint32, size: uint32)

  datatype Outcome = Loaded | ReadError | Invalid

  function Word(s: seq<byte>, at: nat): uint32
    requires at + 4 <= |s|
  {
    FromLe32(s[at..at + 4])
  }

  function Half(s: seq<byte>, at: nat): uint16
    requires at + 2 <= |s|
  {
    FromLe16(s[at..at + 2])
  }

  function DecodeHeader(s: seq<byte>): Header
    requires |s| == HEADER_SIZE
  {
    Header(s[..16], Word(s, 20), Word(s, 28), Word(s, 32),
           Half(s, 40), Half(s, 42), Half(s, 44), Half(s, 46), Half(s, 48), Half(s, 50))
  }

  function DecodeProgram(s: seq<byte>): ProgramHeader
    requires |s| == PROGRAM_SIZE
  {
    ProgramHeader(Word(s, 0), Word(s, 4), Word(s, 12), Word(s, 16), Word(s, 20))
  }

  function DecodeSection(s: seq<byte>): SectionHeader
    requires |s| == SECTION_SIZE
  {
    SectionHeader(Word(s, 4), Word(s, 16), Word(s, 20))
  }

  /** The layout of Elf32_Phdr: type, offset, virtual and physical address, sizes in the file
      and in memory, flags, alignment. */
  function ProgramBytes(p: ProgramHeader, vaddr: uint32, flags: uint32, align: uint32): (s: seq<byte>)
    ensures |s| == PROGRAM_SIZE
  {
    Le32(p.type_) + Le32(p.off) + Le32(vaddr) + Le32(p.paddr) + Le32(p.filesz) + Le32(p.memsz) + Le32(flags) + Le32(align)
  }

  /** The layout of Elf32_Shdr: name, type, flags, address, offset, size and four more words. */
  function SectionBytes(h: SectionHeader, name: uint32, flags: uint32, vaddr: uint32, rest: seq<byte>): (s: seq<byte>)
    requires |rest| == 16
    ensures |s| == SECTION_SIZE
  {
    Le32(name) + Le32(h.type_) + Le32(flags) + Le32(vaddr) + Le32(h.off) + Le32(h.size) + rest
  }

  /** The layout of Elf32_Ehdr. */
  function HeaderBytes(h: Header, type_: uint16, machine: uint16, entry: uint32, flags: uint32): (s: seq<byte>)
    requires |h.ident| == 16
    ensures |s| == HEADER_SIZE
  {
    h.ident + Le16(type_) + Le16(machine) + Le32(h.version) + Le32(entry) + Le32(h.phoff) + Le32(h.shoff) + Le32(flags)
    + Le16(h.ehsize) + Le16(h.phentsize) + Le16(h.phnum) + Le16(h.shentsize) + Le16(h.shnum) + Le16(h.shstrndx)
  }

  lemma ProgramRoundTrip(p: ProgramHeader, vaddr: uint32, flags: uint32, align: uint32)
    ensures DecodeProgram(ProgramBytes(p, vaddr, flags, align)) == p
  {
    var s := ProgramBytes(p, vaddr, flags, align);
    assert s[0..4] == Le32(p.type_) && s[4..8] == Le32(p.off) && s[12..16] == Le32(p.paddr);
    assert s[16..20] == Le32(p.filesz) && s[20..24] == Le32(p.memsz);
    LittleEndianRoundTrip(p.type_, 0);
    LittleEndianRoundTrip(p.off, 0);
    LittleEndianRoundTrip(p.paddr, 0);
    LittleEndianRoundTrip(p.filesz, 0);
    LittleEndianRoundTrip(p.memsz, 0);
  }

  lemma SectionRoundTrip(h: SectionHeader, name: uint32, flags: uint32, vaddr: uint32, rest: seq<byte>)
    requires |rest| == 16
    ensures DecodeSection(SectionBytes(h, name, flags, vaddr, rest)) == h
  {
    var s := SectionBytes(h, name, flags, vaddr, rest);
    assert s[4..8] == Le32(h.type_) && s[16..20] == Le32(h.off) && s[20..24] == Le32(h.size);
    LittleEndianRoundTrip(h.type_, 0);
    LittleEndianRoundTrip(h.off, 0);
    LittleEndianRoundTrip(h.size, 0);
  }

  lemma HeaderFileRoundTrip(h: Header, type_: uint16, machine: uint16, entry: uint32, flags: uint32)
    requires |h.ident| == 16
    ensures DecodeHeader(HeaderBytes(h, type_, machine, entry, flags)) == h
  {
    var s := HeaderBytes(h, type_, machine, entry, flags);
    HeaderWords(h, type_, machine, entry, flags);
    HeaderHalves(h, type_, machine, entry, flags);
    hide HeaderBytes, FromLe32, FromLe16, Le32, Le16;
    LittleEndianRoundTrip(h.version, h.ehsize);
    LittleEndianRoundTrip(h.phoff, h.phentsize);
    LittleEndianRoundTrip(h.shoff, h.phnum);
    LittleEndianRoundTrip(0, h.shentsize);
    LittleEndianRoundTrip(0, h.shnum);
    LittleEndianRoundTrip(0, h.shstrndx);
  }

  lemma HeaderWords(h: Header, type_: uint16, machine: uint16, entry: uint32, flags: uint32)
    requires |h.ident| == 16
    ensures var s := HeaderBytes(h, type_, machine, entry, flags);
            s[..16] == h.ident && s[20..24] == Le32(h.version) && s[28..32] == Le32(h.phoff) && s[32..36] == Le32(h.shoff)
  {
    hide Le32, Le16;
    var start := h.ident + Le16(type_) + Le16(machine);
    var rest := Le32(flags) + Le16(h.ehsize) + Le16(h.phentsize) + Le16(h.phnum)
                + Le16(h.shentsize) + Le16(h.shnum) + Le16(h.shstrndx);
    var s := HeaderBytes(h, type_, machine, entry, flags);
    assert s == start + Le32(h.version) + Le32(entry) + Le32(h.phoff) + Le32(h.shoff) + rest;
  }

  lemma HeaderHalves(h: Header, type_: uint16, machine: uint16, entry: uint32, flags: uint32)
    requires |h.ident| == 16
    ensures var s := HeaderBytes(h, type_, machine, entry, flags);
            && s[40..42] == Le16(h.ehsize) && s[42..44] == Le16(h.phentsize) && s[44..46] == Le16(h.phnum)
            && s[46..48] == Le16(h.shentsize) && s[48..50] == Le16(h.shnum) && s[50..52] == Le16(h.shstrndx)
  {
    hide Le32, Le16;
    var front := h.ident + Le16(type_) + Le16(machine) + Le32(h.version) + Le32(entry)
                 + Le32(h.phoff) + Le32(h.shoff) + Le32(flags);
    var s := HeaderBytes(h, type_, machine, entry, flags);
    assert |front| == 40;
    assert s == front + Le16(h.ehsize) + Le16(h.phentsize) + Le16(h.phnum)
                + Le16(h.shentsize) + Le16(h.shnum) + Le16(h.shstrndx);
  }

  // ---------------------------------------------------------------- what is accepted

  /** The file's header passes every test; offsets and table sizes are those of the file. */
  predicate HeaderAccepted(file: seq<byte>) {
    && |file| >= HEADER_SIZE
    && var h := DecodeHeader(file[..HEADER_SIZE]);
       && SUPPORTED <= h.ident && h.version == 1 && h.ehsize >= HEADER_SIZE
       && h.phoff < |file| && h.phentsize >= PROGRAM_SIZE && h.phoff + h.phnum * PROGRAM_SIZE <= |file|
       && h.shoff < |file| && h.shentsize >= SECTION_SIZE && h.shoff + h.shnum * SECTION_SIZE <= |file|
       && h.shstrndx < h.shnum
  }

  /** Where entry `i` of a table starts: tables are strided by the entry size the file gives. */
  function EntryAt(offset: nat, stride: nat, i: nat): nat {
    offset + i * stride
  }

  /** The range test of the program table, in 32-bit arithmetic and only for a non-zero offset. */
  predicate ProgramAccepted(p: ProgramHeader, size: nat) {
    p.filesz <= p.memsz && (p.off != 0 ==> (p.off + p.filesz) % TWO_32 <= size)
  }

  predicate SectionAccepted(s: SectionHeader, size: nat) {
    s.type_ != SHT_NOBITS ==> (s.off + s.size) % TWO_32 <= size
  }

  /** Whether `n` bytes can be read at `pos`: a read of nothing always succeeds. */
  predicate CanRead(file: seq<byte>, pos: nat, n: nat) {
    n == 0 || pos + n <= |file|
  }

  predicate ProgramEntryOk(file: seq<byte>, h: Header, i: nat) {
    var at := EntryAt(h.phoff, h.phentsize, i);
    at + PROGRAM_SIZE <= |file| && ProgramAccepted(DecodeProgram(file[at..at + PROGRAM_SIZE]), |file|)
  }

  predicate SectionEntryOk(file: seq<byte>, h: Header, i: nat) {
    var at := EntryAt(h.shoff, h.shentsize, i);
    at + SECTION_SIZE <= |file| && SectionAccepted(DecodeSection(file[at..at + SECTION_SIZE]), |file|)
  }

  /** `p` is decoded from the bytes of entry `i`, which lie inside the file. */
  predicate ProgramEntryIs(file: seq<byte>, h: Header, i: nat, p: ProgramHeader) {
    var at := EntryAt(h.phoff, h.phentsize, i);
    at + PROGRAM_SIZE <= |file| && p == DecodeProgram(file[at..at + PROGRAM_SIZE])
  }

  predicate SectionEntryIs(file: seq<byte>, h: Header, i: nat, s: SectionHeader) {
    var at := EntryAt(h.shoff, h.shentsize, i);
    at + SECTION_SIZE <= |file| && s == DecodeSection(file[at..at + SECTION_SIZE])
  }

  lemma NextEntry(offset: nat, stride: nat, i: nat)
    ensures EntryAt(offset, stride, 0) == offset
    ensures EntryAt(offset, stride, i + 1) == EntryAt(offset, stride, i) + stride
  {
  }

  /** The section holding the section names, whose position is computed in 32 bits. */
  predicate StringsOk(file: seq<byte>, h: Header) {
    var at := (h.shoff + h.shstrndx * h.shentsize) % TWO_32;
    && at + SECTION_SIZE <= |file|
    && var s := DecodeSection(file[at..at + SECTION_SIZE]); CanRead(file, s.off, s.size)
  }

  predicate Accepted(file: seq<byte>) {
    && HeaderAccepted(file)
    && var h := DecodeHeader(file[..HEADER_SIZE]);
       && (forall i | 0 <= i < h.shnum :: SectionEntryOk(file, h, i))
       && StringsOk(file, h)
       && (forall i | 0 <= i < h.phnum :: ProgramEntryOk(file, h, i))
  }

  function ProgramAt(file: seq<byte>, h: Header, i: nat): (p: ProgramHeader)
    requires ProgramEntryOk(file, h, i)
    ensures ProgramEntryIs(file, h, i, p) && ProgramAccepted(p, |file|)
  {
    var at := EntryAt(h.phoff, h.phentsize, i);
    DecodeProgram(file[at..at + PROGRAM_SIZE])
  }

  /** The program table of an accepted file. */
  function Programs(file: seq<byte>): (ps: seq<ProgramHeader>)
    requires Accepted(file)
  {
    var h := DecodeHeader(file[..HEADER_SIZE]);
    seq(h.phnum, i requires 0 <= i < h.phnum && ProgramEntryOk(file, h, i) => ProgramAt(file, h, i))
  }

  lemma ProgramsAccepted(file: seq<byte>)
    requires Accepted(file)
    ensures forall i | 0 <= i < |Programs(file)| :: ProgramAccepted(Programs(file)[i], |file|)
  {
    hide DecodeHeader, ProgramAccepted, ProgramEntryOk, ProgramAt, SectionEntryOk, StringsOk, HeaderAccepted;
  }

  /** Entries read one by one make up the table. */
  lemma ProgramsRead(file: seq<byte>, ps: seq<ProgramHeader>)
    requires Accepted(file)
    requires var h := DecodeHeader(file[..HEADER_SIZE]);
             |ps| == h.phnum && forall i | 0 <= i < h.phnum :: ProgramEntryIs(file, h, i, ps[i])
    ensures ps == Programs(file)
  {
    var h := DecodeHeader(file[..HEADER_SIZE]);
    forall i | 0 <= i < |ps| ensures ps[i] == Programs(file)[i] {
      assert ProgramEntryIs(file, h, i, ps[i]);
    }
  }

  // ---------------------------------------------------------------- files laid out by the encoders

  /** Entry `i` of the program table has these fields. */
  ghost predicate ProgramLies(file: seq<byte>, h: Header, i: nat, p: ProgramHeader) {
    var at := h.phoff + i * h.phentsize;
    && 0 <= at && at + 32 <= |file|
    && exists vaddr, flags, align: uint32 :: file[at..at + 32] == ProgramBytes(p, vaddr, flags, align)
  }

  ghost predicate SectionLies(file: seq<byte>, h: Header, i: nat, s: SectionHeader) {
    var at := h.shoff + i * h.shentsize;
    && 0 <= at && at + 40 <= |file|
    && exists name, flags, vaddr: uint32, rest: seq<byte> | |rest| == 16 ::
         file[at..at + 40] == SectionBytes(s, name, flags, vaddr, rest)
  }

  ghost predicate HeaderLies(file: seq<byte>, h: Header) {
    && |h.ident| == 16 && 52 <= |file| < 0x1_0000_0000
    && exists type_, machine: uint16, entry, flags: uint32 :: file[..52] == HeaderBytes(h, type_, machine, entry, flags)
  }

  /** The file starts with the header, and the headers of its tables lie where that says. */
  ghost predicate LaidOut(file: seq<byte>, h: Header, ps: seq<ProgramHeader>, ss: seq<SectionHeader>) {
    && HeaderLies(file, h)
    && |ps| == h.phnum && (forall i | 0 <= i < |ps| :: ProgramLies(file, h, i, ps[i]))
    && |ss| == h.shnum && (forall i | 0 <= i < |ss| :: SectionLies(file, h, i, ss[i]))
  }

  lemma ProgramLiesOk(file: seq<byte>, h: Header, i: nat, p: ProgramHeader)
    requires ProgramLies(file, h, i, p)
    ensures ProgramEntryIs(file, h, i, p)
    ensures ProgramEntryOk(file, h, i) <==>
              p.filesz <= p.memsz && (p.off == 0 || (p.off + p.filesz) % 0x1_0000_0000 <= |file|)
  {
    hide DecodeProgram, ProgramBytes;
    var at := h.phoff + i * h.phentsize;
    var vaddr, flags, align: uint32 :| file[at..at + 32] == ProgramBytes(p, vaddr, flags, align);
    ProgramRoundTrip(p, vaddr, flags, align);
    assert EntryAt(h.phoff, h.phentsize, i) == at;
    hide EntryAt;
  }

  lemma SectionLiesOk(file: seq<byte>, h: Header, i: nat, s: SectionHeader)
    requires SectionLies(file, h, i, s)
    ensures SectionEntryIs(file, h, i, s)
    ensures SectionEntryOk(file, h, i) <==> s.type_ == 8 || (s.off + s.size) % 0x1_0000_0000 <= |file|
    ensures i == h.shstrndx && |file| < 0x1_0000_0000 ==> (StringsOk(file, h) <==> s.size == 0 || s.off + s.size <= |file|)
  {
    hide DecodeSection, SectionBytes;
    var at := h.shoff + i * h.shentsize;
    var name, flags, vaddr: uint32, rest: seq<byte> :|
      |rest| == 16 && file[at..at + 40] == SectionBytes(s, name, flags, vaddr, rest);
    SectionRoundTrip(s, name, flags, vaddr, rest);
    assert EntryAt(h.shoff, h.shentsize, i) == at;
    hide EntryAt;
    if |file| < 0x1_0000_0000 {
      assert at % TWO_32 == at;
    }
  }

  /** A file with these headers is accepted exactly when its tables lie inside it, every segment
      has at least its file bytes in memory, and what the 32-bit range tests see of segments,
      sections and the section of names lies inside the file; its program table is then read. */
  lemma LaidOutExactly(file: seq<byte>, h: Header, ps: seq<ProgramHeader>, ss: seq<SectionHeader>)
    requires LaidOut(file, h, ps, ss)
    ensures Accepted(file) <==>
              && h.ident[..7] == [0x7F, 0x45, 0x4C, 0x46, 1, 1, 1] && h.version == 1 && h.ehsize >= 52
              && h.phoff < |file| && h.phentsize >= 32 && h.phoff + h.phnum * 32 <= |file|
              && h.shoff < |file| && h.shentsize >= 40 && h.shoff + h.shnum * 40 <= |file|
              && (forall i | 0 <= i < |ps| ::
                    ps[i].filesz <= ps[i].memsz
                    && (ps[i].off == 0 || (ps[i].off + ps[i].filesz) % 0x1_0000_0000 <= |file|))
              && (forall i | 0 <= i < |ss| :: ss[i].type_ == 8 || (ss[i].off + ss[i].size) % 0x1_0000_0000 <= |file|)
              && h.shstrndx < |ss|
              && (ss[h.shstrndx].size == 0 || ss[h.shstrndx].off + ss[h.shstrndx].size <= |file|)
    ensures Accepted(file) ==> Programs(file) == ps
  {
    HeaderRead(file, h);
    hide HeaderBytes, DecodeHeader, ProgramEntryOk, SectionEntryOk, ProgramEntryIs, SectionEntryIs, StringsOk;
    hide ProgramLies, SectionLies, Programs;
    forall i | 0 <= i < |ps|
      ensures ProgramEntryIs(file, h, i, ps[i])
      ensures ProgramEntryOk(file, h, i) <==>
                ps[i].filesz <= ps[i].memsz && (ps[i].off == 0 || (ps[i].off + ps[i].filesz) % 0x1_0000_0000 <= |file|)
    {
      ProgramLiesOk(file, h, i, ps[i]);
    }
    forall i | 0 <= i < |ss|
      ensures SectionEntryOk(file, h, i) <==> ss[i].type_ == 8 || (ss[i].off + ss[i].size) % 0x1_0000_0000 <= |file|
      ensures i == h.shstrndx ==> (StringsOk(file, h) <==> ss[i].size == 0 || ss[i].off + ss[i].size <= |file|)
    {
      SectionLiesOk(file, h, i, ss[i]);
    }
    Magic(h.ident);
    if Accepted(file) {
      ProgramsRead(file, ps);
    }
  }

  lemma HeaderRead(file: seq<byte>, h: Header)
    requires HeaderLies(file, h)
    ensures DecodeHeader(file[..HEADER_SIZE]) == h
  {
    hide HeaderBytes, DecodeHeader;
    var type_, machine: uint16, entry, flags: uint32 :| file[..52] == HeaderBytes(h, type_, machine, entry, flags);
    HeaderFileRoundTrip(h, type_, machine, entry, flags);
  }

  lemma Magic(ident: seq<byte>)
    requires |ident| == 16
    ensures SUPPORTED <= ident <==> ident[..7] == [0x7F, 0x45, 0x4C, 0x46, 1, 1, 1]
  {
  }

  // ---------------------------------------------------------------- segments

  predicate IsLoaded(p: ProgramHeader) {
    p.type_ == PT_LOAD && p.filesz != 0
  }

  predicate InFile(file: seq<byte>, p: ProgramHeader) {
    p.off + p.filesz <= |file| && p.filesz <= p.memsz
  }

  /** The segment's bytes from the file, then zeros up to its size in memory. */
  function Segment(file: seq<byte>, p: ProgramHeader): Block
    requires InFile(file, p)
  {
    Block(p.paddr, file[p.off..p.off + p.filesz] + seq(p.memsz - p.filesz, _ => 0))
  }

  predicate Readable(file: seq<byte>, programs: seq<ProgramHeader>) {
    forall i | 0 <= i < |programs| && IsLoaded(programs[i]) :: InFile(file, programs[i])
  }

  function Segments(file: seq<byte>, programs: seq<ProgramHeader>): seq<Block>
    requires Readable(file, programs)
  {
    if programs == [] then []
    else
      var n := |programs| - 1;
      Segments(file, programs[..n]) + (if IsLoaded(programs[n]) then [Segment(file, programs[n])] else [])
  }

  /** A segment that passed the header test can still lie outside the file, but only when the
      test was skipped for offset 0 or its 32-bit sum wrapped. */
  lemma OutsideExactly(file: seq<byte>, p: ProgramHeader)
    requires ProgramAccepted(p, |file|)
    ensures !InFile(file, p) <==>
              p.off + p.filesz > |file| && (p.off == 0 || TWO_32 <= p.off + p.filesz)
  {
  }

  /** A segment at offset 0, longer than the file, passes the header test. */
  lemma OutsideAccepted(file: seq<byte>)
    requires |file| + 1 < TWO_32
    ensures var p := ProgramHeader(PT_LOAD, 0, 0, |file| + 1, |file| + 1);
            IsLoaded(p) && ProgramAccepted(p, |file|) && !InFile(file, p)
  {
  }

  lemma {:induction false} SegmentListed(file: seq<byte>, programs: seq<ProgramHeader>, i: nat) returns (k: nat)
    requires Readable(file, programs) && i < |programs| && programs[i].type_ == 1 && programs[i].filesz > 0
    ensures InFile(file, programs[i])
    ensures k < |Segments(file, programs)| && Segments(file, programs)[k] == Segment(file, programs[i])
  {
    var n := |programs| - 1;
    if i < n {
      k := SegmentListed(file, programs[..n], i);
    } else {
      k := |Segments(file, programs[..n])|;
    }
  }

  /** The section is the entry's: its file bytes, then zeros, at its physical address. */
  predicate Holds(file: seq<byte>, p: ProgramHeader, b: Block) {
    && p.off + p.filesz <= |file| && p.filesz <= p.memsz
    && b.address == p.paddr && |b.data| == p.memsz && b.data[..p.filesz] == file[p.off..p.off + p.filesz]
    && forall k | p.filesz <= k < p.memsz :: b.data[k] == 0
  }

  /** The blocks correspond one for one, in table order, to the entries of type 1 that have bytes
      in the file; `at` are their positions in the table. */
  predicate InTableOrder(file: seq<byte>, programs: seq<ProgramHeader>, blocks: seq<Block>, at: seq<nat>) {
    && |at| == |blocks|
    && (forall j, k | 0 <= j < k < |at| :: at[j] < at[k])
    && (forall i: nat | i < |programs| :: i in at <==> programs[i].type_ == 1 && programs[i].filesz > 0)
    && (forall j | 0 <= j < |at| :: at[j] < |programs| && Holds(file, programs[at[j]], blocks[j]))
  }

  lemma {:induction false} SegmentsInOrder(file: seq<byte>, programs: seq<ProgramHeader>) returns (at: seq<nat>)
    requires Readable(file, programs)
    ensures InTableOrder(file, programs, Segments(file, programs), at)
  {
    at := [];
    if programs != [] {
      var n := |programs| - 1;
      var before := SegmentsInOrder(file, programs[..n]);
      hide InTableOrder;
      if programs[n].type_ == 1 && programs[n].filesz > 0 {
        at := before + [n];
        NextLoaded(file, programs, Segments(file, programs[..n]), before);
      } else {
        at := before;
        NextSkipped(file, programs, Segments(file, programs[..n]), before);
        assert Segments(file, programs) == Segments(file, programs[..n]) + [];
      }
    }
  }

  lemma NextLoaded(file: seq<byte>, programs: seq<ProgramHeader>, blocks: seq<Block>, at: seq<nat>)
    requires programs != [] && InTableOrder(file, programs[..|programs| - 1], blocks, at)
    requires var p := programs[|programs| - 1]; p.type_ == 1 && p.filesz > 0 && InFile(file, p)
    ensures InTableOrder(file, programs, blocks + [Segment(file, programs[|programs| - 1])], at + [|programs| - 1])
  {
    var n := |programs| - 1;
    SegmentHolds(file, programs[n]);
    hide Holds, Segment, InFile;
    forall i: nat | i < |programs| ensures i in at + [n] <==> programs[i].type_ == 1 && programs[i].filesz > 0 {
      if i < n { assert programs[..n][i] == programs[i]; }
    }
    forall j | 0 <= j < |at| ensures at[j] < n && programs[..n][at[j]] == programs[at[j]] {
    }
  }

  lemma NextSkipped(file: seq<byte>, programs: seq<ProgramHeader>, blocks: seq<Block>, at: seq<nat>)
    requires programs != [] && InTableOrder(file, programs[..|programs| - 1], blocks, at)
    requires var p := programs[|programs| - 1]; !(p.type_ == 1 && p.filesz > 0)
    ensures InTableOrder(file, programs, blocks, at)
  {
    hide Holds;
    var n := |programs| - 1;
    forall i: nat | i < |programs| ensures i in at <==> programs[i].type_ == 1 && programs[i].filesz > 0 {
      if i < n { assert programs[..n][i] == programs[i]; }
    }
    forall j | 0 <= j < |at| ensures at[j] < n && programs[..n][at[j]] == programs[at[j]] {
    }
  }

  lemma SegmentHolds(file: seq<byte>, p: ProgramHeader)
    requires InFile(file, p)
    ensures Holds(file, p, Segment(file, p))
  {
  }

  /** Loading fails exactly when an entry of type 1 with bytes in the file reaches beyond it. */
  lemma ReadableExactly(file: seq<byte>, programs: seq<ProgramHeader>)
    requires forall i | 0 <= i < |programs| :: programs[i].filesz <= programs[i].memsz
    ensures Readable(file, programs) <==>
              forall i | 0 <= i < |programs| && programs[i].type_ == 1 && programs[i].filesz > 0 ::
                programs[i].off + programs[i].filesz <= |file|
  {
  }

  lemma FilledIsSegment(file: seq<byte>, p: ProgramHeader)
    requires InFile(file, p)
    ensures Segment(file, p) ==
            Block(p.paddr, file[p.off..p.off + p.filesz] + seq(p.memsz, _ => 0)[p.filesz..])
  {
  }

  // ---------------------------------------------------------------- the loader

  class ElfFile {
    const file: seq<byte>
    var pos: nat
    var header: Header
    var sections: seq<SectionHeader>
    var programs: seq<ProgramHeader>

    constructor (file: seq<byte>)
      ensures this.file == file && pos == 0 && sections == [] && programs == []
    {
      this.file := file;
      pos, sections, programs := 0, [], [];
      header := Header([], 0, 0, 0, 0, 0, 0, 0, 0, 0);
    }

    method Seek(p: nat)
      modifies this`pos
      ensures pos == p
    {
      pos := p;
    }

    /** Reads `n` bytes at the file position; a short read is an error. */
    method Read(n: nat) returns (ok: bool, bytes: seq<byte>)
      modifies this`pos
      ensures ok == CanRead(file, old(pos), n)
      ensures ok ==> |bytes| == n && (n > 0 ==> bytes == file[old(pos)..old(pos) + n])
    {
      if n == 0 { return true, []; }
      if pos + n > |file| { return false, []; }
      bytes := file[pos..pos + n];
      pos := pos + n;
      ok := true;
    }

    method ReadHeader() returns (r: Outcome)
      modifies this`pos, this`header
      ensures r == Loaded <==> HeaderAccepted(file)
      ensures r == Loaded ==> header == DecodeHeader(file[..HEADER_SIZE])
      ensures r == ReadError <==> |file| < HEADER_SIZE
    {
      Seek(0);
      var ok, bytes := Read(HEADER_SIZE);
      if !ok { return ReadError; }
      header := DecodeHeader(bytes);
      if !(SUPPORTED <= header.ident) { return Invalid; }
      if header.version != 1 { return Invalid; }
      if header.ehsize < HEADER_SIZE { return Invalid; }
      if header.phoff >= |file| { return Invalid; }
      if header.phentsize < PROGRAM_SIZE { return Invalid; }
      if header.phoff + header.phnum * PROGRAM_SIZE > |file| { return Invalid; }
      if header.shoff >= |file| { return Invalid; }
      if header.shentsize < SECTION_SIZE { return Invalid; }
      if header.shoff + header.shnum * SECTION_SIZE > |file| { return Invalid; }
      if header.shstrndx >= header.shnum { return Invalid; }
      r := Loaded;
    }

    method ReadSections() returns (r: Outcome)
      modifies this`pos, this`sections
      ensures r == Loaded <==> forall i | 0 <= i < header.shnum :: SectionEntryOk(file, header, i)
      ensures r == Loaded ==>
                |sections| == header.shnum && forall i | 0 <= i < header.shnum :: SectionEntryIs(file, header, i, sections[i])
    {
      NextEntry(header.shoff, header.shentsize, 0);
      hide EntryAt, DecodeSection;
      sections := [];
      var at, idx := header.shoff, 0;
      while idx < header.shnum
        invariant idx <= header.shnum && |sections| == idx && at == EntryAt(header.shoff, header.shentsize, idx)
        invariant forall i | 0 <= i < idx :: SectionEntryOk(file, header, i) && SectionEntryIs(file, header, i, sections[i])
      {
        Seek(at);
        var ok, bytes := Read(SECTION_SIZE);
        assert SectionEntryOk(file, header, idx) ==> ok;
        if !ok { return ReadError; }
        var s := DecodeSection(bytes);
        sections := sections + [s];
        NextEntry(header.shoff, header.shentsize, idx);
        if s.type_ != SHT_NOBITS && (s.off + s.size) % TWO_32 > |file| {
          assert !SectionEntryOk(file, header, idx);
          return Invalid;
        }
        at := at + header.shentsize;
        idx := idx + 1;
      }
      r := Loaded;
    }

    /** Entry `i` of the program table is what lies `i` strides after its start. */
    method ReadPrograms() returns (r: Outcome)
      modifies this`pos, this`programs
      ensures r == Loaded <==> forall i | 0 <= i < header.phnum :: ProgramEntryOk(file, header, i)
      ensures r == Loaded ==>
                |programs| == header.phnum && forall i | 0 <= i < header.phnum :: ProgramEntryIs(file, header, i, programs[i])
    {
      NextEntry(header.phoff, header.phentsize, 0);
      hide EntryAt, DecodeProgram;
      programs := [];
      var at, idx := header.phoff, 0;
      while idx < header.phnum
        invariant idx <= header.phnum && |programs| == idx && at == EntryAt(header.phoff, header.phentsize, idx)
        invariant forall i | 0 <= i < idx :: ProgramEntryOk(file, header, i) && ProgramEntryIs(file, header, i, programs[i])
      {
        Seek(at);
        var ok, bytes := Read(PROGRAM_SIZE);
        assert ProgramEntryOk(file, header, idx) ==> ok;
        if !ok { return ReadError; }
        var p := DecodeProgram(bytes);
        programs := programs + [p];
        NextEntry(header.phoff, header.phentsize, idx);
        if p.filesz > p.memsz || (p.off != 0 && (p.off + p.filesz) % TWO_32 > |file|) {
          assert !ProgramEntryOk(file, header, idx);
          return Invalid;
        }
        at := at + header.phentsize;
        idx := idx + 1;
      }
      r := Loaded;
    }

    /** Reads the section of section names; only its presence matters here. */
    method ReadStrings() returns (r: Outcome)
      modifies this`pos
      ensures r == Loaded <==> StringsOk(file, header)
      ensures r != Invalid
    {
      Seek((header.shoff + header.shstrndx * header.shentsize) % TWO_32);
      var ok, bytes := Read(SECTION_SIZE);
      if !ok { return ReadError; }
      var s := DecodeSection(bytes);
      Seek(s.off);
      ok, bytes := Read(s.size);
      r := if ok then Loaded else ReadError;
    }

    /** The work of the constructor: what is loaded is what the accepted file says. */
    method Open() returns (r: Outcome)
      modifies this
      ensures r == Loaded <==> Accepted(file)
      ensures r == Loaded ==> header == DecodeHeader(file[..HEADER_SIZE]) && programs == Programs(file)
    {
      hide HeaderAccepted, DecodeHeader, SectionEntryOk, SectionEntryIs, StringsOk;
      hide ProgramEntryOk, ProgramEntryIs, ProgramAccepted;
      r := ReadHeader();
      if r != Loaded { return; }
      r := ReadSections();
      if r != Loaded { return; }
      r := ReadStrings();
      if r != Loaded { return; }
      r := ReadPrograms();
      if r == Loaded {
        ProgramsRead(file, programs);
      }
    }

    /** Adds a section of the segment's size in memory and reads the file's bytes into it. */
    method LoadSegment(image: ImageProgrammer, p: ProgramHeader) returns (ok: bool)
      requires image.Valid() && 0 < p.filesz <= p.memsz
      modifies this`pos, image`sections
      ensures image.Valid() && image.log == old(image.log) && (ok <==> InFile(file, p))
      ensures ok ==> image.Contents() == old(image.Contents()) + [Segment(file, p)]
    {
      ghost var sections := image.sections;
      var section := image.Allocate(p.paddr, p.memsz);
      Seek(p.off);
      var bytes;
      ok, bytes := Read(p.filesz);
      if ok {
        section.Fill(bytes);
        ImageProgrammer.BlocksAppend(sections, section);
        assert ImageProgrammer.BlocksOf(sections) == old(image.Contents());
        FilledIsSegment(file, p);
      }
    }

    /** Adds one section per loadable segment, filled through the span the image hands out. A
        segment outside the file ends the loading, its section left zeroed. */
    method ReadImage(image: ImageProgrammer) returns (r: Outcome)
      requires image.Valid() && forall i | 0 <= i < |programs| :: programs[i].filesz <= programs[i].memsz
      modifies this`pos, image`sections
      ensures image.Valid() && image.log == old(image.log)
      ensures r != Invalid && (r == Loaded <==> Readable(file, programs))
      ensures r == Loaded ==> image.Contents() == old(image.Contents()) + Segments(file, programs)
    {
      ghost var before := image.Contents();
      var i := 0;
      assert programs[..0] == [];
      while i < |programs|
        invariant i <= |programs| && image.Valid() && Readable(file, programs[..i])
        invariant image.Contents() == before + Segments(file, programs[..i])
        invariant image.log == old(image.log)
      {
        var p := programs[i];
        assert programs[..i + 1][..i] == programs[..i];
        if IsLoaded(p) {
          var ok := LoadSegment(image, p);
          if !ok { return ReadError; }
        }
        i := i + 1;
      }
      assert programs[..i] == programs;
      r := Loaded;
    }
  }
}
