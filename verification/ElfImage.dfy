/** Images as src/elf.h lays them out, byte by byte, and what the validator reads back from them. */
module ElfImage {
  import opened Memory
  import opened Elf

  /** A half word and a word as they lie in the file. */
  function Two(v: nat): (bytes: seq<Byte>)
    requires v < 0x1_0000
    ensures |bytes| == 2
  {
    [v % 256, v / 256]
  }

  function Four(v: nat): (bytes: seq<Byte>)
    requires v <= U32_MAX
    ensures |bytes| == 4
  {
    [v % 256, v / 256 % 256, v / 0x1_0000 % 256, v / 0x100_0000]
  }

  ghost predicate HeaderFits(h: Header) {
    && |h.ident| == 16 && h.kind < 0x1_0000 && h.machine < 0x1_0000 && h.version <= U32_MAX && h.entry <= U32_MAX
    && h.programOffset <= U32_MAX && h.headerSize < 0x1_0000 && h.programSize < 0x1_0000 && h.programCount < 0x1_0000
  }

  /** elf32_header: `sections` is the section table offset and the flags, `names` the three section fields at the
      end. */
  ghost function HeaderBytes(h: Header, sections: seq<Byte>, names: seq<Byte>): (bytes: seq<Byte>)
    requires HeaderFits(h) && |sections| == 8 && |names| == 6
    ensures |bytes| == 52
  {
    h.ident + Two(h.kind) + Two(h.machine) + Four(h.version) + Four(h.entry) + Four(h.programOffset) + sections
    + Two(h.headerSize) + Two(h.programSize) + Two(h.programCount) + names
  }

  /** elf32_program_header. */
  ghost function ProgramBytes32(p: Program, physical: nat): (bytes: seq<Byte>)
    requires Words(p) && physical <= U32_MAX
    ensures |bytes| == 32
  {
    Four(p.kind) + Four(p.fileOffset) + Four(p.vaddr) + Four(physical) + Four(p.fileSize) + Four(p.memSize)
    + Four(p.flags) + Four(p.alignment)
  }

  lemma LittleTwo(bytes: seq<Byte>, at: nat, v: nat)
    requires v < 0x1_0000 && at + 2 <= |bytes| && bytes[at] == Two(v)[0] && bytes[at + 1] == Two(v)[1]
    ensures Little(bytes, at, 2) == v
  {
    assert Little(bytes, at + 1, 1) == bytes[at + 1];
  }

  lemma LittleFour(bytes: seq<Byte>, at: nat, v: nat)
    requires v <= U32_MAX && at + 4 <= |bytes|
    requires bytes[at] == Four(v)[0] && bytes[at + 1] == Four(v)[1]
    requires bytes[at + 2] == Four(v)[2] && bytes[at + 3] == Four(v)[3]
    ensures Little(bytes, at, 4) == v
  {
    Quarters(v);
    assert Little(bytes, at + 3, 1) == bytes[at + 3];
  }

  lemma Quarters(v: nat)
    ensures v == v % 256 + 256 * (v / 256)
    ensures v / 256 == v / 256 % 256 + 256 * (v / 0x1_0000)
    ensures v / 0x1_0000 == v / 0x1_0000 % 256 + 256 * (v / 0x100_0000)
  {
    Halves(v, 256);
    Halves(v, 0x1_0000);
  }

  lemma Halves(v: nat, d: nat)
    requires d == 256 || d == 0x1_0000
    ensures v / d / 256 == v / (d * 256)
  {
  }

  /** Every header field is read from where the format puts it. */
  lemma HeaderReadsBack(h: Header, sections: seq<Byte>, names: seq<Byte>, rest: seq<Byte>)
    requires HeaderFits(h) && |sections| == 8 && |names| == 6
    ensures HeaderOf(HeaderBytes(h, sections, names) + rest) == h
  {
    hide Little, Two, Four;
    var bytes := HeaderBytes(h, sections, names) + rest;
    assert bytes[..16] == h.ident;
    LittleTwo(bytes, 16, h.kind);
    LittleTwo(bytes, 18, h.machine);
    LittleFour(bytes, 20, h.version);
    LittleFour(bytes, 24, h.entry);
    LittleFour(bytes, 28, h.programOffset);
    LittleTwo(bytes, 40, h.headerSize);
    LittleTwo(bytes, 42, h.programSize);
    LittleTwo(bytes, 44, h.programCount);
  }

  /** Every program header field is read from where the format puts it, wherever the table entry lies. */
  lemma ProgramReadsBack(before: seq<Byte>, p: Program, physical: nat, rest: seq<Byte>)
    requires Words(p) && physical <= U32_MAX
    ensures ProgramAt(before + ProgramBytes32(p, physical) + rest, |before|) == p
  {
    hide Little, Four;
    var bytes, at := before + ProgramBytes32(p, physical) + rest, |before|;
    LittleFour(bytes, at, p.kind);
    LittleFour(bytes, at + 4, p.fileOffset);
    LittleFour(bytes, at + 8, p.vaddr);
    LittleFour(bytes, at + 16, p.fileSize);
    LittleFour(bytes, at + 20, p.memSize);
    LittleFour(bytes, at + 24, p.flags);
    LittleFour(bytes, at + 28, p.alignment);
  }

  /** The program table: as many entries as the header says, 32 bytes apart, from where the header says. */
  lemma ProgramsAt(bytes: seq<Byte>, i: nat)
    requires |bytes| >= 52
    requires var h := HeaderOf(bytes); i < h.programCount && h.programOffset + 32 * h.programCount <= |bytes|
    ensures |ProgramsOf(bytes)| == HeaderOf(bytes).programCount
    ensures ProgramsOf(bytes)[i] == ProgramAt(bytes, HeaderOf(bytes).programOffset + 32 * i)
  {
    hide HeaderOf, ProgramAt;
  }

  /** The smallest kind of program: headers and one instruction, in one readable and executable segment. */
  lemma SmallImageAccepted()
    ensures var bytes: seq<Byte> := [
              0x7F, 0x45, 0x4C, 0x46, 1, 1, 1, 0, 0, 0, 0, 0, 0, 0, 0, 0,
              2, 0, 3, 0, 1, 0, 0, 0, 0x54, 0, 0x40, 0, 0x34, 0, 0, 0,
              0, 0, 0, 0, 0, 0, 0, 0, 0x34, 0, 0x20, 0, 1, 0, 0, 0, 0, 0, 0, 0] + [
              1, 0, 0, 0, 0, 0, 0, 0, 0, 0, 0x40, 0, 0, 0, 0x40, 0,
              0x55, 0, 0, 0, 0x55, 0, 0, 0, 5, 0, 0, 0, 0, 0x10, 0, 0] + [
              0xF4];
            && Acceptable(FileNode(true, true, bytes)) && HeaderOf(bytes).entry == 0x40_0054
            && ProgramsOf(bytes) == [Program(1, 0, 0x40_0000, 0x55, 0x55, 5, 0x1000)]
  {
    var ident: seq<Byte> := [0x7F, 0x45, 0x4C, 0x46, 1, 1, 1, 0, 0, 0, 0, 0, 0, 0, 0, 0];
    var h := Header(ident, 2, 3, 1, 0x40_0054, 52, 52, 32, 1);
    var p := Program(1, 0, 0x40_0000, 0x55, 0x55, 5, 0x1000);
    var zeros8, zeros6: seq<Byte> := [0, 0, 0, 0, 0, 0, 0, 0], [0, 0, 0, 0, 0, 0];
    hide HeaderBytes, ProgramBytes32, HeaderOf, ProgramAt, HeaderOk, SegmentOk, Executes, Loadable, Acceptable,
         ProgramsOf;
    var head, table, code: seq<Byte> := HeaderBytes(h, zeros8, zeros6), ProgramBytes32(p, 0x40_0000), [0xF4];
    SmallHead(h, ident, zeros8, zeros6);
    SmallTable(p);
    var bytes := head + (table + code);
    HeaderReadsBack(h, zeros8, zeros6, table + code);
    assert bytes == head + table + code;
    ProgramReadsBack(head, p, 0x40_0000, code);
    SmallHeader(h, ident);
    SmallSegment(p);
    SmallProgram(bytes, h, p);
  }

  lemma SmallHead(h: Header, ident: seq<Byte>, sections: seq<Byte>, names: seq<Byte>)
    requires ident == [0x7F, 0x45, 0x4C, 0x46, 1, 1, 1, 0, 0, 0, 0, 0, 0, 0, 0, 0]
    requires h == Header(ident, 2, 3, 1, 0x40_0054, 52, 52, 32, 1)
    requires sections == [0, 0, 0, 0, 0, 0, 0, 0] && names == [0, 0, 0, 0, 0, 0]
    ensures HeaderBytes(h, sections, names) == [
              0x7F, 0x45, 0x4C, 0x46, 1, 1, 1, 0, 0, 0, 0, 0, 0, 0, 0, 0,
              2, 0, 3, 0, 1, 0, 0, 0, 0x54, 0, 0x40, 0, 0x34, 0, 0, 0,
              0, 0, 0, 0, 0, 0, 0, 0, 0x34, 0, 0x20, 0, 1, 0, 0, 0, 0, 0, 0, 0]
  {
  }

  lemma SmallTable(p: Program)
    requires p == Program(1, 0, 0x40_0000, 0x55, 0x55, 5, 0x1000)
    ensures ProgramBytes32(p, 0x40_0000) == [
              1, 0, 0, 0, 0, 0, 0, 0, 0, 0, 0x40, 0, 0, 0, 0x40, 0,
              0x55, 0, 0, 0, 0x55, 0, 0, 0, 5, 0, 0, 0, 0, 0x10, 0, 0]
  {
  }

  lemma SmallHeader(h: Header, ident: seq<Byte>)
    requires ident == [0x7F, 0x45, 0x4C, 0x46, 1, 1, 1, 0, 0, 0, 0, 0, 0, 0, 0, 0]
    requires h == Header(ident, 2, 3, 1, 0x40_0054, 52, 52, 32, 1)
    ensures HeaderOk(h)
  {
  }

  lemma SmallSegment(p: Program)
    requires p == Program(1, 0, 0x40_0000, 0x55, 0x55, 5, 0x1000)
    ensures Loadable(p) && SegmentOk(p, 0x55) && Executes(p, 0x40_0054)
  {
    assert Power2(4) == 16;
    assert Power2(8) == 256;
    assert Power2(12) == 0x1000;
  }

  lemma SmallProgram(bytes: seq<Byte>, h: Header, p: Program)
    requires |bytes| == 0x55 && HeaderOf(bytes) == h && h.programOffset == 52 && h.programCount == 1 && HeaderOk(h)
    requires ProgramAt(bytes, 52) == p && Loadable(p) && SegmentOk(p, 0x55) && Executes(p, h.entry)
    ensures Acceptable(FileNode(true, true, bytes)) && ProgramsOf(bytes) == [p]
  {
    hide HeaderOf, ProgramAt, HeaderOk, SegmentOk, Executes, Loadable;
    var ps := ProgramsOf(bytes);
    assert ps[0] == ProgramAt(bytes, 52 + 0 * PROGRAM_SIZE);
    assert ps == [p];
  }

  /** What the validator asks of the header, byte by byte. */
  lemma HeaderOkBytes(bytes: seq<Byte>)
    requires |bytes| >= 52
    ensures HeaderOk(HeaderOf(bytes)) <==>
              && bytes[0] == 0x7F && bytes[1] == 0x45 && bytes[2] == 0x4C && bytes[3] == 0x46
              && bytes[4] == 1 && bytes[5] == 1 && bytes[6] == 1 && bytes[16] == 2 && bytes[17] == 0
              && bytes[18] == 3 && bytes[19] == 0 && bytes[20] == 1 && bytes[21] == bytes[22] == bytes[23] == 0
              && bytes[40] == 52 && bytes[41] == 0 && bytes[42] == 32 && bytes[43] == 0
              && 1 <= bytes[44] <= 32 && bytes[45] == 0
  {
    TwoAt(bytes, 16);
    TwoAt(bytes, 18);
    TwoAt(bytes, 40);
    TwoAt(bytes, 42);
    TwoAt(bytes, 44);
    assert Little(bytes, 20, 4) == bytes[20] + 256 * (bytes[21] + 256 * Little(bytes, 22, 2));
    TwoAt(bytes, 22);
    hide Little;
    var id := bytes[..16];
    IdentBytes(id);
  }

  lemma TwoAt(bytes: seq<Byte>, at: nat)
    requires at + 2 <= |bytes|
    ensures var low: nat, high: nat := bytes[at], bytes[at + 1]; Little(bytes, at, 2) == low + 256 * high
  {
    assert Little(bytes, at + 1, 1) == bytes[at + 1];
  }
}
