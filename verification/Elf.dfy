/** src/elf.h and the validator of src/exec.c: which files the loader accepts. */
module Elf {
  import opened Memory
  import opened Processes

  const USER_PROGRAM_MIN := 0x0040_0000
  const HEADER_SIZE := 52
  const PROGRAM_SIZE := 32
  const PROGRAM_MAX := 32

  /** What the loader sees of a file system node. */
  datatype FileNode = FileNode(isFile: bool, readable: bool, bytes: seq<Byte>)

  datatype Header = Header(ident: seq<Byte>, kind: nat, machine: nat, version: nat, entry: nat, programOffset: nat,
                           headerSize: nat, programSize: nat, programCount: nat)

  datatype Program = Program(kind: nat, fileOffset: nat, vaddr: nat, fileSize: nat, memSize: nat, flags: nat,
                             alignment: nat)

  // ---------------------------------------------------------------- 32-bit words and masks

  /** Bitwise and of two machine words. */
  function BitAnd(x: nat, y: nat): (r: nat)
    ensures r <= x && r <= y
  {
    if x == 0 || y == 0 then 0 else 2 * BitAnd(x / 2, y / 2) + (if x % 2 == 1 && y % 2 == 1 then 1 else 0)
  }

  function Power2(k: nat): (r: nat)
    ensures r >= 1
  {
    if k == 0 then 1 else 2 * Power2(k - 1)
  }

  ghost predicate IsPower2(x: nat) {
    exists k: nat :: x == Power2(k)
  }

  lemma Double2(k: nat)
    ensures Power2(k + 1) == 2 * Power2(k)
  {
  }

  /** `x & (2^k - 1)` is the remainder modulo 2^k. */
  lemma {:induction false} LowMask(x: nat, k: nat)
    ensures BitAnd(x, Power2(k) - 1) == x % Power2(k)
    decreases k
  {
    hide BitAnd;
    if k == 0 {
      AndNothing(x);
    } else {
      var p := Power2(k - 1);
      LowMask(x / 2, k - 1);
      AndOdd(x, p - 1);
      HalfMod(x, p);
    }
  }

  lemma AndNothing(x: nat)
    ensures BitAnd(x, 0) == x % 1
  {
  }

  lemma AndOdd(x: nat, y: nat)
    ensures BitAnd(x, 2 * y + 1) == 2 * BitAnd(x / 2, y) + x % 2
  {
    assert (2 * y + 1) / 2 == y;
  }

  lemma HalfMod(x: nat, p: nat)
    requires p >= 1
    ensures x % (2 * p) == 2 * ((x / 2) % p) + x % 2
  {
    var q, r := (x / 2) / p, (x / 2) % p;
    assert x == (2 * p) * q + (2 * r + x % 2) by {
      assert x / 2 == p * q + r;
      assert x == 2 * (x / 2) + x % 2;
    }
    ModUnique(x, 2 * p, q, 2 * r + x % 2);
  }

  lemma ModUnique(x: nat, m: nat, q: nat, r: nat)
    requires m >= 1 && r < m && x == m * q + r
    ensures x % m == r
  {
    var d := x / m - q;
    assert d * m == r - x % m by { assert x == m * (x / m) + x % m; Distribute(m, x / m, q); }
    if d >= 1 { Multiple(d, m); } else if d <= -1 { Multiple(-d, m); }
  }

  lemma Distribute(m: int, a: int, b: int)
    ensures (a - b) * m == m * a - m * b
  {
  }

  lemma Multiple(d: int, m: int)
    requires d >= 1 && m >= 0
    ensures d * m >= m && (-d) * m <= -m
  {
    if d > 1 { Multiple(d - 1, m); }
  }

  /** The validator's bit trick accepts exactly the powers of two. */
  lemma {:induction false} Power2Test(x: nat)
    requires x >= 1
    ensures BitAnd(x, x - 1) == 0 <==> IsPower2(x)
  {
    if x == 1 {
      assert x == Power2(0);
    } else if x % 2 == 1 {
      assert (x - 1) / 2 == x / 2;
      AndSelf(x / 2);
      forall k: nat ensures x != Power2(k) { if k > 0 { Double2(k - 1); } }
    } else {
      assert (x - 1) / 2 == x / 2 - 1;
      Power2Test(x / 2);
      if k: nat :| x / 2 == Power2(k) { Double2(k); assert x == Power2(k + 1); }
      if k: nat :| x == Power2(k) { assert k != 0; assert x / 2 == Power2(k - 1); }
    }
  }

  lemma {:induction false} AndSelf(x: nat)
    ensures BitAnd(x, x) == x
  {
    if x > 0 { AndSelf(x / 2); }
  }

  /** Little-endian value of the n bytes at offset at. */
  function Little(bytes: seq<Byte>, at: nat, n: nat): nat
    requires at + n <= |bytes|
    decreases n
  {
    if n == 0 then 0 else bytes[at] + 256 * Little(bytes, at + 1, n - 1)
  }

  lemma {:induction false} LittleBound(bytes: seq<Byte>, at: nat, n: nat)
    requires at + n <= |bytes| && n <= 4
    ensures Little(bytes, at, n) < [1, 0x100, 0x1_0000, 0x100_0000, 0x1_0000_0000][n]
    decreases n
  {
    if n > 0 { LittleBound(bytes, at + 1, n - 1); }
  }

  // ---------------------------------------------------------------- headers

  function HeaderOf(bytes: seq<Byte>): Header
    requires |bytes| >= HEADER_SIZE
  {
    Header(bytes[..16], Little(bytes, 16, 2), Little(bytes, 18, 2), Little(bytes, 20, 4), Little(bytes, 24, 4),
           Little(bytes, 28, 4),
           Little(bytes, 40, 2), Little(bytes, 42, 2), Little(bytes, 44, 2))
  }

  function ProgramAt(bytes: seq<Byte>, at: nat): Program
    requires at + PROGRAM_SIZE <= |bytes|
  {
    Program(Little(bytes, at, 4), Little(bytes, at + 4, 4), Little(bytes, at + 8, 4), Little(bytes, at + 16, 4),
            Little(bytes, at + 20, 4), Little(bytes, at + 24, 4), Little(bytes, at + 28, 4))
  }

  ghost predicate Words(p: Program) {
    && p.kind <= U32_MAX && p.fileOffset <= U32_MAX && p.vaddr <= U32_MAX && p.fileSize <= U32_MAX
    && p.memSize <= U32_MAX && p.flags <= U32_MAX && p.alignment <= U32_MAX
  }

  lemma ProgramWords(bytes: seq<Byte>, at: nat)
    requires at + PROGRAM_SIZE <= |bytes|
    ensures Words(ProgramAt(bytes, at))
  {
    hide Little;
    LittleBound(bytes, at, 4);
    LittleBound(bytes, at + 4, 4);
    LittleBound(bytes, at + 8, 4);
    LittleBound(bytes, at + 16, 4);
    LittleBound(bytes, at + 20, 4);
    LittleBound(bytes, at + 24, 4);
    LittleBound(bytes, at + 28, 4);
  }

  function ProgramsFrom(bytes: seq<Byte>, at: nat, count: nat): (ps: seq<Program>)
    requires at + count * PROGRAM_SIZE <= |bytes|
    ensures |ps| == count
    ensures forall i :: 0 <= i < count ==> ps[i] == ProgramAt(bytes, at + i * PROGRAM_SIZE)
  {
    seq(count, i requires 0 <= i < count => ProgramAt(bytes, at + i * PROGRAM_SIZE))
  }

  // ---------------------------------------------------------------- what is acceptable

  predicate Loadable(p: Program) {
    p.kind == 1 && p.memSize != 0
  }

  function EndOf(p: Program): nat {
    p.vaddr + p.memSize
  }

  function PageDown(x: int): int {
    x - x % PAGE_SIZE
  }

  /** The two segments share no page. */
  ghost predicate PageDisjoint(p: Program, q: Program) {
    PageUp(EndOf(p)) <= PageDown(q.vaddr) || PageUp(EndOf(q)) <= PageDown(p.vaddr)
  }

  /** One loadable segment lies in the file and in the user range, congruent to its alignment. */
  ghost predicate SegmentOk(p: Program, length: nat) {
    && p.fileSize <= p.memSize && p.fileOffset + p.fileSize <= length
    && USER_PROGRAM_MIN <= p.vaddr && EndOf(p) <= USER_HEAP_LIMIT
    && (p.alignment > 1 ==> IsPower2(p.alignment) && p.vaddr % p.alignment == p.fileOffset % p.alignment)
  }

  ghost predicate HeaderOk(h: Header) {
    && |h.ident| == 16 && h.ident[..7] == [0x7F, 'E' as int, 'L' as int, 'F' as int, 1, 1, 1]
    && h.kind == 2 && h.machine == 3 && h.version == 1
    && h.headerSize == HEADER_SIZE && h.programSize == PROGRAM_SIZE && 1 <= h.programCount <= PROGRAM_MAX
  }

  ghost predicate SegmentsOk(ps: seq<Program>, length: nat) {
    && (forall i :: 0 <= i < |ps| && Loadable(ps[i]) ==> SegmentOk(ps[i], length))
    && (forall i, j :: 0 <= j < i < |ps| && Loadable(ps[i]) && Loadable(ps[j]) ==> PageDisjoint(ps[i], ps[j]))
  }

  predicate Executes(p: Program, entry: nat) {
    Loadable(p) && p.flags % 2 == 1 && p.vaddr <= entry < EndOf(p)
  }

  /** The entry point lies in a loadable executable segment. */
  ghost predicate EntryOk(ps: seq<Program>, entry: nat) {
    exists i :: 0 <= i < |ps| && Executes(ps[i], entry)
  }

  function ProgramsOf(bytes: seq<Byte>): seq<Program>
    requires |bytes| >= HEADER_SIZE
    requires var h := HeaderOf(bytes); h.programOffset + h.programCount * PROGRAM_SIZE <= |bytes|
  {
    ProgramsFrom(bytes, HeaderOf(bytes).programOffset, HeaderOf(bytes).programCount)
  }

  /** The files exec accepts. */
  ghost predicate Acceptable(file: FileNode) {
    && file.isFile && file.readable && |file.bytes| >= HEADER_SIZE
    && var h := HeaderOf(file.bytes);
    && HeaderOk(h) && h.programOffset + h.programCount * PROGRAM_SIZE <= |file.bytes|
    && SegmentsOk(ProgramsOf(file.bytes), |file.bytes|) && EntryOk(ProgramsOf(file.bytes), h.entry)
  }

  /** One past the highest loaded byte. */
  function Highest(ps: seq<Program>): nat {
    if ps == [] then 0 else
      var rest := Highest(ps[..|ps| - 1]);
      var p := ps[|ps| - 1];
      if Loadable(p) && EndOf(p) > rest then EndOf(p) else rest
  }

  /** Highest is an upper bound that a loadable segment attains. */
  lemma {:induction false} HighestMeans(ps: seq<Program>)
    ensures forall i :: 0 <= i < |ps| && Loadable(ps[i]) ==> EndOf(ps[i]) <= Highest(ps)
    ensures Highest(ps) == 0 || exists i :: 0 <= i < |ps| && Loadable(ps[i]) && EndOf(ps[i]) == Highest(ps)
  {
    if ps != [] {
      var rest := ps[..|ps| - 1];
      HighestMeans(rest);
      assert forall i :: 0 <= i < |rest| ==> rest[i] == ps[i];
      if Highest(ps) == Highest(rest) && Highest(rest) != 0 {
        var i :| 0 <= i < |rest| && Loadable(rest[i]) && EndOf(rest[i]) == Highest(rest);
        assert Loadable(ps[i]) && EndOf(ps[i]) == Highest(ps);
      } else if Highest(ps) != 0 {
        assert Loadable(ps[|ps| - 1]) && EndOf(ps[|ps| - 1]) == Highest(ps);
      }
    }
  }

  // ---------------------------------------------------------------- reading the file

  /** initrd_read through read_fs, as read_exact uses it: all the bytes, or failure. */
  method ReadExact(bytes: seq<Byte>, offset: nat, size: nat) returns (ok: bool, data: seq<Byte>)
    ensures ok <==> size == 0 || offset + size <= |bytes|
    ensures ok && size != 0 ==> data == bytes[offset..offset + size]
    ensures ok && size == 0 ==> data == []
  {
    var got := size;
    if offset >= |bytes| {
      got := 0;
    } else if size > |bytes| - offset {
      got := |bytes| - offset;
    }
    ok := got == size;
    data := if got == 0 then [] else bytes[offset..offset + got];
  }

  // ---------------------------------------------------------------- validate_elf

  method ReadHeader(file: FileNode) returns (ok: bool, h: Header)
    ensures ok <==> file.isFile && file.readable && |file.bytes| >= HEADER_SIZE && HeaderOk(HeaderOf(file.bytes))
    ensures ok ==> h == HeaderOf(file.bytes)
  {
    h := Header([], 0, 0, 0, 0, 0, 0, 0, 0);
    if !file.isFile || !file.readable || |file.bytes| < HEADER_SIZE { return false, h; }
    h := HeaderOf(file.bytes);
    var id := h.ident;
    assert |id| == 16;
    hide HeaderOf;
    ok :=
      && id[0] == 0x7F && id[1] == 'E' as int && id[2] == 'L' as int && id[3] == 'F' as int
      && id[4] == 1 && id[5] == 1 && id[6] == 1
      && h.kind == 2 && h.machine == 3 && h.version == 1 && h.headerSize == HEADER_SIZE && h.programSize == PROGRAM_SIZE
      && h.programCount != 0 && h.programCount <= PROGRAM_MAX;
    IdentBytes(id);
  }

  lemma IdentBytes(id: seq<Byte>)
    requires |id| >= 7
    ensures id[..7] == [0x7F, 'E' as int, 'L' as int, 'F' as int, 1, 1, 1] <==>
            && id[0] == 0x7F && id[1] == 'E' as int && id[2] == 'L' as int && id[3] == 'F' as int && id[4] == 1
            && id[5] == 1 && id[6] == 1
  {
    var s := id[..7];
    assert forall i :: 0 <= i < 7 ==> s[i] == id[i];
  }

  /** The arithmetic and alignment checks on one loadable segment. */
  method CheckSegment(p: Program, length: nat) returns (ok: bool)
    requires Words(p) && Loadable(p)
    ensures ok <==> SegmentOk(p, length)
    ensures ok <==>
              && p.fileSize <= p.memSize && p.fileOffset + p.fileSize <= length
              && 0x40_0000 <= p.vaddr && p.vaddr + p.memSize <= 0xBFF0_0000
              && (p.alignment > 1 ==> IsPower2(p.alignment) && p.vaddr % p.alignment == p.fileOffset % p.alignment)
  {
    if p.fileSize > p.memSize || p.fileOffset > length || p.fileSize > length - p.fileOffset
      || p.vaddr < USER_PROGRAM_MIN || p.memSize > U32_MAX - p.vaddr {
      return false;
    }
    var end := p.vaddr + p.memSize;
    if end > USER_HEAP_LIMIT || end <= p.vaddr { return false; }
    if p.alignment > 1 {
      Power2Test(p.alignment);
      if BitAnd(p.alignment, p.alignment - 1) != 0 { return false; }
      var k :| p.alignment == Power2(k);
      LowMask(p.vaddr, k);
      LowMask(p.fileOffset, k);
      if BitAnd(p.vaddr, p.alignment - 1) != BitAnd(p.fileOffset, p.alignment - 1) { return false; }
    }
    return true;
  }

  /** Disjoint segments have no page in common. */
  lemma DisjointMeans(p: Program, q: Program)
    requires p.memSize > 0 && q.memSize > 0
    ensures PageDisjoint(p, q) <==>
              forall a, b :: p.vaddr <= a < p.vaddr + p.memSize && q.vaddr <= b < q.vaddr + q.memSize ==>
                a / 4096 != b / 4096
  {
    DisjointByPages(p, q);
    hide PageDisjoint;
    if !PageDisjoint(p, q) {
      var n := if p.vaddr / 4096 >= q.vaddr / 4096 then p.vaddr / 4096 else q.vaddr / 4096;
      var a := ByteOfPage(p, n);
      var b := ByteOfPage(q, n);
    } else {
      forall a, b | p.vaddr <= a < p.vaddr + p.memSize && q.vaddr <= b < q.vaddr + q.memSize
        ensures a / 4096 != b / 4096
      {
        ByteInPages(p, a);
        ByteInPages(q, b);
      }
    }
  }

  lemma DisjointByPages(p: Program, q: Program)
    requires p.memSize > 0 && q.memSize > 0
    ensures PageDisjoint(p, q) <==>
              || (p.vaddr + p.memSize - 1) / 4096 < q.vaddr / 4096
              || (q.vaddr + q.memSize - 1) / 4096 < p.vaddr / 4096
  {
  }

  lemma ByteOfPage(p: Program, n: nat) returns (a: nat)
    requires p.memSize > 0 && p.vaddr / 4096 <= n <= (p.vaddr + p.memSize - 1) / 4096
    ensures p.vaddr <= a < p.vaddr + p.memSize && a / 4096 == n
  {
    a := if p.vaddr >= n * 4096 then p.vaddr else n * 4096;
  }

  lemma ByteInPages(p: Program, a: nat)
    requires p.vaddr <= a < p.vaddr + p.memSize
    ensures p.vaddr / 4096 <= a / 4096 <= (p.vaddr + p.memSize - 1) / 4096
  {
  }

  /** The flag tests are those of single bits. */
  lemma FlagBits(flags: nat)
    ensures BitAnd(flags, 1) != 0 <==> flags % 2 == 1
    ensures BitAnd(flags, 2) != 0 <==> flags / 2 % 2 == 1
  {
    if flags > 0 {
      assert BitAnd(flags / 2, 0) == 0;
      assert flags / 2 > 0 ==> BitAnd(flags / 2 / 2, 0) == 0;
    }
  }

  /** The entry point lies in an executable segment. */
  lemma EntryMeans(ps: seq<Program>, entry: nat)
    ensures EntryOk(ps, entry) <==>
              exists i :: 0 <= i < |ps| && ps[i].kind == 1 && ps[i].memSize > 0 && BitAnd(ps[i].flags, 1) != 0
                          && ps[i].vaddr <= entry < ps[i].vaddr + ps[i].memSize
  {
    forall i | 0 <= i < |ps| ensures BitAnd(ps[i].flags, 1) != 0 <==> ps[i].flags % 2 == 1 { FlagBits(ps[i].flags); }
    hide BitAnd;
    if i :| 0 <= i < |ps| && Executes(ps[i], entry) { assert ps[i].kind == 1; }
    if i :| 0 <= i < |ps| && ps[i].kind == 1 && ps[i].memSize > 0 && BitAnd(ps[i].flags, 1) != 0
            && ps[i].vaddr <= entry < ps[i].vaddr + ps[i].memSize {
      assert Executes(ps[i], entry);
    }
  }

  /** The page-overlap check against every earlier loadable segment. */
  method CheckOverlap(ps: seq<Program>, i: nat) returns (ok: bool)
    requires i < |ps|
    ensures ok <==> forall j :: 0 <= j < i && Loadable(ps[j]) ==> PageDisjoint(ps[i], ps[j])
  {
    hide PageUp, PageDown;
    var start, end := PageDown(ps[i].vaddr), PageUp(EndOf(ps[i]));
    var earlier := 0;
    while earlier < i
      invariant earlier <= i && forall j :: 0 <= j < earlier && Loadable(ps[j]) ==> PageDisjoint(ps[i], ps[j])
    {
      var other := ps[earlier];
      if Loadable(other) && start < PageUp(EndOf(other)) && PageDown(other.vaddr) < end {
        assert !PageDisjoint(ps[i], ps[earlier]);
        return false;
      }
      earlier := earlier + 1;
    }
    return true;
  }

  /** The loop over the program headers. */
  method CheckPrograms(ps: seq<Program>, length: nat, entry: nat) returns (ok: bool, highest: nat)
    requires forall i :: 0 <= i < |ps| ==> Words(ps[i])
    ensures ok <==> SegmentsOk(ps, length) && EntryOk(ps, entry)
    ensures ok ==> highest == Highest(ps)
  {
    hide SegmentOk, PageDisjoint, Words;
    highest := 0;
    var executable, count := false, 0;
    var i := 0;
    while i < |ps|
      invariant i <= |ps| && highest == Highest(ps[..i])
      invariant SegmentsOk(ps[..i], length)
      invariant executable <==> exists j :: 0 <= j < i && Executes(ps[j], entry)
      invariant executable ==> count != 0
    {
      var p := ps[i];
      PrefixStep(ps, i, length);
      if Loadable(p) {
        count := count + 1;
        ok := CheckSegment(p, length);
        if !ok { return; }
        ok := CheckOverlap(ps, i);
        if !ok { return; }
        if EndOf(p) > highest { highest := EndOf(p); }
        if p.flags % 2 == 1 && entry >= p.vaddr && entry < EndOf(p) { executable := true; }
      }
      i := i + 1;
    }
    assert ps[..i] == ps;
    ok := count != 0 && executable;
  }

  lemma PrefixStep(ps: seq<Program>, i: nat, length: nat)
    requires i < |ps|
    ensures Highest(ps[..i + 1]) ==
              if Loadable(ps[i]) && EndOf(ps[i]) > Highest(ps[..i]) then EndOf(ps[i]) else Highest(ps[..i])
    ensures SegmentsOk(ps[..i + 1], length) <==>
            SegmentsOk(ps[..i], length) &&
            (Loadable(ps[i]) ==>
               && SegmentOk(ps[i], length)
               && forall j :: 0 <= j < i && Loadable(ps[j]) ==> PageDisjoint(ps[i], ps[j]))
    ensures SegmentsOk(ps, length) ==> SegmentsOk(ps[..i + 1], length)
  {
    hide SegmentOk, PageDisjoint;
    assert ps[..i + 1][..i] == ps[..i];
  }

  /** validate_elf accepts exactly the acceptable files, and reports their highest address. */
  method ValidateElf(file: FileNode) returns (ok: bool, header: Header, programs: seq<Program>, highest: nat)
    ensures ok <==> Acceptable(file)
    ensures ok ==> header == HeaderOf(file.bytes) && programs == ProgramsOf(file.bytes) && highest == Highest(programs)
  {
    hide HeaderOk, SegmentsOk, EntryOk, Highest, HeaderOf;
    programs, highest := [], 0;
    ok, header := ReadHeader(file);
    if !ok { return; }
    var size := header.programCount * PROGRAM_SIZE;
    if header.programOffset > |file.bytes| || size > |file.bytes| - header.programOffset { ok := false; return; }
    programs := ProgramsOf(file.bytes);
    forall i | 0 <= i < |programs| ensures Words(programs[i]) {
      ProgramWords(file.bytes, header.programOffset + i * PROGRAM_SIZE);
    }
    ok, highest := CheckPrograms(programs, |file.bytes|, header.entry);
  }
}
