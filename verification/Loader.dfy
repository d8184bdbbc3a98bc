/** map_and_load_segments of src/exec.c: from validated program headers to the memory of a new directory. */
module Loader {
  import opened Memory
  import opened Elf
  import opened PageTables
  import opened Paging
  import opened Processes

  function FirstPage(p: Program): nat {
    p.vaddr / PAGE_SIZE
  }

  function LastPage(p: Program): nat {
    PageUp(EndOf(p)) / PAGE_SIZE
  }

  function Writable(p: Program): bool {
    p.flags / 2 % 2 == 1
  }

  // ---------------------------------------------------------------- ranges of pages

  /** Pages [from, to) present with the given permission. */
  ghost function WithPages(flags: map<nat, bool>, from: nat, to: nat, writable: bool): map<nat, bool> {
    map n: nat | n < ENTRIES * ENTRIES && (n in flags || from <= n < to)
      :: if from <= n < to then writable else flags[n]
  }

  /** Pages [from, to) present and zero. */
  ghost function WithZeroPages(m: Mem, from: nat, to: nat): Mem {
    map a: int | 0 <= a < 0x1_0000_0000 && (a in m || from <= PageOf(a) < to)
      :: if from <= PageOf(a) < to then 0 else m[a]
  }

  lemma NoPages(flags: map<nat, bool>, m: Mem, from: nat, w: bool)
    requires forall a :: a in m ==> 0 <= a < 0x1_0000_0000
    requires forall n :: n in flags ==> n < ENTRIES * ENTRIES
    ensures WithPages(flags, from, from, w) == flags && WithZeroPages(m, from, from) == m
  {
  }

  lemma OnePageMore(flags: map<nat, bool>, m: Mem, from: nat, n: nat, w: bool)
    requires from <= n < ENTRIES * ENTRIES
    ensures WithPages(flags, from, n + 1, w) == WithPages(flags, from, n, w)[n := w]
    ensures WithZeroPages(m, from, n + 1) == WithZeroPage(WithZeroPages(m, from, n), n)
  {
    hide PageOf;
  }

  lemma PagesTwice(flags: map<nat, bool>, from: nat, n: nat, to: nat, w: bool)
    requires from <= n < to <= ENTRIES * ENTRIES
    ensures WithPages(WithPages(flags, from, to, true), from, n, w)[n := w] ==
              WithPages(WithPages(flags, from, to, true), from, n + 1, w)
  {
  }

  // ---------------------------------------------------------------- the image

  /** What one segment adds to a memory: its pages zeroed, then its file bytes. */
  ghost function WithSegment(m: Mem, p: Program, bytes: seq<Byte>): Mem
    requires p.fileOffset + p.fileSize <= |bytes|
  {
    Overlay(WithZeroPages(m, FirstPage(p), LastPage(p)), p.vaddr, bytes[p.fileOffset..p.fileOffset + p.fileSize])
  }

  ghost predicate Placeable(ps: seq<Program>, length: nat) {
    forall i :: 0 <= i < |ps| && Loadable(ps[i]) ==> SegmentOk(ps[i], length)
  }

  /** The memory after loading the segments in order. */
  ghost function ImageMemory(ps: seq<Program>, bytes: seq<Byte>): Mem
    requires Placeable(ps, |bytes|)
  {
    if ps == [] then map[] else
      var rest := ImageMemory(ps[..|ps| - 1], bytes);
      var p := ps[|ps| - 1];
      if Loadable(p) then WithSegment(rest, p, bytes) else rest
  }

  ghost function ImageFlags(ps: seq<Program>): map<nat, bool> {
    if ps == [] then map[] else
      var rest := ImageFlags(ps[..|ps| - 1]);
      var p := ps[|ps| - 1];
      if Loadable(p) then WithPages(rest, FirstPage(p), LastPage(p), Writable(p)) else rest
  }

  /** Page n belongs to segment i. */
  ghost predicate InSegment(ps: seq<Program>, i: int, n: int) {
    0 <= i < |ps| && Loadable(ps[i]) && FirstPage(ps[i]) <= n < LastPage(ps[i])
  }

  lemma DisjointPages(p: Program, q: Program, n: nat)
    requires PageDisjoint(p, q) && FirstPage(p) <= n < LastPage(p)
    ensures !(FirstPage(q) <= n < LastPage(q))
  {
    assert PageDown(q.vaddr) == FirstPage(q) * PAGE_SIZE && PageDown(p.vaddr) == FirstPage(p) * PAGE_SIZE;
    assert PageUp(EndOf(q)) == LastPage(q) * PAGE_SIZE && PageUp(EndOf(p)) == LastPage(p) * PAGE_SIZE;
  }

  lemma OnlySegment(ps: seq<Program>, k: nat, n: nat, length: nat)
    requires SegmentsOk(ps, length) && k == |ps| - 1 && InSegment(ps, k, n)
    ensures forall i :: InSegment(ps, i, n) ==> i == k
  {
    hide PageDisjoint, SegmentOk, FirstPage, LastPage;
    forall i | 0 <= i < k && Loadable(ps[i]) ensures !InSegment(ps, i, n) {
      DisjointPages(ps[k], ps[i], n);
    }
  }

  /** A page is present exactly when a segment covers it, and writable exactly when that segment has the W flag. */
  lemma {:induction false} ImageFlagsExact(ps: seq<Program>, length: nat, n: nat)
    requires SegmentsOk(ps, length)
    ensures n in ImageFlags(ps) <==> exists i :: InSegment(ps, i, n)
    ensures forall i :: InSegment(ps, i, n) ==> n in ImageFlags(ps) && ImageFlags(ps)[n] == Writable(ps[i])
  {
    if ps != [] {
      var k := |ps| - 1;
      var rest := ps[..k];
      ImageFlagsExact(rest, length, n);
      assert forall i :: 0 <= i < k ==> (InSegment(ps, i, n) <==> InSegment(rest, i, n));
      if i :| InSegment(rest, i, n) { assert InSegment(ps, i, n); }
      if InSegment(ps, k, n) {
        OnlySegment(ps, k, n, length);
      }
    }
  }

  /** The bytes of one segment in memory: its file bytes, then zeroes. */
  ghost function SegmentByte(p: Program, bytes: seq<Byte>, a: int): Byte
    requires p.fileOffset + p.fileSize <= |bytes|
  {
    if p.vaddr <= a < p.vaddr + p.fileSize then bytes[p.fileOffset + (a - p.vaddr)] else 0
  }

  lemma WithSegmentAt(m: Mem, p: Program, bytes: seq<Byte>, a: int)
    requires SegmentOk(p, |bytes|) && 0 <= a < 0x1_0000_0000
    ensures FirstPage(p) <= PageOf(a) < LastPage(p) ==>
              a in WithSegment(m, p, bytes) && WithSegment(m, p, bytes)[a] == SegmentByte(p, bytes, a)
    ensures !(FirstPage(p) <= PageOf(a) < LastPage(p)) ==>
              (a in WithSegment(m, p, bytes) <==> a in m) && (a in m ==> WithSegment(m, p, bytes)[a] == m[a])
  {
    if p.vaddr <= a < p.vaddr + p.fileSize {
      InsidePages(p, a);
    }
  }

  lemma InsidePages(p: Program, a: int)
    requires p.vaddr <= a < EndOf(p)
    ensures FirstPage(p) <= PageOf(a) < LastPage(p)
  {
    assert PageUp(EndOf(p)) == LastPage(p) * PAGE_SIZE;
  }

  /** Memory is exactly the image: every byte of a segment's pages is its file byte or zero, nothing else is mapped,
      and no segment disturbs another. */
  lemma {:induction false} ImageMemoryExact(ps: seq<Program>, bytes: seq<Byte>, a: int)
    requires SegmentsOk(ps, |bytes|) && 0 <= a < 0x1_0000_0000
    ensures a in ImageMemory(ps, bytes) <==> exists i :: InSegment(ps, i, PageOf(a))
    ensures forall i :: InSegment(ps, i, PageOf(a)) ==>
              a in ImageMemory(ps, bytes) && ImageMemory(ps, bytes)[a] == SegmentByte(ps[i], bytes, a)
  {
    if ps != [] {
      hide PageOf, WithSegment, SegmentByte, SegmentOk, PageDisjoint, FirstPage, LastPage;
      var k := |ps| - 1;
      var rest := ps[..k];
      var n := PageOf(a);
      ImageMemoryExact(rest, bytes, a);
      assert forall i :: 0 <= i < k ==> (InSegment(ps, i, n) <==> InSegment(rest, i, n));
      if i :| InSegment(rest, i, n) { assert InSegment(ps, i, n); }
      if Loadable(ps[k]) {
        WithSegmentAt(ImageMemory(rest, bytes), ps[k], bytes, a);
        if InSegment(ps, k, n) {
          PageNonneg(a);
          OnlySegment(ps, k, n, |bytes|);
        }
      }
    }
  }

  /** A page belongs to a segment when it holds one of its bytes. */
  lemma InSegmentMeans(ps: seq<Program>, i: nat, n: nat)
    requires i < |ps| && Loadable(ps[i])
    ensures InSegment(ps, i, n) <==> exists b :: ps[i].vaddr <= b < ps[i].vaddr + ps[i].memSize && b / 4096 == n
  {
    if InSegment(ps, i, n) {
      var b := if n * 4096 >= ps[i].vaddr then n * 4096 else ps[i].vaddr;
      assert b / 4096 == n;
    }
  }

  /** Every byte of a segment: its file byte, or zero behind the file part; and so is the rest of its pages. */
  lemma ImageByte(ps: seq<Program>, bytes: seq<Byte>, i: nat, a: nat, b: nat)
    requires SegmentsOk(ps, |bytes|) && i < |ps| && ps[i].kind == 1 && a < 0x1_0000_0000
    requires ps[i].vaddr <= b < ps[i].vaddr + ps[i].memSize && b / 4096 == a / 4096
    ensures ps[i].fileOffset + ps[i].fileSize <= |bytes| && a in ImageMemory(ps, bytes)
    ensures ps[i].vaddr <= a < ps[i].vaddr + ps[i].fileSize ==>
              ImageMemory(ps, bytes)[a] == bytes[ps[i].fileOffset + (a - ps[i].vaddr)]
    ensures !(ps[i].vaddr <= a < ps[i].vaddr + ps[i].fileSize) ==> ImageMemory(ps, bytes)[a] == 0
    ensures a / 4096 in ImageFlags(ps)
    ensures ImageFlags(ps)[a / 4096] <==> BitAnd(ps[i].flags, 2) != 0
  {
    hide BitAnd, SegmentOk, ImageMemory, ImageFlags, InSegment, SegmentsOk, Placeable, PageDisjoint, PageUp;
    OneSegment(ps, |bytes|, i);
    ByteOnPage(ps, i, a, b);
    ImageMemoryExact(ps, bytes, a);
    ImageFlagsExact(ps, |bytes|, PageOf(a));
    FlagBits(ps[i].flags);
  }

  lemma OneSegment(ps: seq<Program>, length: nat, i: nat)
    requires SegmentsOk(ps, length) && i < |ps| && ps[i].kind == 1 && ps[i].memSize > 0
    ensures Placeable(ps, length) && ps[i].fileOffset + ps[i].fileSize <= length && Loadable(ps[i])
  {
    assert Loadable(ps[i]);
  }

  lemma ByteOnPage(ps: seq<Program>, i: nat, a: nat, b: nat)
    requires i < |ps| && Loadable(ps[i])
    requires ps[i].vaddr <= b < ps[i].vaddr + ps[i].memSize && b / 4096 == a / 4096
    ensures InSegment(ps, i, PageOf(a))
  {
    InSegmentMeans(ps, i, PageOf(a));
  }

  lemma PageNonneg(a: int)
    requires a >= 0
    ensures PageOf(a) >= 0
  {
  }

  lemma AllPages(flags: map<nat, bool>, from: nat, to: nat, w: bool)
    requires from <= to <= ENTRIES * ENTRIES
    ensures WithPages(WithPages(flags, from, to, true), from, from, w) == WithPages(flags, from, to, true)
    ensures WithPages(WithPages(flags, from, to, true), from, to, w) == WithPages(flags, from, to, w)
    ensures forall n, m: nat :: from <= n < to ==> n in WithPages(WithPages(flags, from, to, true), from, m, w)
  {
  }

  /** The pages of an acceptable segment lie strictly between the first 4 MiB and the stack. */
  lemma SegmentPages(p: Program, length: nat)
    requires SegmentOk(p, length) && Loadable(p)
    ensures 0x400 <= FirstPage(p) <= LastPage(p) <= USER_HEAP_LIMIT / PAGE_SIZE
  {
  }

  lemma SegmentMapped(m: Mem, p: Program, length: nat)
    requires SegmentOk(p, length)
    ensures Mapped(WithZeroPages(m, FirstPage(p), LastPage(p)), p.vaddr, p.fileSize)
  {
    forall a | p.vaddr <= a < p.vaddr + p.fileSize ensures a in WithZeroPages(m, FirstPage(p), LastPage(p)) {
      InsidePages(p, a);
    }
  }

  lemma EmptySpace()
    ensures FlagsOf(map[]) == map[] && MemOf(map[]) == map[]
  {
  }

  lemma ImageStep(ps: seq<Program>, i: nat, length: nat)
    requires i < |ps| && SegmentsOk(ps, length)
    ensures Placeable(ps[..i], length) && Placeable(ps[..i + 1], length) && ps[..i + 1][..i] == ps[..i]
    ensures Loadable(ps[i]) ==> SegmentOk(ps[i], length)
  {
  }

  /** No earlier segment has mapped a page of this one. */
  lemma NotYetPresent(ps: seq<Program>, i: nat, length: nat)
    requires i < |ps| && SegmentsOk(ps, length) && Loadable(ps[i])
    ensures forall n :: FirstPage(ps[i]) <= n < LastPage(ps[i]) ==> n !in ImageFlags(ps[..i])
  {
    hide PageDisjoint, SegmentOk, FirstPage, LastPage;
    forall n | FirstPage(ps[i]) <= n < LastPage(ps[i]) ensures n !in ImageFlags(ps[..i]) {
      ImageFlagsExact(ps[..i], length, n);
      forall k | 0 <= k < i && Loadable(ps[k]) ensures !InSegment(ps[..i], k, n) {
        DisjointPages(ps[i], ps[k], n);
      }
    }
  }

  // ---------------------------------------------------------------- mapping and loading

  /** The kernel directory has no tables between the user program base and the top of the user stack. */
  ghost predicate UserRangeFree(shared: seq<int>) {
    |shared| == ENTRIES && forall k :: 1 <= k < 768 ==> shared[k] == 0
  }

  ghost predicate Ready(spaces: AddressSpaces, d: int)
    reads spaces, spaces.bitmap, spaces.bitmap.words
  {
    spaces.Valid() && d in spaces.dirs && d != spaces.kernel && UserRangeFree(spaces.Others(d).shared)
  }

  lemma UserSlot(n: nat)
    requires 0x400 <= n < 0xC_0000
    ensures 1 <= n / ENTRIES < 768 && n < ENTRIES * ENTRIES
  {
  }

  lemma MemoryBounds(space: Space)
    requires WholePages(space)
    ensures forall n :: n in FlagsOf(space) ==> n < ENTRIES * ENTRIES
    ensures forall a :: a in MemOf(space) ==> 0 <= a < 0x1_0000_0000
  {
  }

  lemma StillFree(flags: map<nat, bool>, from: nat, n: nat)
    requires from <= n < ENTRIES * ENTRIES
    ensures n in WithPages(flags, from, n, true) <==> n in flags
  {
  }

  /** Pages [from, to) mapped one by one, writable and zeroed; a page already present is refused. */
  method MapPages(spaces: AddressSpaces, d: int, from: nat, to: nat) returns (r: MapResult)
    requires Ready(spaces, d) && 0x400 <= from <= to <= 0xC_0000
    modifies spaces`tables, spaces`dirs, spaces`next, spaces`home, spaces`owner, spaces`phys, spaces.bitmap.words
    ensures r == OutOfMemory ==> spaces.bitmap.Valid() && spaces.bitmap.Full()
    ensures r != OutOfMemory ==>
              Ready(spaces, d) && spaces.dirs.Keys == old(spaces.dirs).Keys && spaces.Others(d) == old(spaces.Others(d))
    ensures r != OutOfMemory ==> (r == PageMapped <==> forall n :: from <= n < to ==> n !in old(spaces.Flags(d)))
    ensures r == PageMapped ==> spaces.Flags(d) == WithPages(old(spaces.Flags(d)), from, to, true)
    ensures r == PageMapped ==> spaces.Memory(d) == WithZeroPages(old(spaces.Memory(d)), from, to)
  {
    hide MemOf, FlagsOf, WithZeroPages, WithPages, Outside, TablesOk, LinksOk, HomesOk, OwnersOk, UserOk, SpaceOf;
    ghost var flags0, mem0 := spaces.Flags(d), spaces.Memory(d);
    spaces.SpaceShaped(d);
    MemoryBounds(spaces.Space(d));
    NoPages(flags0, mem0, from, true);
    var n := from;
    while n < to
      invariant from <= n <= to && Ready(spaces, d)
      invariant spaces.dirs.Keys == old(spaces.dirs).Keys && spaces.Others(d) == old(spaces.Others(d))
      invariant spaces.Flags(d) == WithPages(flags0, from, n, true) && spaces.Memory(d) == WithZeroPages(mem0, from, n)
      invariant forall k :: from <= k < n ==> k !in flags0
    {
      UserSlot(n);
      spaces.SharedSlots();
      StillFree(flags0, from, n);
      r := spaces.MapPage(d, n);
      if r != PageMapped { return; }
      OnePageMore(flags0, mem0, from, n, true);
      n := n + 1;
    }
    r := PageMapped;
  }

  /** `page->rw` of pages [from, to) set as the segment's W flag says. */
  method ProtectPages(spaces: AddressSpaces, d: int, from: nat, to: nat, w: bool, ghost before: map<nat, bool>)
    requires Ready(spaces, d) && from <= to <= ENTRIES * ENTRIES && spaces.Flags(d) == WithPages(before, from, to, true)
    modifies spaces`tables
    ensures Ready(spaces, d) && spaces.Others(d) == old(spaces.Others(d))
    ensures spaces.Flags(d) == WithPages(before, from, to, w) && spaces.Memory(d) == old(spaces.Memory(d))
  {
    hide MemOf, FlagsOf, WithPages, Outside, TablesOk, LinksOk, HomesOk, OwnersOk, UserOk, SpaceOf;
    ghost var all := WithPages(before, from, to, true);
    AllPages(before, from, to, w);
    var n := from;
    while n < to
      invariant from <= n <= to && Ready(spaces, d)
      invariant spaces.Others(d) == old(spaces.Others(d)) && spaces.Memory(d) == old(spaces.Memory(d))
      invariant spaces.Flags(d) == WithPages(all, from, n, w)
    {
      PagesTwice(before, from, n, to, w);
      spaces.Protect(d, n, w);
      n := n + 1;
    }
  }

  /** The body of the loop over program headers, for one loadable segment. */
  method LoadSegment(spaces: AddressSpaces, d: int, file: seq<Byte>, p: Program) returns (r: MapResult)
    requires Ready(spaces, d) && SegmentOk(p, |file|) && Loadable(p)
    modifies spaces`tables, spaces`dirs, spaces`next, spaces`home, spaces`owner, spaces`phys, spaces.bitmap.words
    ensures r == OutOfMemory ==> spaces.bitmap.Valid() && spaces.bitmap.Full()
    ensures r != OutOfMemory ==>
              Ready(spaces, d) && spaces.dirs.Keys == old(spaces.dirs).Keys && spaces.Others(d) == old(spaces.Others(d))
    ensures r != OutOfMemory ==>
              (r == PageMapped <==> forall n :: FirstPage(p) <= n < LastPage(p) ==> n !in old(spaces.Flags(d)))
    ensures r == PageMapped ==>
              spaces.Flags(d) == WithPages(old(spaces.Flags(d)), FirstPage(p), LastPage(p), Writable(p))
    ensures r == PageMapped ==> spaces.Memory(d) == WithSegment(old(spaces.Memory(d)), p, file)
  {
    hide MemOf, FlagsOf, WithPages, WithZeroPages, Outside, TablesOk, LinksOk, HomesOk, OwnersOk, UserOk, SpaceOf;
    ghost var flags0, mem0 := spaces.Flags(d), spaces.Memory(d);
    SegmentPages(p, |file|);
    r := MapPages(spaces, d, FirstPage(p), LastPage(p));
    if r != PageMapped { return; }
    var ok, data := ReadExact(file, p.fileOffset, p.fileSize);
    assert ok && data == file[p.fileOffset..p.fileOffset + p.fileSize];
    SegmentMapped(mem0, p, |file|);
    spaces.Poke(d, p.vaddr, data);
    ProtectPages(spaces, d, FirstPage(p), LastPage(p), Writable(p), flags0);
  }

  /** map_and_load_segments into a directory with no private pages: the `already present` failure never happens, and
      the result is the image. */
  method MapAndLoadSegments(spaces: AddressSpaces, d: int, file: seq<Byte>, ps: seq<Program>) returns (r: MapResult)
    requires Ready(spaces, d) && SegmentsOk(ps, |file|) && spaces.Space(d) == map[]
    modifies spaces`tables, spaces`dirs, spaces`next, spaces`home, spaces`owner, spaces`phys, spaces.bitmap.words
    ensures r != AlreadyPresent && (r == OutOfMemory ==> spaces.bitmap.Valid() && spaces.bitmap.Full())
    ensures r == PageMapped ==>
              Ready(spaces, d) && spaces.dirs.Keys == old(spaces.dirs).Keys && spaces.Others(d) == old(spaces.Others(d))
    ensures r == PageMapped ==> spaces.Flags(d) == ImageFlags(ps) && spaces.Memory(d) == ImageMemory(ps, file)
  {
    hide Outside, TablesOk, LinksOk, HomesOk, OwnersOk, UserOk, SpaceOf, PageDisjoint, SegmentOk, SegmentsOk,
         WithSegment, WithPages;
    EmptySpace();
    hide FlagsOf, MemOf;
    var i := 0;
    while i < |ps|
      invariant i <= |ps| && Ready(spaces, d) && spaces.dirs.Keys == old(spaces.dirs).Keys
      invariant spaces.Others(d) == old(spaces.Others(d)) && Placeable(ps[..i], |file|)
      invariant spaces.Flags(d) == ImageFlags(ps[..i]) && spaces.Memory(d) == ImageMemory(ps[..i], file)
    {
      ImageStep(ps, i, |file|);
      if Loadable(ps[i]) {
        NotYetPresent(ps, i, |file|);
        r := LoadSegment(spaces, d, file, ps[i]);
        if r != PageMapped { return; }
      }
      i := i + 1;
    }
    assert ps[..i] == ps;
    r := PageMapped;
  }
}
