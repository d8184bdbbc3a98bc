/** task_sbrk of src/task.c: the program break, and the heap pages mapped behind it. */
module UserHeap {
  import opened Memory
  import opened PageTables
  import opened Paging
  import opened Processes
  import opened Elf
  import opened Loader
  import opened Exec

  const USER_HEAP_START := 0x4000_0000

  /** The heap fields of a process; `highest` is the highest break since its program started. */
  datatype HeapFields = HeapFields(start: nat, end: nat, mappedEnd: nat, limit: nat, highest: nat)

  function EmptyHeap(at: nat): HeapFields {
    HeapFields(at, at, at, USER_HEAP_LIMIT, at)
  }

  /** start <= break <= mapped end <= limit, and the mapped end is the page-rounded highest break so far; every page
      from the start to the mapped end is present and writable, the two stack pages are, and every other page of the
      process lies below the start. */
  ghost predicate HeapOk(h: HeapFields, flags: map<nat, bool>) {
    && USER_ADDRESS_MIN <= h.start <= h.end <= h.mappedEnd <= h.limit == USER_HEAP_LIMIT
    && h.start % PAGE_SIZE == 0 && h.mappedEnd == PageUp(h.highest) && h.end <= h.highest
    && (forall n :: h.start / PAGE_SIZE <= n < h.mappedEnd / PAGE_SIZE ==> n in flags && flags[n])
    && (forall n :: FIRST_STACK_PAGE <= n < LAST_STACK_PAGE ==> n in flags && flags[n])
    && (forall n :: n in flags && h.mappedEnd / PAGE_SIZE <= n ==> FIRST_STACK_PAGE <= n < LAST_STACK_PAGE)
  }

  ghost function HeapOf(t: Task): HeapFields
    reads t
  {
    HeapFields(t.heapStart, t.heapBreak, t.heapMappedEnd, t.heapLimit, t.heapHighest)
  }

  /** What sbrk accepts: the moved break stays in the heap's range. */
  predicate Moves(t: Task, increment: int)
    reads t
  {
    t.isUser && t.heapStart <= t.heapBreak + increment <= t.heapLimit
  }

  /** The break arithmetic: no 32-bit wrap for any signed increment. */
  method NewBreak(oldBreak: nat, increment: int) returns (ok: bool, newBreak: nat)
    requires oldBreak <= U32_MAX && -0x8000_0000 <= increment < 0x8000_0000
    ensures ok <==> 0 <= oldBreak + increment <= U32_MAX
    ensures ok ==> newBreak == oldBreak + increment
  {
    if increment >= 0 {
      var growth := increment;
      if growth > U32_MAX - oldBreak { return false, 0; }
      return true, oldBreak + growth;
    }
    var word := increment + 0x1_0000_0000;
    var shrink := (0x1_0000_0000 - word) % 0x1_0000_0000;
    if shrink > oldBreak { return false, 0; }
    return true, oldBreak - shrink;
  }

  datatype SbrkResult = OldBreak(value: nat) | Refused | Panics

  /** task_sbrk: answers the old break and moves it exactly when the new one is in range; the mapped end is the
      page-rounded highest break so far, new pages read as zero, old ones are untouched, and shrinking keeps pages
      mapped. */
  method TaskSbrk(t: Task, spaces: AddressSpaces, increment: int) returns (r: SbrkResult)
    requires -0x8000_0000 <= increment < 0x8000_0000
    requires t.isUser ==> Ready(spaces, t.directory) && HeapOk(HeapOf(t), spaces.Flags(t.directory))
    modifies spaces`tables, spaces`dirs, spaces`next, spaces`home, spaces`owner, spaces`phys, spaces.bitmap.words,
             t`heapBreak, t`heapMappedEnd, t`heapHighest
    ensures r == Panics ==> spaces.bitmap.Valid() && spaces.bitmap.Full()
    ensures r != Panics ==> (r != Refused <==> old(Moves(t, increment)))
    ensures r == Refused ==> HeapOf(t) == old(HeapOf(t)) && unchanged(spaces) && unchanged(spaces.bitmap.words)
    ensures r.OldBreak? ==> r.value == old(t.heapBreak) && t.heapBreak == old(t.heapBreak) + increment
    ensures r.OldBreak? ==> Ready(spaces, t.directory) && spaces.dirs.Keys == old(spaces.dirs).Keys
    ensures r.OldBreak? ==> spaces.Others(t.directory) == old(spaces.Others(t.directory))
    ensures r.OldBreak? ==> HeapOk(HeapOf(t), spaces.Flags(t.directory))
    ensures r.OldBreak? ==>
              Broken(old(HeapOf(t)), HeapOf(t), old(spaces.Memory(t.directory)), spaces.Memory(t.directory))
  {
    hide Outside, TablesOk, LinksOk, HomesOk, OwnersOk, UserOk, SpaceOf, MemOf, FlagsOf, WithZeroPages, WithPages,
         UserRangeFree;
    if !t.isUser { return Refused; }
    var oldBreak := t.heapBreak;
    var ok, newBreak := NewBreak(oldBreak, increment);
    if !ok || newBreak < t.heapStart || newBreak > t.heapLimit { return Refused; }
    var required := PageUp(newBreak);
    ghost var flags0 := spaces.Flags(t.directory);
    LimitRounds(newBreak);
    var from := t.heapMappedEnd;
    var to := if required > from then required else from;
    ok := MapHeap(spaces, t.directory, from, to);
    if !ok { return Panics; }
    HeapGrown(HeapOf(t), flags0, to, newBreak);
    if required > t.heapMappedEnd { t.heapMappedEnd := required; }
    t.heapBreak := newBreak;
    t.heapHighest := Max(t.heapHighest, newBreak);
    r := OldBreak(oldBreak);
  }

  /** What a moved break does: the highest break is kept, the mapped end is that rounded up, pages new to the heap are
      zero and no other byte of the process changes. */
  ghost predicate Broken(before: HeapFields, after: HeapFields, m: Mem, m': Mem) {
    && after.start == before.start && after.limit == before.limit && after.highest == Max(before.highest, after.end)
    && after.mappedEnd == PageUp(after.highest)
    && m' == WithZeroPages(m, before.mappedEnd / PAGE_SIZE, after.mappedEnd / PAGE_SIZE)
  }

  /** The same in numbers: the mapped end is the least page boundary at or above the highest break, the bytes mapped in
      between are zero, and all others are as before. */
  lemma BrokenMeans(before: HeapFields, after: HeapFields, m: Mem, m': Mem, flags: map<nat, bool>,
                    flags': map<nat, bool>)
    requires Broken(before, after, m, m') && HeapOk(before, flags) && HeapOk(after, flags')
    requires forall a :: a in m ==> 0 <= a < 0x1_0000_0000
    ensures after.start == before.start && after.limit == before.limit == 0xBFF0_0000
    ensures after.highest == if after.end > before.highest then after.end else before.highest
    ensures after.mappedEnd % 4096 == 0 && after.highest <= after.mappedEnd < after.highest + 4096
    ensures before.mappedEnd <= after.mappedEnd
    ensures forall a :: before.mappedEnd <= a < after.mappedEnd ==> a in m' && m'[a] == 0
    ensures forall a ::
              !(before.mappedEnd <= a < after.mappedEnd) ==> (a in m' <==> a in m) && (a in m ==> m'[a] == m[a])
  {
    PagesBetween(before.mappedEnd, after.mappedEnd);
    RoundsUp(before.highest, after.highest);
  }

  lemma RoundsUp(x: nat, y: nat)
    requires x <= y
    ensures PageUp(x) <= PageUp(y)
  {
  }

  lemma PagesBetween(from: nat, to: nat)
    requires from % PAGE_SIZE == 0 && to % PAGE_SIZE == 0
    ensures forall a :: from / PAGE_SIZE <= PageOf(a) < to / PAGE_SIZE <==> from <= a < to
  {
  }

  lemma LimitRounds(a: nat)
    requires a <= USER_HEAP_LIMIT
    ensures PageUp(a) <= USER_HEAP_LIMIT
  {
  }

  lemma HeapGrown(h: HeapFields, flags: map<nat, bool>, to: nat, newBreak: nat)
    requires HeapOk(h, flags) && h.start <= newBreak <= h.limit && to == Max(h.mappedEnd, PageUp(newBreak))
    ensures to == PageUp(Max(h.highest, newBreak)) && h.mappedEnd <= to <= USER_HEAP_LIMIT && to % PAGE_SIZE == 0
    ensures HeapOk(h.(end := newBreak, mappedEnd := to, highest := Max(h.highest, newBreak)),
                   WithPages(flags, h.mappedEnd / PAGE_SIZE, to / PAGE_SIZE, true))
  {
    LimitRounds(newBreak);
    RoundsInOrder(h.highest, newBreak);
    hide PageUp;
  }

  function Max(a: nat, b: nat): nat {
    if a < b then b else a
  }

  lemma RoundsInOrder(a: nat, b: nat)
    ensures PageUp(Max(a, b)) == Max(PageUp(a), PageUp(b))
  {
  }

  /** The loop over newly required heap pages. */
  method MapHeap(spaces: AddressSpaces, d: int, from: nat, to: nat) returns (ok: bool)
    requires Ready(spaces, d) && USER_ADDRESS_MIN <= from <= to <= USER_HEAP_LIMIT && from % PAGE_SIZE == 0
    requires to % PAGE_SIZE == 0
    requires forall n :: from / PAGE_SIZE <= n < to / PAGE_SIZE ==> n !in spaces.Flags(d)
    modifies spaces`tables, spaces`dirs, spaces`next, spaces`home, spaces`owner, spaces`phys, spaces.bitmap.words
    ensures !ok ==> spaces.bitmap.Valid() && spaces.bitmap.Full()
    ensures ok ==>
              Ready(spaces, d) && spaces.dirs.Keys == old(spaces.dirs).Keys && spaces.Others(d) == old(spaces.Others(d))
    ensures ok ==> spaces.Flags(d) == WithPages(old(spaces.Flags(d)), from / PAGE_SIZE, to / PAGE_SIZE, true)
    ensures ok ==> spaces.Memory(d) == WithZeroPages(old(spaces.Memory(d)), from / PAGE_SIZE, to / PAGE_SIZE)
  {
    hide MemOf, FlagsOf, WithZeroPages, WithPages, Outside, TablesOk, LinksOk, HomesOk, OwnersOk, UserOk, SpaceOf;
    ghost var flags0, mem0 := spaces.Flags(d), spaces.Memory(d);
    ghost var first := from / PAGE_SIZE;
    spaces.SpaceShaped(d);
    MemoryBounds(spaces.Space(d));
    NoPages(flags0, mem0, first, true);
    var address := from;
    while address < to
      invariant from <= address <= to && address % PAGE_SIZE == 0 && Ready(spaces, d)
      invariant spaces.dirs.Keys == old(spaces.dirs).Keys && spaces.Others(d) == old(spaces.Others(d))
      invariant spaces.Flags(d) == WithPages(flags0, first, address / PAGE_SIZE, true)
      invariant spaces.Memory(d) == WithZeroPages(mem0, first, address / PAGE_SIZE)
    {
      var n := address / PAGE_SIZE;
      PageOfAddress(address, from, to);
      UserSlot(n);
      spaces.SharedSlots();
      StillFree(flags0, first, n);
      ok := spaces.AttachPage(d, n);
      if !ok { return; }
      OnePageMore(flags0, mem0, first, n, true);
      address := address + PAGE_SIZE;
    }
    ok := true;
  }

  lemma PageOfAddress(a: nat, from: nat, to: nat)
    requires USER_ADDRESS_MIN <= from <= a < to <= USER_HEAP_LIMIT && a % PAGE_SIZE == 0 && from % PAGE_SIZE == 0
    requires to % PAGE_SIZE == 0
    ensures 0x400 <= from / PAGE_SIZE <= a / PAGE_SIZE < to / PAGE_SIZE <= 0xB_FF00
    ensures (a + PAGE_SIZE) / PAGE_SIZE == a / PAGE_SIZE + 1
  {
  }

  /** A program that exec has just installed starts with an empty heap above its segments. */
  lemma NewProgramHeap(ps: seq<Program>, length: nat, entry: nat)
    requires SegmentsOk(ps, length) && HeapFits(ps) && EntryOk(ps, entry)
    ensures HeapOk(EmptyHeap(PageUp(Highest(ps))), ProgramFlags(ps))
  {
    HighestMeans(ps);
    var top := PageUp(Highest(ps));
    forall n | n in ProgramFlags(ps) && top / PAGE_SIZE <= n ensures FIRST_STACK_PAGE <= n < LAST_STACK_PAGE {
      ImageFlagsExact(ps, length, n);
      forall i | 0 <= i < |ps| && Loadable(ps[i]) ensures !InSegment(ps, i, n) { HeapAboveSegments(ps, length, i); }
    }
  }
}
