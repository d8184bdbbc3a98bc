/** Accesses to a process's own addresses: stores by the program itself, and the kernel's copies through its
    pointers. */
module UserMemory {
  import opened Memory
  import opened PageTables
  import opened Paging
  import opened Processes
  import opened Loader

  /** The bytes from a on lie where only a process's own pages can be. */
  predicate InUserRange(a: nat, length: nat) {
    USER_ADDRESS_MIN <= a && a + length <= USER_STACK_TOP
  }

  lemma UserPageNumber(a: nat)
    requires InUserRange(a, 1)
    ensures 0x400 <= PageOf(a) < 0xC_0000
  {
  }

  /** In the user range a directory sees its own tables only. */
  lemma OwnTables(spaces: AddressSpaces, d: int, n: nat)
    requires Ready(spaces, d) && 0x400 <= n < 0xC_0000
    ensures n < ENTRIES * ENTRIES && spaces.dirs[spaces.kernel][n / ENTRIES] == 0
  {
    hide TablesOk, LinksOk, HomesOk, OwnersOk, UserOk, SpaceOf, Outside;
    UserSlot(n);
    spaces.SharedSlots();
  }

  /** A byte is mapped exactly when its page is present. */
  lemma MappedByte(spaces: AddressSpaces, d: int, a: nat)
    requires spaces.Valid() && d in spaces.dirs
    ensures a in spaces.Memory(d) <==> PageOf(a) in spaces.Flags(d)
  {
    spaces.SpaceShaped(d);
    hide OwnersOk, UserOk, LinksOk, HomesOk, SpaceOf, TablesOk, PageOf;
    if PageOf(a) in spaces.Flags(d) { spaces.FlagsReach(d, PageOf(a)); }
    if a in spaces.Memory(d) { MemAt(spaces.Space(d), a); }
  }

  /** One byte stored by the program: it goes through exactly when the page is one of the process's own that is
      writable, and faults otherwise. */
  method StoreByUser(spaces: AddressSpaces, d: int, a: nat, b: Byte) returns (ok: bool)
    requires Ready(spaces, d) && InUserRange(a, 1)
    modifies spaces`phys
    ensures ok <==> PageOf(a) in old(spaces.Flags(d)) && old(spaces.Flags(d))[PageOf(a)]
    ensures Ready(spaces, d) && spaces.Others(d) == old(spaces.Others(d)) && spaces.Flags(d) == old(spaces.Flags(d))
    ensures ok ==> a in old(spaces.Memory(d)) && spaces.Memory(d) == old(spaces.Memory(d))[a := b]
    ensures !ok ==> unchanged(spaces)
  {
    hide TablesOk, LinksOk, HomesOk, OwnersOk, UserOk, SpaceOf, Outside, MemOf, FlagsOf, UserRangeFree, PageOf;
    UserPageNumber(a);
    OwnTables(spaces, d, PageOf(a));
    spaces.UserPages(d, PageOf(a));
    ok := spaces.UserWritable(d, PageOf(a));
    if !ok { return; }
    spaces.FlagsReach(d, PageOf(a));
    spaces.PokeByte(d, a, b);
  }

  /** The kernel's copy of bytes to a pointer in the user range, byte by byte: supervisor stores ignore write
      protection, so it goes through exactly when every page is present, and faults at the first that is not. */
  method CopyOut(spaces: AddressSpaces, d: int, at: nat, bytes: seq<Byte>) returns (ok: bool)
    requires Ready(spaces, d) && InUserRange(at, |bytes|)
    modifies spaces`phys
    ensures ok <==> Mapped(old(spaces.Memory(d)), at, |bytes|)
    ensures Ready(spaces, d) && spaces.Others(d) == old(spaces.Others(d)) && spaces.Flags(d) == old(spaces.Flags(d))
    ensures ok ==> spaces.Memory(d) == Overlay(old(spaces.Memory(d)), at, bytes)
  {
    hide Ready, AddressSpaces.Others, AddressSpaces.Memory, AddressSpaces.Flags, Overlay;
    ghost var m := spaces.Memory(d);
    OverlayNone(m, at, bytes);
    var i := 0;
    while i < |bytes|
      invariant i <= |bytes| && Ready(spaces, d)
      invariant spaces.Others(d) == old(spaces.Others(d)) && spaces.Flags(d) == old(spaces.Flags(d))
      invariant Mapped(m, at, i) && spaces.Memory(d) == Overlay(m, at, bytes[..i])
    {
      ok := CopyByte(spaces, d, at + i, bytes[i]);
      OverlaySame(m, at, bytes[..i]);
      if !ok { return; }
      OverlayStep(m, at, bytes, i);
      i := i + 1;
    }
    assert bytes[..i] == bytes;
    ok := true;
  }

  method CopyByte(spaces: AddressSpaces, d: int, a: nat, b: Byte) returns (ok: bool)
    requires Ready(spaces, d) && InUserRange(a, 1)
    modifies spaces`phys
    ensures ok <==> a in old(spaces.Memory(d))
    ensures Ready(spaces, d) && spaces.Others(d) == old(spaces.Others(d)) && spaces.Flags(d) == old(spaces.Flags(d))
    ensures ok ==> spaces.Memory(d) == old(spaces.Memory(d))[a := b]
  {
    hide TablesOk, LinksOk, HomesOk, OwnersOk, UserOk, SpaceOf, Outside, MemOf, FlagsOf, UserRangeFree, PageOf;
    UserPageNumber(a);
    OwnTables(spaces, d, PageOf(a));
    MappedByte(spaces, d, a);
    ok := spaces.PagePresent(d, PageOf(a));
    if ok { spaces.PokeByte(d, a, b); }
  }

  lemma OverlayNone(m: Mem, a: int, bytes: seq<Byte>)
    ensures Overlay(m, a, bytes[..0]) == m
  {
  }

  lemma OverlaySame(m: Mem, a: int, bytes: seq<Byte>)
    ensures Overlay(m, a, bytes).Keys == m.Keys
  {
  }

  lemma OverlayStep(m: Mem, a: int, bytes: seq<Byte>, i: nat)
    requires i < |bytes| && Mapped(m, a, i) && a + i in m
    ensures Mapped(m, a, i + 1) && Overlay(m, a, bytes[..i])[a + i := bytes[i]] == Overlay(m, a, bytes[..i + 1])
  {
  }

  /** A 32-bit word as it lies in memory. */
  function WordBytes(w: nat): (bytes: seq<Byte>)
    requires w <= U32_MAX
    ensures |bytes| == 4
  {
    [w % 256, w / 256 % 256, w / 0x1_0000 % 256, w / 0x100_0000]
  }

  /** A word that was copied out reads back. */
  lemma WordCopied(m: Mem, a: int, w: nat)
    requires w <= U32_MAX && Mapped(m, a, 4)
    ensures Load32(Overlay(m, a, WordBytes(w)), a) == w
    ensures SameOutside(m, Overlay(m, a, WordBytes(w)), a, a + 4)
  {
    var m' := Overlay(m, a, WordBytes(w));
    assert a in m && a + 1 in m && a + 2 in m && a + 3 in m;
    assert LoadLE(m', a + 3, 1) == w / 0x100_0000;
    assert LoadLE(m', a + 2, 2) == w / 0x1_0000 && LoadLE(m', a + 1, 3) == w / 256;
  }
}
