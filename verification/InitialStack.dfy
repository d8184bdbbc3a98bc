/** build_initial_stack of src/exec.c: the argument strings, the argv and envp vectors and argc on a fresh stack. */
module InitialStack {
  import opened Memory
  import opened Arguments
  import opened PageTables
  import opened Paging
  import opened Processes
  import opened Loader

  lemma OverlayNothing(m: Mem, a: int)
    ensures Overlay(m, a, []) == m
  {
  }

  lemma OverlayTwice(m: Mem, a: int, xs: seq<Byte>, ys: seq<Byte>)
    ensures Overlay(Overlay(m, a + |xs|, ys), a, xs) == Overlay(m, a, xs + ys)
  {
  }

  // ---------------------------------------------------------------- what the program's entry code sees

  /** A NUL-terminated string in memory. */
  ghost predicate StringAt(m: Mem, a: int, s: seq<Byte>) {
    && Mapped(m, a, |s| + 1)
    && (forall i :: 0 <= i < |s| ==> m[a + i] == s[i]) && m[a + |s|] == 0
  }

  /** argc at the stack pointer, then argv ending in a null pointer, then an empty envp. */
  ghost predicate Decodes(m: Mem, sp: int, strings: seq<seq<Byte>>) {
    && Load32(m, sp) == |strings|
    && (forall i :: 0 <= i < |strings| ==> StringAt(m, Load32(m, sp + 4 + 4 * i), strings[i]))
    && Load32(m, sp + 4 + 4 * |strings|) == 0
    && Load32(m, sp + 8 + 4 * |strings|) == 0
  }

  /** The vector pushed: argc, the addresses of the strings, two null pointers. */
  ghost function StackWords(offsets: seq<nat>, base: nat): (words: seq<nat>)
    ensures |words| == |offsets| + 3
  {
    [|offsets|] + seq(|offsets|, i requires 0 <= i < |offsets| => base + offsets[i]) + [0, 0]
  }

  /** The whole stack: packed strings against the top, the vector at sp. */
  ghost function StackImage(m: Mem, request: Request, sp: nat): Mem
    requires |request.storage| <= ARGUMENT_BYTES_MAX
  {
    var base := USER_STACK_TOP - |request.storage|;
    StoreWords(Overlay(m, base, request.storage), sp, StackWords(request.offsets, base))
  }

  function StackPointer(request: Request): int {
    Aligned(Aligned(USER_STACK_TOP - |request.storage|) - 4 * (|request.offsets| + 3))
  }

  /** `& ~0xF`. */
  function Aligned(x: int): int {
    x - x % 16
  }

  lemma {:induction false} PackedSlice(strings: seq<seq<Byte>>, i: nat)
    requires i < |strings|
    ensures |Packed(strings[..i])| + |strings[i]| + 1 <= |Packed(strings)|
    ensures Packed(strings)[|Packed(strings[..i])|..|Packed(strings[..i])| + |strings[i]| + 1] == strings[i] + [0]
  {
    hide Packed;
    var k := |strings| - 1;
    PackedLast(strings);
    var part, last := Packed(strings[..k]), strings[k] + [0];
    if i == k {
      assert (part + last)[|part|..|part| + |last|] == last;
    } else {
      PackedSlice(strings[..k], i);
      assert strings[..k][..i] == strings[..i];
      var lo := |Packed(strings[..i])|;
      var hi := lo + |strings[i]| + 1;
      assert (part + last)[lo..hi] == part[lo..hi];
    }
  }

  lemma PackedLast(strings: seq<seq<Byte>>)
    requires strings != []
    ensures var k := |strings| - 1; Packed(strings) == Packed(strings[..k]) + (strings[k] + [0])
  {
  }

  lemma {:induction false} PackedLength(strings: seq<seq<Byte>>)
    ensures |Packed(strings)| >= |strings|
  {
    if strings != [] { PackedLength(strings[..|strings| - 1]); }
  }

  /** The stack pointer leaves room for everything, on both sides. */
  lemma StackPointerFits(request: Request)
    requires |request.offsets| < ARGUMENT_MAX && |request.storage| <= ARGUMENT_BYTES_MAX
    ensures StackPointer(request) % 16 == 0 && STACK_BOTTOM <= StackPointer(request)
    ensures StackPointer(request) + 4 * (|request.offsets| + 3) <= USER_STACK_TOP - |request.storage|
  {
  }

  lemma StringInOverlay(m: Mem, base: int, storage: seq<Byte>, strings: seq<seq<Byte>>, i: nat)
    requires storage == Packed(strings) && i < |strings| && Mapped(m, base, |storage|)
    ensures StringAt(Overlay(m, base, storage), base + |Packed(strings[..i])|, strings[i])
  {
    PackedSlice(strings, i);
    var at := |Packed(strings[..i])|;
    var piece := storage[at..at + |strings[i]| + 1];
    forall j | 0 <= j < |strings[i]| + 1 ensures storage[at + j] == (strings[i] + [0])[j] && base + at + j in m {
      assert piece[j] == storage[at + j];
    }
  }

  lemma StringKept(m: Mem, m': Mem, a: int, s: seq<Byte>)
    requires StringAt(m, a, s) && SameOn(m, m', a, a + |s| + 1)
    ensures StringAt(m', a, s)
  {
  }

  /** The round trip: what was captured is what the entry code reads. */
  lemma StackDecodes(m: Mem, request: Request, strings: seq<seq<Byte>>)
    requires LaidOut(strings, request.offsets, request.storage)
    requires |strings| < ARGUMENT_MAX && |request.storage| <= ARGUMENT_BYTES_MAX
    requires Mapped(m, STACK_BOTTOM, TASK_STACK_SIZE)
    ensures Decodes(StackImage(m, request, StackPointer(request)), StackPointer(request), strings)
    ensures SameOutside(m, StackImage(m, request, StackPointer(request)), StackPointer(request), USER_STACK_TOP)
  {
    hide Packed, Load32, Store32, StoreWords, StringAt;
    var sp, base, n := StackPointer(request), USER_STACK_TOP - |request.storage|, |strings|;
    var words := StackWords(request.offsets, base);
    var m1 := Overlay(m, base, request.storage);
    var m2 := StoreWords(m1, sp, words);
    StackPointerFits(request);
    assert Mapped(m1, sp, 4 * |words|);
    StoreWordsFrame(m1, sp, words);
    forall k | 0 <= k < |words| ensures words[k] <= U32_MAX {
      if 1 <= k <= n { OffsetInside(strings, k - 1); }
    }
    forall k | 0 <= k < |words| ensures Load32(m2, sp + 4 * k) == words[k] { WordReadsBack(m1, sp, words, k); }
    assert words[n + 1] == 0 && words[n + 2] == 0 && words[0] == n;
    assert Load32(m2, sp + 4 * 0) == n && Load32(m2, sp + 4 * (n + 1)) == 0 && Load32(m2, sp + 4 * (n + 2)) == 0;
    forall i | 0 <= i < n ensures StringAt(m2, Load32(m2, sp + 4 + 4 * i), strings[i]) {
      OffsetInside(strings, i);
      var a := base + request.offsets[i];
      assert words[i + 1] == a && Load32(m2, sp + 4 * (i + 1)) == a;
      StringInOverlay(m, base, request.storage, strings, i);
      OutsideOn(m1, m2, sp, sp + 4 * |words|, a, a + |strings[i]| + 1);
      StringKept(m1, m2, a, strings[i]);
    }
    OutsideTwice(m, m1, m2, base, USER_STACK_TOP, sp, sp + 4 * |words|, sp, USER_STACK_TOP);
  }

  lemma OffsetInside(strings: seq<seq<Byte>>, i: nat)
    requires i < |strings|
    ensures |Packed(strings[..i])| + |strings[i]| + 1 <= |Packed(strings)|
  {
    PackedSlice(strings, i);
  }

  // ---------------------------------------------------------------- building it

  /** strlen of the string at offset at. */
  method StringLength(storage: seq<Byte>, at: nat, ghost s: seq<Byte>) returns (length: nat)
    requires at + |s| < |storage| && storage[at..at + |s| + 1] == s + [0] && forall i :: 0 <= i < |s| ==> s[i] != 0
    ensures length == |s|
  {
    ghost var piece := storage[at..at + |s| + 1];
    assert forall i :: 0 <= i <= |s| ==> storage[at + i] == piece[i];
    length := 0;
    while storage[at + length] != 0
      invariant length <= |s|
      decreases |s| - length
    {
      length := length + 1;
    }
  }

  /** Strings copied downward from the top of the stack, last argument first. */
  method CopyStrings(spaces: AddressSpaces, d: int, request: Request, ghost strings: seq<seq<Byte>>)
      returns (sp: nat, addresses: seq<nat>)
    requires Ready(spaces, d) && LaidOut(strings, request.offsets, request.storage)
    requires |strings| < ARGUMENT_MAX && |request.storage| <= ARGUMENT_BYTES_MAX
    requires forall i, j :: 0 <= i < |strings| && 0 <= j < |strings[i]| ==> strings[i][j] != 0
    requires Mapped(spaces.Memory(d), STACK_BOTTOM, TASK_STACK_SIZE)
    modifies spaces`phys
    ensures Ready(spaces, d) && spaces.Others(d) == old(spaces.Others(d)) && spaces.Flags(d) == old(spaces.Flags(d))
    ensures sp == USER_STACK_TOP - |request.storage| && |addresses| == |request.offsets|
    ensures forall i :: 0 <= i < |addresses| ==> addresses[i] == sp + request.offsets[i]
    ensures spaces.Memory(d) == Overlay(old(spaces.Memory(d)), sp, request.storage)
  {
    hide Outside, TablesOk, LinksOk, HomesOk, OwnersOk, UserOk, SpaceOf, FlagsOf, MemOf, Packed, Overlay;
    ghost var m := spaces.Memory(d);
    ghost var base := USER_STACK_TOP - |request.storage|;
    sp, addresses := USER_STACK_TOP, [];
    ghost var from := |request.storage|;
    var reverse := |request.offsets|;
    AllPacked(strings);
    assert request.storage[from..] == [];
    OverlayNothing(m, sp);
    while reverse > 0
      invariant 0 <= reverse <= |strings| && from == |Packed(strings[..reverse])| <= |request.storage|
      invariant sp == base + from
      invariant Ready(spaces, d) && spaces.Others(d) == old(spaces.Others(d)) && spaces.Flags(d) == old(spaces.Flags(d))
      invariant |addresses| == |strings| - reverse
      invariant forall i :: reverse <= i < |strings| ==> addresses[i - reverse] == base + request.offsets[i]
      invariant spaces.Memory(d) == Overlay(m, sp, request.storage[from..])
    {
      var index := reverse - 1;
      PackedSlice(strings, index);
      PackedUpTo(strings, index);
      var text := StringLength(request.storage, request.offsets[index], strings[index]);
      var length := text + 1;
      if length > sp - STACK_BOTTOM { assert false; }
      sp := sp - length;
      CopyString(spaces, d, sp, request.storage, request.offsets[index], length, m);
      addresses := [sp] + addresses;
      from := from - length;
      reverse := index;
    }
    NothingPacked(strings);
    assert request.storage[from..] == request.storage;
  }

  /** memcpy of one string just below those already copied. */
  method CopyString(spaces: AddressSpaces, d: int, sp: nat, storage: seq<Byte>, at: nat, length: nat, ghost m: Mem)
    requires Ready(spaces, d) && at + length <= |storage| && Mapped(m, sp, length)
    requires spaces.Memory(d) == Overlay(m, sp + length, storage[at + length..])
    modifies spaces`phys
    ensures Ready(spaces, d) && spaces.Others(d) == old(spaces.Others(d)) && spaces.Flags(d) == old(spaces.Flags(d))
    ensures spaces.Memory(d) == Overlay(m, sp, storage[at..])
  {
    hide Outside, TablesOk, LinksOk, HomesOk, OwnersOk, UserOk, SpaceOf, FlagsOf, MemOf;
    OverlayTwice(m, sp, storage[at..at + length], storage[at + length..]);
    assert storage[at..at + length] + storage[at + length..] == storage[at..];
    spaces.Poke(d, sp, storage[at..at + length]);
  }

  lemma AllPacked(strings: seq<seq<Byte>>)
    ensures strings[..|strings|] == strings
  {
  }

  lemma NothingPacked(strings: seq<seq<Byte>>)
    ensures Packed(strings[..0]) == []
  {
  }

  lemma PackedUpTo(strings: seq<seq<Byte>>, i: nat)
    requires i < |strings|
    ensures |Packed(strings[..i + 1])| == |Packed(strings[..i])| + |strings[i]| + 1
  {
    PackedNext(strings, i);
  }

  /** The PUSH_STACK sequence: two null pointers, the argument addresses from last to first, argc. */
  method PushVectors(spaces: AddressSpaces, d: int, top: nat, addresses: seq<nat>, ghost words: seq<nat>)
      returns (sp: nat)
    requires Ready(spaces, d) && words == [|addresses|] + addresses + [0, 0] && top - 4 * |words| >= STACK_BOTTOM
    requires top <= USER_STACK_TOP
    requires Mapped(spaces.Memory(d), STACK_BOTTOM, TASK_STACK_SIZE)
    modifies spaces`phys
    ensures Ready(spaces, d) && spaces.Others(d) == old(spaces.Others(d)) && spaces.Flags(d) == old(spaces.Flags(d))
    ensures sp == top - 4 * |words| && spaces.Memory(d) == StoreWords(old(spaces.Memory(d)), sp, words)
  {
    hide Outside, TablesOk, LinksOk, HomesOk, OwnersOk, UserOk, SpaceOf, FlagsOf, MemOf, StoreWords, UserRangeFree;
    ghost var m, n := spaces.Memory(d), |words|;
    WordsFrom(m, top, words, n);
    sp := Push(spaces, d, top, 0, m, words, n - 1);
    sp := Push(spaces, d, sp, 0, m, words, n - 2);
    var reverse := |addresses|;
    while reverse > 0
      invariant 0 <= reverse <= |addresses| && sp == top - 4 * (n - 1 - reverse)
      invariant Ready(spaces, d) && spaces.Others(d) == old(spaces.Others(d)) && spaces.Flags(d) == old(spaces.Flags(d))
      invariant spaces.Memory(d) == StoreWords(m, sp, words[reverse + 1..])
    {
      sp := Push(spaces, d, sp, addresses[reverse - 1], m, words, reverse);
      reverse := reverse - 1;
    }
    sp := Push(spaces, d, sp, |addresses|, m, words, 0);
    assert words[0..] == words;
  }

  lemma WordsFrom(m: Mem, a: int, words: seq<nat>, n: nat)
    requires n == |words|
    ensures StoreWords(m, a, words[n..]) == m
  {
  }

  /** One PUSH_STACK: word k of the vector, below those already pushed. */
  method Push(spaces: AddressSpaces, d: int, top: nat, v: nat, ghost m: Mem, ghost words: seq<nat>, ghost k: nat)
      returns (sp: nat)
    requires Ready(spaces, d) && k < |words| && words[k] == v && top >= 4
    requires spaces.Memory(d) == StoreWords(m, top, words[k + 1..])
    requires Mapped(m, top - 4, 4 * (|words| - k))
    modifies spaces`phys
    ensures Ready(spaces, d) && spaces.Others(d) == old(spaces.Others(d)) && spaces.Flags(d) == old(spaces.Flags(d))
    ensures sp == top - 4 && spaces.Memory(d) == StoreWords(m, sp, words[k..])
  {
    hide Outside, TablesOk, LinksOk, HomesOk, OwnersOk, UserOk, SpaceOf, FlagsOf, MemOf;
    assert Mapped(m, top, 4 * |words[k + 1..]|);
    StoreWordsFrame(m, top, words[k + 1..]);
    assert words[k..][1..] == words[k + 1..];
    sp := top - 4;
    spaces.PokeWord(d, sp, 4, v);
  }

  /** build_initial_stack: with an accepted request the two space checks never fail, the stack pointer is 16-byte
      aligned, and the entry code reads the captured strings back. The only failure is a stack page already present. */
  method BuildInitialStack(spaces: AddressSpaces, d: int, request: Request, ghost strings: seq<seq<Byte>>)
      returns (r: MapResult, sp: nat)
    requires Ready(spaces, d) && LaidOut(strings, request.offsets, request.storage)
    requires |strings| < ARGUMENT_MAX && |request.storage| <= ARGUMENT_BYTES_MAX
    requires forall i, j :: 0 <= i < |strings| && 0 <= j < |strings[i]| ==> strings[i][j] != 0
    modifies spaces`tables, spaces`dirs, spaces`next, spaces`home, spaces`owner, spaces`phys, spaces.bitmap.words
    ensures r == OutOfMemory ==> spaces.bitmap.Valid() && spaces.bitmap.Full()
    ensures r != OutOfMemory ==>
              Ready(spaces, d) && spaces.dirs.Keys == old(spaces.dirs).Keys && spaces.Others(d) == old(spaces.Others(d))
    ensures r != OutOfMemory ==>
              (r == PageMapped <==> forall n :: 0xB_FFFE <= n < 0xC_0000 ==> n !in old(spaces.Flags(d)))
    ensures r == PageMapped ==> spaces.Flags(d) == WithPages(old(spaces.Flags(d)), 0xB_FFFE, 0xC_0000, true)
    ensures r == PageMapped ==> sp == StackPointer(request) && sp % 16 == 0 && STACK_BOTTOM <= sp < USER_STACK_TOP
    ensures r == PageMapped ==>
              spaces.Memory(d) == StackImage(WithZeroPages(old(spaces.Memory(d)), 0xB_FFFE, 0xC_0000), request, sp)
    ensures r == PageMapped ==> Decodes(spaces.Memory(d), sp, strings)
  {
    hide Outside, TablesOk, LinksOk, HomesOk, OwnersOk, UserOk, SpaceOf, FlagsOf, MemOf, WithZeroPages, WithPages,
         StoreWords, Packed, Decodes;
    ghost var m0 := WithZeroPages(spaces.Memory(d), 0xB_FFFE, 0xC_0000);
    sp := 0;
    r := MapPages(spaces, d, STACK_BOTTOM / PAGE_SIZE, USER_STACK_TOP / PAGE_SIZE);
    if r != PageMapped { return; }
    StackPagesMapped(old(spaces.Memory(d)));
    StackPointerFits(request);
    StackDecodes(m0, request, strings);
    var addresses;
    sp, addresses := CopyStrings(spaces, d, request, strings);
    assert Mapped(spaces.Memory(d), STACK_BOTTOM, TASK_STACK_SIZE);
    ghost var words := StackWords(request.offsets, sp);
    assert words == [|addresses|] + addresses + [0, 0];
    sp := Aligned(sp);
    var pointerBytes := (|request.offsets| + 3) * 4;
    if pointerBytes > sp - STACK_BOTTOM { assert false; }
    var finalPointer := Aligned(sp - pointerBytes);
    sp := PushVectors(spaces, d, finalPointer + pointerBytes, addresses, words);
    assert sp == finalPointer;
  }

  lemma StackPagesMapped(m: Mem)
    ensures Mapped(WithZeroPages(m, 0xB_FFFE, 0xC_0000), STACK_BOTTOM, TASK_STACK_SIZE)
  {
  }
}
