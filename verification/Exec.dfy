/** process_execve of src/exec.c: a new image is built aside, and replaces the old one or leaves no trace. */
module Exec {
  import opened Memory
  import opened PageTables
  import opened Paging
  import opened Processes
  import opened SignalDelivery
  import opened Elf
  import opened Loader
  import opened Arguments
  import opened InitialStack

  datatype Lookup = Missing | Found(node: FileNode)

  datatype ExecResult = Executed | Failed | Halted

  const FIRST_STACK_PAGE := 0xB_FFFE
  const LAST_STACK_PAGE := 0xC_0000

  /** The memory of a new program: its image, and its stack. */
  ghost function ProgramMemory(ps: seq<Program>, bytes: seq<Byte>, request: Request): Mem
    requires Placeable(ps, |bytes|) && |request.storage| <= ARGUMENT_BYTES_MAX && 0 <= StackPointer(request)
  {
    StackImage(WithZeroPages(ImageMemory(ps, bytes), FIRST_STACK_PAGE, LAST_STACK_PAGE), request, StackPointer(request))
  }

  ghost function ProgramFlags(ps: seq<Program>): map<nat, bool> {
    WithPages(ImageFlags(ps), FIRST_STACK_PAGE, LAST_STACK_PAGE, true)
  }

  /** The image ends where a heap can start. */
  ghost predicate HeapFits(ps: seq<Program>) {
    PageUp(Highest(ps)) < USER_HEAP_LIMIT
  }

  /** What exec needs of a file. */
  ghost predicate RunnableFile(file: FileNode) {
    Acceptable(file) && HeapFits(ProgramsOf(file.bytes))
  }

  /** The exact condition for exec to succeed, physical memory permitting. */
  ghost predicate CanExec(isUser: bool, path: Pointer, argv: Vector, environmentEmpty: bool,
                          resolve: seq<Byte> -> Lookup) {
    && isUser && environmentEmpty
    && (exists s :: PathIs(path, s) && resolve(s).Found? && RunnableFile(resolve(s).node))
    && exists all :: ArgumentsAre(argv, all)
  }

  // ---------------------------------------------------------------- what the image looks like to the program

  lemma StackPage(a: int)
    requires FIRST_STACK_PAGE <= PageOf(a) < LAST_STACK_PAGE
    ensures STACK_BOTTOM <= a < USER_STACK_TOP
  {
  }

  lemma NoStackPage(ps: seq<Program>, length: nat, n: nat)
    requires SegmentsOk(ps, length) && USER_HEAP_LIMIT / PAGE_SIZE <= n
    ensures n !in ImageFlags(ps)
  {
    ImageFlagsExact(ps, length, n);
    forall i | 0 <= i < |ps| && Loadable(ps[i]) ensures !InSegment(ps, i, n) { SegmentPages(ps[i], length); }
  }

  /** Every byte of the new program below the stack: the file bytes of its segment, or zero; unmapped outside the
      segments. */
  lemma ProgramBytes(ps: seq<Program>, bytes: seq<Byte>, request: Request, strings: seq<seq<Byte>>, a: int)
    requires SegmentsOk(ps, |bytes|) && LaidOut(strings, request.offsets, request.storage)
    requires |strings| < ARGUMENT_MAX && |request.storage| <= ARGUMENT_BYTES_MAX && 0 <= a < STACK_BOTTOM
    requires 0 <= StackPointer(request)
    ensures a in ProgramMemory(ps, bytes, request) <==> exists i :: InSegment(ps, i, PageOf(a))
    ensures forall i :: InSegment(ps, i, PageOf(a)) ==>
              && a in ProgramMemory(ps, bytes, request)
              && ProgramMemory(ps, bytes, request)[a] == SegmentByte(ps[i], bytes, a)
  {
    hide StoreWords, Packed, Decodes, StackWords, SegmentByte, InSegment, StackImage, LaidOut;
    ImageMemoryExact(ps, bytes, a);
    var m := ImageMemory(ps, bytes);
    StackPagesMapped(m);
    StackPointerFits(request) by { LaidLength(strings, request); }
    StackDecodes(WithZeroPages(m, FIRST_STACK_PAGE, LAST_STACK_PAGE), request, strings);
    if FIRST_STACK_PAGE <= PageOf(a) < LAST_STACK_PAGE { StackPage(a); }
  }

  lemma LaidLength(strings: seq<seq<Byte>>, request: Request)
    requires LaidOut(strings, request.offsets, request.storage)
    ensures |request.offsets| == |strings| && request.storage == Packed(strings)
  {
  }

  /** Segments end at or below the heap, and the heap below the stack. */
  lemma HeapAboveSegments(ps: seq<Program>, length: nat, i: nat)
    requires SegmentsOk(ps, length) && HeapFits(ps) && i < |ps| && Loadable(ps[i])
    ensures PageUp(EndOf(ps[i])) <= PageUp(Highest(ps)) < USER_HEAP_LIMIT < STACK_BOTTOM
  {
    HighestMeans(ps);
    hide Highest;
  }

  // ---------------------------------------------------------------- building the replacement

  /** clone_directory(kernel_directory), map_and_load_segments, build_initial_stack. */
  method BuildProgram(spaces: AddressSpaces, bytes: seq<Byte>, ps: seq<Program>, request: Request,
                      ghost strings: seq<seq<Byte>>)
      returns (ok: bool, d: int, sp: nat)
    requires spaces.Valid() && UserRangeFree(spaces.dirs[spaces.kernel]) && SegmentsOk(ps, |bytes|)
    requires LaidOut(strings, request.offsets, request.storage) && |strings| < ARGUMENT_MAX
    requires |request.storage| <= ARGUMENT_BYTES_MAX
    requires forall i, j :: 0 <= i < |strings| && 0 <= j < |strings[i]| ==> strings[i][j] != 0
    modifies spaces`tables, spaces`dirs, spaces`next, spaces`home, spaces`owner, spaces`phys, spaces.bitmap.words
    ensures !ok ==> spaces.bitmap.Valid() && spaces.bitmap.Full()
    ensures ok ==> Ready(spaces, d) && d !in old(spaces.dirs) && spaces.dirs.Keys == old(spaces.dirs).Keys + {d}
    ensures ok ==> spaces.Others(d) == old(spaces.Snapshot())
    ensures ok ==> sp == StackPointer(request) && sp % 16 == 0 && STACK_BOTTOM <= sp < USER_STACK_TOP
    ensures ok ==> spaces.Memory(d) == ProgramMemory(ps, bytes, request) && spaces.Flags(d) == ProgramFlags(ps)
    ensures ok ==> Decodes(spaces.Memory(d), sp, strings)
  {
    hide Outside, TablesOk, LinksOk, HomesOk, OwnersOk, UserOk, SpaceOf, SegmentsOk, LaidOut, Decodes, StackImage,
         WithPages, WithZeroPages, FlagsOf, MemOf, UserRangeFree, Packed;
    sp := 0;
    spaces.SharedSlots();
    spaces.SnapshotHolds();
    ok, d := spaces.CloneDirectory(spaces.kernel);
    if !ok { return; }
    spaces.SharedSlots();
    var r := MapAndLoadSegments(spaces, d, bytes, ps);
    if r != PageMapped { ok := false; return; }
    forall n | FIRST_STACK_PAGE <= n < LAST_STACK_PAGE ensures n !in spaces.Flags(d) { NoStackPage(ps, |bytes|, n); }
    r, sp := BuildInitialStack(spaces, d, request, strings);
    if r != PageMapped { ok := false; return; }
  }

  // ---------------------------------------------------------------- commit or roll back

  /** The rollback: switch back, and destroy the temporary directory. */
  method Discard(spaces: AddressSpaces, d: int, ghost loaded: int)
    requires spaces.Valid() && d in spaces.dirs && d != spaces.kernel && d != loaded
    modifies spaces`tables, spaces`dirs, spaces`home, spaces`owner, spaces.bitmap.words
    ensures spaces.Valid() && spaces.Snapshot() == old(spaces.Others(d))
    ensures spaces.Snapshot().reserved == spaces.bitmap.Used()
  {
    hide AddressSpaces.Valid, AddressSpaces.Others, AddressSpaces.Space, AddressSpaces.FramesHeld,
         AddressSpaces.Snapshot;
    spaces.DestroyDirectory(d, loaded);
    spaces.SnapshotHolds();
  }

  /** What a successful exec leaves in memory, w being all there was: the new directory in place of the old, every other
      directory as it was, and exactly the old image's frames given back. */
  ghost predicate Replaced(spaces: AddressSpaces, d: int, previous: int, w: World)
    reads spaces, spaces.bitmap, spaces.bitmap.words
  {
    && spaces.Valid() && d !in w.spaces && previous in w.frames && spaces.dirs.Keys == w.spaces.Keys - {previous} + {d}
    && (forall e :: e in w.spaces.Keys - {previous} ==>
          e in w.frames && spaces.Space(e) == w.spaces[e] && spaces.FramesHeld(e) == w.frames[e])
    && spaces.FramesHeld(d) !! w.reserved && spaces.Snapshot().shared == w.shared
    && spaces.bitmap.Used() == w.reserved - w.frames[previous] + spaces.FramesHeld(d)
  }

  /** destroy_directory on the directory exec has just replaced. */
  method Release(spaces: AddressSpaces, d: int, previous: int, ghost w: World)
    requires spaces.Valid() && d in spaces.dirs && spaces.Others(d) == w && d !in w.spaces
    requires w.spaces.Keys == spaces.dirs.Keys - {d}
    requires previous in w.spaces && previous != spaces.kernel
    modifies spaces`tables, spaces`dirs, spaces`home, spaces`owner, spaces.bitmap.words
    ensures Replaced(spaces, d, previous, w) && spaces.Space(d) == old(spaces.Space(d))
  {
    hide AddressSpaces.Valid, AddressSpaces.Others, AddressSpaces.Space, AddressSpaces.FramesHeld;
    spaces.OthersHold(d);
    spaces.OthersHold(previous);
    spaces.SharedSlots();
    spaces.HeldApart(d, previous);
    spaces.DestroyDirectory(previous, d);
    spaces.OthersHold(previous);
    spaces.SharedSlots();
    spaces.SnapshotShared();
    ReplacedKeys(spaces.dirs.Keys, w.spaces.Keys, d, previous);
  }

  lemma ReplacedKeys(dirs: set<int>, before: set<int>, d: int, previous: int)
    requires dirs == before + {d} - {previous} && d !in before && previous in before
    ensures dirs == before - {previous} + {d} && dirs - {previous} == dirs
    ensures forall e :: e in before - {previous} ==> e in dirs && e != d
  {
  }

  /** What a process needs before exec: its own directory, and signal fields in order. */
  ghost predicate HasProgram(t: Task, spaces: AddressSpaces)
    reads t, spaces
  {
    && t.directory in spaces.dirs && t.directory != spaces.kernel && SignalsOk(t.SignalFields())
  }

  /** The process runs the new program: its memory is the image and the stack, its heap starts empty just above the
      image, and its entry code finds the argument strings on an aligned stack. */
  ghost predicate NewProgram(spaces: AddressSpaces, t: Task, regs: Registers, file: FileNode, request: Request,
                             strings: seq<seq<Byte>>)
    reads spaces, t
  {
    && RunnableFile(file) && |request.storage| <= ARGUMENT_BYTES_MAX && 0 <= StackPointer(request)
    && var ps := ProgramsOf(file.bytes);
    && spaces.Flags(t.directory) == ProgramFlags(ps)
    && spaces.Memory(t.directory) == ProgramMemory(ps, file.bytes, request)
    && t.heapStart == t.heapBreak == t.heapMappedEnd == t.heapHighest == PageUp(Highest(ps))
    && t.heapLimit == USER_HEAP_LIMIT
    && Decodes(spaces.Memory(t.directory), regs.useresp, strings) && regs.useresp % 16 == 0
    && SignalsOk(t.SignalFields())
  }

  /** The process runs the program that its path argument led to, with the strings of its argument vector. */
  ghost predicate Installed(spaces: AddressSpaces, t: Task, regs: Registers, path: Pointer, argv: Vector,
                            resolve: seq<Byte> -> Lookup, request: Request, strings: seq<seq<Byte>>)
    reads spaces, t
  {
    && PathIs(path, request.path) && ArgumentsAre(argv, strings) && resolve(request.path).Found?
    && NewProgram(spaces, t, regs, resolve(request.path).node, request, strings)
    && regs.eip == HeaderOf(resolve(request.path).node.bytes).entry
  }

  method Commit(t: Task, frame: RegisterFrame, d: int, heap: nat, entry: nat, sp: nat)
    requires SignalsOk(t.SignalFields())
    modifies t, frame
    ensures t.directory == d && t.id == old(t.id) && t.parentId == old(t.parentId) && t.state == old(t.state)
    ensures t.isUser == old(t.isUser) && t.next == old(t.next) && t.exitStatus == old(t.exitStatus)
    ensures t.heapStart == t.heapBreak == t.heapMappedEnd == t.heapHighest == heap && t.heapLimit == USER_HEAP_LIMIT
    ensures SignalsOk(t.SignalFields())
    ensures ResetHandlers(old(t.handlers), t.handlers) && t.trampoline == 0 && !t.signalActive
    ensures t.pending == old(t.pending)
    ensures frame.regs == old(frame.regs).(eip := entry, useresp := sp, eax := 0)
  {
    hide SignalsOk;
    t.directory := d;
    t.heapStart := heap;
    t.heapBreak := heap;
    t.heapMappedEnd := heap;
    t.heapHighest := heap;
    t.heapLimit := USER_HEAP_LIMIT;
    ExecReset(t);
    frame.regs := frame.regs.(eip := entry, useresp := sp, eax := 0);
  }

  /** capture_request, the path lookup and validate_elf: everything that can refuse before a directory is cloned. */
  method Prepare(t: Task, path: Pointer, argv: Vector, environmentEmpty: bool, resolve: seq<Byte> -> Lookup)
      returns (ok: bool, request: Request, bytes: seq<Byte>, entry: nat, ps: seq<Program>, highest: nat,
               ghost strings: seq<seq<Byte>>)
    ensures ok ==>
              && ArgumentsAre(argv, strings)
              && LaidOut(strings, request.offsets, request.storage)
              && PathIs(path, request.path)
    ensures ok ==>
              && resolve(request.path).Found?
              && bytes == resolve(request.path).node.bytes
              && Acceptable(resolve(request.path).node)
    ensures ok ==>
              && SegmentsOk(ps, |bytes|)
              && ps == ProgramsOf(bytes)
              && entry == HeaderOf(bytes).entry
              && highest == Highest(ps)
    ensures ok ==> t.isUser && |strings| < ARGUMENT_MAX && |request.storage| <= ARGUMENT_BYTES_MAX
    ensures ok ==> forall i, j :: 0 <= i < |strings| && 0 <= j < |strings[i]| ==> strings[i][j] != 0
    ensures CanExec(t.isUser, path, argv, environmentEmpty, resolve) <==> ok && PageUp(highest) < USER_HEAP_LIMIT
  {
    hide PathIs, ArgumentsAre, SegmentsOk, EntryOk, HeaderOk, Highest, HeaderOf, ProgramsOf, LaidOut, PageUp;
    bytes, entry, ps, highest, request, strings := [], 0, [], 0, Request([], [], []), [];
    if !t.isUser { return false, request, bytes, entry, ps, highest, strings; }
    ok, request, strings := CaptureRequest(path, argv, environmentEmpty);
    if !ok { return; }
    PathUnique(path, request.path);
    var found := resolve(request.path);
    if found.Missing? { ok := false; return; }
    var header;
    ok, header, ps, highest := ValidateElf(found.node);
    if !ok { return; }
    bytes, entry := found.node.bytes, header.entry;
    StringsNonzero(argv, strings);
    LaidLength(strings, request);
  }

  lemma PathUnique(path: Pointer, s: seq<Byte>)
    requires PathIs(path, s)
    ensures forall s' :: PathIs(path, s') ==> s' == s
  {
    forall s' | PathIs(path, s') ensures s' == s { StringUnique(path.at, s, s'); }
  }

  lemma StringsNonzero(argv: Vector, strings: seq<seq<Byte>>)
    requires ArgumentsAre(argv, strings)
    ensures forall i, j :: 0 <= i < |strings| && 0 <= j < |strings[i]| ==> strings[i][j] != 0
    ensures |strings| < ARGUMENT_MAX && |Packed(strings)| <= ARGUMENT_BYTES_MAX
  {
    forall i, j | 0 <= i < |strings| && 0 <= j < |strings[i]| ensures strings[i][j] != 0 {
      assert IsString(argv.entry(i).at, strings[i]);
    }
  }

  /** process_execve. It fails exactly when CanExec does not hold; then nothing has changed: the same directories with
      the same memory and frames, the same frames in use, the same process and return frame. When it succeeds the
      process has the new program, and exactly the old image's frames are free again. */
  method ProcessExecve(t: Task, spaces: AddressSpaces, frame: RegisterFrame, path: Pointer, argv: Vector,
                       environmentEmpty: bool, resolve: seq<Byte> -> Lookup)
      returns (r: ExecResult, ghost strings: seq<seq<Byte>>, ghost request: Request)
    requires spaces.Valid() && UserRangeFree(spaces.dirs[spaces.kernel]) && (t.isUser ==> HasProgram(t, spaces))
    modifies spaces`tables, spaces`dirs, spaces`next, spaces`home, spaces`owner, spaces`phys, spaces.bitmap.words, t,
             frame
    ensures r != Halted ==> (r == Executed <==> old(CanExec(t.isUser, path, argv, environmentEmpty, resolve)))
    ensures r == Halted ==> spaces.bitmap.Valid() && spaces.bitmap.Full()
    ensures r == Failed ==> unchanged(t) && unchanged(frame) && spaces.Valid()
    ensures r == Failed ==>
              spaces.Snapshot() == old(spaces.Snapshot()) && spaces.bitmap.Used() == old(spaces.bitmap.Used())
    ensures r == Executed ==> Replaced(spaces, t.directory, old(t.directory), old(spaces.Snapshot()))
    ensures r == Executed ==>
              && ArgumentsAre(argv, strings)
              && PathIs(path, request.path)
              && LaidOut(strings, request.offsets, request.storage)
    ensures r == Executed ==> resolve(request.path).Found? && RunnableFile(resolve(request.path).node)
    ensures r == Executed ==> NewProgram(spaces, t, frame.regs, resolve(request.path).node, request, strings)
    ensures r == Executed ==>
              var entry := HeaderOf(resolve(request.path).node.bytes).entry;
              frame.regs == old(frame.regs).(eip := entry, useresp := frame.regs.useresp, eax := 0)
    ensures r != Halted ==>
              && t.id == old(t.id)
              && t.parentId == old(t.parentId)
              && t.state == old(t.state)
              && t.isUser == old(t.isUser)
              && t.next == old(t.next)
    ensures r == Executed ==>
              && ResetHandlers(old(t.handlers), t.handlers)
              && t.pending == old(t.pending)
              && t.trampoline == 0
              && !t.signalActive
  {
    hide CanExec, ArgumentsAre, PathIs, LaidOut, Decodes, ProgramMemory, ProgramFlags, ProgramsOf, HeaderOf, PageUp,
         SegmentsOk, SignalsOk, AddressSpaces.Valid, AddressSpaces.Others, AddressSpaces.Space,
         AddressSpaces.FramesHeld, MemOf, FlagsOf, IsString, AddressSpaces.Snapshot, Acceptable, Highest, ResetHandlers,
         UserRangeFree, StackPointer, Replaced;
    r, strings, request := Failed, [], Request([], [], []);
    ghost var w := spaces.Snapshot();
    spaces.SnapshotHolds();
    var ok, captured, bytes, entry, ps, highest;
    ok, captured, bytes, entry, ps, highest, strings := Prepare(t, path, argv, environmentEmpty, resolve);
    if !ok { return; }
    request := captured;
    var previous := t.directory;
    var d, sp;
    ok, d, sp := BuildProgram(spaces, bytes, ps, captured, strings);
    if !ok { r := Halted; return; }
    var heap := PageUp(highest);
    if heap >= USER_HEAP_LIMIT {
      Discard(spaces, d, previous);
      return;
    }
    Release(spaces, d, previous, w);
    Commit(t, frame, d, heap, entry, sp);
    r := Executed;
  }
}
