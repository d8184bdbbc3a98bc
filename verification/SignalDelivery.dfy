/** src/signal.c: dispositions, pending signals, delivery to a handler and the return from it. */
module SignalDelivery {
  import opened Memory
  import opened Frames
  import opened PageTables
  import opened Paging
  import opened Processes
  import opened Loader
  import opened UserMemory

  const SIGNAL_FRAME_MAGIC := 0x5349_4746
  const FRAME_SIZE := 76

  /** What one process's return to user mode depends on. */
  datatype Machine = Machine(signals: Signals, regs: Registers, memory: Mem)

  datatype Delivery = Resume | Terminate(status: int)

  predicate ValidNumber(n: int) {
    0 < n < SIGNAL_COUNT
  }

  predicate IsUserAddress(a: nat) {
    USER_ADDRESS_MIN <= a < USER_STACK_TOP
  }

  predicate IsCustom(handler: nat) {
    handler != SIGNAL_DEFAULT && handler != SIGNAL_IGNORE
  }

  predicate DefaultIsIgnore(n: int) {
    n == SIGNAL_CHLD
  }

  /** The signal is dropped rather than delivered. */
  predicate IsDropped(handler: nat, n: int) {
    handler == SIGNAL_IGNORE || (handler == SIGNAL_DEFAULT && DefaultIsIgnore(n))
  }

  // ---------------------------------------------------------------- the invariant

  /** SIGKILL keeps its default action; a custom handler has a trampoline to return through; bit 0 stands for no
      signal. */
  ghost predicate SignalsOk(s: Signals) {
    && |s.handlers| == SIGNAL_COUNT && s.handlers[SIGNAL_KILL] == SIGNAL_DEFAULT && s.handlers[0] == SIGNAL_DEFAULT
    && (forall n :: 0 <= n < SIGNAL_COUNT && IsCustom(s.handlers[n]) ==>
          IsUserAddress(s.handlers[n]) && IsUserAddress(s.trampoline))
    && s.trampoline <= U32_MAX && !Has(s.pending, 0)
    && (s.active <==> s.activeNumber != 0) && s.activeNumber < SIGNAL_COUNT
  }

  ghost function PendingSet(w: Word): set<nat> {
    set n: nat | 1 <= n < SIGNAL_COUNT && Has(w, n)
  }

  /** The lowest pending signal, 0 when there is none. */
  ghost predicate IsLowest(w: Word, n: nat) {
    if n == 0 then PendingSet(w) == {} else n in PendingSet(w) && forall k: nat :: k in PendingSet(w) ==> n <= k
  }

  lemma Clearing(w: Word, n: nat)
    requires n < 32
    ensures PendingSet(Without(w, n)) == PendingSet(w) - {n} && (Has(Without(w, n), 0) <==> Has(w, 0))
  {
    hide Has, Mask, AndNot;
    forall k: nat | k < 32 && 0 < n ensures Has(AndNot(w, Mask(n)), k) <==> n != k && Has(w, k) { BitChange(w, n, k); }
  }

  lemma Raising(w: Word, n: nat)
    requires 1 <= n < 32
    ensures PendingSet(Or(w, Mask(n))) == PendingSet(w) + {n}
    ensures Has(Or(w, Mask(n)), 0) <==> Has(w, 0)
  {
    hide Has, Mask, Or;
    forall k: nat | k < 32 ensures Has(Or(w, Mask(n)), k) <==> n == k || Has(w, k) { BitChange(w, n, k); }
  }

  // ---------------------------------------------------------------- dispositions

  /** The dispositions a process may set: not SIGKILL's, and only handlers and trampolines on its own pages. */
  predicate Accepts(n: int, handler: nat, trampoline: nat, spaces: AddressSpaces, d: int)
    reads spaces
  {
    && ValidNumber(n) && n != SIGNAL_KILL
    && (IsCustom(handler) ==>
          && IsUserAddress(handler) && IsUserAddress(trampoline)
          && OnUserPage(spaces, d, handler) && OnUserPage(spaces, d, trampoline))
  }

  /** get_page finds a present entry that user code may use. */
  predicate OnUserPage(spaces: AddressSpaces, d: int, a: nat)
    reads spaces
  {
    spaces.UserPage(d, PageOf(a))
  }

  /** In a process's directory the pages a handler may lie on are the process's own. */
  lemma AcceptsMeans(n: int, handler: nat, trampoline: nat, spaces: AddressSpaces, d: int)
    requires Ready(spaces, d)
    ensures Accepts(n, handler, trampoline, spaces, d) <==>
              && 1 <= n <= 31 && n != 9
              && (handler >= 2 ==>
                    && 0x40_0000 <= handler < 0xC000_0000 && handler / 4096 in spaces.Flags(d)
                    && 0x40_0000 <= trampoline < 0xC000_0000 && trampoline / 4096 in spaces.Flags(d))
  {
    hide TablesOk, LinksOk, HomesOk, OwnersOk, UserOk, SpaceOf, Outside, FlagsOf, UserRangeFree, AddressSpaces.UserPage;
    if IsUserAddress(handler) { OwnUserPage(spaces, d, handler); }
    if IsUserAddress(trampoline) { OwnUserPage(spaces, d, trampoline); }
  }

  lemma OwnUserPage(spaces: AddressSpaces, d: int, a: nat)
    requires Ready(spaces, d) && IsUserAddress(a)
    ensures spaces.UserPage(d, PageOf(a)) <==> PageOf(a) in spaces.Flags(d)
  {
    hide TablesOk, LinksOk, HomesOk, OwnersOk, UserOk, SpaceOf, Outside, FlagsOf, UserRangeFree, PageOf,
         AddressSpaces.UserPage;
    UserPageNumber(a);
    OwnTables(spaces, d, PageOf(a));
    spaces.UserPages(d, PageOf(a));
  }

  /** task_signal_set_handler. */
  method SetHandler(t: Task, spaces: AddressSpaces, n: int, handler: nat, trampoline: nat)
      returns (ok: bool, previous: nat)
    requires SignalsOk(t.SignalFields()) && handler <= U32_MAX && trampoline <= U32_MAX
    modifies t`handlers, t`trampoline
    ensures SignalsOk(t.SignalFields())
    ensures ok <==> t.isUser && Accepts(n, handler, trampoline, spaces, t.directory)
    ensures Ready(spaces, t.directory) ==>
              (ok <==>
                 && t.isUser && 1 <= n <= 31 && n != 9
                 && (handler >= 2 ==>
                       && 0x40_0000 <= handler < 0xC000_0000 && handler / 4096 in spaces.Flags(t.directory)
                       && 0x40_0000 <= trampoline < 0xC000_0000 && trampoline / 4096 in spaces.Flags(t.directory)))
    ensures !ok ==> t.SignalFields() == old(t.SignalFields())
    ensures ok ==> previous == old(t.handlers)[n] && t.handlers == old(t.handlers)[n := handler]
    ensures ok ==> t.trampoline == if IsCustom(handler) then trampoline else old(t.trampoline)
  {
    hide Has, Ready, AddressSpaces.Flags, AddressSpaces.UserPage;
    if Ready(spaces, t.directory) { AcceptsMeans(n, handler, trampoline, spaces, t.directory); }
    if !t.isUser || !ValidNumber(n) || n == SIGNAL_KILL { return false, 0; }
    if handler != SIGNAL_DEFAULT && handler != SIGNAL_IGNORE {
      if !IsUserAddress(handler) || !IsUserAddress(trampoline) { return false, 0; }
      if !OnUserPage(spaces, t.directory, handler) || !OnUserPage(spaces, t.directory, trampoline) { return false, 0; }
      t.trampoline := trampoline;
    }
    previous := t.handlers[n];
    t.handlers := t.handlers[n := handler];
    ok := true;
  }

  /** Disposition n is now this handler, the others are as before. */
  ghost predicate OneHandler(before: seq<nat>, after: seq<nat>, n: int, handler: nat) {
    0 <= n < |before| && after == before[n := handler]
  }

  const ERRNO_EINVAL := 22

  /** `(int)` of a 32-bit word. */
  function Signed(w: nat): int {
    if w < 0x8000_0000 then w else w - 0x1_0000_0000
  }

  /** service_signal. It reports EINVAL for a change it made exactly when the previous handler address
      is 0x80000000 or more: the address, read as an `int`, is negative. */
  method ServiceSignal(t: Task, spaces: AddressSpaces, n: int, handler: nat, trampoline: nat) returns (result: int)
    requires SignalsOk(t.SignalFields()) && handler <= U32_MAX && trampoline <= U32_MAX
    modifies t`handlers, t`trampoline
    ensures SignalsOk(t.SignalFields())
    ensures !t.isUser || !Accepts(n, handler, trampoline, spaces, t.directory) ==>
              result == -ERRNO_EINVAL && t.SignalFields() == old(t.SignalFields())
    ensures t.isUser && Accepts(n, handler, trampoline, spaces, t.directory) ==>
              && OneHandler(old(t.handlers), t.handlers, n, handler)
              && t.trampoline == (if IsCustom(handler) then trampoline else old(t.trampoline))
              && (result == -ERRNO_EINVAL <==> old(t.handlers)[n] >= 0x8000_0000)
              && (result != -ERRNO_EINVAL ==> result == old(t.handlers)[n])
  {
    HandlersBounded(t.SignalFields());
    var ok, previous := SetHandler(t, spaces, n, handler, trampoline);
    result := if ok then Signed(previous) else -1;
    if result < 0 { result := -ERRNO_EINVAL; }
  }

  /** A change that is reported as an error: once a handler in the last two user pages is set, any other disposition can
      only be set with EINVAL as the answer. */
  method ChangeReportedAsError(t: Task, spaces: AddressSpaces) returns (first: int, second: int)
    requires SignalsOk(t.SignalFields()) && t.isUser && t.handlers[10] == SIGNAL_DEFAULT
    requires OnUserPage(spaces, t.directory, STACK_BOTTOM)
    modifies t`handlers, t`trampoline
    ensures first == 0 && second == -ERRNO_EINVAL && t.handlers == old(t.handlers)[10 := SIGNAL_IGNORE]
  {
    hide Has;
    first := ServiceSignal(t, spaces, 10, STACK_BOTTOM, STACK_BOTTOM);
    second := ServiceSignal(t, spaces, 10, SIGNAL_IGNORE, 0);
  }

  lemma HandlersBounded(s: Signals)
    requires SignalsOk(s)
    ensures forall n :: 0 <= n < SIGNAL_COUNT ==> s.handlers[n] < USER_STACK_TOP
  {
  }

  /** task_signal_inherit. */
  method Inherit(child: Task, parent: Task)
    requires SignalsOk(parent.SignalFields())
    modifies child`handlers, child`pending, child`trampoline, child`signalActive, child`activeSignal
    ensures child != parent ==> parent.SignalFields() == old(parent.SignalFields())
    ensures SignalsOk(child.SignalFields())
    ensures child.SignalFields() == old(parent.SignalFields()).(pending := 0, active := false, activeNumber := 0)
  {
    NonePending();
    hide Has;
    child.handlers := parent.handlers;
    child.trampoline := parent.trampoline;
    child.pending := 0;
    child.signalActive := false;
    child.activeSignal := 0;
  }

  lemma NonePending()
    ensures !Has(0, 0) && PendingSet(0) == {}
  {
    forall n: nat | n < 32 ensures !Has(0, n) { ZeroHas(n); }
  }

  lemma ZeroHas(n: nat)
    requires n < 32
    ensures !Has(0, n)
  {
    hide Mask;
  }

  /** Handlers after exec: ignored ones stay ignored, the rest go back to the default. */
  ghost predicate ResetHandlers(before: seq<nat>, after: seq<nat>) {
    && |after| == |before|
    && forall n :: 0 <= n < |before| ==> after[n] == if n == 0 || before[n] == SIGNAL_IGNORE then before[n]
                                                     else SIGNAL_DEFAULT
  }

  /** task_signal_exec_reset. Pending signals survive. */
  method ExecReset(t: Task)
    requires SignalsOk(t.SignalFields())
    modifies t`handlers, t`trampoline, t`signalActive, t`activeSignal
    ensures SignalsOk(t.SignalFields()) && ResetHandlers(old(t.handlers), t.handlers)
    ensures |t.handlers| == 32 && forall n :: 1 <= n <= 31 ==> t.handlers[n] == if old(t.handlers)[n] == 1 then 1 else 0
    ensures t.trampoline == 0 && !t.signalActive && t.activeSignal == 0 && t.pending == old(t.pending)
  {
    hide Has;
    var n := 1;
    while n < SIGNAL_COUNT
      invariant 1 <= n <= SIGNAL_COUNT && |t.handlers| == SIGNAL_COUNT
      invariant forall k ::
                  1 <= k < n ==>
                    t.handlers[k] == if old(t.handlers)[k] == SIGNAL_IGNORE then SIGNAL_IGNORE else SIGNAL_DEFAULT
      invariant forall k :: n <= k < SIGNAL_COUNT ==> t.handlers[k] == old(t.handlers)[k]
      invariant t.handlers[0] == old(t.handlers)[0]
    {
      if t.handlers[n] != SIGNAL_IGNORE {
        t.handlers := t.handlers[n := SIGNAL_DEFAULT];
      }
      n := n + 1;
    }
    t.trampoline := 0;
    t.signalActive := false;
    t.activeSignal := 0;
  }

  // ---------------------------------------------------------------- sending

  function HandlerOf(s: Signals, n: nat): nat {
    if n < |s.handlers| then s.handlers[n] else SIGNAL_DEFAULT
  }

  /** What sending signal n leaves pending. */
  function Raised(s: Signals, n: int): Word {
    if !ValidNumber(n) || IsDropped(HandlerOf(s, n), n) then s.pending else Or(s.pending, Mask(n))
  }

  /** A signal that is sent joins the pending ones, unless it is ignored, or is SIGCHLD with its default disposition. */
  lemma RaisedMeans(s: Signals, n: int)
    requires SignalsOk(s)
    ensures PendingSet(Raised(s, n)) ==
              PendingSet(s.pending) +
              (if 1 <= n <= 31 && s.handlers[n] != 1 && !(s.handlers[n] == 0 && n == 17) then {n} else {})
    ensures Has(Raised(s, n), 0) <==> Has(s.pending, 0)
  {
    if ValidNumber(n) { Raising(s.pending, n); }
    hide Has, Or, Mask, PendingSet;
  }

  /** task_signal_send, once find_task has found the target. */
  method Send(target: Task, n: int) returns (ok: bool)
    requires SignalsOk(target.SignalFields())
    modifies target`pending, target`state
    ensures SignalsOk(target.SignalFields())
    ensures ok <==> target.id != 0 && target.isUser && old(target.state) != Zombie && 0 <= n < SIGNAL_COUNT
    ensures ok ==>
              target.SignalFields() == old(target.SignalFields()).(pending := Raised(old(target.SignalFields()), n))
    ensures ok ==>
              PendingSet(target.pending) ==
                old(PendingSet(target.pending)) +
                (if 1 <= n <= 31 && target.handlers[n] != 1 && !(target.handlers[n] == 0 && n == 17) then {n} else {})
    ensures ok && n != 0 ==> target.state == if old(target.state) == WaitingInput then Runnable else old(target.state)
    ensures !ok || n == 0 ==> target.state == old(target.state) && target.SignalFields() == old(target.SignalFields())
  {
    hide Has, Or, Mask, PendingSet;
    RaisedMeans(target.SignalFields(), n);
    if target.id == 0 || !target.isUser || target.state == Zombie { return false; }
    if n == 0 { return true; }
    if !ValidNumber(n) { return false; }
    Raising(target.pending, n);
    if !IsDropped(target.handlers[n], n) {
      target.pending := Or(target.pending, Mask(n));
    }
    if target.state == WaitingInput { target.state := Runnable; }
    ok := true;
  }

  // ---------------------------------------------------------------- delivering

  /** take_next_pending_signal: the lowest-numbered pending signal, now taken, or 0. */
  method TakeNext(t: Task) returns (n: nat)
    modifies t`pending
    ensures n < SIGNAL_COUNT && IsLowest(old(t.pending), n)
    ensures t.pending == Without(old(t.pending), n)
  {
    hide Mask, AndNot, And;
    n := 1;
    while n < SIGNAL_COUNT
      invariant 1 <= n <= SIGNAL_COUNT && t.pending == old(t.pending)
      invariant forall k :: 1 <= k < n ==> !Has(t.pending, k)
    {
      if Has(t.pending, n) {
        t.pending := AndNot(t.pending, Mask(n));
        return;
      }
      n := n + 1;
    }
    n := 0;
  }

  /** The saved frame: return address, signal number, cookie, and the interrupted registers. */
  function SavedFrame(trampoline: nat, n: nat, regs: Registers): (words: seq<nat>)
    ensures |words| == FRAME_SIZE / 4
  {
    [trampoline, n, SIGNAL_FRAME_MAGIC] + WordsOf(regs)
  }

  function FrameAddress(useresp: nat): nat {
    if useresp < FRAME_SIZE then 0 else (useresp - FRAME_SIZE) - (useresp - FRAME_SIZE) % 16
  }

  predicate HasRoom(useresp: nat) {
    STACK_BOTTOM + FRAME_SIZE <= useresp <= USER_STACK_TOP
  }

  ghost predicate StackMapped(m: Mem) {
    Mapped(m, STACK_BOTTOM, TASK_STACK_SIZE)
  }

  /** The pending word without signal n. */
  function Without(w: Word, n: nat): Word {
    if 0 < n < SIGNAL_COUNT then AndNot(w, Mask(n)) else w
  }

  /** The machine about to run the handler of signal n. */
  ghost function Entering(m: Machine, n: nat): Machine {
    var at := FrameAddress(m.regs.useresp);
    Machine(m.signals.(pending := Without(m.signals.pending, n), active := true, activeNumber := n),
            m.regs.(eip := HandlerOf(m.signals, n), useresp := at),
            StoreWords(m.memory, at, SavedFrame(m.signals.trampoline, n, m.regs)))
  }

  /** task_signal_deliver takes the lowest pending signal n: ignored, fatal, or redirected to its handler. */
  ghost function Delivered(m: Machine, n: nat): (Machine, Delivery) {
    var taken := m.(signals := m.signals.(pending := Without(m.signals.pending, n)));
    var handler := HandlerOf(m.signals, n);
    if n == 0 || IsDropped(handler, n) then (taken, Resume)
    else if handler == SIGNAL_DEFAULT || !HasRoom(m.regs.useresp) then (taken, Terminate(128 + n))
    else (Entering(m, n), Resume)
  }

  /** What each disposition makes of a pending signal. */
  lemma DeliveredMeans(m: Machine, n: nat)
    requires SignalsOk(m.signals) && n in PendingSet(m.signals.pending) && StackMapped(m.memory)
    ensures 1 <= n <= 31
    ensures var h := m.signals.handlers[n];
            var (after, d) := Delivered(m, n);
            var dropped := m.(signals := m.signals.(pending := after.signals.pending));
            && PendingSet(after.signals.pending) == PendingSet(m.signals.pending) - {n}
            && (h == 1 || (h == 0 && n == 17) ==> d == Resume && after == dropped)
            && (h == 0 && n != 17 ==> d == Terminate(128 + n) && after == dropped)
            && (h >= 2 && !(0xBFFF_E04C <= m.regs.useresp <= 0xC000_0000) ==>
                  d == Terminate(128 + n) && after == dropped)
            && (h >= 2 && 0xBFFF_E04C <= m.regs.useresp <= 0xC000_0000 ==>
                  && d == Resume && after.regs == m.regs.(eip := h, useresp := after.regs.useresp)
                  && after.signals == dropped.signals.(active := true, activeNumber := n)
                  && after.regs.useresp % 16 == 0
                  && after.regs.useresp + 76 <= m.regs.useresp < after.regs.useresp + 92
                  && 0xBFFF_E000 <= after.regs.useresp
                  && SameOutside(m.memory, after.memory, after.regs.useresp, after.regs.useresp + 76))
  {
    Clearing(m.signals.pending, n);
    Numbered(m.signals.pending, n);
    hide Has, PendingSet, Without, StoreWords, SavedFrame;
    var at := FrameAddress(m.regs.useresp);
    if HasRoom(m.regs.useresp) { StoreWordsFrame(m.memory, at, SavedFrame(m.signals.trampoline, n, m.regs)); }
  }

  lemma Numbered(w: Word, n: nat)
    requires n in PendingSet(w)
    ensures 1 <= n <= 31
  {
  }

  predicate MayDeliver(isUser: bool, state: TaskState, active: bool, cs: nat) {
    isUser && state == Runnable && !active && cs % 4 == 3
  }

  /** The assignments and memcpy that fill the frame on the user stack. */
  method WriteFrame(spaces: AddressSpaces, d: int, at: nat, words: seq<nat>)
    requires spaces.Valid() && d in spaces.dirs && Mapped(spaces.Memory(d), at, 4 * |words|)
    modifies spaces`phys
    ensures spaces.Valid() && spaces.Others(d) == old(spaces.Others(d)) && spaces.Flags(d) == old(spaces.Flags(d))
    ensures spaces.Memory(d) == StoreWords(old(spaces.Memory(d)), at, words)
  {
    hide AddressSpaces.Valid, AddressSpaces.Others, AddressSpaces.Memory, AddressSpaces.Flags, StoreWords, StoreLE,
         Mapped;
    ghost var m := spaces.Memory(d);
    var k := |words|;
    NoWords(m, at + 4 * k, words[k..]);
    while k > 0
      invariant 0 <= k <= |words| && spaces.Memory(d) == StoreWords(m, at + 4 * k, words[k..])
      invariant spaces.Valid() && spaces.Others(d) == old(spaces.Others(d)) && spaces.Flags(d) == old(spaces.Flags(d))
    {
      k := k - 1;
      NextWord(m, at, words, k);
      spaces.PokeWord(d, at + 4 * k, 4, words[k]);
    }
    assert words[0..] == words;
  }

  lemma NoWords(m: Mem, a: int, words: seq<nat>)
    requires words == []
    ensures StoreWords(m, a, words) == m
  {
  }

  /** Storing from word k on is storing from the next word on and then word k. */
  lemma NextWord(m: Mem, at: nat, words: seq<nat>, k: nat)
    requires k < |words| && Mapped(m, at, 4 * |words|)
    ensures var later := StoreWords(m, at + 4 * (k + 1), words[k + 1..]);
            && Mapped(later, at + 4 * k, 4)
            && StoreWords(m, at + 4 * k, words[k..]) == StoreLE(later, at + 4 * k, 4, words[k])
  {
    hide StoreLE;
    StoreWordsFrame(m, at + 4 * (k + 1), words[k + 1..]);
    assert words[k..][1..] == words[k + 1..];
  }

  /** What delivery needs of the process: well-formed signal fields, a directory, and a mapped stack in it. */
  ghost predicate CanTakeSignals(t: Task, spaces: AddressSpaces)
    reads t, spaces, spaces.bitmap, spaces.bitmap.words
  {
    && SignalsOk(t.SignalFields()) && spaces.Valid() && t.directory in spaces.dirs
    && StackMapped(spaces.Memory(t.directory))
  }

  /** The process, its return frame and its memory at this moment. */
  ghost function Now(t: Task, frame: RegisterFrame, spaces: AddressSpaces): Machine
    reads t, frame, spaces
  {
    Machine(t.SignalFields(), frame.regs, spaces.Memory(t.directory))
  }

  /** task_signal_deliver. Two of the source's tests are never taken: with the invariant a custom handler always has a
      trampoline, and an aligned frame below a stack pointer with room never drops under the stack. Only the process's
      own stack is written. */
  method Deliver(t: Task, frame: RegisterFrame, spaces: AddressSpaces) returns (d: Delivery, ghost n: nat)
    requires CanTakeSignals(t, spaces)
    modifies t`pending, t`signalActive, t`activeSignal, frame, spaces`phys
    ensures CanTakeSignals(t, spaces)
    ensures !old(MayDeliver(t.isUser, t.state, t.signalActive, frame.regs.cs)) ==> n == 0
    ensures old(MayDeliver(t.isUser, t.state, t.signalActive, frame.regs.cs)) ==>
              n < SIGNAL_COUNT && IsLowest(old(t.pending), n)
    ensures (Now(t, frame, spaces), d) == Delivered(old(Now(t, frame, spaces)), n)
    ensures spaces.Others(t.directory) == old(spaces.Others(t.directory))
    ensures spaces.Flags(t.directory) == old(spaces.Flags(t.directory))
  {
    hide StoreWords, Has, And, Mask, AndNot, AddressSpaces.Valid, AddressSpaces.Others, AddressSpaces.Memory,
         AddressSpaces.Flags;
    ghost var m0 := Now(t, frame, spaces);
    d, n := Resume, 0;
    if !MayDeliver(t.isUser, t.state, t.signalActive, frame.regs.cs) { return; }
    var number := TakeNext(t);
    n := number;
    Clearing(m0.signals.pending, n);
    if number == 0 { return; }
    var handler := t.handlers[number];
    if IsDropped(handler, number) { return; }
    if handler == SIGNAL_DEFAULT || number == SIGNAL_KILL {
      d := Terminate(128 + number);
      return;
    }
    if frame.regs.useresp < STACK_BOTTOM + FRAME_SIZE || frame.regs.useresp > USER_STACK_TOP || t.trampoline == 0 {
      d := Terminate(128 + number);
      return;
    }
    var at := FrameAddress(frame.regs.useresp);
    if at < STACK_BOTTOM { assert false; }
    StoreWordsFrame(m0.memory, at, SavedFrame(t.trampoline, number, frame.regs));
    WriteFrame(spaces, t.directory, at, SavedFrame(t.trampoline, number, frame.regs));
    t.signalActive := true;
    t.activeSignal := number;
    frame.regs := frame.regs.(eip := handler, useresp := at);
  }

  // ---------------------------------------------------------------- returning

  ghost function LoadWords(m: Mem, a: int, n: nat): (words: seq<nat>)
    ensures |words| == n
  {
    seq(n, i requires 0 <= i < n => Load32(m, a + 4 * i))
  }

  predicate ContextInStack(context: nat) {
    STACK_BOTTOM + 4 <= context <= USER_STACK_TOP - (FRAME_SIZE - 4)
  }

  /** The checks sigreturn makes. */
  ghost predicate Returns(m: Machine, context: nat) {
    && m.signals.active && ContextInStack(context)
    && Load32(m.memory, context + 4) == SIGNAL_FRAME_MAGIC && Load32(m.memory, context) == m.signals.activeNumber
  }

  ghost function Returned(m: Machine, context: nat): Machine {
    if Returns(m, context) then
      Machine(m.signals.(active := false, activeNumber := 0),
              RegistersOf(LoadWords(m.memory, context + 8, REGISTER_WORDS)), m.memory)
    else m
  }

  /** Which word of the saved frame each register is read from. */
  lemma RegistersAt(m: Mem, at: int)
    ensures var r := RegistersOf(LoadWords(m, at, REGISTER_WORDS));
            && r.ds == Load32(m, at) && r.edi == Load32(m, at + 4) && r.esi == Load32(m, at + 8)
            && r.ebp == Load32(m, at + 12) && r.esp == Load32(m, at + 16) && r.ebx == Load32(m, at + 20)
            && r.edx == Load32(m, at + 24) && r.ecx == Load32(m, at + 28) && r.eax == Load32(m, at + 32)
            && r.intNo == Load32(m, at + 36) && r.errCode == Load32(m, at + 40) && r.eip == Load32(m, at + 44)
            && r.cs == Load32(m, at + 48) && r.eflags == Load32(m, at + 52) && r.useresp == Load32(m, at + 56)
            && r.ss == Load32(m, at + 60)
  {
    hide LoadLE;
  }

  /** The copy of the saved registers out of the frame. */
  method ReadRegisters(spaces: AddressSpaces, d: int, at: nat) returns (regs: Registers)
    requires spaces.Valid() && d in spaces.dirs && Mapped(spaces.Memory(d), at, 4 * REGISTER_WORDS)
    ensures regs == RegistersOf(LoadWords(spaces.Memory(d), at, REGISTER_WORDS))
  {
    hide AddressSpaces.Valid, AddressSpaces.Memory, RegistersOf, LoadLE;
    var words: seq<nat> := [];
    while |words| < REGISTER_WORDS
      invariant |words| <= REGISTER_WORDS
      invariant forall i :: 0 <= i < |words| ==> words[i] == Load32(spaces.Memory(d), at + 4 * i)
    {
      var w := spaces.PeekWord(d, at + 4 * |words|, 4);
      words := words + [w];
    }
    assert words == LoadWords(spaces.Memory(d), at, REGISTER_WORDS);
    regs := RegistersOf(words);
  }

  /** task_signal_return. */
  method Return(t: Task, context: nat, frame: RegisterFrame, spaces: AddressSpaces) returns (ok: bool)
    requires CanTakeSignals(t, spaces)
    modifies t`signalActive, t`activeSignal, frame
    ensures CanTakeSignals(t, spaces)
    ensures ok <==> Returns(old(Now(t, frame, spaces)), context)
    ensures ok <==>
              && old(t.signalActive) && 0xBFFF_E004 <= context <= 0xBFFF_FFB8
              && Load32(spaces.Memory(t.directory), context + 4) == 0x5349_4746
              && Load32(spaces.Memory(t.directory), context) == old(t.activeSignal)
    ensures Now(t, frame, spaces) == Returned(old(Now(t, frame, spaces)), context)
    ensures ok ==> t.SignalFields() == old(t.SignalFields()).(active := false, activeNumber := 0)
  {
    hide LoadLE, Has, AddressSpaces.Valid, AddressSpaces.Memory, RegistersOf, LoadWords;
    if !t.signalActive || !ContextInStack(context) { return false; }
    var magic := spaces.PeekWord(t.directory, context + 4, 4);
    var number := spaces.PeekWord(t.directory, context, 4);
    if magic != SIGNAL_FRAME_MAGIC || number != t.activeSignal { return false; }
    frame.regs := ReadRegisters(spaces, t.directory, context + 8);
    t.signalActive := false;
    t.activeSignal := 0;
    ok := true;
  }
}
