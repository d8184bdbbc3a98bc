/** A run of deliveries: every pending signal's handler runs once, lowest number first, and the interrupted
    registers come back. */
module SignalChain {
  import opened Memory
  import opened Frames
  import opened Processes
  import opened SignalDelivery
  import opened SystemCalls

  /** What user code does between entering a handler and trapping into sigreturn. */
  type Handler = Machine -> Machine

  /** The handler touches neither the kernel's signal fields nor the saved frame, unmaps no stack, and ends in sigreturn
      with the address its return pops to. */
  ghost predicate Intact(h: Handler) {
    forall m: Machine :: m.signals.active && StackMapped(m.memory) ==>
      && h(m).signals == m.signals && StackMapped(h(m).memory)
      && SameOn(m.memory, h(m).memory, m.regs.useresp, m.regs.useresp + FRAME_SIZE)
      && h(m).regs.eax == SYSCALL_SIGRETURN && h(m).regs.ebx == m.regs.useresp + 4
  }

  /** A process in user mode, no handler active, with room for a frame and a custom handler for every pending signal. */
  ghost predicate Deliverable(m: Machine) {
    && SignalsOk(m.signals) && !m.signals.active && 0xBFFF_E04C <= m.regs.useresp <= 0xC000_0000
    && StackMapped(m.memory) && Bounded(m.regs)
    && m.regs.cs % 4 == 3 && forall n: nat :: n in PendingSet(m.signals.pending) ==> IsCustom(m.signals.handlers[n])
  }

  /** deliver, the handler, then sigreturn. */
  ghost function Round(m: Machine, n: nat, h: Handler): Machine
  {
    var trapped := h(Delivered(m, n).0);
    Returned(trapped, trapped.regs.ebx)
  }

  /** The rounds until nothing is pending, at most limit of them: which handlers ran, and where it ended. */
  ghost function Chain(m: Machine, h: Handler, limit: nat): (seq<nat>, Machine)
    decreases limit
  {
    var n := LowestFrom(m.signals.pending, 1);
    if limit == 0 || n == 0 then ([], m) else
      var rest := Chain(Round(m, n, h), h, limit - 1);
      ([n] + rest.0, rest.1)
  }

  /** The lowest pending signal from k up, 0 when there is none. */
  ghost function LowestFrom(w: Word, k: nat): (n: nat)
    requires k <= SIGNAL_COUNT
    ensures n == 0 || k <= n < SIGNAL_COUNT
    decreases SIGNAL_COUNT - k
  {
    if k == SIGNAL_COUNT then 0 else if Has(w, k) then k else LowestFrom(w, k + 1)
  }

  lemma {:induction false} LowestFromMeans(w: Word, k: nat)
    requires 1 <= k <= SIGNAL_COUNT && forall j: nat :: 1 <= j < k ==> !Has(w, j)
    ensures IsLowest(w, LowestFrom(w, k))
    decreases SIGNAL_COUNT - k
  {
    hide Has;
    if k < SIGNAL_COUNT && !Has(w, k) { LowestFromMeans(w, k + 1); }
  }

  /** The chosen signal is the one take_next_pending_signal takes. */
  lemma LowestIsTaken(w: Word, n: nat)
    requires IsLowest(w, n) && n < SIGNAL_COUNT
    ensures LowestFrom(w, 1) == n
  {
    hide Has;
    LowestFromMeans(w, 1);
  }

  ghost predicate Ascending(s: seq<nat>) {
    forall i, j :: 0 <= i < j < |s| ==> s[i] < s[j]
  }

  lemma PendingRange(w: Word, n: nat)
    requires n in PendingSet(w)
    ensures 1 <= n < SIGNAL_COUNT
  {
  }

  /** The frame fits in the stack, and its words fit in 32 bits. */
  ghost predicate Frameable(m: Mem, at: int, words: seq<nat>) {
    |words| == FRAME_SIZE / 4 && Mapped(m, at, FRAME_SIZE) && forall k :: 0 <= k < |words| ==> words[k] <= U32_MAX
  }

  /** Word k of a stored frame, as long as the frame is left alone. */
  lemma FrameWord(m: Mem, at: int, words: seq<nat>, after: Mem, k: nat)
    requires Frameable(m, at, words) && k < FRAME_SIZE / 4
    requires SameOn(StoreWords(m, at, words), after, at, at + FRAME_SIZE)
    ensures Load32(StoreWords(m, at, words), at + 4 * k) == words[k] && Load32(after, at + 4 * k) == words[k]
  {
    hide StoreWords, Load32;
    StoreWordsFrame(m, at, words);
    WordReadsBack(m, at, words, k);
    assert Mapped(StoreWords(m, at, words), at + 4 * k, 4);
    LoadSame(StoreWords(m, at, words), after, at + 4 * k);
  }

  /** The interrupted registers read back from the saved frame. */
  lemma FrameRegisters(m: Mem, at: int, trampoline: nat, n: nat, regs: Registers, after: Mem)
    requires Frameable(m, at, SavedFrame(trampoline, n, regs))
    requires SameOn(StoreWords(m, at, SavedFrame(trampoline, n, regs)), after, at, at + FRAME_SIZE)
    ensures Load32(after, at + 4) == n && Load32(after, at + 8) == SIGNAL_FRAME_MAGIC
    ensures RegistersOf(LoadWords(after, at + 12, REGISTER_WORDS)) == regs
  {
    hide StoreWords, Load32, SameOn, Frameable;
    var loaded, words := LoadWords(after, at + 12, REGISTER_WORDS), SavedFrame(trampoline, n, regs);
    forall i | 0 <= i < REGISTER_WORDS ensures loaded[i] == WordsOf(regs)[i] {
      FrameWord(m, at, words, after, i + 3);
      assert at + 4 * (i + 3) == at + 12 + 4 * i && words[i + 3] == WordsOf(regs)[i];
    }
    assert loaded == WordsOf(regs);
    FrameWord(m, at, words, after, 1);
    FrameWord(m, at, words, after, 2);
  }

  lemma FrameFits(m: Machine, n: nat)
    requires SignalsOk(m.signals) && HasRoom(m.regs.useresp) && StackMapped(m.memory) && Bounded(m.regs)
    requires n < SIGNAL_COUNT
    ensures Frameable(m.memory, FrameAddress(m.regs.useresp), SavedFrame(m.signals.trampoline, n, m.regs))
  {
    hide Has;
    var words := SavedFrame(m.signals.trampoline, n, m.regs);
    assert forall i :: 3 <= i < |words| ==> words[i] == WordsOf(m.regs)[i - 3];
  }

  /** What a handler of signal n is entered with: its own address, and an aligned stack below the interrupted one. */
  lemma HandlerEntry(m: Machine, n: nat)
    requires Deliverable(m) && n in PendingSet(m.signals.pending)
    ensures 1 <= n < SIGNAL_COUNT && Delivered(m, n) == (Entering(m, n), Resume)
    ensures var regs := Entering(m, n).regs;
            && regs.eip == m.signals.handlers[n] && regs.useresp % 16 == 0
            && STACK_BOTTOM <= regs.useresp && regs.useresp + FRAME_SIZE <= m.regs.useresp
  {
    PendingRange(m.signals.pending, n);
    hide StoreWords, Load32, Has, Without, PendingSet, StackMapped, SavedFrame;
  }

  /** The handler finds the trampoline as return address and n as argument, and delivery wrote only the frame. */
  lemma HandlerFrame(m: Machine, n: nat)
    requires Deliverable(m) && n in PendingSet(m.signals.pending)
    ensures 1 <= n < SIGNAL_COUNT
    ensures var e := Entering(m, n);
            && Load32(e.memory, e.regs.useresp) == m.signals.trampoline && Load32(e.memory, e.regs.useresp + 4) == n
            && SameOutside(m.memory, e.memory, e.regs.useresp, e.regs.useresp + FRAME_SIZE) && StackMapped(e.memory)
    ensures var (e, r) := (Entering(m, n), m.regs);
            var (after, at) := (e.memory, e.regs.useresp + 12);
            && Load32(after, at - 4) == 0x5349_4746
            && Load32(after, at) == r.ds && Load32(after, at + 4) == r.edi && Load32(after, at + 8) == r.esi
            && Load32(after, at + 12) == r.ebp && Load32(after, at + 16) == r.esp && Load32(after, at + 20) == r.ebx
            && Load32(after, at + 24) == r.edx && Load32(after, at + 28) == r.ecx && Load32(after, at + 32) == r.eax
            && Load32(after, at + 36) == r.intNo && Load32(after, at + 40) == r.errCode
            && Load32(after, at + 44) == r.eip && Load32(after, at + 48) == r.cs && Load32(after, at + 52) == r.eflags
            && Load32(after, at + 56) == r.useresp && Load32(after, at + 60) == r.ss
  {
    hide FrameAddress, StoreWords, Load32, Has, Without, PendingSet, Frameable, SavedFrame, SameOutside, StackMapped,
         WordsOf;
    PendingRange(m.signals.pending, n);
    FrameFits(m, n);
    FrameStored(m.memory, FrameAddress(m.regs.useresp), SavedFrame(m.signals.trampoline, n, m.regs));
    SavedWords(m.signals.trampoline, n, m.regs);
    var e := Entering(m, n);
    SameOnSelf(e.memory, e.regs.useresp, e.regs.useresp + FRAME_SIZE);
    FrameRegisters(m.memory, FrameAddress(m.regs.useresp), m.signals.trampoline, n, m.regs, e.memory);
    RegistersAt(e.memory, e.regs.useresp + 12);
  }

  lemma FrameStored(m: Mem, at: int, words: seq<nat>)
    requires Frameable(m, at, words)
    ensures var stored := StoreWords(m, at, words);
            && Load32(stored, at) == words[0] && Load32(stored, at + 4) == words[1]
            && SameOutside(m, stored, at, at + FRAME_SIZE) && (StackMapped(m) ==> StackMapped(stored))
  {
    hide StoreWords, Load32;
    var stored := StoreWords(m, at, words);
    StoreWordsFrame(m, at, words);
    SameOnSelf(stored, at, at + FRAME_SIZE);
    FrameWord(m, at, words, stored, 0);
    FrameWord(m, at, words, stored, 1);
  }

  lemma SavedWords(trampoline: nat, n: nat, regs: Registers)
    ensures SavedFrame(trampoline, n, regs)[0] == trampoline && SavedFrame(trampoline, n, regs)[1] == n
  {
  }

  lemma Accepted(after: Machine, at: nat, n: nat, regs: Registers)
    requires after.signals.active && after.signals.activeNumber == n
    requires STACK_BOTTOM <= at <= USER_STACK_TOP - FRAME_SIZE
    requires Load32(after.memory, at + 4) == n && Load32(after.memory, at + 8) == SIGNAL_FRAME_MAGIC
    requires RegistersOf(LoadWords(after.memory, at + 12, REGISTER_WORDS)) == regs
    ensures Returned(after, at + 4) == Machine(after.signals.(active := false, activeNumber := 0), regs, after.memory)
  {
    hide Load32, LoadWords, RegistersOf;
  }

  lemma HandlerRuns(m: Machine, h: Handler)
    requires Intact(h) && m.signals.active && StackMapped(m.memory)
    ensures h(m).signals == m.signals && StackMapped(h(m).memory)
    ensures SameOn(m.memory, h(m).memory, m.regs.useresp, m.regs.useresp + FRAME_SIZE)
    ensures h(m).regs.eax == SYSCALL_SIGRETURN && h(m).regs.ebx == m.regs.useresp + 4
  {
  }

  /** sigreturn accepts the saved frame a handler left alone, and gives back the interrupted registers. */
  lemma FrameSurvives(m: Machine, n: nat, h: Handler)
    requires Deliverable(m) && Intact(h) && n in PendingSet(m.signals.pending)
    ensures 1 <= n < SIGNAL_COUNT
    ensures Round(m, n, h) ==
              Machine(Entering(m, n).signals.(active := false, activeNumber := 0), m.regs, h(Entering(m, n)).memory)
    ensures StackMapped(h(Entering(m, n)).memory)
  {
    hide FrameAddress, StoreWords, Load32, Has, Without, PendingSet, Frameable, SavedFrame, SameOutside, SameOn,
         StackMapped, WordsOf, Intact, Returned, Delivered, SignalsOk, LoadWords, RegistersOf, Bounded;
    HandlerEntry(m, n);
    HandlerFrame(m, n);
    FrameFits(m, n);
    var entered := Entering(m, n);
    var after := h(entered);
    HandlerRuns(entered, h);
    FrameRegisters(m.memory, entered.regs.useresp, m.signals.trampoline, n, m.regs, after.memory);
    Accepted(after, entered.regs.useresp, n, m.regs);
  }

  /** One round takes one signal and changes nothing else the kernel keeps. */
  lemma RoundKeeps(m: Machine, n: nat, h: Handler)
    requires Deliverable(m) && Intact(h) && n in PendingSet(m.signals.pending)
    ensures Deliverable(Round(m, n, h)) && Round(m, n, h).regs == m.regs
    ensures Round(m, n, h).signals == m.signals.(pending := Without(m.signals.pending, n))
    ensures PendingSet(Round(m, n, h).signals.pending) == PendingSet(m.signals.pending) - {n}
  {
    FrameSurvives(m, n, h);
    PendingRange(m.signals.pending, n);
    Clearing(m.signals.pending, n);
    hide StoreWords, Load32, Has, Without, PendingSet;
  }

  /** The chain identity. With room on the stack and handlers that leave the saved frame alone, at most as many rounds
      as pending signals run every pending signal exactly once, in ascending order, and restore the registers. */
  lemma {:induction false} ChainRestores(m: Machine, h: Handler, limit: nat)
    requires Deliverable(m) && Intact(h) && |PendingSet(m.signals.pending)| <= limit
    ensures var (ran, last) := Chain(m, h, limit);
            && last.regs == m.regs && SignalsOk(last.signals) && PendingSet(last.signals.pending) == {}
            && last.signals == m.signals.(pending := last.signals.pending)
            && Ascending(ran) && (forall n :: n in ran <==> n in PendingSet(m.signals.pending))
            && |ran| == |PendingSet(m.signals.pending)|
    decreases limit
  {
    hide PendingSet, Round, Has, Deliverable;
    var n := LowestFrom(m.signals.pending, 1);
    NextRound(m, n);
    if n != 0 {
      var next := Round(m, n, h);
      RoundKeeps(m, n, h);
      NotEmpty(PendingSet(m.signals.pending), n);
      ChainRestores(next, h, limit - 1);
      Prepend(n, Chain(next, h, limit - 1).0, PendingSet(next.signals.pending), PendingSet(m.signals.pending));
    } else {
      EmptyChain(PendingSet(m.signals.pending));
    }
  }

  lemma NextRound(m: Machine, n: nat)
    requires Deliverable(m) && n == LowestFrom(m.signals.pending, 1)
    ensures |m.signals.handlers| == SIGNAL_COUNT && SignalsOk(m.signals)
    ensures n == 0 ==> PendingSet(m.signals.pending) == {}
    ensures n != 0 ==> n in PendingSet(m.signals.pending) && forall k :: k in PendingSet(m.signals.pending) ==> n <= k
  {
    LowestFromMeans(m.signals.pending, 1);
  }

  lemma NotEmpty(s: set<nat>, n: nat)
    requires n in s
    ensures |s| == |s - {n}| + 1
  {
  }

  lemma EmptyChain(s: set<nat>)
    ensures Ascending([]) && (s == {} ==> |s| == 0)
  {
  }

  lemma Prepend(n: nat, rest: seq<nat>, later: set<nat>, all: set<nat>)
    requires n in all && later == all - {n} && (forall k :: k in all ==> n <= k)
    requires Ascending(rest) && forall k :: k in rest <==> k in later
    ensures Ascending([n] + rest) && forall k :: k in [n] + rest <==> k in all
  {
    var ran := [n] + rest;
    forall i, j | 0 <= i < j < |ran| ensures ran[i] < ran[j] {
      assert ran[j] == rest[j - 1] && rest[j - 1] in rest;
    }
    forall k ensures k in ran <==> k in all {
      assert k in ran <==> k == n || k in rest;
    }
  }

  /** Thirty-one rounds are always enough. */
  lemma ThirtyOneRounds(m: Machine, h: Handler)
    requires Deliverable(m) && Intact(h)
    ensures Chain(m, h, 31).1.regs == m.regs && Chain(m, h, 31).1.signals == m.signals.(pending := 0)
    ensures Ascending(Chain(m, h, 31).0) && forall n :: n in Chain(m, h, 31).0 <==> n in PendingSet(m.signals.pending)
  {
    PendingCount(m.signals.pending);
    hide Has;
    ChainRestores(m, h, 31);
    NothingPending(Chain(m, h, 31).1.signals);
  }

  lemma NothingPending(s: Signals)
    requires SignalsOk(s) && PendingSet(s.pending) == {}
    ensures s.pending == 0
  {
    hide Has;
    forall j | 0 <= j < 32 ensures !Has(s.pending, j) {
      if j > 0 { assert j !in PendingSet(s.pending); }
    }
    NoBits(s.pending);
  }

  lemma PendingCount(w: Word)
    ensures |PendingSet(w)| <= 31
  {
    hide Has;
    UpTo(31);
    assert PendingSet(w) <= Numbers(31);
    SubsetCount(PendingSet(w), Numbers(31));
  }

  ghost function Numbers(k: nat): set<nat> {
    if k == 0 then {} else Numbers(k - 1) + {k}
  }

  lemma {:induction false} UpTo(k: nat)
    ensures |Numbers(k)| == k && forall n: nat :: n in Numbers(k) <==> 1 <= n <= k
  {
    if k > 0 { UpTo(k - 1); }
  }

  lemma {:induction false} SubsetCount(a: set<nat>, b: set<nat>)
    requires a <= b
    ensures |a| <= |b|
  {
    if a != {} {
      var x :| x in a;
      SubsetCount(a - {x}, b - {x});
    }
  }

  // ---------------------------------------------------------------- the chain as the code runs it

  /** A run of the code: ready[0] is a process on its way back to user mode, left[i] is what one delivery makes of
      ready[i], and ready[i + 1] is what the dispatcher's sigreturn branch makes of the handler's trap. */
  ghost predicate HandlerRun(h: Handler, ready: seq<Machine>, left: seq<Machine>, ns: seq<nat>) {
    && |ready| == |left| == |ns| > 0
    && (forall i :: 0 <= i < |ns| ==> Next(ready[i], ns[i]) && (left[i], Resume) == Delivered(ready[i], ns[i]))
    && forall i :: 0 <= i < |ns| - 1 ==> ns[i] != 0 && Answers(h(left[i]), ready[i + 1])
  }

  /** The signal that is delivered next is the one the chain takes. */
  lemma NextIsLowest(m: Machine, n: nat)
    requires Deliverable(m) && Next(m, n)
    ensures n == LowestFrom(m.signals.pending, 1)
  {
    hide Has, PendingSet, SignalsOk, StackMapped;
    if n >= SIGNAL_COUNT { PendingRange(m.signals.pending, n); }
    LowestIsTaken(m.signals.pending, n);
  }

  /** A handler's trap, served by the dispatcher, is the end of one round. */
  lemma ServedIsRound(m: Machine, n: nat, left: Machine, served: Machine, h: Handler)
    requires Deliverable(m) && Intact(h) && n in PendingSet(m.signals.pending)
    requires (left, Resume) == Delivered(m, n) && Answers(h(left), served)
    ensures served == Round(m, n, h)
  {
    FrameSurvives(m, n, h);
    HandlerEntry(m, n);
    HandlerFrame(m, n);
    HandlerRuns(left, h);
    hide PendingSet, Deliverable, Returned, Delivered, Intact, SignalsOk;
    ReturnedOnly(h(left), h(left).regs.ebx);
    assert Returns(h(left), h(left).regs.ebx);
  }

  lemma ReturnedOnly(m: Machine, context: nat)
    ensures Returned(m, context).signals != m.signals ==> Returns(m, context)
  {
    hide Returns;
  }

  lemma LaterRun(h: Handler, ready: seq<Machine>, left: seq<Machine>, ns: seq<nat>)
    requires HandlerRun(h, ready, left, ns) && |ns| > 1
    ensures HandlerRun(h, ready[1..], left[1..], ns[1..])
  {
    hide Next, Delivered, Answers;
    var ready', left', ns' := ready[1..], left[1..], ns[1..];
    forall i | 0 <= i < |ns'| - 1 ensures ns'[i] != 0 && Answers(h(left'[i]), ready'[i + 1]) {
      assert ns'[i] == ns[i + 1] && left'[i] == left[i + 1] && ready'[i + 1] == ready[i + 2];
      assert Answers(h(left[i + 1]), ready[i + 1 + 1]);
    }
  }

  /** Every run of the code through deliveries and sigreturns is the chain: it takes the same signals, and once a
      delivery finds nothing, the process is back where it was interrupted with nothing pending. */
  lemma {:induction false} RunIsChain(m: Machine, h: Handler, ready: seq<Machine>, left: seq<Machine>, ns: seq<nat>,
                                      limit: nat)
    requires Deliverable(m) && Intact(h) && HandlerRun(h, ready, left, ns) && ready[0] == m
    requires |PendingSet(m.signals.pending)| <= limit
    ensures |ns| <= |PendingSet(m.signals.pending)| + 1
    ensures forall i :: 0 <= i < |ns| ==> Deliverable(ready[i]) && ready[i].regs == m.regs
    ensures ns[|ns| - 1] == 0 ==> (ns[..|ns| - 1], left[|ns| - 1]) == Chain(m, h, limit)
    ensures ns[|ns| - 1] != 0 ==> ns <= Chain(m, h, limit).0
    decreases limit
  {
    hide PendingSet, Round, Has, Deliverable, Answers, Next, Delivered, Intact;
    var n := ns[0];
    NextIsLowest(m, n);
    NextRound(m, n);
    if n == 0 {
      Nothing(m, left[0]);
      assert ns[..0] == [];
    } else {
      RoundKeeps(m, n, h);
      NotEmpty(PendingSet(m.signals.pending), n);
      if |ns| > 1 {
        var next := ready[1];
        ServedIsRound(m, n, left[0], next, h);
        LaterRun(h, ready, left, ns);
        RunIsChain(next, h, ready[1..], left[1..], ns[1..], limit - 1);
        assert ns == [n] + ns[1..] && ns[..|ns| - 1] == [n] + ns[1..][..|ns[1..]| - 1];
        forall i | 0 <= i < |ns| ensures Deliverable(ready[i]) && ready[i].regs == m.regs {
          if i > 0 { assert ready[i] == ready[1..][i - 1]; }
        }
      } else {
        assert ns == [n] && limit > 0;
      }
    }
  }

  lemma Nothing(m: Machine, left: Machine)
    requires (left, Resume) == Delivered(m, 0)
    ensures left == m
  {
  }

  /** The dispatcher's loop of handlers ends within thirty-one rounds, each pending signal handled once and in ascending
      order, with the interrupted registers back and nothing pending. */
  lemma DispatcherChain(m: Machine, h: Handler, ready: seq<Machine>, left: seq<Machine>, ns: seq<nat>)
    requires Deliverable(m) && Intact(h) && HandlerRun(h, ready, left, ns) && ready[0] == m
    ensures |ns| <= 32 && (ns[|ns| - 1] != 0 ==> |ns| <= 31) && Ascending(ns[..|ns| - 1])
    ensures ns[|ns| - 1] == 0 ==>
              && (forall n :: n in ns[..|ns| - 1] <==> n in PendingSet(m.signals.pending))
              && left[|ns| - 1].regs == m.regs && left[|ns| - 1].signals == m.signals.(pending := 0)
  {
    hide PendingSet, Has, Deliverable, Intact, Chain, HandlerRun;
    PendingCount(m.signals.pending);
    RunIsChain(m, h, ready, left, ns, 31);
    ChainRestores(m, h, 31);
    ThirtyOneRounds(m, h);
    SomeRun(h, ready, left, ns);
    if ns[|ns| - 1] != 0 {
      PrefixAscends(ns, Chain(m, h, 31).0);
    }
  }

  lemma SomeRun(h: Handler, ready: seq<Machine>, left: seq<Machine>, ns: seq<nat>)
    requires HandlerRun(h, ready, left, ns)
    ensures |ready| == |left| == |ns| > 0
  {
    hide Next, Delivered, Answers;
  }

  lemma PrefixAscends(part: seq<nat>, all: seq<nat>)
    requires part <= all && Ascending(all) && part != []
    ensures Ascending(part[..|part| - 1])
  {
  }
}
