/** Whole runs of the process machinery: any sequence of system calls, stores by user programs, and switches. */
module ProcessRuns {
  import opened Memory
  import opened Frames
  import opened PageTables
  import opened Paging
  import opened Processes
  import opened SignalDelivery
  import opened ProcessRules
  import opened ProcessTable
  import opened SystemCalls
  import opened UserMemory

  /** One step: PID 0 starts the first user process, the running program stores a byte or makes a system call with
      whatever registers it likes, a switch, the timer interrupts whatever runs, the running process goes to sleep over
      a keyboard read, or a key wakes the sleepers. */
  datatype Op =
    | Start
    | Store(address: nat, value: Byte)
    | Call(regs: Registers, caller: Caller, service: Service)
    | Switch
    | Tick(regs: Registers)
    | AwaitKey
    | KeyArrives

  ghost predicate WellFormed(op: Op) {
    match op
    case Call(regs, _, _) => Bounded(regs)
    case Tick(regs) => Bounded(regs)
    case _ => true
  }

  /** Where a run stands: going on, halted without memory, halted by a page fault, or past a store outside the user
      range. */
  datatype End = Going | MemoryFull | Fault | OffRange

  /** The step stores outside the user range, where kernel pages are open to user code and nothing is said of it
      here. */
  predicate Strays(op: Op) {
    match op
    case Store(address, _) => !InUserRange(address, 1)
    case Call(regs, _, service) => LeadsAway(regs, service)
    case _ => false
  }

  /** The step meets a missing page, or one that is not the program's to write. */
  ghost predicate MeetsFault(op: Op, m: Mem, spaces: AddressSpaces, d: int)
    reads spaces
  {
    match op
    case Store(address, _) =>
      && InUserRange(address, 1)
      && !(PageOf(address) in spaces.Flags(d) && spaces.Flags(d)[PageOf(address)])
    case Call(regs, _, service) => Misses(regs, service, m)
    case _ => false
  }

  method StartFirst(t: Table) returns (ok: bool)
    requires t.Valid()
    modifies t`tasks, t`nextPid, t.tasks, t.spaces, t.spaces.bitmap.words
    ensures !ok ==> t.spaces.bitmap.Valid() && t.spaces.bitmap.Full()
    ensures ok ==> t.Valid() && Follows(old(RosterOf(t)), RosterOf(t))
    ensures ok ==> forall task :: task in t.tasks ==> task in old(t.tasks) || fresh(task)
  {
    hide Table.Valid, InfosOf, Follows, AddressSpaces.Snapshot, AddressSpaces.HeldBy, AddressSpaces.Others, Elsewhere,
         HoldingsKept;
    ghost var c := Starting(t);
    ghost var a, w := RosterOf(t), t.spaces.Snapshot();
    var r := t.CreateInitial();
    if r == NoMemory { return false; }
    t.ValidSpaces();
    JoinedKept(t.spaces, r.directory, w);
    FollowsAppended(a, RosterOf(t), Initial(r.pid, r.directory));
    ok := true;
  }

  lemma FollowsAsleep(a: Roster, b: Roster, c: nat)
    requires c < |a.ps| && b.ps == a.ps[c := Asleep(a.ps[c])] && b.nextPid == a.nextPid && b.frames == a.frames
    requires b.kernel == a.kernel
    ensures Follows(a, b)
  {
    FollowsSame(a, b);
  }

  lemma FollowsWoken(a: Roster, b: Roster)
    requires b.ps == Woken(a.ps) && b.nextPid == a.nextPid && b.frames == a.frames && b.kernel == a.kernel
    ensures Follows(a, b)
  {
    FollowsSame(a, b);
  }

  /** The timer interrupt: one delivery on the interrupted frame, then a switch. A fatal signal has switched already. */
  method TimerCallback(t: Table, frame: RegisterFrame) returns (ghost left: Machine, ghost n: nat)
    requires t.Valid()
    modifies t`current, t.tasks, frame, t.spaces`phys
    ensures t.Valid() && t.tasks == old(t.tasks) && Follows(old(RosterOf(t)), RosterOf(t))
    ensures old(t.current.isUser) ==> Next(old(Now(t.current, frame, t.spaces)), n)
    ensures !old(t.current.isUser) ==> n == 0
    ensures left == Delivered(old(Now(t.current, frame, t.spaces)), n).0 && frame.regs == left.regs
    ensures t.spaces.Others(old(t.current.directory)) == old(t.spaces.Others(t.current.directory))
    ensures var (_, d) := Delivered(old(Now(t.current, frame, t.spaces)), n);
            d.Terminate? ==>
              && old(t.current).state == Zombie && old(t.current).exitStatus == d.status
              && t.current != old(t.current)
  {
    hide Table.Valid, InfosOf, Follows, AddressSpaces.Snapshot, AddressSpaces.HeldBy, AddressSpaces.Others,
         AddressSpaces.Memory, OnlySignals, Dies, Delivered, IsLowest, Chooses, Around, RunnableOf;
    ghost var a := RosterOf(t);
    t.NowParts(frame);
    t.UserMeans();
    var d;
    ghost var c, p;
    d, n, left, c, p := t.ReturnToUser(frame);
    if d.Terminate? {
      FollowsDeath(a, RosterOf(t), c, left.signals, d.status, p);
    } else {
      FollowsSignals(a, RosterOf(t), c, left.signals);
      ghost var c', k := t.Reschedule();
    }
  }

  /** One step keeps the invariant, unless it halts the kernel or stores outside the user range. */
  method Perform(t: Table, frame: RegisterFrame, op: Op) returns (e: End)
    requires t.Valid() && WellFormed(op)
    modifies t, t.tasks, frame, t.spaces, t.spaces.bitmap.words
    ensures e == MemoryFull ==> t.spaces.bitmap.Valid() && t.spaces.bitmap.Full()
    ensures e == OffRange ==> Strays(op)
    ensures e == Fault ==> old(MeetsFault(op, t.spaces.Memory(t.current.directory), t.spaces, t.current.directory))
    ensures e == Going ==> t.Valid() && Follows(old(RosterOf(t)), RosterOf(t))
    ensures e == Going ==> forall task :: task in t.tasks ==> task in old(t.tasks) || fresh(task)
  {
    hide Table.Valid, InfosOf, Follows, AddressSpaces.Snapshot, AddressSpaces.HeldBy, AddressSpaces.Memory,
         AddressSpaces.Others, Now, Elsewhere, Bounded, Woken, Asleep, Answers, Next, Delivered, Chooses, Around,
         RunnableOf, LeadsAway, Misses, AddressSpaces.Flags;
    ghost var c := Starting(t);
    ghost var a := RosterOf(t);
    e := Going;
    match op
    case Switch =>
      ghost var c', k := t.Reschedule();
      FollowsItself(a);
    case Start =>
      var ok := StartFirst(t);
      if !ok { e := MemoryFull; }
    case Store(address, value) =>
      FollowsItself(a);
      if !InUserRange(address, 1) { return OffRange; }
      if t.current.isUser {
        var stored := t.UserStore(address, value);
        if !stored { e := Fault; }
      }
    case Call(regs, caller, service) =>
      if t.current.isUser {
        frame.regs := regs;
        ghost var served, left, n;
        var o;
        o, served, left, n := SyscallHandler(t, frame, caller, service);
        e := match o case Stopped => MemoryFull case Faulted => Fault case Astray => OffRange case _ => Going;
      } else {
        FollowsItself(a);
      }
    case Tick(regs) =>
      frame.regs := regs;
      ghost var left, n := TimerCallback(t, frame);
    case AwaitKey =>
      if t.current.isUser {
        ghost var c' := t.WaitForKeyboard();
        FollowsAsleep(a, RosterOf(t), c');
      } else {
        FollowsItself(a);
      }
    case KeyArrives =>
      t.WakeKeyboardWaiters();
      FollowsWoken(a, RosterOf(t));
  }

  /** Some process other than PID 0 holds frame f. */
  ghost predicate HeldByProcess(ps: seq<Info>, frames: map<int, set<nat>>, f: nat) {
    exists i :: 0 < i < |ps| && f in FramesIn(frames, ps[i].directory)
  }

  /** Every frame in use belongs to the kernel, to PID 0, or to exactly one process still in the table. */
  lemma WhoHolds(t: Table, f: nat)
    requires t.Valid()
    ensures f in t.spaces.bitmap.Used() <==>
            || f in StandingFrames(InfosOf(t.tasks), t.spaces.HeldBy(), t.spaces.kernel)
            || HeldByProcess(InfosOf(t.tasks), t.spaces.HeldBy(), f)
    ensures forall i, j :: 0 <= i < j < |t.tasks| ==>
              FramesIn(t.spaces.HeldBy(), InfosOf(t.tasks)[i].directory) !!
              FramesIn(t.spaces.HeldBy(), InfosOf(t.tasks)[j].directory)
  {
    hide Table.Valid, InfosOf, AddressSpaces.Valid, AddressSpaces.Others, AddressSpaces.FramesHeld,
         AddressSpaces.HeldBy;
    t.HeadFacts();
    t.spaces.OthersHeld(t.spaces.kernel);
    t.spaces.FramesAccounted(f);
    t.Apart();
    var ps := InfosOf(t.tasks);
    if f in t.spaces.bitmap.Used() {
      var d :| d in t.spaces.dirs && f in t.spaces.FramesHeld(d);
      if d != t.spaces.kernel {
        var i :| 0 <= i < |ps| && ps[i].directory == d;
      }
    }
  }

  /** Every run keeps the invariant at every step; no collected PID ever comes back; and whatever processes forked,
      mapped, exchanged and wrote in between, the frames in use at the end are those the kernel and PID 0 began with and
      those of the processes still in the table: a collected process leaves nothing behind. A run that stores only in
      the user range can otherwise only end in one of the two halts. */
  method Run(t: Table, frame: RegisterFrame, ops: seq<Op>) returns (e: End)
    requires t.Valid() && forall i :: 0 <= i < |ops| ==> WellFormed(ops[i])
    modifies t, t.tasks, frame, t.spaces, t.spaces.bitmap.words
    ensures e == MemoryFull ==> t.spaces.bitmap.Valid() && t.spaces.bitmap.Full()
    ensures e == OffRange ==> exists i :: 0 <= i < |ops| && Strays(ops[i])
    ensures e == Going ==> t.Valid() && t.nextPid >= old(t.nextPid)
    ensures e == Going ==>
              forall pid :: old(Gone(InfosOf(t.tasks), t.nextPid, pid)) ==> Gone(InfosOf(t.tasks), t.nextPid, pid)
    ensures e == Going ==> forall f: nat :: f in t.spaces.bitmap.Used() <==>
              || f in old(StandingFrames(InfosOf(t.tasks), t.spaces.HeldBy(), t.spaces.kernel))
              || HeldByProcess(InfosOf(t.tasks), t.spaces.HeldBy(), f)
  {
    hide Strays, MeetsFault, Table.Valid, InfosOf, Gone, Follows, AddressSpaces.HeldBy, StandingFrames,
         FrameBitmap.Used, HeldByProcess;
    ghost var a, tasks := RosterOf(t), t.tasks;
    FollowsItself(a);
    var i := 0;
    while i < |ops|
      invariant i <= |ops| && t.Valid() && Follows(a, RosterOf(t))
      invariant tasks == old(t.tasks) && forall task :: task in t.tasks ==> task in tasks || fresh(task)
    {
      assert forall k :: 0 <= k < |t.tasks| ==> t.tasks[k] in tasks || fresh(t.tasks[k]);
      ghost var b := RosterOf(t);
      e := Perform(t, frame, ops[i]);
      if e != Going { return; }
      FollowsTwice(a, b, RosterOf(t));
      i := i + 1;
    }
    WhatFollows(a, RosterOf(t));
    t.HeadFacts();
    forall f: nat
      ensures f in t.spaces.bitmap.Used() <==>
                f in StandingFrames(a.ps, a.frames, a.kernel) || HeldByProcess(InfosOf(t.tasks), t.spaces.HeldBy(), f)
    {
      WhoHolds(t, f);
    }
    e := Going;
  }

  lemma WhatFollows(a: Roster, b: Roster)
    requires Follows(a, b)
    ensures a.nextPid <= b.nextPid
    ensures StandingFrames(b.ps, b.frames, b.kernel) == StandingFrames(a.ps, a.frames, a.kernel)
    ensures forall pid :: Gone(a.ps, a.nextPid, pid) ==> Gone(b.ps, b.nextPid, pid)
  {
    hide StandingFrames;
    forall pid | Gone(a.ps, a.nextPid, pid) ensures Gone(b.ps, b.nextPid, pid) {
      GoneStays(a.ps, a.nextPid, b.ps, b.nextPid, pid);
    }
  }
}
