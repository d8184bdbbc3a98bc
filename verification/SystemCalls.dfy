/** src/syscall.c: the dispatcher behind interrupt 0x80 and the process services it reaches. */
module SystemCalls {
  import opened Memory
  import opened Frames
  import opened PageTables
  import opened Paging
  import opened Processes
  import opened SignalDelivery
  import opened Loader
  import opened Arguments
  import opened Exec
  import opened UserHeap
  import opened UserMemory
  import opened ProcessRules
  import opened ProcessTable

  const SYSCALL_READDIR := 4
  const SYSCALL_READFILE := 5
  const SYSCALL_GETPID := 6
  const SYSCALL_FD_READ := 12
  const SYSCALL_GETCWD := 16
  const SYSCALL_SBRK := 18
  const SYSCALL_EXECVE := 19
  const SYSCALL_FORK := 20
  const SYSCALL_EXIT := 21
  const SYSCALL_WAITPID := 22
  const SYSCALL_SIGNAL := 23
  const SYSCALL_KILL := 24
  const SYSCALL_SIGRETURN := 25
  const SYSCALL_FSTAT := 27
  const SYSCALL_STAT := 28
  const SYSCALL_COUNT := 30

  const ERRNO_ESRCH := 3
  const ERRNO_ENOEXEC := 8
  const ERRNO_ECHILD := 10
  const ERRNO_ENOSYS := 38

  /** The register that carries a result. */
  function Word32(r: int): (w: nat)
    ensures w <= U32_MAX && (0 <= r <= U32_MAX ==> w == r) && (-0x8000_0000 <= r < 0 ==> w == r + 0x1_0000_0000)
    ensures -0x8000_0000 <= r < 0x8000_0000 ==> Signed(w) == r
  {
    r % 0x1_0000_0000
  }

  /** What the pointer arguments of a call refer to. */
  datatype Caller = Caller(text: nat -> Pointer, vector: nat -> Vector, noEnvironment: nat -> bool,
                           resolve: seq<Byte> -> Lookup)

  // ---------------------------------------------------------------- what every step keeps

  /** Who is in the table, and which frames each directory holds. */
  datatype Roster = Roster(ps: seq<Info>, nextPid: nat, frames: map<int, set<nat>>, kernel: int)

  ghost function RosterOf(t: Table): Roster
    reads t`tasks, t`nextPid, t.tasks, t.spaces`dirs, t.spaces`owner, t.spaces`home
  {
    Roster(InfosOf(t.tasks), t.nextPid, t.spaces.HeldBy(), t.spaces.kernel)
  }

  /** The frames of the kernel and of PID 0 stay what they were, and no collected PID comes back. */
  ghost predicate Follows(a: Roster, b: Roster) {
    && NoReturn(a.ps, a.nextPid, b.ps, b.nextPid) && b.kernel == a.kernel
    && StandingFrames(b.ps, b.frames, b.kernel) == StandingFrames(a.ps, a.frames, a.kernel)
  }

  lemma FollowsTwice(a: Roster, b: Roster, c: Roster)
    requires Follows(a, b) && Follows(b, c)
    ensures Follows(a, c)
  {
    hide NoReturn, StandingFrames;
    NoReturnTwice(a.ps, a.nextPid, b.ps, b.nextPid, c.ps, c.nextPid);
  }

  lemma FollowsItself(a: Roster)
    ensures Follows(a, a)
  {
    SameIds(a.ps, a.ps, a.nextPid);
  }

  /** A step that leaves every process where it was, and all frames. */
  lemma FollowsSame(a: Roster, b: Roster)
    requires SameHomes(a.ps, b.ps) && b.nextPid == a.nextPid && b.frames == a.frames && b.kernel == a.kernel
    ensures Follows(a, b)
  {
    SameIds(a.ps, b.ps, a.nextPid);
    hide NoReturn;
  }

  /** Outside directory d nothing about the frames is different. */
  ghost predicate HoldingsKept(before: map<int, set<nat>>, after: map<int, set<nat>>, d: int) {
    forall e :: e in before && e != d ==> e in after && after[e] == before[e]
  }

  /** The kernel and PID 0 have their frames, and directory d is not theirs. */
  ghost predicate Elsewhere(a: Roster, d: int) {
    |a.ps| > 0 && a.ps[0].directory in a.frames && a.kernel in a.frames && d != a.kernel && d != a.ps[0].directory
  }

  /** A step that changed the frames of directory d at most. */
  lemma FollowsOne(a: Roster, b: Roster, d: int)
    requires Elsewhere(a, d) && HoldingsKept(a.frames, b.frames, d) && NoReturn(a.ps, a.nextPid, b.ps, b.nextPid)
    requires b.kernel == a.kernel
    requires |b.ps| > 0 && b.ps[0].directory == a.ps[0].directory
    ensures Follows(a, b)
  {
    hide NoReturn;
    StandingKept(a.ps, a.frames, b.ps, b.frames, a.kernel, d);
  }

  lemma FollowsAppended(a: Roster, b: Roster, p: Info)
    requires Elsewhere(a, p.directory) && HoldingsKept(a.frames, b.frames, p.directory) && b.kernel == a.kernel
    requires b.ps == a.ps + [p] && p.id == a.nextPid && b.nextPid == a.nextPid + 1
    ensures Follows(a, b)
  {
    OneMore(a.ps, p, a.nextPid);
    FollowsOne(a, b, p.directory);
  }

  lemma FollowsRemoved(a: Roster, b: Roster, k: nat)
    requires 0 < k < |a.ps| && Elsewhere(a, a.ps[k].directory) && HoldingsKept(a.frames, b.frames, a.ps[k].directory)
    requires b.ps == a.ps[..k] + a.ps[k + 1..] && b.nextPid == a.nextPid && b.kernel == a.kernel
    ensures Follows(a, b)
  {
    OneLess(a.ps, k, a.nextPid);
    FollowsOne(a, b, a.ps[k].directory);
  }

  lemma FollowsPut(a: Roster, b: Roster, c: nat, p: Info)
    requires 0 < c < |a.ps| && Elsewhere(a, a.ps[c].directory) && HoldingsKept(a.frames, b.frames, a.ps[c].directory)
    requires b.ps == a.ps[c := p] && p.id == a.ps[c].id && b.nextPid == a.nextPid && b.kernel == a.kernel
    ensures Follows(a, b)
  {
    SameIds(a.ps, b.ps, a.nextPid);
    FollowsOne(a, b, a.ps[c].directory);
  }

  lemma FollowsSignals(a: Roster, b: Roster, c: nat, s: Signals)
    requires OnlySignals(a.ps, b.ps, c, s) && b.nextPid == a.nextPid && b.frames == a.frames && b.kernel == a.kernel
    ensures Follows(a, b)
  {
    SignalsKeepIds(a.ps, b.ps, c, s);
    FollowsSame(a, b);
  }

  lemma FollowsExit(a: Roster, b: Roster, c: nat, status: int, p: nat)
    requires Exited(a.ps, c, status, p, b.ps) && b.nextPid == a.nextPid && b.frames == a.frames && b.kernel == a.kernel
    ensures Follows(a, b)
  {
    ExitKeepsIds(a.ps, c, status, p, b.ps);
    FollowsSame(a, b);
  }

  lemma FollowsDeath(a: Roster, b: Roster, c: nat, s: Signals, status: int, p: nat)
    requires Dies(a.ps, c, s, status, p, b.ps) && b.nextPid == a.nextPid && b.frames == a.frames && b.kernel == a.kernel
    ensures Follows(a, b)
  {
    var mid := a.ps[c := a.ps[c].(signals := s)];
    ExitKeepsIds(mid, c, status, p, b.ps);
    FollowsSame(a, b);
  }

  lemma FollowsSent(a: Roster, b: Roster, k: nat, n: int)
    requires b.ps == Notified(a.ps, k, n) && b.nextPid == a.nextPid && b.frames == a.frames && b.kernel == a.kernel
    ensures Follows(a, b)
  {
    hide Raised;
    FollowsSame(a, b);
  }

  /** Directory d is new: the frames of all others are those of the world before. */
  lemma JoinedKept(spaces: AddressSpaces, d: int, w: World)
    requires spaces.Valid() && spaces.Others(d) == w
    ensures HoldingsKept(w.frames, spaces.HeldBy(), d)
  {
    hide AddressSpaces.Valid, AddressSpaces.Others, AddressSpaces.FramesHeld;
    spaces.OthersHeld(d);
  }

  lemma ReplacedKept(spaces: AddressSpaces, d: int, previous: int, w: World)
    requires Replaced(spaces, d, previous, w) && w.frames.Keys == w.spaces.Keys
    ensures HoldingsKept(w.frames, spaces.HeldBy(), previous)
  {
    hide AddressSpaces.Valid, AddressSpaces.Others, AddressSpaces.FramesHeld, AddressSpaces.Space;
    spaces.OthersHeld(d);
    forall e | e in w.frames && e != previous ensures e in spaces.HeldBy() && spaces.HeldBy()[e] == w.frames[e] {
      assert e in w.spaces.Keys - {previous};
      assert e in spaces.dirs;
    }
  }

  lemma ShedKept(t: Table, d: int, w: World)
    requires t.Shed(d, w)
    ensures HoldingsKept(w.frames, t.spaces.HeldBy(), d)
  {
    hide AddressSpaces.Valid, AddressSpaces.Others, AddressSpaces.FramesHeld, AddressSpaces.Space,
         AddressSpaces.Snapshot;
    t.spaces.OthersHeld(d);
  }

  /** What the services below need of the state they start in. */
  lemma Starting(t: Table) returns (c: nat)
    requires t.Valid()
    ensures var ps := InfosOf(t.tasks);
            && c < |ps| && t.tasks[c] == t.current && ps[c] == InfoOf(t.current) && t.current in t.tasks
            && (t.current.isUser ==> c > 0)
            && (forall i :: 0 < i < |ps| ==> Elsewhere(RosterOf(t), ps[i].directory))
            && (forall d :: d !in t.spaces.HeldBy() ==> Elsewhere(RosterOf(t), d))
            && t.spaces.Snapshot().frames == t.spaces.HeldBy()
            && t.spaces.Snapshot().spaces.Keys == t.spaces.HeldBy().Keys
  {
    hide Table.Valid, InfosOf, AddressSpaces.Valid, AddressSpaces.Others, AddressSpaces.FramesHeld, AddressSpaces.Space,
         AddressSpaces.Snapshot;
    c := t.CurrentFacts();
    t.HeadFacts();
    t.spaces.SnapshotFrames();
    t.spaces.SnapshotHolds();
  }

  // ---------------------------------------------------------------- what the services do

  /** sbrk: the break moves exactly when it stays in the heap's range, and the old one is the answer. */
  ghost predicate SbrkServed(before: HeapFields, after: HeapFields, increment: int, eax: nat) {
    if before.start <= before.end + increment <= before.limit then
      eax == before.end && after.end == before.end + increment
    else
      eax == 0xFFFF_FFFF && after == before
  }

  /** fork: one new process behind all others, a runnable child of the caller. */
  ghost predicate ForkServed(ps: seq<Info>, ps': seq<Info>, parent: int, pid: int, d: int, eax: nat) {
    && |ps'| == |ps| + 1 && ps'[..|ps|] == ps && eax == Word32(pid)
    && var child := ps'[|ps|];
       child.id == pid && child.parentId == parent && child.state == Runnable && child.directory == d
  }

  /** waitpid: process k is the caller's child of that PID if there is one, and is gone afterwards if it had exited. */
  ghost predicate WaitServed(ps: seq<Info>, ps': seq<Info>, k: nat, pid: int, caller: int, eax: nat) {
    if pid <= 0 || forall i :: 0 <= i < |ps| ==> !(ps[i].id == pid && ps[i].parentId == caller) then
      eax == 0xFFFF_FFF6 && ps' == ps
    else
      && 0 < k < |ps| && ps[k].id == pid && ps[k].parentId == caller
      && if ps[k].state == Zombie then eax == Word32(pid) && ps' == ps[..k] + ps[k + 1..] else eax == 0 && ps' == ps
  }

  /** The exit status of process k is in the word that the caller's pointer leads to, and no other byte is different. */
  ghost predicate StatusServed(ps: seq<Info>, k: nat, at: nat, m: Mem, m': Mem) {
    && k < |ps| && (at == 0 ==> m' == m)
    && (at != 0 ==>
          && SameOutside(m, m', at, at + 4)
          && (-0x8000_0000 <= ps[k].exitStatus < 0x8000_0000 ==> Signed(Load32(m', at)) == ps[k].exitStatus))
  }

  /** signal: the disposition of signal n is set when the number, the handler and the trampoline are acceptable. */
  ghost predicate SignalServed(before: Signals, after: Signals, flags: map<nat, bool>, n: int, at: nat, back: nat,
                               eax: nat) {
    if && 1 <= n <= 31 && n != 9
       && (at >= 2 ==>
             && 0x40_0000 <= at < 0xC000_0000 && at / 4096 in flags
             && 0x40_0000 <= back < 0xC000_0000 && back / 4096 in flags)
    then
      && n < |before.handlers| && after.handlers == before.handlers[n := at]
      && after == before.(handlers := after.handlers, trampoline := if at >= 2 then back else before.trampoline)
      && eax == if before.handlers[n] < 0x8000_0000 then before.handlers[n] else 0xFFFF_FFEA
    else
      eax == 0xFFFF_FFEA && after == before
  }

  /** kill: signal n is pending in process k, the one with that PID, unless it ignores it; nobody else notices. */
  ghost predicate KillServed(ps: seq<Info>, ps': seq<Info>, k: nat, pid: int, n: int, eax: nat) {
    var sent := 0 < k < |ps| && ps[k].state != Zombie && 0 <= n <= 31;
    && IsTask(ps, k, pid) && |ps'| == |ps| && eax == (if sent then 0 else 0xFFFF_FFFD)
    && (forall i :: 0 <= i < |ps| && i != k ==> ps'[i] == ps[i])
    && (k < |ps| ==>
          var (p, q) := (ps[k], ps'[k]);
          && |p.signals.handlers| == 32
          && q == p.(state := q.state, signals := p.signals.(pending := q.signals.pending))
          && PendingSet(q.signals.pending) ==
               PendingSet(p.signals.pending) +
               (if sent && n != 0 && p.signals.handlers[n] != 1 && !(p.signals.handlers[n] == 0 && n == 17) then {n}
                else {})
          && q.state == if sent && n != 0 && p.state == WaitingInput then Runnable else p.state)
  }

  // ---------------------------------------------------------------- the services

  /** How a call ends: back in the caller; never back; halted without memory; halted by a page fault of the kernel's own
      store through the caller's pointer; or storing through a pointer that leads out of the user range, which the
      kernel does not check and nothing is said of here. */
  datatype Outcome = BackToUser | NeverBack | Stopped | Faulted | Astray

  predicate Completes(o: Outcome) {
    o == BackToUser || o == NeverBack
  }

  /** A pointer that is used, and leads out of the user range. */
  predicate Away(at: nat, length: nat) {
    length > 0 && !InUserRange(at, length)
  }

  /** The fork branch: the caller gets the new PID, and the child's frame is the caller's with EAX zero. */
  method ServiceFork(t: Table, frame: RegisterFrame) returns (ok: bool, childRegs: Registers, ghost d: int)
    requires t.Valid() && t.current.isUser
    modifies t`tasks, t`nextPid, t.tasks, frame, t.spaces, t.spaces.bitmap.words
    ensures !ok ==> t.spaces.bitmap.Valid() && t.spaces.bitmap.Full()
    ensures ok ==> t.Valid() && Follows(old(RosterOf(t)), RosterOf(t))
    ensures ok ==> InfosOf(t.tasks) == old(InfosOf(t.tasks)) + [Forked(old(InfoOf(t.current)), old(t.nextPid), d)]
    ensures ok ==> t.spaces.Space(d) == old(t.spaces.Space(t.current.directory))
    ensures ok ==>
              var child := InfosOf(t.tasks)[|old(t.tasks)|];
              && child.id == old(t.nextPid) && child.parentId == old(t.current.id) && child.state == Runnable
              && child.directory == d && d !in old(t.spaces.HeldBy())
    ensures ok ==>
              frame.regs == old(frame.regs).(eax := Word32(old(t.nextPid))) && childRegs == old(frame.regs).(eax := 0)
    ensures ok ==> forall task :: task in t.tasks ==> task in old(t.tasks) || fresh(task)
  {
    hide Table.Valid, InfosOf, Follows, AddressSpaces.Snapshot, AddressSpaces.Others, AddressSpaces.Space, Elsewhere,
         HoldingsKept, AddressSpaces.HeldBy;
    ghost var c := Starting(t);
    ghost var a, w := RosterOf(t), t.spaces.Snapshot();
    var r;
    r, childRegs := t.Fork(frame.regs);
    if r == NoMemory { return false, childRegs, 0; }
    d := r.directory;
    frame.regs := frame.regs.(eax := Word32(r.pid));
    t.ValidSpaces();
    JoinedKept(t.spaces, d, w);
    FollowsAppended(a, RosterOf(t), InfosOf(t.tasks)[|a.ps|]);
    ok := true;
  }

  /** The execve branch: EAX is zero in the new program, and ENOEXEC with nothing else changed when there is none. */
  method ServiceExec(t: Table, frame: RegisterFrame, caller: Caller)
      returns (ok: bool, ghost c: nat, ghost request: Request, ghost strings: seq<seq<Byte>>)
    requires t.Valid() && t.current.isUser
    modifies t.current, frame, t.spaces, t.spaces.bitmap.words
    ensures !ok ==> t.spaces.bitmap.Valid() && t.spaces.bitmap.Full()
    ensures ok ==> t.Valid() && Follows(old(RosterOf(t)), RosterOf(t))
    ensures ok && !old(Runs(t, frame.regs, caller)) ==>
              && frame.regs == old(frame.regs).(eax := 0xFFFF_FFF8)
              && InfosOf(t.tasks) == old(InfosOf(t.tasks)) && t.spaces.Snapshot() == old(t.spaces.Snapshot())
    ensures ok && old(Runs(t, frame.regs, caller)) ==>
              && frame.regs == old(frame.regs).(eip := frame.regs.eip, useresp := frame.regs.useresp, eax := 0)
              && c < |t.tasks| && t.tasks[c] == t.current
              && InfosOf(t.tasks) == old(InfosOf(t.tasks))[c := InfoOf(t.current)]
              && Replaced(t.spaces, t.current.directory, old(t.current.directory), old(t.spaces.Snapshot()))
    ensures ok && old(Runs(t, frame.regs, caller)) ==>
              Installed(t.spaces, t.current, frame.regs, caller.text(old(frame.regs.ebx)),
                        caller.vector(old(frame.regs.ecx)), caller.resolve, request, strings)
  {
    hide Table.Valid, InfosOf, Follows, AddressSpaces.Snapshot, AddressSpaces.Space, Elsewhere, HoldingsKept,
         AddressSpaces.HeldBy, CanExec, Replaced, Installed;
    c := Starting(t);
    ghost var a, w := RosterOf(t), t.spaces.Snapshot();
    var r;
    ghost var c';
    r, c', request, strings := t.Execve(frame, caller.text(frame.regs.ebx), caller.vector(frame.regs.ecx),
                      caller.noEnvironment(frame.regs.edx), caller.resolve);
    if r == Halted { return false, c, request, strings; }
    ok := true;
    if r == Failed {
      frame.regs := frame.regs.(eax := Word32(-ERRNO_ENOEXEC));
      t.spaces.SnapshotFrames();
      FollowsItself(a);
    } else {
      t.OneCurrent(c, c');
      ReplacedKept(t.spaces, t.current.directory, a.ps[c].directory, w);
      FollowsPut(a, RosterOf(t), c, InfoOf(t.current));
    }
  }

  ghost predicate Runs(t: Table, regs: Registers, caller: Caller)
    reads t, t.current
  {
    CanExec(t.current.isUser, caller.text(regs.ebx), caller.vector(regs.ecx), caller.noEnvironment(regs.edx),
            caller.resolve)
  }

  /** service_sbrk: the old break, or all ones and nothing changed. */
  method ServiceSbrk(t: Table, frame: RegisterFrame) returns (ok: bool, ghost c: nat)
    requires t.Valid() && t.current.isUser && frame.regs.ebx <= U32_MAX
    modifies t.current, frame, t.spaces, t.spaces.bitmap.words
    ensures !ok ==> t.spaces.bitmap.Valid() && t.spaces.bitmap.Full()
    ensures ok ==> t.Valid() && Follows(old(RosterOf(t)), RosterOf(t))
    ensures ok ==>
              && frame.regs == old(frame.regs).(eax := frame.regs.eax)
              && SbrkServed(old(HeapOf(t.current)), HeapOf(t.current), Signed(old(frame.regs.ebx)), frame.regs.eax)
    ensures ok && frame.regs.eax == 0xFFFF_FFFF ==>
              InfosOf(t.tasks) == old(InfosOf(t.tasks)) && t.spaces.Snapshot() == old(t.spaces.Snapshot())
    ensures ok && frame.regs.eax != 0xFFFF_FFFF ==>
              && Broken(old(HeapOf(t.current)), HeapOf(t.current), old(t.spaces.Memory(t.current.directory)),
                        t.spaces.Memory(t.current.directory))
              && c < |t.tasks| && t.tasks[c] == t.current
              && InfosOf(t.tasks) == old(InfosOf(t.tasks))[c := InfoOf(t.current)]
              && t.spaces.Others(t.current.directory) == old(t.spaces.Others(t.current.directory))
  {
    hide Table.Valid, InfosOf, Follows, AddressSpaces.Snapshot, AddressSpaces.Space, Elsewhere, HoldingsKept,
         AddressSpaces.HeldBy, AddressSpaces.Others, AddressSpaces.Valid, FrameBitmap.Valid, FrameBitmap.Full,
         SameProcess, Broken, AddressSpaces.Memory;
    c := Starting(t);
    BreakBelow(t);
    t.ValidSpaces();
    ghost var a, w := RosterOf(t), t.spaces.Others(t.current.directory);
    t.spaces.OthersHeld(t.current.directory);
    var increment := Signed(frame.regs.ebx);
    var r;
    ghost var c';
    r, c' := t.Sbrk(increment);
    if r == Panics { return false, c; }
    ok := true;
    if r == Refused {
      frame.regs := frame.regs.(eax := U32_MAX);
      t.spaces.SnapshotFrames();
      InfosAt(t.tasks);
      FollowsItself(a);
    } else {
      t.OneCurrent(c, c');
      frame.regs := frame.regs.(eax := Word32(r.value));
      t.ValidSpaces();
      JoinedKept(t.spaces, t.current.directory, w);
      KeptTwice(a.frames, w.frames, t.spaces.HeldBy(), t.current.directory);
      FollowsPut(a, RosterOf(t), c, InfoOf(t.current));
    }
  }

  lemma BreakBelow(t: Table)
    requires t.Valid() && t.current.isUser
    ensures t.current.heapStart <= t.current.heapBreak <= t.current.heapLimit == 0xBFF0_0000
  {
    hide Table.Valid, AddressSpaces.Flags, InfosOf;
    var c := t.CurrentFacts();
  }

  lemma KeptTwice(before: map<int, set<nat>>, others: map<int, set<nat>>, after: map<int, set<nat>>, d: int)
    requires (forall e :: e in before && e != d ==> e in others && others[e] == before[e])
    requires HoldingsKept(others, after, d)
    ensures HoldingsKept(before, after, d)
  {
  }

  /** What collecting a child leaves: its directory and frames are gone, and of everything else only bytes of the
      caller's own memory can be different. */
  ghost predicate Collected(spaces: AddressSpaces, caller: int, dead: int, w: World)
    reads spaces, spaces.bitmap, spaces.bitmap.words
  {
    && spaces.Valid() && dead in w.spaces && dead in w.frames && caller in w.spaces && caller != dead
    && spaces.Others(caller).spaces == w.spaces - {dead} - {caller} && spaces.Others(caller).shared == w.shared
    && HoldingsKept(w.frames, spaces.HeldBy(), dead) && spaces.HeldBy().Keys == w.frames.Keys - {dead}
    && spaces.bitmap.Used() == w.reserved - w.frames[dead]
  }

  lemma ShedCollected(t: Table, dead: int, w: World, space: Space)
    requires t.Shed(dead, w) && w.frames.Keys == w.spaces.Keys && t.current.directory in t.spaces.dirs
    requires t.current.directory in w.spaces && w.spaces[t.current.directory] == space
    ensures Collected(t.spaces, t.current.directory, dead, w) && t.spaces.Space(t.current.directory) == space
  {
    hide AddressSpaces.Valid, AddressSpaces.Others, AddressSpaces.FramesHeld, AddressSpaces.Space,
         AddressSpaces.Snapshot, AddressSpaces.HeldBy;
    ShedKept(t, dead, w);
    t.spaces.SnapshotHolds();
    t.spaces.SnapshotFrames();
    t.spaces.SnapshotFrom(t.current.directory);
    t.OthersOf(t.current.directory);
  }

  /** service_waitpid: the PID of the collected child, 0 while it runs, or ECHILD; the status goes where the caller's
      pointer says, if anywhere. */
  method ServiceWaitpid(t: Table, frame: RegisterFrame)
      returns (o: Outcome, ghost k: nat)
    requires t.Valid() && t.current.isUser && frame.regs.ebx <= U32_MAX
    modifies t`tasks, t.tasks, frame, t.spaces, t.spaces.bitmap.words
    ensures o == BackToUser || o == Faulted || o == Astray
    ensures o == Astray ==> old(frame.regs.ecx) != 0 && Away(old(frame.regs.ecx), 4)
    ensures o == Faulted ==>
              && old(frame.regs.ecx) != 0 && InUserRange(old(frame.regs.ecx), 4)
              && !Mapped(old(t.spaces.Memory(t.current.directory)), old(frame.regs.ecx), 4)
    ensures o == BackToUser ==> t.Valid() && Follows(old(RosterOf(t)), RosterOf(t))
    ensures o == BackToUser ==>
              && frame.regs == old(frame.regs).(eax := frame.regs.eax)
              && WaitServed(old(InfosOf(t.tasks)), InfosOf(t.tasks), k, Signed(old(frame.regs.ebx)), old(t.current.id),
                            frame.regs.eax)
    ensures o == BackToUser && |t.tasks| == |old(t.tasks)| ==> t.spaces.Snapshot() == old(t.spaces.Snapshot())
    ensures o == BackToUser && |t.tasks| != |old(t.tasks)| ==>
              && k < |old(t.tasks)|
              && Collected(t.spaces, t.current.directory, old(InfosOf(t.tasks))[k].directory, old(t.spaces.Snapshot()))
              && StatusServed(old(InfosOf(t.tasks)), k, old(frame.regs.ecx),
                              old(t.spaces.Memory(t.current.directory)), t.spaces.Memory(t.current.directory))
    ensures forall task :: task in t.tasks ==> task in old(t.tasks)
  {
    hide Table.Valid, InfosOf, Follows, AddressSpaces.Snapshot, AddressSpaces.Space, Elsewhere, HoldingsKept,
         AddressSpaces.HeldBy, Table.Shed, HasChild, IsChild, Gone, AddressSpaces.Others, AddressSpaces.Valid, Word32,
         Overlay, AddressSpaces.Memory, Mapped, WordBytes, Collected, Load32, SameOutside;
    t.UserMeans();
    ghost var c := Starting(t);
    ghost var a, w, cur := RosterOf(t), t.spaces.Snapshot(), t.current.directory;
    ghost var space := CallerSpace(t);
    var result, status;
    result, status, k := t.Waitpid(Signed(frame.regs.ebx));
    o := BackToUser;
    t.spaces.SnapshotFrames();
    if result <= 0 {
      FollowsItself(a);
      if result < 0 { result := -ERRNO_ECHILD; }
    } else {
      ShedKept(t, a.ps[k].directory, w);
      FollowsRemoved(a, RosterOf(t), k);
      ghost var b := RosterOf(t);
      o := StoreStatus(t, frame.regs.ecx, status, a.ps[k].directory, w, space);
      assert InfosOf(t.tasks) == b.ps && t.spaces.HeldBy() == b.frames;
      if o != BackToUser { return; }
    }
    frame.regs := frame.regs.(eax := Word32(result));
  }

  /** `*status = exit_status`, when there is a pointer. */
  method StoreStatus(t: Table, at: nat, status: int, ghost dead: int, ghost w: World, ghost space: Space)
      returns (o: Outcome)
    requires t.Valid() && t.current != t.readyQueue && t.Shed(dead, w) && w.frames.Keys == w.spaces.Keys
    requires t.current.directory in w.spaces && w.spaces[t.current.directory] == space
    modifies t.spaces`phys
    ensures o == BackToUser || o == Faulted || o == Astray
    ensures o == Astray ==> at != 0 && Away(at, 4)
    ensures o == Faulted ==> at != 0 && InUserRange(at, 4) && !Mapped(MemOf(space), at, 4)
    ensures o == BackToUser ==>
              && t.Valid() && Collected(t.spaces, t.current.directory, dead, w)
              && if at == 0 then t.spaces.Memory(t.current.directory) == MemOf(space)
                 else
                   && Load32(t.spaces.Memory(t.current.directory), at) == Word32(status)
                   && SameOutside(MemOf(space), t.spaces.Memory(t.current.directory), at, at + 4)
  {
    hide Table.Valid, InfosOf, AddressSpaces.Snapshot, AddressSpaces.Space, HoldingsKept, AddressSpaces.HeldBy,
         Table.Shed, AddressSpaces.Others, AddressSpaces.Valid, Word32, Overlay, MemOf, Mapped, WordBytes, Load32,
         SameOutside;
    t.UserMeans();
    ghost var c := t.CurrentFacts();
    ShedCollected(t, dead, w, space);
    if at == 0 { return BackToUser; }
    if !InUserRange(at, 4) { return Astray; }
    var ok := t.CopyToUser(at, WordBytes(Word32(status)));
    if !ok { return Faulted; }
    WordCopied(MemOf(space), at, Word32(status));
    t.ValidSpaces();
    o := BackToUser;
  }

  lemma CallerSpace(t: Table) returns (space: Space)
    requires t.Valid()
    ensures t.current.directory in t.spaces.Snapshot().spaces
    ensures t.spaces.Snapshot().spaces[t.current.directory] == space
    ensures t.spaces.Memory(t.current.directory) == MemOf(space)
    ensures t.spaces.Snapshot().frames.Keys == t.spaces.Snapshot().spaces.Keys
  {
    hide Table.Valid, InfosOf, AddressSpaces.Valid, AddressSpaces.Space, AddressSpaces.Snapshot,
         AddressSpaces.FramesHeld, AddressSpaces.Others, MemOf;
    ghost var c := t.CurrentFacts();
    t.ValidSpaces();
    t.spaces.SnapshotHolds();
    space := t.spaces.Space(t.current.directory);
  }

  /** service_kill: 0, or ESRCH and nothing changed. */
  method ServiceKill(t: Table, frame: RegisterFrame) returns (ghost k: nat)
    requires t.Valid() && t.current.isUser && frame.regs.ebx <= U32_MAX && frame.regs.ecx <= U32_MAX
    modifies t.tasks, frame
    ensures t.Valid() && Follows(old(RosterOf(t)), RosterOf(t))
    ensures frame.regs == old(frame.regs).(eax := frame.regs.eax)
    ensures KillServed(old(InfosOf(t.tasks)), InfosOf(t.tasks), k, Signed(old(frame.regs.ebx)),
                       Signed(old(frame.regs.ecx)), frame.regs.eax)
  {
    hide Table.Valid, InfosOf, Follows, Notified, CanReceive, IsTask, AddressSpaces.HeldBy, PendingSet;
    ghost var a := RosterOf(t);
    var n := Signed(frame.regs.ecx);
    var ok;
    ok, k := t.Kill(Signed(frame.regs.ebx), n);
    FollowsSent(a, RosterOf(t), k, n);
    frame.regs := frame.regs.(eax := Word32(if ok then 0 else -ERRNO_ESRCH));
  }

  /** service_signal, with the result in EAX. */
  method ServiceDisposition(t: Table, frame: RegisterFrame) returns (ghost c: nat)
    requires t.Valid() && t.current.isUser && frame.regs.ebx <= U32_MAX && frame.regs.ecx <= U32_MAX
    requires frame.regs.edx <= U32_MAX
    modifies t.current`handlers, t.current`trampoline, frame
    ensures t.Valid() && Follows(old(RosterOf(t)), RosterOf(t))
    ensures OnlySignals(old(InfosOf(t.tasks)), InfosOf(t.tasks), c, t.current.SignalFields()) && t.tasks[c] == t.current
    ensures frame.regs == old(frame.regs).(eax := frame.regs.eax)
    ensures SignalServed(old(t.current.SignalFields()), t.current.SignalFields(), t.spaces.Flags(t.current.directory),
                         Signed(old(frame.regs.ebx)), old(frame.regs.ecx), old(frame.regs.edx), frame.regs.eax)
  {
    hide Table.Valid, InfosOf, Follows, OnlySignals, AddressSpaces.HeldBy, Accepts, AddressSpaces.Flags, Ready, Word32;
    t.CurrentReady();
    AcceptsMeans(Signed(frame.regs.ebx), frame.regs.ecx, frame.regs.edx, t.spaces, t.current.directory);
    ghost var start := Starting(t);
    ghost var a := RosterOf(t);
    var answer;
    answer, c := t.SetDisposition(Signed(frame.regs.ebx), frame.regs.ecx, frame.regs.edx);
    FollowsSignals(a, RosterOf(t), c, t.current.SignalFields());
    frame.regs := frame.regs.(eax := Word32(answer));
  }

  /** The sigreturn branch: on success all registers, EAX too, are the interrupted ones. */
  method ServiceSigreturn(t: Table, frame: RegisterFrame) returns (ghost c: nat)
    requires t.Valid() && t.current.isUser && frame.regs.ebx <= U32_MAX
    modifies t.current`signalActive, t.current`activeSignal, frame
    ensures t.Valid() && Follows(old(RosterOf(t)), RosterOf(t))
    ensures OnlySignals(old(InfosOf(t.tasks)), InfosOf(t.tasks), c, t.current.SignalFields()) && t.tasks[c] == t.current
    ensures var before := old(Now(t.current, frame, t.spaces));
            Now(t.current, frame, t.spaces) ==
              if Returns(before, before.regs.ebx) then Returned(before, before.regs.ebx)
              else before.(regs := before.regs.(eax := U32_MAX))
  {
    hide Table.Valid, InfosOf, Follows, OnlySignals, AddressSpaces.HeldBy, Returns, Returned, AddressSpaces.Memory,
         AddressSpaces.Snapshot, Elsewhere, StandingFrames, NoReturn;
    Unreturned(Now(t.current, frame, t.spaces), frame.regs.ebx);
    ghost var start := Starting(t);
    ghost var a := RosterOf(t);
    var ok;
    ok, c := t.ReturnFromSignal(frame.regs.ebx, frame);
    FollowsSignals(a, RosterOf(t), c, t.current.SignalFields());
    if !ok { frame.regs := frame.regs.(eax := U32_MAX); }
  }

  lemma Unreturned(m: Machine, context: nat)
    ensures !Returns(m, context) ==> Returned(m, context) == m
  {
    hide Returns;
  }

  // ---------------------------------------------------------------- the dispatcher

  /** Calls whose answer goes into EAX and whose other registers are the caller's. */
  predicate Ordinary(number: nat) {
    number != SYSCALL_EXECVE && number != SYSCALL_SIGRETURN && number != SYSCALL_EXIT
  }

  /** Calls that leave the process table alone: unknown numbers, getpid, and the console, file and clock services. A
      keyboard read that has to wait sleeps first, which is a step of its own. */
  predicate Outer(number: nat) {
    number >= SYSCALL_COUNT || (number != SYSCALL_SBRK && !(SYSCALL_EXECVE <= number <= SYSCALL_SIGRETURN))
  }

  /** Those among them that fill a buffer of the caller. */
  predicate Fills(number: nat) {
    || number == SYSCALL_READDIR || number == SYSCALL_READFILE || number == SYSCALL_FD_READ
    || number == SYSCALL_GETCWD || number == SYSCALL_FSTAT || number == SYSCALL_STAT
  }

  /** What a service outside this model answers, and the bytes it puts into the caller's buffer. */
  datatype Service = Service(result: int, at: nat, bytes: seq<Byte>)

  function OuterAnswer(number: nat, pid: int, result: int): int {
    if number >= SYSCALL_COUNT then -ERRNO_ENOSYS else if number == SYSCALL_GETPID then pid else result
  }

  /** The caller's memory after such a call. */
  ghost function OuterMemory(m: Mem, number: nat, service: Service): Mem {
    if Fills(number) then Overlay(m, service.at, service.bytes) else m
  }

  /** The call stores through a pointer that leads out of the user range. */
  predicate LeadsAway(regs: Registers, service: Service) {
    || (Fills(regs.eax) && Away(service.at, |service.bytes|))
    || (regs.eax == SYSCALL_WAITPID && regs.ecx != 0 && Away(regs.ecx, 4))
  }

  /** The call stores where a page of the caller is missing. */
  ghost predicate Misses(regs: Registers, service: Service, m: Mem) {
    || (Fills(regs.eax) && !Mapped(m, service.at, |service.bytes|))
    || (regs.eax == SYSCALL_WAITPID && regs.ecx != 0 && !Mapped(m, regs.ecx, 4))
  }

  method ServiceOuter(t: Table, frame: RegisterFrame, service: Service) returns (o: Outcome)
    requires t.Valid() && t.current.isUser && Outer(frame.regs.eax)
    modifies frame, t.spaces`phys
    ensures o == BackToUser || o == Faulted || o == Astray
    ensures o == Astray <==> LeadsAway(old(frame.regs), service)
    ensures o == Faulted ==> Misses(old(frame.regs), service, old(t.spaces.Memory(t.current.directory)))
    ensures o == BackToUser ==>
              && t.Valid() && Follows(old(RosterOf(t)), RosterOf(t))
              && frame.regs ==
                   old(frame.regs).(eax := Word32(OuterAnswer(old(frame.regs.eax), t.current.id, service.result)))
              && t.spaces.Others(t.current.directory) == old(t.spaces.Others(t.current.directory))
              && t.spaces.Flags(t.current.directory) == old(t.spaces.Flags(t.current.directory))
              && t.spaces.Memory(t.current.directory) ==
                   OuterMemory(old(t.spaces.Memory(t.current.directory)), old(frame.regs.eax), service)
    ensures o == BackToUser && !Fills(old(frame.regs.eax)) ==> t.spaces.Snapshot() == old(t.spaces.Snapshot())
  {
    hide Table.Valid, InfosOf, Follows, AddressSpaces.HeldBy, AddressSpaces.Snapshot, AddressSpaces.Memory,
         AddressSpaces.Others, AddressSpaces.Flags, Overlay, Word32;
    ghost var a, m := RosterOf(t), t.spaces.Memory(t.current.directory);
    var number := frame.regs.eax;
    FollowsItself(a);
    if Fills(number) {
      OverlayNone(m, service.at, service.bytes);
      if Away(service.at, |service.bytes|) { return Astray; }
      if service.bytes != [] {
        var ok := t.CopyToUser(service.at, service.bytes);
        if !ok { return Faulted; }
      } else {
        assert service.bytes[..0] == service.bytes;
      }
    }
    var answer := OuterAnswer(number, t.current.id, service.result);
    frame.regs := frame.regs.(eax := Word32(answer));
    o := BackToUser;
  }

  /** The calls that only need the five argument registers: those of the `services` table, and unknown numbers. */
  method CallService(t: Table, frame: RegisterFrame, service: Service) returns (o: Outcome, ghost k: nat)
    requires t.Valid() && t.current.isUser && Bounded(frame.regs) && frame.regs.eax !in {19, 20, 21, 25}
    modifies t`tasks, t.tasks, frame, t.spaces, t.spaces.bitmap.words
    ensures o == Stopped ==> t.spaces.bitmap.Valid() && t.spaces.bitmap.Full()
    ensures o == Astray ==> LeadsAway(old(frame.regs), service)
    ensures o == Faulted ==> Misses(old(frame.regs), service, old(t.spaces.Memory(t.current.directory)))
    ensures o != NeverBack && (o == BackToUser ==> t.Valid() && Follows(old(RosterOf(t)), RosterOf(t)))
    ensures forall task :: task in t.tasks ==> task in old(t.tasks)
    ensures o == BackToUser ==> frame.regs == old(frame.regs).(eax := frame.regs.eax)
    ensures o == BackToUser && (old(frame.regs.eax) < 18 || old(frame.regs.eax) > 25) ==>
              && InfosOf(t.tasks) == old(InfosOf(t.tasks))
              && t.spaces.Others(t.current.directory) == old(t.spaces.Others(t.current.directory))
              && t.spaces.Memory(t.current.directory) ==
                   (if old(frame.regs.eax) !in {4, 5, 12, 16, 27, 28} then old(t.spaces.Memory(t.current.directory))
                    else Overlay(old(t.spaces.Memory(t.current.directory)), service.at, service.bytes))
              && frame.regs.eax == if old(frame.regs.eax) >= 30 then 0xFFFF_FFDA
                                   else if old(frame.regs.eax) == 6 then Word32(old(t.current.id))
                                   else Word32(service.result)
    ensures o == BackToUser && (old(frame.regs.eax) in {6, 23, 24} || old(frame.regs.eax) >= 30) ==>
              t.spaces.Snapshot() == old(t.spaces.Snapshot())
    ensures o == BackToUser && old(frame.regs.eax) == 18 ==>
              && SbrkServed(old(HeapOf(t.current)), HeapOf(t.current), Signed(old(frame.regs.ebx)), frame.regs.eax)
              && if frame.regs.eax == 0xFFFF_FFFF then t.spaces.Snapshot() == old(t.spaces.Snapshot())
                 else
                   && t.spaces.Others(t.current.directory) == old(t.spaces.Others(t.current.directory))
                   && Broken(old(HeapOf(t.current)), HeapOf(t.current), old(t.spaces.Memory(t.current.directory)),
                             t.spaces.Memory(t.current.directory))
    ensures o == BackToUser && old(frame.regs.eax) == 22 ==>
              && WaitServed(old(InfosOf(t.tasks)), InfosOf(t.tasks), k, Signed(old(frame.regs.ebx)), old(t.current.id),
                            frame.regs.eax)
              && if |t.tasks| == |old(t.tasks)| then t.spaces.Snapshot() == old(t.spaces.Snapshot())
                 else StatusServed(old(InfosOf(t.tasks)), k, old(frame.regs.ecx),
                                   old(t.spaces.Memory(t.current.directory)), t.spaces.Memory(t.current.directory))
    ensures o == BackToUser && old(frame.regs.eax) == 23 ==>
              SignalServed(old(t.current.SignalFields()), t.current.SignalFields(),
                           old(t.spaces.Flags(t.current.directory)), Signed(old(frame.regs.ebx)), old(frame.regs.ecx),
                           old(frame.regs.edx), frame.regs.eax)
    ensures o == BackToUser && old(frame.regs.eax) == 24 ==>
              KillServed(old(InfosOf(t.tasks)), InfosOf(t.tasks), k, Signed(old(frame.regs.ebx)),
                         Signed(old(frame.regs.ecx)), frame.regs.eax)
  {
    hide Table.Valid, InfosOf, Follows, AddressSpaces.Snapshot, AddressSpaces.HeldBy, OnlySignals, IsTask,
         AddressSpaces.Space, AddressSpaces.Others, Word32, Bounded, AddressSpaces.Memory, AddressSpaces.Flags, Overlay,
         Mapped, Away, Collected, Load32, SameOutside, PendingSet, Signed, Broken;
    WordsBounded(frame.regs);
    ghost var start := Starting(t);
    var number := frame.regs.eax;
    o, k := BackToUser, 0;
    if number == SYSCALL_SBRK {
      ghost var c;
      var ok;
      ok, c := ServiceSbrk(t, frame);
      if !ok { o := Stopped; }
    } else if number == SYSCALL_WAITPID {
      o, k := ServiceWaitpid(t, frame);
    } else if number == SYSCALL_SIGNAL {
      ghost var c := ServiceDisposition(t, frame);
    } else if number == SYSCALL_KILL {
      k := ServiceKill(t, frame);
    } else {
      o := ServiceOuter(t, frame, service);
    }
  }

  /** syscall_handler up to the final delivery; k is the process a kill or a waitpid found, d the directory of a
      child. */
  method Serve(t: Table, frame: RegisterFrame, caller: Caller, service: Service)
      returns (o: Outcome, ghost k: nat, ghost d: int)
    requires t.Valid() && t.current.isUser && Bounded(frame.regs)
    modifies t, t.tasks, frame, t.spaces, t.spaces.bitmap.words
    ensures o == Stopped ==> t.spaces.bitmap.Valid() && t.spaces.bitmap.Full()
    ensures o == Astray ==> LeadsAway(old(frame.regs), service)
    ensures o == Faulted ==> Misses(old(frame.regs), service, old(t.spaces.Memory(t.current.directory)))
    ensures Completes(o) ==>
              && t.Valid()
              && Follows(old(RosterOf(t)), RosterOf(t))
              && (o == NeverBack <==> old(frame.regs.eax) == 21)
    ensures Completes(o) ==> forall task :: task in t.tasks ==> task in old(t.tasks) || fresh(task)
    ensures t.readyQueue == old(t.readyQueue) && (o == BackToUser ==> t.current == old(t.current))
    ensures o == NeverBack ==>
              && t.current != old(t.current)
              && old(t.current).state == Zombie
              && old(t.current).exitStatus == Signed(old(frame.regs.ebx))
    ensures o == BackToUser && old(frame.regs.eax) !in {19, 25} ==>
              frame.regs == old(frame.regs).(eax := frame.regs.eax)
    ensures o == BackToUser && (old(frame.regs.eax) < 18 || old(frame.regs.eax) > 25) ==>
              && InfosOf(t.tasks) == old(InfosOf(t.tasks))
              && t.spaces.Others(t.current.directory) == old(t.spaces.Others(t.current.directory))
              && t.spaces.Memory(t.current.directory) ==
                   (if old(frame.regs.eax) !in {4, 5, 12, 16, 27, 28} then old(t.spaces.Memory(t.current.directory))
                    else Overlay(old(t.spaces.Memory(t.current.directory)), service.at, service.bytes))
              && frame.regs.eax == if old(frame.regs.eax) >= 30 then 0xFFFF_FFDA
                                   else if old(frame.regs.eax) == 6 then Word32(old(t.current.id))
                                   else Word32(service.result)
    ensures o == BackToUser && (old(frame.regs.eax) in {6, 23, 24} || old(frame.regs.eax) >= 30) ==>
              t.spaces.Snapshot() == old(t.spaces.Snapshot())
    ensures o == BackToUser && old(frame.regs.eax) == 18 ==>
              && SbrkServed(old(HeapOf(t.current)), HeapOf(t.current), Signed(old(frame.regs.ebx)), frame.regs.eax)
              && if frame.regs.eax == 0xFFFF_FFFF then t.spaces.Snapshot() == old(t.spaces.Snapshot())
                 else
                   && t.spaces.Others(t.current.directory) == old(t.spaces.Others(t.current.directory))
                   && Broken(old(HeapOf(t.current)), HeapOf(t.current), old(t.spaces.Memory(t.current.directory)),
                             t.spaces.Memory(t.current.directory))
    ensures o == BackToUser && old(frame.regs.eax) == 22 ==>
              && WaitServed(old(InfosOf(t.tasks)), InfosOf(t.tasks), k, Signed(old(frame.regs.ebx)), old(t.current.id),
                            frame.regs.eax)
              && if |t.tasks| == |old(t.tasks)| then t.spaces.Snapshot() == old(t.spaces.Snapshot())
                 else StatusServed(old(InfosOf(t.tasks)), k, old(frame.regs.ecx),
                                   old(t.spaces.Memory(t.current.directory)), t.spaces.Memory(t.current.directory))
    ensures o == BackToUser && old(frame.regs.eax) == 23 ==>
              SignalServed(old(t.current.SignalFields()), t.current.SignalFields(),
                           old(t.spaces.Flags(t.current.directory)), Signed(old(frame.regs.ebx)), old(frame.regs.ecx),
                           old(frame.regs.edx), frame.regs.eax)
    ensures o == BackToUser && old(frame.regs.eax) == 24 ==>
              KillServed(old(InfosOf(t.tasks)), InfosOf(t.tasks), k, Signed(old(frame.regs.ebx)),
                         Signed(old(frame.regs.ecx)), frame.regs.eax)
    ensures o == BackToUser && old(frame.regs.eax) == 19 ==>
              if old(Runs(t, frame.regs, caller)) then
                && frame.regs == old(frame.regs).(eip := frame.regs.eip, useresp := frame.regs.useresp, eax := 0)
                && Replaced(t.spaces, t.current.directory, old(t.current.directory), old(t.spaces.Snapshot()))
                && exists request, strings ::
                     Installed(t.spaces, t.current, frame.regs, caller.text(old(frame.regs.ebx)),
                               caller.vector(old(frame.regs.ecx)), caller.resolve, request, strings)
              else
                && frame.regs == old(frame.regs).(eax := 0xFFFF_FFF8)
                && InfosOf(t.tasks) == old(InfosOf(t.tasks)) && t.spaces.Snapshot() == old(t.spaces.Snapshot())
    ensures o == BackToUser && old(frame.regs.eax) == 20 ==>
              && ForkServed(old(InfosOf(t.tasks)), InfosOf(t.tasks), old(t.current.id), old(t.nextPid), d,
                            frame.regs.eax)
              && d !in old(t.spaces.HeldBy()) && t.spaces.Space(d) == old(t.spaces.Space(t.current.directory))
    ensures o == BackToUser && old(frame.regs.eax) == 25 ==>
              var before := old(Now(t.current, frame, t.spaces));
              Now(t.current, frame, t.spaces) ==
                if Returns(before, before.regs.ebx) then Returned(before, before.regs.ebx)
                else before.(regs := before.regs.(eax := 0xFFFF_FFFF))
  {
    hide Table.Valid, InfosOf, Follows, AddressSpaces.Snapshot, AddressSpaces.HeldBy, Runs, Now, Returns, Returned,
         Replaced, AddressSpaces.Space, AddressSpaces.Others, Word32, Exited, Bounded, AddressSpaces.Memory,
         AddressSpaces.Flags, Overlay, Mapped, Away, SbrkServed, WaitServed, StatusServed, SignalServed, KillServed,
         Signed, Broken, HeapOf, LeadsAway, Misses, IsTask, PendingSet, Installed;
    WordsBounded(frame.regs);
    ghost var start := Starting(t);
    ghost var a := RosterOf(t);
    var number := frame.regs.eax;
    o, k, d := BackToUser, 0, 0;
    if number == SYSCALL_EXECVE {
      ghost var c, request, strings;
      var ok;
      ok, c, request, strings := ServiceExec(t, frame, caller);
      if !ok { o := Stopped; }
    } else if number == SYSCALL_FORK {
      var ok, childRegs;
      ok, childRegs, d := ServiceFork(t, frame);
      if !ok { o := Stopped; }
    } else if number == SYSCALL_EXIT {
      var status := Signed(frame.regs.ebx);
      ghost var c, p := t.Exit(status);
      FollowsExit(a, RosterOf(t), c, status, p);
      o := NeverBack;
    } else if number == SYSCALL_SIGRETURN {
      ghost var c := ServiceSigreturn(t, frame);
    } else {
      o, k := CallService(t, frame, service);
    }
  }

  lemma WordsBounded(r: Registers)
    requires Bounded(r)
    ensures r.eax <= U32_MAX && r.ebx <= U32_MAX && r.ecx <= U32_MAX && r.edx <= U32_MAX
  {
    var w := WordsOf(r);
    assert w[8] <= U32_MAX && w[5] <= U32_MAX && w[7] <= U32_MAX && w[6] <= U32_MAX;
  }

  /** The machine the final delivery starts from: all of the caller's registers but EAX, unless the call was
      sigreturn. */
  ghost predicate Answers(before: Machine, served: Machine) {
    && (Ordinary(before.regs.eax) ==> served.regs == before.regs.(eax := served.regs.eax))
    && (before.regs.eax == SYSCALL_SIGRETURN ==>
          served == if Returns(before, before.regs.ebx) then Returned(before, before.regs.ebx)
                    else before.(regs := before.regs.(eax := U32_MAX)))
  }

  /** The signal a running user process is about to take: the lowest pending one, unless a handler is active. */
  ghost predicate Next(m: Machine, n: nat) {
    if MayDeliver(true, Runnable, m.signals.active, m.regs.cs) then IsLowest(m.signals.pending, n) else n == 0
  }

  /** Only a return to ring 3 outside a handler takes a signal, and then the lowest pending one. */
  lemma NextMeans(m: Machine, n: nat)
    ensures Next(m, n) <==>
              if m.signals.active || m.regs.cs % 4 != 3 || PendingSet(m.signals.pending) == {} then n == 0
              else n in PendingSet(m.signals.pending) && forall k: nat :: k in PendingSet(m.signals.pending) ==> n <= k
  {
  }

  /** syscall_handler: the service, then one delivery; exit and fatal signals never come back to the caller. */
  method SyscallHandler(t: Table, frame: RegisterFrame, caller: Caller, service: Service)
      returns (o: Outcome, ghost served: Machine, ghost left: Machine, ghost n: nat)
    requires t.Valid() && t.current.isUser && Bounded(frame.regs)
    modifies t, t.tasks, frame, t.spaces, t.spaces.bitmap.words
    ensures o == Stopped ==> t.spaces.bitmap.Valid() && t.spaces.bitmap.Full()
    ensures o == Astray ==> LeadsAway(old(frame.regs), service)
    ensures o == Faulted ==> Misses(old(frame.regs), service, old(t.spaces.Memory(t.current.directory)))
    ensures Completes(o) ==> t.Valid() && Follows(old(RosterOf(t)), RosterOf(t))
    ensures Completes(o) ==> forall task :: task in t.tasks ==> task in old(t.tasks) || fresh(task)
    ensures o == BackToUser ==>
              && t.current == old(t.current) && Now(t.current, frame, t.spaces) == left
              && Answers(old(Now(t.current, frame, t.spaces)), served)
              && (left, Resume) == Delivered(served, n) && Next(served, n)
              && (old(frame.regs.eax) !in {19, 25} ==> served.regs == old(frame.regs).(eax := served.regs.eax))
              && (old(frame.regs.eax) >= 30 ==> served.regs.eax == 0xFFFF_FFDA)
    ensures o == NeverBack ==>
              && t.current != old(t.current) && old(t.current).state == Zombie
              && if old(frame.regs.eax) == SYSCALL_EXIT then old(t.current).exitStatus == Signed(old(frame.regs.ebx))
                 else
                   && old(t.current).exitStatus == 128 + n && n != 0 && Next(served, n)
                   && Answers(old(Now(t.current, frame, t.spaces)), served)
  {
    hide Table.Valid, InfosOf, Follows, AddressSpaces.Snapshot, AddressSpaces.HeldBy, Runs, Returns, Returned, HasChild,
         Now, OnlySignals, AddressSpaces.Space, AddressSpaces.Others, Word32, Dies, Delivered, IsLowest, Bounded,
         AddressSpaces.Memory, AddressSpaces.Flags, LeadsAway, Misses, Overlay, Broken, Replaced, HeapOf, Signed,
         SbrkServed, ForkServed, WaitServed, StatusServed, SignalServed, KillServed, Installed;
    ghost var a, before, tasks := RosterOf(t), Now(t.current, frame, t.spaces), t.tasks;
    t.NowParts(frame);
    t.UserMeans();
    n := 0;
    ghost var k, child;
    o, k, child := Serve(t, frame, caller, service);
    served := Now(t.current, frame, t.spaces);
    left := served;
    if o != BackToUser { return; }
    t.NowParts(frame);
    t.UserMeans();
    assert forall k :: 0 <= k < |t.tasks| ==> t.tasks[k] in tasks || fresh(t.tasks[k]);
    ghost var b := RosterOf(t);
    var d;
    ghost var c, p;
    d, n, left, c, p := t.ReturnToUser(frame);
    if d.Terminate? {
      o := NeverBack;
      FollowsDeath(b, RosterOf(t), c, left.signals, d.status, p);
      FatalNumber(served, n, d);
    } else {
      FollowsSignals(b, RosterOf(t), c, left.signals);
    }
    FollowsTwice(a, b, RosterOf(t));
  }

  lemma FatalNumber(m: Machine, n: nat, d: Delivery)
    requires d == Delivered(m, n).1 && d.Terminate?
    ensures d.status == 128 + n && n != 0
  {
  }
}
