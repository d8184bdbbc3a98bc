/** What holds of the process table after every step, stated on values; and the scheduler's order. */
module ProcessRules {
  import opened Frames
  import opened PageTables
  import opened Processes
  import opened SignalDelivery
  import opened UserHeap

  /** One task, as a value. */
  datatype Info = Info(id: int, parentId: int, state: TaskState, exitStatus: int, directory: int, isUser: bool,
                       heap: HeapFields, signals: Signals)

  /** PIDs are unique and were all handed out already; the permanently runnable kernel task PID 0 heads the list and
      everything after it is a user process; no two tasks share a directory; the signal fields are in order. */
  ghost predicate TableOk(ps: seq<Info>, nextPid: int) {
    && |ps| > 0 && ps[0].id == 0 && ps[0].parentId == -1 && ps[0].state == Runnable && !ps[0].isUser
    && (forall i :: 0 < i < |ps| ==> ps[i].isUser)
    && (forall i :: 0 <= i < |ps| ==> 0 <= ps[i].id < nextPid && ps[i].parentId < ps[i].id && SignalsOk(ps[i].signals))
    && (forall i, j :: 0 <= i < j < |ps| ==> ps[i].id != ps[j].id && ps[i].directory != ps[j].directory)
  }

  /** Every task has a directory of its own, and every user process a heap and a stack in it; no directory but the
      kernel's is without its task. */
  ghost predicate Housed(ps: seq<Info>, w: World, kernel: int) {
    && (forall i :: 0 <= i < |ps| ==>
          && ps[i].directory in w.spaces && ps[i].directory != kernel
          && (ps[i].isUser ==> HeapOk(ps[i].heap, FlagsOf(w.spaces[ps[i].directory]))))
    && forall d :: d in w.spaces ==> d == kernel || Lives(ps, d)
  }

  /** Some task has directory d. */
  ghost predicate Lives(ps: seq<Info>, d: int) {
    exists i :: 0 <= i < |ps| && ps[i].directory == d
  }

  ghost function FramesIn(frames: map<int, set<nat>>, d: int): set<nat> {
    if d in frames then frames[d] else {}
  }

  /** The frames no step gives back: the kernel's own and PID 0's. */
  ghost function StandingFrames(ps: seq<Info>, frames: map<int, set<nat>>, kernel: int): set<nat> {
    FramesIn(frames, kernel) + if |ps| > 0 then FramesIn(frames, ps[0].directory) else {}
  }

  /** A step that changed the frames of one directory at most, neither the kernel's nor PID 0's. */
  lemma StandingKept(ps: seq<Info>, frames: map<int, set<nat>>, ps': seq<Info>, frames': map<int, set<nat>>,
                     kernel: int, d: int)
    requires |ps| > 0 && |ps'| > 0 && ps'[0].directory == ps[0].directory && d != kernel && d != ps[0].directory
    requires forall e :: e in frames && e != d ==> e in frames' && frames'[e] == frames[e]
    requires kernel in frames && ps[0].directory in frames
    ensures StandingFrames(ps', frames', kernel) == StandingFrames(ps, frames, kernel)
  {
  }

  lemma LivesPut(ps: seq<Info>, k: nat, p: Info, d: int)
    requires k < |ps| && (d == p.directory || (Lives(ps, d) && d != ps[k].directory))
    ensures Lives(ps[k := p], d)
  {
    if d == p.directory {
      assert ps[k := p][k].directory == d;
    } else {
      var i :| 0 <= i < |ps| && ps[i].directory == d;
      assert ps[k := p][i].directory == d;
    }
  }

  lemma LivesAppended(ps: seq<Info>, p: Info, d: int)
    requires d == p.directory || Lives(ps, d)
    ensures Lives(ps + [p], d)
  {
    if d == p.directory {
      assert (ps + [p])[|ps|].directory == d;
    } else {
      var i :| 0 <= i < |ps| && ps[i].directory == d;
      assert (ps + [p])[i].directory == d;
    }
  }

  lemma LivesRemoved(ps: seq<Info>, k: nat, d: int)
    requires k < |ps| && Lives(ps, d) && d != ps[k].directory
    ensures Lives(ps[..k] + ps[k + 1..], d)
  {
    var i :| 0 <= i < |ps| && ps[i].directory == d;
    assert (ps[..k] + ps[k + 1..])[if i < k then i else i - 1].directory == d;
  }

  lemma TableAppended(ps: seq<Info>, nextPid: int, p: Info)
    requires TableOk(ps, nextPid) && p.id == nextPid && p.parentId < p.id && p.isUser && SignalsOk(p.signals)
    requires forall i :: 0 <= i < |ps| ==> ps[i].directory != p.directory
    ensures TableOk(ps + [p], nextPid + 1)
  {
    hide SignalsOk;
  }

  lemma TableRemoved(ps: seq<Info>, nextPid: int, k: nat)
    requires TableOk(ps, nextPid) && 0 < k < |ps|
    ensures TableOk(ps[..k] + ps[k + 1..], nextPid)
    ensures forall p :: p in ps[..k] + ps[k + 1..] ==> p.id != ps[k].id
  {
    hide SignalsOk;
    var rest := ps[..k] + ps[k + 1..];
    assert forall i :: 0 <= i < |rest| ==> rest[i] == if i < k then ps[i] else ps[i + 1];
  }

  /** A step that changes one process but not its identity. */
  lemma TableChanged(ps: seq<Info>, nextPid: int, k: nat, p: Info)
    requires TableOk(ps, nextPid) && 0 < k < |ps| && p.id == ps[k].id && p.parentId == ps[k].parentId && p.isUser
    requires SignalsOk(p.signals)
    requires forall i :: 0 <= i < |ps| && i != k ==> ps[i].directory != p.directory
    ensures TableOk(ps[k := p], nextPid)
  {
    hide SignalsOk;
  }

  lemma FirstTable(p: Info)
    requires p.id == 0 && p.parentId == -1 && p.state == Runnable && !p.isUser && SignalsOk(p.signals)
    ensures TableOk([p], 1)
  {
    hide SignalsOk;
  }

  /** Steps that touch neither directories nor heap fields. */
  lemma HousedSame(ps: seq<Info>, ps': seq<Info>, w: World, kernel: int)
    requires Housed(ps, w, kernel) && |ps'| == |ps|
    requires forall i ::
               0 <= i < |ps| ==>
                 ps'[i].directory == ps[i].directory && ps'[i].heap == ps[i].heap && ps'[i].isUser == ps[i].isUser
    ensures Housed(ps', w, kernel)
  {
    hide HeapOk;
  }

  /** One process changed its own memory and perhaps its heap fields. */
  lemma HousedChanged(ps: seq<Info>, nextPid: int, w: World, kernel: int, k: nat, p: Info, space: Space, w': World)
    requires TableOk(ps, nextPid) && Housed(ps, w, kernel) && k < |ps| && p.directory == ps[k].directory
    requires w'.spaces == w.spaces[p.directory := space] && (p.isUser ==> HeapOk(p.heap, FlagsOf(space)))
    ensures Housed(ps[k := p], w', kernel)
  {
    hide HeapOk, SignalsOk, Lives;
    forall d | d in w'.spaces && d != kernel ensures Lives(ps[k := p], d) { LivesPut(ps, k, p, d); }
  }

  /** One process exchanged its directory for a new one. */
  lemma HousedReplaced(ps: seq<Info>, nextPid: int, w: World, kernel: int, k: nat, p: Info, w': World)
    requires TableOk(ps, nextPid) && Housed(ps, w, kernel) && k < |ps| && p.directory !in w.spaces && kernel in w.spaces
    requires w'.spaces.Keys == w.spaces.Keys - {ps[k].directory} + {p.directory}
    requires forall e :: e in w.spaces.Keys - {ps[k].directory} ==> e in w'.spaces && w'.spaces[e] == w.spaces[e]
    requires p.isUser ==> HeapOk(p.heap, FlagsOf(w'.spaces[p.directory]))
    ensures Housed(ps[k := p], w', kernel) && forall i :: 0 <= i < |ps| && i != k ==> ps[i].directory != p.directory
  {
    hide HeapOk, SignalsOk, Lives;
    forall d | d in w'.spaces && d != kernel ensures Lives(ps[k := p], d) { LivesPut(ps, k, p, d); }
    forall i | 0 <= i < |ps| && i != k
      ensures ps[i].directory in w'.spaces && ps[i].directory != p.directory
      ensures w'.spaces[ps[i].directory] == w.spaces[ps[i].directory]
    {
      assert ps[i].directory in w.spaces.Keys - {ps[k].directory};
    }
  }

  /** A process joined with a new directory. */
  lemma HousedAppended(ps: seq<Info>, w: World, kernel: int, p: Info, space: Space, w': World)
    requires Housed(ps, w, kernel) && p.directory !in w.spaces && kernel in w.spaces
    requires w'.spaces == w.spaces[p.directory := space] && (p.isUser ==> HeapOk(p.heap, FlagsOf(space)))
    ensures Housed(ps + [p], w', kernel) && forall i :: 0 <= i < |ps| ==> ps[i].directory != p.directory
  {
    hide HeapOk, Lives;
    forall d | d in w'.spaces && d != kernel ensures Lives(ps + [p], d) { LivesAppended(ps, p, d); }
  }

  /** A process left with its directory. */
  lemma HousedRemoved(ps: seq<Info>, nextPid: int, w: World, kernel: int, k: nat, w': World)
    requires TableOk(ps, nextPid) && Housed(ps, w, kernel) && k < |ps| && w'.spaces == w.spaces - {ps[k].directory}
    ensures Housed(ps[..k] + ps[k + 1..], w', kernel)
  {
    hide HeapOk, SignalsOk, Lives;
    var rest := ps[..k] + ps[k + 1..];
    forall d | d in w'.spaces && d != kernel ensures Lives(rest, d) { LivesRemoved(ps, k, d); }
    assert forall i :: 0 <= i < |rest| ==> rest[i] == if i < k then ps[i] else ps[i + 1];
  }

  // ---------------------------------------------------------------- what the steps do to the table

  /** The child of a fork: the parent's address-space layout and dispositions, no pending signal, its own PID and
      directory. */
  function Forked(parent: Info, pid: int, directory: int): Info {
    Info(pid, parent.id, Runnable, 0, directory, parent.isUser, parent.heap,
         parent.signals.(pending := 0, active := false, activeNumber := 0))
  }

  /** An exited process: a zombie that keeps its status, its memory and its place in the list. */
  function Dead(p: Info, status: int): Info {
    p.(state := Zombie, exitStatus := status)
  }

  /** The table after an exit, before SIGCHLD. */
  lemma TableDead(ps: seq<Info>, nextPid: int, c: nat, status: int)
    requires TableOk(ps, nextPid) && 0 < c < |ps|
    ensures TableOk(ps[c := Dead(ps[c], status)], nextPid)
  {
    hide SignalsOk;
    TableChanged(ps, nextPid, c, Dead(ps[c], status));
  }

  /** A process waiting for a key, and one that a key has woken. */
  function Asleep(p: Info): Info {
    p.(state := WaitingInput)
  }

  function Awake(p: Info): Info {
    p.(state := if p.state == WaitingInput then Runnable else p.state)
  }

  function Woken(ps: seq<Info>): (r: seq<Info>)
    ensures |r| == |ps| && forall i :: 0 <= i < |ps| ==> r[i] == Awake(ps[i])
  {
    seq(|ps|, i requires 0 <= i < |ps| => Awake(ps[i]))
  }

  lemma TableAsleep(ps: seq<Info>, nextPid: int, c: nat)
    requires TableOk(ps, nextPid) && 0 < c < |ps|
    ensures TableOk(ps[c := Asleep(ps[c])], nextPid)
  {
    hide SignalsOk;
    TableChanged(ps, nextPid, c, Asleep(ps[c]));
  }

  lemma TableWoken(ps: seq<Info>, nextPid: int)
    requires TableOk(ps, nextPid)
    ensures TableOk(Woken(ps), nextPid)
  {
    hide SignalsOk, Woken;
  }

  /** PID 0's one user process, before its first program: an empty heap at the temporary base. */
  function Initial(pid: int, directory: int): Info {
    Info(pid, 0, Runnable, 0, directory, true, EmptyHeap(USER_HEAP_START),
         Signals(seq(SIGNAL_COUNT, _ => 0), 0, 0, false, 0))
  }

  predicate CanReceive(p: Info) {
    p.id != 0 && p.isUser && p.state != Zombie
  }

  /** A process that signal n was sent to. */
  function Sent(p: Info, n: int): Info {
    if !CanReceive(p) || !ValidNumber(n) then p
    else
      p.(signals := p.signals.(pending := Raised(p.signals, n)),
         state := if p.state == WaitingInput then Runnable else p.state)
  }

  /** The table after sending signal n to its entry k; no entry, no change. */
  function Notified(ps: seq<Info>, k: nat, n: int): (r: seq<Info>)
    ensures |r| == |ps|
  {
    if k < |ps| then ps[k := Sent(ps[k], n)] else ps
  }

  lemma SentOk(p: Info, n: int)
    requires SignalsOk(p.signals)
    ensures SignalsOk(Sent(p, n).signals)
  {
    if ValidNumber(n) { Raising(p.signals.pending, n); }
    hide Has, Or, Mask;
  }

  lemma TableSent(ps: seq<Info>, nextPid: int, k: nat, n: int)
    requires TableOk(ps, nextPid)
    ensures TableOk(Notified(ps, k, n), nextPid)
  {
    if k < |ps| { SentOk(ps[k], n); }
    hide SignalsOk, Raised;
    if 0 < k < |ps| { TableChanged(ps, nextPid, k, Sent(ps[k], n)); }
  }

  /** What sending signal n to entry k does: only that entry changes, in what is pending and by waking up, and only when
      it is a process that has not exited. */
  lemma NotifiedMeans(ps: seq<Info>, nextPid: int, k: nat, n: int)
    requires TableOk(ps, nextPid)
    ensures forall i :: 0 <= i < |ps| && i != k ==> Notified(ps, k, n)[i] == ps[i]
    ensures k < |ps| ==>
              var (p, q) := (ps[k], Notified(ps, k, n)[k]);
              var arrives := k != 0 && p.state != Zombie && 1 <= n <= 31;
              && |p.signals.handlers| == 32
              && q == p.(state := q.state, signals := p.signals.(pending := q.signals.pending))
              && PendingSet(q.signals.pending) ==
                   PendingSet(p.signals.pending) +
                   (if arrives && p.signals.handlers[n] != 1 && !(p.signals.handlers[n] == 0 && n == 17) then {n}
                    else {})
              && q.state == if arrives && p.state == WaitingInput then Runnable else p.state
  {
    hide SignalsOk, Raised, PendingSet, TableOk;
    if k < |ps| {
      EntryFacts(ps, nextPid, k);
      RaisedMeans(ps[k].signals, n);
    }
  }

  lemma EntryFacts(ps: seq<Info>, nextPid: int, k: nat)
    requires TableOk(ps, nextPid) && k < |ps|
    ensures |ps[k].signals.handlers| == 32 && (ps[k].isUser <==> k != 0) && (ps[k].id == 0 <==> k == 0)
    ensures ps[k].parentId < ps[k].id && 0 <= ps[k].id && SignalsOk(ps[k].signals)
  {
    hide Has;
  }

  lemma HousedSent(ps: seq<Info>, w: World, kernel: int, k: nat, n: int)
    requires Housed(ps, w, kernel)
    ensures Housed(Notified(ps, k, n), w, kernel)
  {
    hide HeapOk, Raised;
  }

  ghost predicate IsChild(p: Info, pid: int, parent: int) {
    p.id == pid && p.parentId == parent
  }

  /** The caller has a child with this PID, running or exited. */
  ghost predicate HasChild(ps: seq<Info>, pid: int, parent: int) {
    exists i :: 0 <= i < |ps| && IsChild(ps[i], pid, parent)
  }

  /** Only the parent named at fork can collect a process; once that PID is gone, nobody ever can. */
  lemma OrphanStays(ps: seq<Info>, nextPid: int, k: nat, parent: int)
    requires TableOk(ps, nextPid) && k < |ps| && Gone(ps, nextPid, ps[k].parentId) && 0 <= parent < |ps|
    ensures !HasChild(ps, ps[k].id, ps[parent].id)
  {
    hide SignalsOk;
    forall i | 0 <= i < |ps| ensures !IsChild(ps[i], ps[k].id, ps[parent].id) {
      assert ps[i].id == ps[k].id ==> i == k;
    }
  }

  // ---------------------------------------------------------------- status is collected once

  /** No task has this PID, and none ever will: it was handed out before. */
  ghost predicate Gone(ps: seq<Info>, nextPid: int, pid: int) {
    pid < nextPid && forall i :: 0 <= i < |ps| ==> ps[i].id != pid
  }

  /** A collected PID stays gone: forks take new PIDs, and every other step keeps or removes PIDs. */
  lemma GoneStays(ps: seq<Info>, nextPid: int, ps': seq<Info>, nextPid': int, pid: int)
    requires Gone(ps, nextPid, pid) && NoReturn(ps, nextPid, ps', nextPid')
    ensures Gone(ps', nextPid', pid)
  {
  }

  /** No PID in the later table was unused before, unless it was handed out since. */
  ghost predicate NoReturn(ps: seq<Info>, nextPid: int, ps': seq<Info>, nextPid': int) {
    && nextPid <= nextPid'
    && forall i :: 0 <= i < |ps'| ==> ps'[i].id >= nextPid || exists j :: 0 <= j < |ps| && ps[j].id == ps'[i].id
  }

  lemma SameIds(ps: seq<Info>, ps': seq<Info>, nextPid: int)
    requires |ps'| == |ps| && forall i :: 0 <= i < |ps| ==> ps'[i].id == ps[i].id
    ensures NoReturn(ps, nextPid, ps', nextPid)
  {
  }

  lemma OneMore(ps: seq<Info>, p: Info, nextPid: int)
    requires p.id == nextPid
    ensures NoReturn(ps, nextPid, ps + [p], nextPid + 1)
  {
    forall i | 0 <= i < |ps| ensures (ps + [p])[i] == ps[i] {
    }
  }

  lemma OneLess(ps: seq<Info>, k: nat, nextPid: int)
    requires k < |ps|
    ensures NoReturn(ps, nextPid, ps[..k] + ps[k + 1..], nextPid)
  {
    var rest := ps[..k] + ps[k + 1..];
    forall i | 0 <= i < |rest| ensures exists j :: 0 <= j < |ps| && ps[j].id == rest[i].id {
      var j := if i < k then i else i + 1;
      assert rest[i] == ps[j];
    }
  }

  lemma NoReturnTwice(ps: seq<Info>, n: int, ps1: seq<Info>, n1: int, ps2: seq<Info>, n2: int)
    requires NoReturn(ps, n, ps1, n1) && NoReturn(ps1, n1, ps2, n2)
    ensures NoReturn(ps, n, ps2, n2)
  {
    forall i | 0 <= i < |ps2| ensures ps2[i].id >= n || exists j :: 0 <= j < |ps| && ps[j].id == ps2[i].id {
      if ps2[i].id < n1 {
        var j :| 0 <= j < |ps1| && ps1[j].id == ps2[i].id;
      }
    }
  }

  // ---------------------------------------------------------------- the scheduler's order

  /** k steps around a circular list of n tasks from c. */
  function Around(n: nat, c: nat, k: nat): (at: nat)
    requires c < n && k <= n
    ensures at < n
  {
    if c + k < n then c + k else c + k - n
  }

  /** From task c, the candidate search over a circular list of |run| tasks stops after k steps. */
  ghost predicate Chooses(run: seq<bool>, c: nat, k: nat) {
    && c < |run| && 1 <= k <= |run| && run[Around(|run|, c, k)]
    && forall j :: 1 <= j < k ==> !run[Around(|run|, c, j)]
  }

  /** The choice is the first runnable task behind c, the search going on at the head of the list when its end is
      reached. */
  lemma ChoosesFirst(run: seq<bool>, c: nat, k: nat)
    requires Chooses(run, c, k)
    ensures var m := Around(|run|, c, k);
            && run[m]
            && (c < m ==> forall i :: c < i < m ==> !run[i])
            && (m <= c ==> (forall i :: c < i < |run| ==> !run[i]) && forall i :: 0 <= i < m ==> !run[i])
  {
    var n, m := |run|, Around(|run|, c, k);
    forall i | 0 <= i < n && (if c < m then c < i < m else c < i || i < m) ensures !run[i] {
      var j := if i > c then i - c else i + n - c;
      assert Around(n, c, j) == i && 1 <= j < k;
    }
  }

  /** Steps from c around the list to j, at least one. */
  function Ahead(n: nat, c: nat, j: nat): (d: nat)
    requires c < n && j < n
    ensures 1 <= d <= n && Around(n, c, d) == j
  {
    if j > c then j - c else j + n - c
  }

  /** One switch never passes a runnable task: it stops there, or strictly before it. */
  lemma SwitchApproaches(run: seq<bool>, c: nat, k: nat, j: nat)
    requires Chooses(run, c, k) && j < |run| && run[j]
    ensures var next := Around(|run|, c, k); next == j || Ahead(|run|, next, j) < Ahead(|run|, c, j)
  {
    assert run[Around(|run|, c, Ahead(|run|, c, j))];
  }

  ghost function RunnableOf(ps: seq<Info>): (run: seq<bool>)
    ensures |run| == |ps| && forall i :: 0 <= i < |ps| ==> run[i] == (ps[i].state == Runnable)
  {
    seq(|ps|, i requires 0 <= i < |ps| => ps[i].state == Runnable)
  }

  /** A switch from task c that takes k steps ends at task next. */
  ghost predicate Takes(run: seq<bool>, c: nat, k: nat, next: nat) {
    Chooses(run, c, k) && next == Around(|run|, c, k)
  }

  ghost predicate IsTurn(run: seq<bool>, c: nat, next: nat) {
    exists k :: Takes(run, c, k, next)
  }

  /** A run of switches over a list of n tasks: who is current before each, and who is runnable at each. */
  ghost predicate Schedule(runs: seq<seq<bool>>, steps: seq<nat>, current: seq<nat>, n: nat) {
    && |current| == |runs| + 1 == |steps| + 1
    && forall s :: 0 <= s < |runs| ==>
         |runs[s]| == n && Takes(runs[s], current[s], steps[s], current[s + 1])
  }

  /** Fairness: without forks or removals, a task that stays runnable is chosen within one list length of switches. */
  lemma {:induction false} ScheduledSoon(runs: seq<seq<bool>>, steps: seq<nat>, current: seq<nat>, n: nat, j: nat)
    requires n > 0 && Schedule(runs, steps, current, n) && j < n && |runs| >= 1 && current[0] < n
    requires forall s :: 0 <= s < |runs| ==> runs[s][j]
    requires |runs| >= Ahead(n, current[0], j)
    ensures exists s :: 1 <= s <= Ahead(n, current[0], j) && s < |current| && current[s] == j
    decreases Ahead(n, current[0], j)
  {
    assert Takes(runs[0], current[0], steps[0], current[1]) && runs[0][j];
    SwitchApproaches(runs[0], current[0], steps[0], j);
    if current[1] != j {
      var runs', steps', current' := runs[1..], steps[1..], current[1..];
      LaterSchedule(runs, steps, current, n);
      ScheduledSoon(runs', steps', current', n, j);
      var s :| 1 <= s <= Ahead(n, current'[0], j) && s < |current'| && current'[s] == j;
      assert current[s + 1] == j;
    }
  }

  lemma LaterSchedule(runs: seq<seq<bool>>, steps: seq<nat>, current: seq<nat>, n: nat)
    requires Schedule(runs, steps, current, n) && |runs| > 0
    ensures Schedule(runs[1..], steps[1..], current[1..], n)
  {
    hide Takes;
    var later := runs[1..];
    forall s | 0 <= s < |later|
      ensures later[s] == runs[s + 1] && steps[1..][s] == steps[s + 1] && current[1..][s] == current[s + 1]
    {
    }
  }
}
