/** src/task.c: the ready list, the scheduler's choice, fork, exit and waitpid. */
module ProcessTable {
  import opened Memory
  import opened Frames
  import opened PageTables
  import opened Paging
  import opened Processes
  import opened SignalDelivery
  import opened Elf
  import opened Loader
  import opened Arguments
  import opened InitialStack
  import opened Exec
  import opened UserHeap
  import opened UserMemory
  import opened ProcessRules

  ghost function InfoOf(t: Task): Info
    reads t
  {
    Info(t.id, t.parentId, t.state, t.exitStatus, t.directory, t.isUser, HeapOf(t), t.SignalFields())
  }

  /** The singly linked list of tasks starting at head. */
  ghost predicate Linked(tasks: seq<Task>, head: Task)
    reads tasks
  {
    Distinct(tasks) && Threaded(tasks, head)
  }

  ghost predicate Distinct(tasks: seq<Task>) {
    forall i, j :: 0 <= i < j < |tasks| ==> tasks[i] != tasks[j]
  }

  ghost predicate Threaded(tasks: seq<Task>, head: Task)
    reads tasks
  {
    && |tasks| > 0 && tasks[0] == head
    && (forall i :: 0 <= i < |tasks| ==> tasks[i].next == Successor(tasks, i))
  }

  ghost function Successor(tasks: seq<Task>, i: int): Task?
    requires 0 <= i < |tasks|
  {
    if i + 1 < |tasks| then tasks[i + 1] else null
  }

  ghost function InfosOf(tasks: seq<Task>): (ps: seq<Info>)
    reads tasks
    ensures |ps| == |tasks|
  {
    seq(|tasks|, i requires 0 <= i < |tasks| reads tasks => InfoOf(tasks[i]))
  }

  ghost function NextOf(tasks: seq<Task>): (links: seq<Task?>)
    reads tasks
    ensures |links| == |tasks| && forall i :: 0 <= i < |links| ==> links[i] == tasks[i].next
  {
    seq(|tasks|, i requires 0 <= i < |tasks| reads tasks => tasks[i].next)
  }

  ghost predicate Chained(tasks: seq<Task>, head: Task, links: seq<Task?>) {
    && Distinct(tasks) && |links| == |tasks| > 0 && tasks[0] == head
    && forall i :: 0 <= i < |tasks| ==> links[i] == Successor(tasks, i)
  }

  lemma LinksChain(tasks: seq<Task>, head: Task)
    ensures Linked(tasks, head) <==> Chained(tasks, head, NextOf(tasks))
  {
  }

  lemma NextTask(tasks: seq<Task>, head: Task, links: seq<Task?>, k: nat)
    requires Chained(tasks, head, links) && k < |tasks|
    ensures if k + 1 == |tasks| then links[k] == null else links[k] == tasks[k + 1]
    ensures forall i :: 0 <= i < |tasks| && i != k ==> tasks[i] != tasks[k]
  {
  }

  lemma InfosWoken(tasks: seq<Task>, infos: seq<Info>)
    requires |infos| == |tasks| && forall i :: 0 <= i < |tasks| ==> InfoOf(tasks[i]) == Awake(infos[i])
    ensures InfosOf(tasks) == Woken(infos)
  {
    hide InfoOf;
  }

  lemma NoHandlers()
    ensures SignalsOk(Signals(seq(SIGNAL_COUNT, _ => 0), 0, 0, false, 0))
  {
    NonePending();
    hide Has;
  }

  /** Entry k is the one with this PID; k is the length when there is none. */
  ghost predicate IsTask(ps: seq<Info>, k: nat, pid: int) {
    && k <= |ps| && (k < |ps| ==> ps[k].id == pid)
    && (k == |ps| ==> forall i :: 0 <= i < |ps| ==> ps[i].id != pid)
  }

  datatype ForkResult = Child(pid: int, directory: int) | Unable | NoMemory

  class Table {
    const spaces: AddressSpaces
    var readyQueue: Task
    var current: Task
    var nextPid: nat
    ghost var tasks: seq<Task>

    ghost predicate Listed()
      reads this, tasks
    {
      Linked(tasks, readyQueue) && current in tasks && TableOk(InfosOf(tasks), nextPid)
    }

    ghost predicate Valid()
      reads this, tasks, spaces, spaces.bitmap, spaces.bitmap.words
    {
      && Listed() && current.state == Runnable
      && spaces.Valid() && UserRangeFree(spaces.Snapshot().shared)
      && Housed(InfosOf(tasks), spaces.Snapshot(), spaces.kernel)
    }

    /** initialise_tasking: PID 0, alone in the list, running in directory d. */
    constructor (s: AddressSpaces, d: int)
      requires s.Valid() && s.dirs.Keys == {s.kernel, d} && d != s.kernel && UserRangeFree(s.Snapshot().shared)
      ensures Valid() && spaces == s && |tasks| == 1 && fresh(tasks[0]) && current == tasks[0] && nextPid == 1
    {
      var t := new Task();
      t.parentId := -1;
      t.directory := d;
      spaces, readyQueue, current, nextPid, tasks := s, t, t, 1, [t];
      new;
      hide Table.Valid, SignalsOk, AddressSpaces.Valid;
      NoHandlers();
      FirstValid();
    }

    lemma FirstValid()
      requires |tasks| == 1 && tasks[0] == readyQueue == current && nextPid == 1
      requires current.id == 0 && current.parentId == -1 && current.state == Runnable && !current.isUser
      requires current.next == null
      requires SignalsOk(current.SignalFields())
      requires spaces.Valid() && UserRangeFree(spaces.Snapshot().shared)
      requires spaces.dirs.Keys == {spaces.kernel, current.directory} && current.directory != spaces.kernel
      ensures Valid()
    {
      hide SignalsOk, AddressSpaces.Valid, AddressSpaces.Snapshot, UserRangeFree;
      spaces.SnapshotHolds();
      FirstTable(InfoOf(current));
      assert InfosOf(tasks)[0] == InfoOf(current) && InfosOf(tasks) == [InfoOf(current)];
    }

    /** Which task has this PID, if any: the walk of the ready list. */
    method FindTask(pid: int) returns (found: Task?, previous: Task?, ghost k: nat)
      requires Linked(tasks, readyQueue)
      ensures k <= |tasks| && forall i :: 0 <= i < k ==> tasks[i].id != pid
      ensures found == null <==> k == |tasks|
      ensures found != null ==> found == tasks[k] && found.id == pid
      ensures found != null && k > 0 ==> previous == tasks[k - 1]
      ensures found != null && k == 0 ==> previous == null
    {
      previous := null;
      found := readyQueue;
      k := 0;
      while found != null
        invariant k <= |tasks| && (found == null <==> k == |tasks|) && (k < |tasks| ==> found == tasks[k])
        invariant 0 < k ==> previous == tasks[k - 1]
        invariant k == 0 ==> previous == null
        invariant forall i :: 0 <= i < k ==> tasks[i].id != pid
        decreases |tasks| - k
      {
        if found.id == pid { return; }
        assert found.next == Successor(tasks, k);
        previous := found;
        found := found.next;
        k := k + 1;
      }
    }

    /** The last task of the list. */
    method FindTail() returns (tail: Task)
      requires Threaded(tasks, readyQueue)
      ensures tail == tasks[|tasks| - 1]
    {
      tail := readyQueue;
      ghost var k := 0;
      while tail.next != null
        invariant k < |tasks| && tail == tasks[k]
        decreases |tasks| - k
      {
        assert tail.next == Successor(tasks, k);
        tail := tail.next;
        k := k + 1;
      }
      assert tail.next == Successor(tasks, k);
    }

    /** append_ready_task. */
    method AppendReadyTask(t: Task)
      requires Linked(tasks, readyQueue) && t !in tasks && t.next == null
      modifies this`tasks, tasks
      ensures tasks == old(tasks) + [t] && Linked(tasks, readyQueue)
      ensures forall t' :: t' in old(tasks) ==> t'.state == old(t'.state)
      ensures InfosOf(tasks) == old(InfosOf(tasks)) + [old(InfoOf(t))]
    {
      hide InfosOf;
      ghost var before, infos := tasks, InfosOf(tasks);
      InfosAt(tasks);
      var tail := FindTail();
      tail.next := t;
      tasks := tasks + [t];
      forall i | 0 <= i < |before| ensures InfoOf(before[i]) == infos[i] { assert infos[i] == old(InfoOf(before[i])); }
      InfosAppended(before, infos, t);
      Lengthened(before, readyQueue, t);
    }

    /** Unlink task k, found behind previous. */
    method Unlink(child: Task, previous: Task, ghost k: nat)
      requires Linked(tasks, readyQueue) && 0 < k < |tasks| && tasks[k] == child && tasks[k - 1] == previous
      modifies this`tasks, previous`next
      ensures tasks == old(tasks)[..k] + old(tasks)[k + 1..] && Linked(tasks, readyQueue)
      ensures forall t :: t in tasks ==> t in old(tasks) && t != child
      ensures forall i :: 0 <= i < |old(tasks)| && i != k ==> old(tasks)[i] in tasks
      ensures InfosOf(tasks) == old(InfosOf(tasks))[..k] + old(InfosOf(tasks))[k + 1..]
    {
      ghost var before, infos := tasks, InfosOf(tasks);
      assert child.next == Successor(tasks, k);
      previous.next := child.next;
      tasks := tasks[..k] + tasks[k + 1..];
      forall i | 0 <= i < |before| ensures InfoOf(before[i]) == infos[i] { assert infos[i] == old(InfoOf(before[i])); }
      forall i | 0 <= i < |before| && i != k - 1
        ensures before[i].next == Successor(before, i)
      {
        assert before[i] != previous;
      }
      hide InfosOf, InfoOf;
      RemovedAt(before, k);
      Relinked(before, readyQueue, k);
      InfosRemoved(before, infos, k);
    }

    /** task_signal_send to the process with this PID, if there is one. */
    method SendSignal(pid: int, n: int) returns (ok: bool, ghost k: nat)
      requires Listed()
      modifies tasks
      ensures Listed() && IsTask(old(InfosOf(tasks)), k, pid) && InfosOf(tasks) == Notified(old(InfosOf(tasks)), k, n)
      ensures ok <==> k < |tasks| && CanReceive(old(InfosOf(tasks))[k]) && 0 <= n < SIGNAL_COUNT
      ensures forall t :: t in tasks && old(t.state) == Runnable ==> t.state == Runnable
    {
      hide TableOk, SignalsOk, InfosOf, Linked, Raised;
      ghost var infos := InfosOf(tasks);
      var target, previous;
      target, previous, k := FindTask(pid);
      InfosAt(tasks);
      TableSent(infos, nextPid, k, n);
      if target == null { return false, k; }
      TaskSignals(infos, nextPid, k);
      hide Notified, CanReceive, InfoOf;
      ok := Notify(target, n, k, infos);
    }

    method Notify(target: Task, n: int, ghost k: nat, ghost infos: seq<Info>) returns (ok: bool)
      requires Linked(tasks, readyQueue) && infos == InfosOf(tasks) && k < |tasks| && tasks[k] == target
      requires SignalsOk(target.SignalFields())
      modifies target`pending, target`state
      ensures Linked(tasks, readyQueue) && InfosOf(tasks) == Notified(infos, k, n)
      ensures ok <==> CanReceive(infos[k]) && 0 <= n < SIGNAL_COUNT
      ensures old(target.state) == Runnable ==> target.state == Runnable
    {
      InfosAt(tasks);
      hide SignalsOk, Raised, InfosOf;
      ok := Send(target, n);
      assert Linked(tasks, readyQueue);
      hide Linked;
      forall i | 0 <= i < |tasks| && i != k
        ensures InfoOf(tasks[i]) == infos[i]
      {
        assert infos[i] == old(InfoOf(tasks[i]));
      }
      InfosPut(tasks, infos, k);
    }

    /** The do-while loop of switch_task over the circular list. */
    method NextCandidate(ghost run: seq<bool>, ghost c: nat) returns (candidate: Task, ghost k: nat)
      requires Linked(tasks, readyQueue) && c < |tasks| && tasks[c] == current
      requires |run| == |tasks| && run[0] && forall i :: 0 <= i < |tasks| ==> run[i] == (tasks[i].state == Runnable)
      ensures Chooses(run, c, k) && candidate == tasks[Around(|tasks|, c, k)]
    {
      hide Around, Distinct;
      ghost var n := |tasks|;
      AroundHead(n, c);
      AroundFirst(n, c);
      assert tasks[c].next == Successor(tasks, c);
      candidate := if current.next == null then readyQueue else current.next;
      k := 1;
      while candidate.state != Runnable
        invariant 1 <= k <= n - c && candidate == tasks[Around(n, c, k)]
        invariant forall j :: 1 <= j < k ==> !run[Around(n, c, j)]
        decreases n - k
      {
        ghost var at := Around(n, c, k);
        assert tasks[at].next == Successor(tasks, at);
        AroundNext(n, c, k);
        candidate := if candidate.next == null then readyQueue else candidate.next;
        k := k + 1;
      }
    }

    /** The candidate search of switch_task, from current: past the end of the list it starts again at its head, and PID
        0 there is always runnable. */
    method SwitchTask() returns (ghost c: nat, ghost k: nat)
      requires Listed()
      modifies this`current
      ensures Listed() && current.state == Runnable
      ensures c < |tasks| && tasks[c] == old(current) && Chooses(RunnableOf(InfosOf(tasks)), c, k)
      ensures current == tasks[Around(|tasks|, c, k)]
    {
      hide TableOk, Around, InfosOf, RunnableOf, InfoOf;
      c :| c < |tasks| && tasks[c] == current;
      RunStates(tasks, nextPid);
      if current == readyQueue && current.next == null {
        OnlyTask(tasks, readyQueue);
        AroundHead(1, 0);
        k := 1;
        return;
      }
      var candidate;
      candidate, k := NextCandidate(RunnableOf(InfosOf(tasks)), c);
      hide Linked;
      current := candidate;
    }

    /** The invariant, from its parts. */
    lemma Settled(w: World)
      requires Listed() && current.state == Runnable && spaces.Valid() && UserRangeFree(spaces.Snapshot().shared)
      requires w.spaces == spaces.Snapshot().spaces && Housed(InfosOf(tasks), w, spaces.kernel)
      ensures Valid()
    {
      hide Linked, TableOk, InfosOf, AddressSpaces.Valid, AddressSpaces.Snapshot, UserRangeFree, HeapOk;
    }

    /** switch_task keeps the invariant. */
    method Reschedule() returns (ghost c: nat, ghost k: nat)
      requires Valid()
      modifies this`current
      ensures Valid() && c < |tasks| && tasks[c] == old(current) && Chooses(RunnableOf(InfosOf(tasks)), c, k)
      ensures current == tasks[Around(|tasks|, c, k)]
    {
      hide Linked, TableOk, InfosOf, Housed, HeapOk, AddressSpaces.Valid, AddressSpaces.Snapshot, UserRangeFree,
           Chooses, Around, RunnableOf;
      c, k := SwitchTask();
      Settled(spaces.Snapshot());
    }

    lemma RunsAt(j: nat)
      requires Valid() && j < |tasks|
      ensures |RunnableOf(InfosOf(tasks))| == |tasks| && (RunnableOf(InfosOf(tasks))[j] <==> tasks[j].state == Runnable)
    {
      hide Linked, TableOk, Housed, AddressSpaces.Valid, AddressSpaces.Snapshot, UserRangeFree;
      RunStates(tasks, nextPid);
    }

    /** Any number of switches, at least as many as the list is long: whoever is runnable gets its turn among the first
        of them. `seen` is who was current before each switch and after the last. */
    method Turns(count: nat, ghost j: nat) returns (ghost seen: seq<nat>)
      requires Valid() && j < |tasks| <= count && tasks[j].state == Runnable
      modifies this`current
      ensures Valid() && |seen| == count + 1 && seen[0] < |tasks| && tasks[seen[0]] == old(current)
      ensures forall s :: 0 <= s < count ==> IsTurn(RunnableOf(InfosOf(tasks)), seen[s], seen[s + 1])
      ensures seen[count] < |tasks| && tasks[seen[count]] == current
      ensures exists s :: 1 <= s <= |tasks| && seen[s] == j
    {
      hide Linked, TableOk, InfosOf, Housed, AddressSpaces.Valid, AddressSpaces.Snapshot, UserRangeFree, Around,
           RunnableOf, Table.Valid;
      ghost var run, n := RunnableOf(InfosOf(tasks)), |tasks|;
      ghost var c := CurrentFacts();
      RunsAt(j);
      ghost var runs: seq<seq<bool>>, steps: seq<nat> := [], [];
      seen := [c];
      var i := 0;
      while i < count
        invariant |runs| == |steps| == i <= count && |seen| == i + 1 && Valid() && n == |tasks|
        invariant seen[0] == c && seen[i] < n && tasks[seen[i]] == current
        invariant forall s :: 0 <= s < i ==> runs[s] == run && Takes(run, seen[s], steps[s], seen[s + 1])
      {
        ghost var c', k := Reschedule();
        OneCurrent(seen[i], c');
        runs, steps, seen := runs + [run], steps + [k], seen + [Around(n, c', k)];
        i := i + 1;
      }
      forall s | 0 <= s < count
        ensures IsTurn(run, seen[s], seen[s + 1])
      {
        assert Takes(run, seen[s], steps[s], seen[s + 1]);
      }
      ScheduledSoon(runs, steps, seen, n, j);
    }

    // -------------------------------------------------------------- fork

    /** kmalloc and the field assignments of fork. */
    method NewChild(parent: Task, pid: nat, d: int) returns (child: Task)
      requires SignalsOk(parent.SignalFields())
      ensures fresh(child) && child.next == null && InfoOf(child) == Forked(InfoOf(parent), pid, d)
      ensures SignalsOk(child.SignalFields())
    {
      hide SignalsOk;
      child := new Task.ChildOf(parent, pid, d);
      Inherit(child, parent);
    }

    lemma CurrentListed()
      requires Valid()
      ensures current in tasks
    {
      hide Linked, TableOk, InfosOf, Housed, AddressSpaces.Valid, AddressSpaces.Snapshot, UserRangeFree;
    }

    /** What the invariant says of the current task. */
    lemma CurrentFacts() returns (c: nat)
      requires Valid()
      ensures c < |tasks| && tasks[c] == current && InfosOf(tasks)[c] == InfoOf(current)
      ensures current.directory in spaces.dirs && current.directory != spaces.kernel
      ensures SignalsOk(current.SignalFields())
      ensures 0 <= current.id < nextPid && current.state == Runnable
      ensures forall i :: 0 <= i < |tasks| && i != c ==> tasks[i] != current
      ensures current.isUser ==> c > 0 && HeapOk(HeapOf(current), spaces.Flags(current.directory))
    {
      hide TableOk, Housed, HeapOk, AddressSpaces.Valid, AddressSpaces.Snapshot, AddressSpaces.Space,
           AddressSpaces.FramesHeld, AddressSpaces.Others, SignalsOk, InfosOf, UserRangeFree, FlagsOf, Threaded;
      c :| 0 <= c < |tasks| && tasks[c] == current;
      InfosAt(tasks);
      spaces.SnapshotHolds();
      ParentFacts(InfosOf(tasks), spaces.Snapshot(), nextPid, spaces.kernel, c);
      HeadIsKernel(InfosOf(tasks), nextPid);
    }

    /** Directory d was added to the world w, and nothing else changed. */
    ghost predicate Grew(d: int, w: World)
      reads spaces, spaces.bitmap, spaces.bitmap.words
    {
      && spaces.Valid() && UserRangeFree(w.shared) && d in spaces.dirs && d !in w.spaces && spaces.kernel in w.spaces
      && spaces.Others(d) == w && spaces.Snapshot() == Joined(w, d, spaces.Space(d), spaces.FramesHeld(d))
    }

    /** clone_directory(current_directory). */
    method CloneCurrent() returns (ok: bool, d: int)
      requires Valid()
      modifies spaces`tables, spaces`dirs, spaces`next, spaces`home, spaces`owner, spaces`phys, spaces.bitmap.words
      ensures !ok ==> spaces.bitmap.Valid() && spaces.bitmap.Full()
      ensures ok ==> Grew(d, old(spaces.Snapshot())) && spaces.Space(d) == old(spaces.Space(current.directory))
    {
      ghost var c := CurrentFacts();
      hide Linked, TableOk, Housed, HeapOk, AddressSpaces.Snapshot, AddressSpaces.Others, AddressSpaces.Space,
           AddressSpaces.FramesHeld, UserRangeFree, SignalsOk, InfosOf, LinksOk, TablesOk, HomesOk, OwnersOk, UserOk;
      spaces.SnapshotHolds();
      hide AddressSpaces.Valid;
      ok, d := spaces.CloneDirectory(current.directory);
      if !ok { return; }
      spaces.SnapshotFrom(d);
    }

    /** A complete child joins the list. */
    method Enlist(child: Task, ghost infos: seq<Info>, ghost w: World)
      requires Linked(tasks, readyQueue) && current in tasks && current.state == Runnable && InfosOf(tasks) == infos
      requires child !in tasks && child.next == null && child.id == nextPid && child.isUser && child.parentId < child.id
      requires SignalsOk(child.SignalFields())
      requires TableOk(infos, nextPid) && Housed(infos, w, spaces.kernel)
      requires Grew(child.directory, w) && HeapOk(HeapOf(child), FlagsOf(spaces.Space(child.directory)))
      modifies this`tasks, this`nextPid, tasks
      ensures Valid() && tasks == old(tasks) + [child] && InfosOf(tasks) == infos + [old(InfoOf(child))]
      ensures nextPid == old(nextPid) + 1
    {
      hide Linked, TableOk, Housed, HeapOk, AddressSpaces.Valid, AddressSpaces.Snapshot, AddressSpaces.Space,
           AddressSpaces.Others, AddressSpaces.FramesHeld, UserRangeFree, SignalsOk, InfosOf, FlagsOf;
      ghost var p := InfoOf(child);
      HousedAppended(infos, w, spaces.kernel, p, spaces.Space(p.directory), spaces.Snapshot());
      TableAppended(infos, nextPid, p);
      AppendReadyTask(child);
      nextPid := nextPid + 1;
      hide InfoOf;
      Settled(spaces.Snapshot());
    }

    /** The private part of PID 1's address space: a clone of the kernel directory and two zeroed stack pages. */
    method InitialSpace() returns (ok: bool, d: int)
      requires Valid()
      modifies spaces`tables, spaces`dirs, spaces`next, spaces`home, spaces`owner, spaces`phys, spaces.bitmap.words
      ensures !ok ==> spaces.bitmap.Valid() && spaces.bitmap.Full()
      ensures ok ==>
                && Grew(d, old(spaces.Snapshot()))
                && spaces.Flags(d) == WithPages(map[], FIRST_STACK_PAGE, LAST_STACK_PAGE, true)
      ensures ok ==> spaces.Memory(d) == WithZeroPages(map[], FIRST_STACK_PAGE, LAST_STACK_PAGE)
    {
      hide Linked, TableOk, Housed, HeapOk, AddressSpaces.Snapshot, AddressSpaces.Others, AddressSpaces.Space,
           WithPages, WithZeroPages, AddressSpaces.FramesHeld, UserRangeFree, SignalsOk, InfosOf, LinksOk, TablesOk,
           HomesOk, OwnersOk, UserOk, FlagsOf, MemOf;
      spaces.SnapshotHolds();
      spaces.SharedSlots();
      spaces.SnapshotShared();
      EmptySpace();
      ok, d := spaces.CloneDirectory(spaces.kernel);
      if !ok { return; }
      spaces.SharedSlots();
      var r := MapPages(spaces, d, FIRST_STACK_PAGE, LAST_STACK_PAGE);
      hide AddressSpaces.Valid;
      if r != PageMapped { ok := false; return; }
      spaces.SnapshotFrom(d);
    }

    /** create_initial_user_process: PID 0's one user process, with an empty heap at the temporary base. */
    method CreateInitial() returns (r: ForkResult)
      requires Valid()
      modifies this`tasks, this`nextPid, tasks, spaces`tables, spaces`dirs, spaces`next, spaces`home, spaces`owner,
               spaces`phys, spaces.bitmap.words
      ensures r == NoMemory ==> spaces.bitmap.Valid() && spaces.bitmap.Full()
      ensures r == NoMemory || r.Child?
      ensures r.Child? ==> Valid() && r.pid == old(nextPid) && nextPid == old(nextPid) + 1
      ensures r.Child? ==> InfosOf(tasks) == old(InfosOf(tasks)) + [Initial(r.pid, r.directory)]
      ensures r.Child? ==>
                r.directory !in old(spaces.Snapshot()).spaces && spaces.Others(r.directory) == old(spaces.Snapshot())
      ensures r.Child? ==>
                var child := InfosOf(tasks)[|old(tasks)|];
                && child.id == old(nextPid) && child.parentId == 0 && child.state == Runnable && child.isUser
                && child.directory == r.directory
                && child.heap == HeapFields(0x4000_0000, 0x4000_0000, 0x4000_0000, 0xBFF0_0000, 0x4000_0000)
                && (forall n :: 0 <= n < |child.signals.handlers| ==> child.signals.handlers[n] == 0)
                && child.signals.pending == 0 && !child.signals.active
      ensures r.Child? ==> exists child :: fresh(child) && tasks == old(tasks) + [child]
      ensures r.Child? ==> spaces.Memory(r.directory) == WithZeroPages(map[], FIRST_STACK_PAGE, LAST_STACK_PAGE)
    {
      hide Linked, TableOk, Housed, HeapOk, AddressSpaces.Valid, AddressSpaces.Snapshot, AddressSpaces.Others,
           AddressSpaces.Space, AddressSpaces.FramesHeld, UserRangeFree, SignalsOk, InfosOf, FlagsOf, WithZeroPages,
           AddressSpaces.Memory;
      ghost var c := CurrentFacts();
      ghost var infos, w := InfosOf(tasks), spaces.Snapshot();
      var ok, d := InitialSpace();
      if !ok { return NoMemory; }
      hide Table.Valid;
      GrewFacts(d, w);
      hide Table.Grew;
      NoHandlers();
      InitialHeap();
      hide WithPages;
      var process := new Task.Initial(nextPid, d, USER_HEAP_START, USER_HEAP_LIMIT);
      r := Child(nextPid, d);
      Enlist(process, infos, w);
    }

    /** task_fork_from_frame: a child with the next PID, an equal but separate address space, and the parent's registers
        with EAX zero. Nothing of any other process changes. */
    method Fork(regs: Registers) returns (r: ForkResult, childRegs: Registers)
      requires Valid()
      modifies this`tasks, this`nextPid, tasks, spaces`tables, spaces`dirs, spaces`next, spaces`home, spaces`owner,
               spaces`phys, spaces.bitmap.words
      ensures r == NoMemory ==> spaces.bitmap.Valid() && spaces.bitmap.Full()
      ensures r != NoMemory ==> Valid() && (r == Unable <==> !old(current.isUser))
      ensures r == Unable ==>
                && tasks == old(tasks)
                && InfosOf(tasks) == old(InfosOf(tasks))
                && nextPid == old(nextPid)
                && spaces.Snapshot() == old(spaces.Snapshot())
      ensures r.Child? ==> r.pid == old(nextPid) && nextPid == old(nextPid) + 1 && childRegs == regs.(eax := 0)
      ensures r.Child? ==> InfosOf(tasks) == old(InfosOf(tasks)) + [Forked(old(InfoOf(current)), r.pid, r.directory)]
      ensures r.Child? ==>
                var child := InfosOf(tasks)[|old(tasks)|];
                && child.id == old(nextPid) && child.parentId == old(current.id) && child.state == Runnable
                && child.isUser
                && child.directory == r.directory && child.heap == old(HeapOf(current))
                && child.signals.handlers == old(current.handlers)
                && child.signals.trampoline == old(current.trampoline)
                && child.signals.pending == 0 && !child.signals.active
      ensures r.Child? ==> exists child :: fresh(child) && tasks == old(tasks) + [child]
      ensures r.Child? ==>
                && r.directory in spaces.dirs
                && r.directory !in old(spaces.Snapshot()).spaces
                && spaces.Others(r.directory) == old(spaces.Snapshot())
      ensures r.Child? ==> spaces.Space(r.directory) == old(spaces.Space(current.directory))
    {
      hide Linked, TableOk, Housed, HeapOk, AddressSpaces.Valid, AddressSpaces.Snapshot, AddressSpaces.Others,
           AddressSpaces.Space, AddressSpaces.FramesHeld, UserRangeFree, SignalsOk, InfosOf, FlagsOf;
      childRegs := regs.(eax := 0);
      ghost var c := CurrentFacts();
      if !current.isUser || current.state != Runnable { return Unable, childRegs; }
      ghost var infos, w := InfosOf(tasks), spaces.Snapshot();
      var ok, d := CloneCurrent();
      if !ok { return NoMemory, childRegs; }
      hide Table.Valid;
      GrewFacts(d, w);
      hide Table.Grew;
      var child := NewChild(current, nextPid, d);
      r := Child(nextPid, d);
      Enlist(child, infos, w);
    }

    lemma GrewFacts(d: int, w: World)
      requires Grew(d, w)
      ensures d in spaces.dirs && d !in w.spaces && spaces.Others(d) == w && spaces.Valid()
    {
      hide AddressSpaces.Valid, AddressSpaces.Others;
    }

    // -------------------------------------------------------------- kill and exit

    lemma ListedTable()
      requires Valid()
      ensures TableOk(InfosOf(tasks), nextPid)
    {
      hide Linked, TableOk, Housed, AddressSpaces.Valid, AddressSpaces.Snapshot, UserRangeFree, InfosOf;
    }

    /** task_signal_send keeps the invariant. */
    method Kill(pid: int, n: int) returns (ok: bool, ghost k: nat)
      requires Valid()
      modifies tasks
      ensures Valid() && IsTask(old(InfosOf(tasks)), k, pid) && InfosOf(tasks) == Notified(old(InfosOf(tasks)), k, n)
      ensures ok <==> k < |tasks| && CanReceive(old(InfosOf(tasks))[k]) && 0 <= n < SIGNAL_COUNT
      ensures ok <==> 0 < k < |tasks| && old(InfosOf(tasks))[k].state != Zombie && 0 <= n <= 31
      ensures forall i :: 0 <= i < |tasks| && i != k ==> InfosOf(tasks)[i] == old(InfosOf(tasks))[i]
      ensures k < |tasks| ==>
                var (p, q) := (old(InfosOf(tasks))[k], InfosOf(tasks)[k]);
                && |p.signals.handlers| == 32
                && q == p.(state := q.state, signals := p.signals.(pending := q.signals.pending))
                && PendingSet(q.signals.pending) ==
                     PendingSet(p.signals.pending) +
                     (if ok && n != 0 && p.signals.handlers[n] != 1 && !(p.signals.handlers[n] == 0 && n == 17) then {n}
                      else {})
                && q.state == if ok && n != 0 && p.state == WaitingInput then Runnable else p.state
    {
      hide Linked, TableOk, Housed, HeapOk, AddressSpaces.Valid, AddressSpaces.Snapshot, UserRangeFree, SignalsOk,
           InfosOf, InfoOf, Notified, PendingSet;
      ghost var infos := InfosOf(tasks);
      ListedTable();
      HousedSent(infos, spaces.Snapshot(), spaces.kernel, 0, n);
      ok, k := SendSignal(pid, n);
      NotifiedMeans(infos, nextPid, k, n);
      if k < |infos| { EntryFacts(infos, nextPid, k); }
      HousedSent(infos, spaces.Snapshot(), spaces.kernel, k, n);
      Settled(spaces.Snapshot());
    }

    /** `exit_status = status; state = TASK_ZOMBIE` for the current task. */
    method MarkDead(status: int, ghost c: nat)
      requires Listed() && c < |tasks| && tasks[c] == current
      modifies current`exitStatus, current`state
      ensures Linked(tasks, readyQueue)
      ensures InfosOf(tasks) == old(InfosOf(tasks))[c := Dead(old(InfosOf(tasks))[c], status)]
    {
      hide TableOk, SignalsOk;
      ghost var infos := InfosOf(tasks);
      InfosAt(tasks);
      hide InfosOf;
      current.exitStatus := status;
      current.state := Zombie;
      assert Linked(tasks, readyQueue);
      hide Linked;
      forall i | 0 <= i < |tasks| && i != c
        ensures InfoOf(tasks[i]) == infos[i]
      {
        assert infos[i] == old(InfoOf(tasks[i]));
      }
      InfosPut(tasks, infos, c);
    }

    /** Everything task_exit does before it switches away: the zombie, and SIGCHLD to the parent. */
    method BecomeZombie(status: int, ghost c: nat, ghost w: World) returns (ghost p: nat)
      requires Listed() && 0 < c < |tasks| && tasks[c] == current && Housed(InfosOf(tasks), w, spaces.kernel)
      modifies tasks
      ensures Listed() && Housed(InfosOf(tasks), w, spaces.kernel) && current.state == Zombie
      ensures current.exitStatus == status
      ensures Exited(old(InfosOf(tasks)), c, status, p, InfosOf(tasks))
    {
      hide Linked, TableOk, Housed, SignalsOk, InfosOf, Notified;
      ghost var infos := InfosOf(tasks);
      ghost var dead := infos[c := Dead(infos[c], status)];
      InfosAt(tasks);
      TableDead(infos, nextPid, c, status);
      DeadHoused(infos, c, status, w, spaces.kernel);
      MarkDead(status, c);
      if current.parentId > 0 {
        var sent;
        sent, p := SendSignal(current.parentId, SIGNAL_CHLD);
        HousedSent(dead, w, spaces.kernel, p, SIGNAL_CHLD);
        StillDead(dead, p, SIGNAL_CHLD, c, status);
      } else {
        p := FirstTask(dead, current.parentId);
      }
      InfosAt(tasks);
    }

    /** task_exit: the current process becomes a zombie that keeps its status and memory, its parent is sent SIGCHLD,
        and the scheduler moves on to a runnable task, never back to it. */
    method Exit(status: int) returns (ghost c: nat, ghost p: nat)
      requires Valid() && current.isUser
      modifies this`current, tasks
      ensures Valid() && c < |tasks| && tasks[c] == old(current) && current != old(current)
      ensures Exited(old(InfosOf(tasks)), c, status, p, InfosOf(tasks)) && tasks == old(tasks)
      ensures old(current).state == Zombie && old(current).exitStatus == status
      ensures p != c && IsTask(old(InfosOf(tasks)), p, old(current.parentId))
      ensures forall i :: 0 <= i < |tasks| && i != c && i != p ==> InfosOf(tasks)[i] == old(InfosOf(tasks))[i]
      ensures InfosOf(tasks)[c] == old(InfosOf(tasks))[c].(state := Zombie, exitStatus := status)
      ensures p < |tasks| ==>
                var (before, after) := (old(InfosOf(tasks))[p], InfosOf(tasks)[p]);
                && |before.signals.handlers| == 32
                && after == before.(state := after.state, signals := before.signals.(pending := after.signals.pending))
                && PendingSet(after.signals.pending) ==
                     PendingSet(before.signals.pending) +
                     (if p != 0 && before.state != Zombie && before.signals.handlers[17] >= 2 then {17} else {})
                && after.state == if p != 0 && before.state == WaitingInput then Runnable else before.state
    {
      hide Linked, TableOk, Housed, HeapOk, AddressSpaces.Valid, AddressSpaces.Snapshot, UserRangeFree, SignalsOk,
           InfosOf, Exited, PendingSet;
      c := CurrentFacts();
      ghost var infos := InfosOf(tasks);
      ListedTable();
      p := BecomeZombie(status, c, spaces.Snapshot());
      ExitedMeans(infos, nextPid, c, status, p, InfosOf(tasks));
      ghost var c', k := SwitchTask();
      Settled(spaces.Snapshot());
    }

    // -------------------------------------------------------------- waiting for the keyboard

    /** `state = TASK_WAITING_INPUT` for the current task. */
    method MarkWaiting(ghost c: nat)
      requires Listed() && c < |tasks| && tasks[c] == current
      modifies current`state
      ensures Linked(tasks, readyQueue) && InfosOf(tasks) == old(InfosOf(tasks))[c := Asleep(old(InfosOf(tasks))[c])]
    {
      hide TableOk, SignalsOk;
      ghost var infos := InfosOf(tasks);
      InfosAt(tasks);
      hide InfosOf;
      current.state := WaitingInput;
      assert Linked(tasks, readyQueue);
      hide Linked;
      forall i | 0 <= i < |tasks| && i != c
        ensures InfoOf(tasks[i]) == infos[i]
      {
        assert infos[i] == old(InfoOf(tasks[i]));
      }
      InfosPut(tasks, infos, c);
    }

    /** task_wait_for_keyboard: the process sleeps, and another runnable task takes over. */
    method WaitForKeyboard() returns (ghost c: nat)
      requires Valid() && current.isUser
      modifies this`current, tasks
      ensures Valid() && c < |tasks| && tasks[c] == old(current) && current != old(current) && tasks == old(tasks)
      ensures old(current).state == WaitingInput
      ensures forall t :: t in tasks && t != old(current) ==> t.state == old(t.state)
      ensures InfosOf(tasks) == old(InfosOf(tasks))[c := Asleep(old(InfosOf(tasks))[c])]
    {
      hide Linked, TableOk, Housed, HeapOk, AddressSpaces.Valid, AddressSpaces.Snapshot, UserRangeFree, SignalsOk,
           InfosOf;
      c := CurrentFacts();
      ghost var infos := InfosOf(tasks);
      TableAsleep(infos, nextPid, c);
      HousedSame(infos, infos[c := Asleep(infos[c])], spaces.Snapshot(), spaces.kernel);
      MarkWaiting(c);
      InfosAt(tasks);
      ghost var c', k := SwitchTask();
      Settled(spaces.Snapshot());
    }

    /** The loop of task_wake_keyboard_waiters. */
    method WakeAll()
      requires Linked(tasks, readyQueue)
      modifies tasks
      ensures forall t :: t in tasks ==> t.state == if old(t.state) == WaitingInput then Runnable else old(t.state)
      ensures Linked(tasks, readyQueue) && InfosOf(tasks) == Woken(old(InfosOf(tasks)))
    {
      hide InfosOf;
      ghost var infos := InfosOf(tasks);
      InfosAt(tasks);
      LinksChain(tasks, readyQueue);
      ghost var links := NextOf(tasks);
      hide Linked, Successor, Woken;
      var task: Task? := readyQueue;
      ghost var k := 0;
      while task != null
        invariant k <= |tasks| && (task == null <==> k == |tasks|) && (k < |tasks| ==> task == tasks[k])
        invariant NextOf(tasks) == links
        invariant forall i :: 0 <= i < k ==> InfoOf(tasks[i]) == Awake(infos[i])
        invariant forall i :: k <= i < |tasks| ==> InfoOf(tasks[i]) == infos[i]
        decreases |tasks| - k
      {
        NextTask(tasks, readyQueue, links, k);
        if task.state == WaitingInput { task.state := Runnable; }
        task, k := task.next, k + 1;
      }
      LinksChain(tasks, readyQueue);
      InfosWoken(tasks, infos);
    }

    /** task_wake_keyboard_waiters keeps the invariant. */
    method WakeKeyboardWaiters()
      requires Valid()
      modifies tasks
      ensures forall t :: t in tasks ==> t.state == if old(t.state) == WaitingInput then Runnable else old(t.state)
      ensures Valid() && InfosOf(tasks) == Woken(old(InfosOf(tasks)))
    {
      hide Linked, TableOk, Housed, HeapOk, AddressSpaces.Valid, AddressSpaces.Snapshot, UserRangeFree, SignalsOk,
           InfosOf, Woken;
      ghost var c := CurrentFacts();
      ghost var infos := InfosOf(tasks);
      TableWoken(infos, nextPid);
      HousedSame(infos, Woken(infos), spaces.Snapshot(), spaces.kernel);
      WakeAll();
      InfosAt(tasks);
      Settled(spaces.Snapshot());
    }

    // -------------------------------------------------------------- waitpid

    /** Directory d left the world w, and nothing else changed. */
    ghost predicate Shed(d: int, w: World)
      reads spaces, spaces.bitmap, spaces.bitmap.words
    {
      && spaces.Valid() && d in w.spaces && d in w.frames && spaces.Snapshot().spaces == w.spaces - {d}
      && (forall e :: e in w.frames && e != d ==> e in spaces.dirs && spaces.FramesHeld(e) == w.frames[e])
      && spaces.Snapshot().shared == w.shared && spaces.bitmap.Used() == w.reserved - w.frames[d]
    }

    /** destroy_directory of a collected child. */
    method DropSpace(d: int)
      requires spaces.Valid() && d in spaces.dirs && d != spaces.kernel && d != current.directory
      modifies spaces`tables, spaces`dirs, spaces`home, spaces`owner, spaces.bitmap.words
      ensures Shed(d, old(spaces.Snapshot()))
    {
      hide AddressSpaces.Valid, AddressSpaces.Snapshot, AddressSpaces.Space, AddressSpaces.FramesHeld,
           AddressSpaces.Others;
      ghost var w := spaces.Snapshot();
      spaces.SnapshotHolds();
      spaces.SnapshotFrom(d);
      spaces.DestroyDirectory(d, current.directory);
      spaces.SnapshotHolds();
      WithoutDirectory(w, spaces.Snapshot(), d);
    }

    /** task_waitpid: -1 without such a child, 0 while it runs; otherwise its PID and status, once: the child leaves the
        list for good, and exactly its frames are free again. */
    method Waitpid(pid: int) returns (r: int, status: int, ghost k: nat)
      requires Valid()
      modifies this`tasks, tasks, spaces`tables, spaces`dirs, spaces`home, spaces`owner, spaces.bitmap.words
      ensures Valid() && nextPid == old(nextPid) && current.directory == old(current.directory)
      ensures r == -1 <==>
                pid <= 0 ||
                forall i :: 0 <= i < |old(tasks)| ==>
                  !(old(InfosOf(tasks))[i].id == pid && old(InfosOf(tasks))[i].parentId == old(current.id))
      ensures r == -1 || r == 0 || r == pid
      ensures r <= 0 ==>
                && tasks == old(tasks)
                && InfosOf(tasks) == old(InfosOf(tasks))
                && spaces.Snapshot() == old(spaces.Snapshot())
      ensures r >= 0 ==>
                && 0 < k < |old(InfosOf(tasks))|
                && old(InfosOf(tasks))[k].id == pid && old(InfosOf(tasks))[k].parentId == old(current.id)
      ensures r >= 0 ==> (r > 0 <==> old(InfosOf(tasks))[k].state == Zombie)
      ensures r > 0 ==> status == old(InfosOf(tasks))[k].exitStatus
      ensures r > 0 ==>
                && InfosOf(tasks) == old(InfosOf(tasks))[..k] + old(InfosOf(tasks))[k + 1..]
                && Gone(InfosOf(tasks), nextPid, pid)
      ensures r > 0 ==> Shed(old(InfosOf(tasks))[k].directory, old(spaces.Snapshot()))
      ensures forall t :: t in tasks ==> t in old(tasks)
    {
      hide Linked, TableOk, Housed, HeapOk, AddressSpaces.Valid, AddressSpaces.Snapshot, UserRangeFree, SignalsOk,
           InfosOf, Gone;
      k, r, status := 0, -1, 0;
      ghost var infos, w := InfosOf(tasks), spaces.Snapshot();
      if pid <= 0 { return; }
      spaces.SnapshotHolds();
      ghost var c := CurrentFacts();
      var child, previous;
      child, previous, k := FindTask(pid);
      ChildAt(tasks, k, pid, current.id, nextPid);
      if child == null || child.parentId != current.id { return; }
      r := 0;
      if child.state != Zombie { return; }
      status := child.exitStatus;
      assert previous != null;
      ParentFacts(infos, w, nextPid, spaces.kernel, k);
      hide HasChild;
      Reap(child, previous, k);
      GoneFor(infos, nextPid, k, pid);
      r := pid;
    }

    lemma CurrentHome(c: nat)
      requires Valid() && c < |tasks| && tasks[c] == current
      ensures InfosOf(tasks)[c].directory == current.directory && current.state == Runnable
    {
      InfosAt(tasks);
      hide Linked, TableOk, Housed, AddressSpaces.Valid, AddressSpaces.Snapshot, UserRangeFree, InfosOf;
    }

    /** The last steps of waitpid: unlink, destroy the directory, which is not the loaded one. */
    method Reap(child: Task, previous: Task, ghost k: nat)
      requires Valid() && 0 < k < |tasks| && tasks[k] == child && tasks[k - 1] == previous && child.state == Zombie
      requires child.directory in spaces.dirs && child.directory != spaces.kernel
      requires child.directory == InfosOf(tasks)[k].directory
      modifies this`tasks, previous`next, spaces`tables, spaces`dirs, spaces`home, spaces`owner, spaces.bitmap.words
      ensures Valid() && InfosOf(tasks) == old(InfosOf(tasks))[..k] + old(InfosOf(tasks))[k + 1..]
      ensures Shed(child.directory, old(spaces.Snapshot())) && forall t :: t in tasks ==> t in old(tasks)
    {
      hide Linked, TableOk, Housed, HeapOk, AddressSpaces.Valid, AddressSpaces.Snapshot, UserRangeFree, SignalsOk,
           InfosOf, InfoOf;
      ghost var infos, w, before := InfosOf(tasks), spaces.Snapshot(), tasks;
      ghost var c :| 0 <= c < |tasks| && tasks[c] == current;
      CurrentHome(c);
      assert current.directory != child.directory by { DirectoriesApart(infos, nextPid, k); }
      Unlink(child, previous, k);
      assert before[c] in tasks;
      DropSpace(child.directory);
      TableRemoved(infos, nextPid, k);
      HousedRemoved(infos, nextPid, w, spaces.kernel, k, spaces.Snapshot());
      Settled(spaces.Snapshot());
    }

    // -------------------------------------------------------------- sbrk and exec by the current process

    lemma CurrentReady()
      requires Valid()
      ensures Ready(spaces, current.directory) && UserRangeFree(spaces.dirs[spaces.kernel])
      ensures spaces.kernel in spaces.Snapshot().spaces
    {
      ghost var c := CurrentFacts();
      spaces.SnapshotHolds();
      spaces.SharedSlots();
      spaces.SnapshotShared();
      hide Linked, TableOk, Housed, HeapOk, AddressSpaces.Snapshot, AddressSpaces.Others, UserRangeFree, SignalsOk,
           InfosOf, LinksOk, TablesOk, HomesOk, OwnersOk, UserOk;
    }

    /** After a step that changed only the current process and its own directory. */
    lemma CurrentChanged(infos: seq<Info>, w: World, c: nat)
      requires Linked(tasks, readyQueue) && c < |tasks| == |infos| && tasks[c] == current && current.state == Runnable
      requires TableOk(infos, nextPid) && Housed(infos, w, spaces.kernel)
      requires forall i :: 0 <= i < |tasks| && i != c ==> InfoOf(tasks[i]) == infos[i]
      requires InfoOf(current).id == infos[c].id && InfoOf(current).parentId == infos[c].parentId
      requires InfoOf(current).directory == infos[c].directory
      requires c > 0 && InfoOf(current).isUser && SignalsOk(current.SignalFields())
      requires HeapOk(HeapOf(current), FlagsOf(spaces.Space(current.directory)))
      requires spaces.Valid() && current.directory in spaces.dirs && UserRangeFree(spaces.Snapshot().shared)
      requires spaces.Others(current.directory).spaces == w.spaces - {current.directory}
      requires current.directory in w.spaces
      ensures Valid() && InfosOf(tasks) == infos[c := InfoOf(current)]
    {
      hide Linked, Housed, HeapOk, AddressSpaces.Valid, AddressSpaces.Snapshot, AddressSpaces.Others,
           AddressSpaces.Space, FlagsOf, AddressSpaces.FramesHeld, UserRangeFree, SignalsOk, InfosOf;
      InfosPut(tasks, infos, c);
      spaces.SnapshotFrom(current.directory);
      DirectoriesApart(infos, nextPid, c);
      TableChanged(infos, nextPid, c, InfoOf(current));
      PutBack(w.spaces, current.directory, spaces.Space(current.directory));
      HousedChanged(infos, nextPid, w, spaces.kernel, c, InfoOf(current), spaces.Space(current.directory),
                    spaces.Snapshot());
      hide TableOk, InfoOf;
      Settled(spaces.Snapshot());
    }

    lemma OthersOf(d: int)
      requires spaces.Valid() && d in spaces.dirs
      ensures d in spaces.Snapshot().spaces && spaces.Others(d).spaces == spaces.Snapshot().spaces - {d}
    {
      hide AddressSpaces.Valid, AddressSpaces.Snapshot, AddressSpaces.Others, AddressSpaces.Space,
           AddressSpaces.FramesHeld;
      spaces.SnapshotFrom(d);
    }

    /** task_sbrk changes no other task, and no link. */
    method MoveBreak(increment: int, ghost c: nat, ghost infos: seq<Info>) returns (r: SbrkResult)
      requires -0x8000_0000 <= increment < 0x8000_0000 && Linked(tasks, readyQueue) && InfosOf(tasks) == infos
      requires c < |tasks| && tasks[c] == current && forall i :: 0 <= i < |tasks| && i != c ==> tasks[i] != current
      requires Ready(spaces, current.directory)
      requires (current.isUser ==> HeapOk(HeapOf(current), spaces.Flags(current.directory)))
      modifies current`heapBreak, current`heapMappedEnd, current`heapHighest, spaces`tables, spaces`dirs, spaces`next,
               spaces`home, spaces`owner, spaces`phys, spaces.bitmap.words
      ensures r == Panics ==> spaces.bitmap.Valid() && spaces.bitmap.Full()
      ensures r != Panics ==> Linked(tasks, readyQueue) && (r != Refused <==> old(Moves(current, increment)))
      ensures r == Refused ==> InfosOf(tasks) == infos && unchanged(spaces) && unchanged(spaces.bitmap.words)
      ensures r.OldBreak? ==> forall i :: 0 <= i < |tasks| && i != c ==> InfoOf(tasks[i]) == infos[i]
      ensures r.OldBreak? ==>
                Ready(spaces, current.directory) && HeapOk(HeapOf(current), spaces.Flags(current.directory))
      ensures r.OldBreak? ==> spaces.Others(current.directory) == old(spaces.Others(current.directory))
      ensures r.OldBreak? ==>
                r.value == old(current.heapBreak) && current.heapBreak == old(current.heapBreak) + increment
      ensures r.OldBreak? ==>
                Broken(old(HeapOf(current)), HeapOf(current), old(spaces.Memory(current.directory)),
                       spaces.Memory(current.directory))
    {
      hide Ready, HeapOk, Linked, InfosOf, WithZeroPages, FlagsOf, AddressSpaces.Valid, AddressSpaces.Others, Broken,
           AddressSpaces.Memory, AddressSpaces.Flags, AddressSpaces.Space, Chained, FrameBitmap.Valid, FrameBitmap.Full;
      InfosAt(tasks);
      LinksChain(tasks, readyQueue);
      ghost var links := NextOf(tasks);
      r := TaskSbrk(current, spaces, increment);
      assert NextOf(tasks) == links;
      LinksChain(tasks, readyQueue);
      if r == Refused { InfosPut(tasks, infos, c); assert infos[c] == old(InfoOf(current)); }
      if r.OldBreak? {
        forall i | 0 <= i < |tasks| && i != c
          ensures InfoOf(tasks[i]) == infos[i]
        {
          assert infos[i] == old(InfoOf(tasks[i]));
        }
      }
    }

    /** sbrk by the current process. */
    method Sbrk(increment: int) returns (r: SbrkResult, ghost c: nat)
      requires Valid() && -0x8000_0000 <= increment < 0x8000_0000
      modifies current`heapBreak, current`heapMappedEnd, current`heapHighest, spaces`tables, spaces`dirs, spaces`next,
               spaces`home, spaces`owner, spaces`phys, spaces.bitmap.words
      ensures r == Panics ==> spaces.bitmap.Valid() && spaces.bitmap.Full()
      ensures r != Panics ==> Valid() && (r != Refused <==> old(Moves(current, increment)))
      ensures r == Refused ==> InfosOf(tasks) == old(InfosOf(tasks)) && spaces.Snapshot() == old(spaces.Snapshot())
      ensures r.OldBreak? ==>
                r.value == old(current.heapBreak) && current.heapBreak == old(current.heapBreak) + increment
      ensures r.OldBreak? ==>
                Broken(old(HeapOf(current)), HeapOf(current), old(spaces.Memory(current.directory)),
                       spaces.Memory(current.directory))
      ensures r.OldBreak? ==>
                c < |tasks| && tasks[c] == current && InfosOf(tasks) == old(InfosOf(tasks))[c := InfoOf(current)]
      ensures r.OldBreak? ==> SameProcess(old(InfosOf(tasks))[c], InfoOf(current))
      ensures r.OldBreak? ==> spaces.Others(current.directory) == old(spaces.Others(current.directory))
    {
      hide Linked, TableOk, Housed, HeapOk, AddressSpaces.Valid, AddressSpaces.Snapshot, AddressSpaces.Others,
           AddressSpaces.Space, AddressSpaces.FramesHeld, UserRangeFree, SignalsOk, InfosOf, FlagsOf, Broken,
           AddressSpaces.Memory;
      c := CurrentFacts();
      CurrentReady();
      InfosAt(tasks);
      OthersOf(current.directory);
      ghost var infos, w := InfosOf(tasks), spaces.Snapshot();
      r := MoveBreak(increment, c, infos);
      if r == Refused { Settled(w); }
      if !r.OldBreak? { return; }
      spaces.SharedSlots();
      spaces.SnapshotShared();
      CurrentChanged(infos, w, c);
    }

    /** process_execve changes no other task, and no link. */
    method ReplaceProgram(frame: RegisterFrame, path: Pointer, argv: Vector, environmentEmpty: bool,
                          resolve: seq<Byte> -> Lookup, ghost c: nat, ghost infos: seq<Info>)
        returns (r: ExecResult, ghost strings: seq<seq<Byte>>, ghost request: Request)
      requires Linked(tasks, readyQueue) && InfosOf(tasks) == infos && c < |tasks| && tasks[c] == current
      requires forall i :: 0 <= i < |tasks| && i != c ==> tasks[i] != current
      requires spaces.Valid() && UserRangeFree(spaces.dirs[spaces.kernel]) && HasProgram(current, spaces)
      modifies spaces`tables, spaces`dirs, spaces`next, spaces`home, spaces`owner, spaces`phys, spaces.bitmap.words,
               current, frame
      ensures r != Halted ==> (r == Executed <==> old(CanExec(current.isUser, path, argv, environmentEmpty, resolve)))
      ensures r == Halted ==> spaces.bitmap.Valid() && spaces.bitmap.Full()
      ensures r != Halted ==> Linked(tasks, readyQueue)
      ensures r == Failed ==>
                InfosOf(tasks) == infos && frame.regs == old(frame.regs) && current.state == old(current.state)
      ensures r == Failed ==> spaces.Valid() && spaces.Snapshot() == old(spaces.Snapshot())
      ensures r == Executed ==>
                frame.regs == old(frame.regs).(eip := frame.regs.eip, useresp := frame.regs.useresp, eax := 0)
      ensures r == Executed ==> forall i :: 0 <= i < |tasks| && i != c ==> InfoOf(tasks[i]) == infos[i]
      ensures r == Executed ==> SameProcess(old(InfoOf(current)), InfoOf(current)) && SignalsOk(current.SignalFields())
      ensures r == Executed ==> Replaced(spaces, current.directory, old(current.directory), old(spaces.Snapshot()))
      ensures r == Executed ==> HeapOk(HeapOf(current), spaces.Flags(current.directory))
      ensures r == Executed ==> Installed(spaces, current, frame.regs, path, argv, resolve, request, strings)
    {
      hide HeapOk, Distinct, InfosOf, FlagsOf, AddressSpaces.Valid, AddressSpaces.Snapshot, UserRangeFree, CanExec,
           Replaced, Decodes, ResetHandlers, ProgramMemory, ArgumentsAre, PathIs, LaidOut, AddressSpaces.Memory,
           AddressSpaces.Flags, ProgramFlags, SignalsOk, RunnableFile, ProgramsOf, Highest, PageUp;
      InfosAt(tasks);
      r, strings, request := ProcessExecve(current, spaces, frame, path, argv, environmentEmpty, resolve);
      if r == Failed { InfosPut(tasks, infos, c); assert infos[c] == old(InfoOf(current)); }
      if r == Executed {
        forall i | 0 <= i < |tasks| && i != c
          ensures InfoOf(tasks[i]) == infos[i]
        {
          assert infos[i] == old(InfoOf(tasks[i]));
        }
        RunnableHeap(resolve(request.path).node);
      }
    }

    /** exec by the current process keeps the invariant. */
    method Execve(frame: RegisterFrame, path: Pointer, argv: Vector, environmentEmpty: bool,
                  resolve: seq<Byte> -> Lookup)
        returns (r: ExecResult, ghost c: nat, ghost request: Request, ghost strings: seq<seq<Byte>>)
      requires Valid() && current.isUser
      modifies spaces`tables, spaces`dirs, spaces`next, spaces`home, spaces`owner, spaces`phys, spaces.bitmap.words,
               current, frame
      ensures r == Halted ==> spaces.bitmap.Valid() && spaces.bitmap.Full()
      ensures r != Halted ==>
                Valid() && (r == Executed <==> old(CanExec(current.isUser, path, argv, environmentEmpty, resolve)))
      ensures r == Failed ==> InfosOf(tasks) == old(InfosOf(tasks)) && frame.regs == old(frame.regs)
      ensures r == Failed ==> spaces.Snapshot() == old(spaces.Snapshot())
      ensures r == Executed ==>
                c < |tasks| && tasks[c] == current && InfosOf(tasks) == old(InfosOf(tasks))[c := InfoOf(current)]
      ensures r == Executed ==> SameProcess(old(InfosOf(tasks))[c], InfoOf(current)) && current == old(current)
      ensures r == Executed ==>
                frame.regs == old(frame.regs).(eip := frame.regs.eip, useresp := frame.regs.useresp, eax := 0)
      ensures r == Executed ==> Replaced(spaces, current.directory, old(current.directory), old(spaces.Snapshot()))
      ensures r == Executed ==> Installed(spaces, current, frame.regs, path, argv, resolve, request, strings)
    {
      hide Linked, TableOk, Housed, HeapOk, AddressSpaces.Valid, AddressSpaces.Snapshot, AddressSpaces.Others,
           AddressSpaces.Space, AddressSpaces.FramesHeld, UserRangeFree, SignalsOk, InfosOf, FlagsOf, CanExec, Replaced,
           Installed;
      c := CurrentFacts();
      CurrentReady();
      ghost var infos, w := InfosOf(tasks), spaces.Snapshot();
      r, strings, request := ReplaceProgram(frame, path, argv, environmentEmpty, resolve, c, infos);
      if r == Failed { Settled(w); }
      if r == Executed { ProgramChanged(infos, w, c); }
    }

    /** After a step that gave the current process a new directory. */
    lemma ProgramChanged(infos: seq<Info>, w: World, c: nat)
      requires Linked(tasks, readyQueue) && c < |tasks| == |infos| && tasks[c] == current && current.state == Runnable
      requires TableOk(infos, nextPid) && Housed(infos, w, spaces.kernel) && spaces.kernel in w.spaces
      requires forall i :: 0 <= i < |tasks| && i != c ==> InfoOf(tasks[i]) == infos[i]
      requires SameProcess(infos[c], InfoOf(current)) && c > 0 && InfoOf(current).isUser
      requires SignalsOk(current.SignalFields())
      requires HeapOk(HeapOf(current), spaces.Flags(current.directory))
      requires Replaced(spaces, current.directory, infos[c].directory, w)
      requires UserRangeFree(w.shared)
      ensures Valid() && InfosOf(tasks) == infos[c := InfoOf(current)]
    {
      hide Linked, Housed, HeapOk, AddressSpaces.Valid, AddressSpaces.Snapshot, AddressSpaces.Others,
           AddressSpaces.Space, FlagsOf, AddressSpaces.FramesHeld, UserRangeFree, SignalsOk, InfosOf, TableOk;
      InfosPut(tasks, infos, c);
      spaces.SnapshotHolds();
      HousedReplaced(infos, nextPid, w, spaces.kernel, c, InfoOf(current), spaces.Snapshot());
      TableChanged(infos, nextPid, c, InfoOf(current));
      hide InfoOf;
      Settled(spaces.Snapshot());
    }

    /** PID 0 and the kernel have directories nobody else has. */
    lemma HeadFacts()
      requires Valid()
      ensures var ps := InfosOf(tasks);
              && |ps| > 0 && ps[0].directory in spaces.HeldBy() && spaces.kernel in spaces.HeldBy()
              && ps[0].directory != spaces.kernel
              && (forall i :: 0 < i < |ps| ==> ps[i].directory != ps[0].directory && ps[i].directory != spaces.kernel)
              && ps[0].id == 0 && spaces.bitmap.Valid() && spaces.Valid()
              && (forall d :: d in spaces.HeldBy() ==> d == spaces.kernel || Lives(ps, d))
    {
      spaces.SnapshotHolds();
      spaces.SnapshotFrames();
      SpacesParts();
      hide Linked, HeapOk, AddressSpaces.Valid, AddressSpaces.Snapshot, AddressSpaces.Others, UserRangeFree, SignalsOk,
           InfosOf, Lives;
    }

    /** The head of the list is the kernel's own task, and everything behind it a user process. */
    lemma UserMeans()
      requires Valid()
      ensures (current.isUser <==> current != readyQueue) && current.state == Runnable
    {
      hide Housed, AddressSpaces.Valid, AddressSpaces.Snapshot, UserRangeFree, SignalsOk, InfosOf;
      ghost var c := CurrentFacts();
      InfosAt(tasks);
    }

    lemma Apart()
      requires Valid()
      ensures forall i, j :: 0 <= i < j < |tasks| ==> InfosOf(tasks)[i].directory != InfosOf(tasks)[j].directory
      ensures forall d, e :: d != e ==> spaces.FramesHeld(d) !! spaces.FramesHeld(e)
    {
      hide Linked, Housed, AddressSpaces.Valid, AddressSpaces.Snapshot, UserRangeFree, SignalsOk, InfosOf,
           AddressSpaces.FramesHeld;
      forall d, e | d != e ensures spaces.FramesHeld(d) !! spaces.FramesHeld(e) { spaces.HeldApart(d, e); }
    }

    lemma ValidSpaces()
      requires Valid()
      ensures spaces.Valid()
    {
      hide Linked, TableOk, Housed, AddressSpaces.Valid, AddressSpaces.Snapshot, InfosOf, UserRangeFree;
    }

    lemma SpacesParts()
      requires spaces.Valid()
      ensures spaces.bitmap.Valid() && spaces.kernel in spaces.dirs
    {
    }

    /** After a step that changed at most the bytes of the current process's own memory. */
    lemma BytesChanged(infos: seq<Info>, w: World, c: nat, flags: map<nat, bool>)
      requires Linked(tasks, readyQueue) && InfosOf(tasks) == infos && c < |tasks| && tasks[c] == current && c > 0
      requires current.state == Runnable && current.isUser && TableOk(infos, nextPid) && Housed(infos, w, spaces.kernel)
      requires HeapOk(HeapOf(current), flags) && spaces.Flags(current.directory) == flags
      requires Ready(spaces, current.directory) && SignalsOk(current.SignalFields())
      requires spaces.Others(current.directory).spaces == w.spaces - {current.directory}
      requires current.directory in w.spaces
      ensures Valid()
    {
      hide Linked, TableOk, Housed, HeapOk, AddressSpaces.Valid, AddressSpaces.Snapshot, AddressSpaces.Others,
           AddressSpaces.Space, FlagsOf, UserRangeFree, SignalsOk, InfosOf, AddressSpaces.Flags;
      InfosAt(tasks);
      SignalsChanged(infos, w, c);
    }

    /** One byte stored by the running program, unless it faults. */
    method UserStore(a: nat, b: Byte) returns (ok: bool)
      requires Valid() && current.isUser && InUserRange(a, 1)
      modifies spaces`phys
      ensures Valid() && spaces.Others(current.directory) == old(spaces.Others(current.directory))
      ensures ok <==>
                PageOf(a) in old(spaces.Flags(current.directory)) && old(spaces.Flags(current.directory))[PageOf(a)]
      ensures spaces.Flags(current.directory) == old(spaces.Flags(current.directory))
      ensures ok ==>
                && a in old(spaces.Memory(current.directory))
                && spaces.Memory(current.directory) == old(spaces.Memory(current.directory))[a := b]
      ensures !ok ==> unchanged(spaces)
    {
      hide Linked, TableOk, Housed, HeapOk, AddressSpaces.Valid, AddressSpaces.Snapshot, AddressSpaces.Others,
           AddressSpaces.Space, AddressSpaces.FramesHeld, UserRangeFree, SignalsOk, InfosOf, FlagsOf,
           AddressSpaces.Memory, AddressSpaces.Flags;
      ghost var c := CurrentFacts();
      CurrentReady();
      OthersOf(current.directory);
      ghost var infos, w, flags := InfosOf(tasks), spaces.Snapshot(), spaces.Flags(current.directory);
      ok := StoreByUser(spaces, current.directory, a, b);
      BytesChanged(infos, w, c, flags);
    }

    /** The whole mapped heap is there to be written. */
    lemma HeapWritable(a: nat)
      requires Valid() && current.isUser && current.heapStart <= a < current.heapMappedEnd
      ensures InUserRange(a, 1) && PageOf(a) in spaces.Flags(current.directory)
      ensures spaces.Flags(current.directory)[PageOf(a)]
    {
      hide Linked, TableOk, Housed, AddressSpaces.Valid, AddressSpaces.Snapshot, UserRangeFree, InfosOf,
           AddressSpaces.Flags;
      ghost var c := CurrentFacts();
    }

    /** After sbrk a store anywhere in the mapped heap goes through. */
    method SbrkThenStore(increment: int, a: nat, b: Byte) returns (r: SbrkResult, ok: bool)
      requires Valid() && current.isUser && -0x8000_0000 <= increment < 0x8000_0000
      modifies current`heapBreak, current`heapMappedEnd, current`heapHighest, spaces`tables, spaces`dirs, spaces`next,
               spaces`home, spaces`owner, spaces`phys, spaces.bitmap.words
      ensures r != Panics && current.heapStart <= a < current.heapMappedEnd ==>
                ok && Valid() && a in spaces.Memory(current.directory) && spaces.Memory(current.directory)[a] == b
    {
      hide Linked, TableOk, Housed, HeapOk, AddressSpaces.Valid, AddressSpaces.Snapshot, AddressSpaces.Others,
           UserRangeFree, InfosOf, AddressSpaces.Flags, AddressSpaces.Memory, Broken, Moves, Table.Valid;
      ghost var c;
      r, c := Sbrk(increment);
      ok := false;
      if r == Panics || a < current.heapStart || a >= current.heapMappedEnd { return; }
      HeapWritable(a);
      ok := UserStore(a, b);
    }

    /** Bytes copied by the kernel to a pointer of the current process, unless that faults. */
    method CopyToUser(at: nat, bytes: seq<Byte>) returns (ok: bool)
      requires Valid() && current.isUser && InUserRange(at, |bytes|)
      modifies spaces`phys
      ensures Valid() && spaces.Others(current.directory) == old(spaces.Others(current.directory))
      ensures ok <==> Mapped(old(spaces.Memory(current.directory)), at, |bytes|)
      ensures spaces.Flags(current.directory) == old(spaces.Flags(current.directory))
      ensures ok ==> spaces.Memory(current.directory) == Overlay(old(spaces.Memory(current.directory)), at, bytes)
    {
      hide Linked, TableOk, Housed, HeapOk, AddressSpaces.Valid, AddressSpaces.Snapshot, AddressSpaces.Others,
           AddressSpaces.Space, AddressSpaces.FramesHeld, UserRangeFree, SignalsOk, InfosOf, FlagsOf,
           AddressSpaces.Memory, AddressSpaces.Flags, Overlay, Mapped;
      ghost var c := CurrentFacts();
      CurrentReady();
      OthersOf(current.directory);
      ghost var infos, w, flags := InfosOf(tasks), spaces.Snapshot(), spaces.Flags(current.directory);
      ok := CopyOut(spaces, current.directory, at, bytes);
      BytesChanged(infos, w, c, flags);
    }

    // -------------------------------------------------------------- signals of the current process

    /** The stack of a user process is mapped. */
    lemma CurrentCanTake()
      requires Valid() && current.isUser
      ensures CanTakeSignals(current, spaces)
    {
      hide Linked, TableOk, Housed, AddressSpaces.Valid, AddressSpaces.Snapshot, AddressSpaces.Others,
           AddressSpaces.Flags, AddressSpaces.Memory, UserRangeFree, SignalsOk, InfosOf;
      ghost var c := CurrentFacts();
      CurrentReady();
      StackPages(current.directory);
    }

    lemma StackPages(d: int)
      requires spaces.Valid() && d in spaces.dirs
      requires forall n :: FIRST_STACK_PAGE <= n < LAST_STACK_PAGE ==> n in spaces.Flags(d)
      ensures StackMapped(spaces.Memory(d))
    {
      hide AddressSpaces.Valid, AddressSpaces.Flags, AddressSpaces.Memory;
      spaces.FlagsReach(d, FIRST_STACK_PAGE);
      spaces.FlagsReach(d, FIRST_STACK_PAGE + 1);
      forall a | STACK_BOTTOM <= a < STACK_BOTTOM + TASK_STACK_SIZE ensures a in spaces.Memory(d) {
        assert PageOf(a) == FIRST_STACK_PAGE || PageOf(a) == FIRST_STACK_PAGE + 1;
      }
    }

    /** After a step that changed at most the current process's signal fields and the bytes of its own memory. */
    lemma SignalsChanged(infos: seq<Info>, w: World, c: nat)
      requires Linked(tasks, readyQueue) && c < |tasks| == |infos| && tasks[c] == current && current.state == Runnable
      requires TableOk(infos, nextPid) && Housed(infos, w, spaces.kernel) && c > 0
      requires forall i :: 0 <= i < |tasks| && i != c ==> InfoOf(tasks[i]) == infos[i]
      requires InfoOf(current) == infos[c].(signals := current.SignalFields()) && current.isUser
      requires SignalsOk(current.SignalFields())
      requires HeapOk(HeapOf(current), spaces.Flags(current.directory)) && Ready(spaces, current.directory)
      requires spaces.Others(current.directory).spaces == w.spaces - {current.directory}
      requires current.directory in w.spaces
      ensures Valid() && InfosOf(tasks) == infos[c := InfoOf(current)]
    {
      hide Linked, TableOk, Housed, HeapOk, AddressSpaces.Valid, AddressSpaces.Snapshot, AddressSpaces.Others,
           AddressSpaces.Space, FlagsOf, UserRangeFree, SignalsOk, InfosOf;
      spaces.SharedSlots();
      spaces.SnapshotShared();
      CurrentChanged(infos, w, c);
    }

    /** signal(2) by the current process. */
    method SetDisposition(n: int, handler: nat, trampoline: nat) returns (result: int, ghost c: nat)
      requires Valid() && current.isUser && handler <= U32_MAX && trampoline <= U32_MAX
      modifies current`handlers, current`trampoline
      ensures Valid() && c < |tasks| && tasks[c] == current
      ensures OnlySignals(old(InfosOf(tasks)), InfosOf(tasks), c, current.SignalFields())
      ensures !Accepts(n, handler, trampoline, spaces, current.directory) ==>
                result == -ERRNO_EINVAL && current.SignalFields() == old(current.SignalFields())
      ensures Accepts(n, handler, trampoline, spaces, current.directory) ==>
                && OneHandler(old(current.handlers), current.handlers, n, handler)
                && current.trampoline == (if IsCustom(handler) then trampoline else old(current.trampoline))
                && (result == -ERRNO_EINVAL <==> old(current.handlers)[n] >= 0x8000_0000)
                && (result != -ERRNO_EINVAL ==> result == old(current.handlers)[n])
    {
      hide Linked, TableOk, Housed, HeapOk, AddressSpaces.Valid, AddressSpaces.Snapshot, AddressSpaces.Others,
           AddressSpaces.Space, AddressSpaces.FramesHeld, UserRangeFree, SignalsOk, InfosOf, FlagsOf, Accepts;
      c := CurrentFacts();
      CurrentReady();
      InfosAt(tasks);
      OthersOf(current.directory);
      ghost var infos, w := InfosOf(tasks), spaces.Snapshot();
      result := ChangeDisposition(n, handler, trampoline, c, infos);
      SignalsChanged(infos, w, c);
    }

    method ChangeDisposition(n: int, handler: nat, trampoline: nat, ghost c: nat, ghost infos: seq<Info>)
        returns (result: int)
      requires Linked(tasks, readyQueue) && InfosOf(tasks) == infos && c < |tasks| && tasks[c] == current
      requires infos[c] == InfoOf(current)
      requires forall i :: 0 <= i < |tasks| && i != c ==> tasks[i] != current
      requires current.isUser && handler <= U32_MAX && trampoline <= U32_MAX && SignalsOk(current.SignalFields())
      modifies current`handlers, current`trampoline
      ensures Linked(tasks, readyQueue) && SignalsOk(current.SignalFields())
      ensures forall i :: 0 <= i < |tasks| && i != c ==> InfoOf(tasks[i]) == infos[i]
      ensures InfoOf(current) == infos[c].(signals := current.SignalFields())
      ensures !Accepts(n, handler, trampoline, spaces, current.directory) ==>
                result == -ERRNO_EINVAL && current.SignalFields() == old(current.SignalFields())
      ensures Accepts(n, handler, trampoline, spaces, current.directory) ==>
                && OneHandler(old(current.handlers), current.handlers, n, handler)
                && current.trampoline == (if IsCustom(handler) then trampoline else old(current.trampoline))
                && (result == -ERRNO_EINVAL <==> old(current.handlers)[n] >= 0x8000_0000)
                && (result != -ERRNO_EINVAL ==> result == old(current.handlers)[n])
    {
      hide Distinct, InfosOf, SignalsOk, Accepts, OneHandler;
      InfosAt(tasks);
      result := ServiceSignal(current, spaces, n, handler, trampoline);
      forall i | 0 <= i < |tasks| && i != c
        ensures InfoOf(tasks[i]) == infos[i]
      {
        assert infos[i] == old(InfoOf(tasks[i]));
      }
    }

    /** sigreturn by the current process. */
    method ReturnFromSignal(context: nat, frame: RegisterFrame) returns (ok: bool, ghost c: nat)
      requires Valid() && current.isUser
      modifies current`signalActive, current`activeSignal, frame
      ensures Valid() && c < |tasks| && tasks[c] == current
      ensures OnlySignals(old(InfosOf(tasks)), InfosOf(tasks), c, current.SignalFields())
      ensures ok <==> Returns(old(Now(current, frame, spaces)), context)
      ensures Now(current, frame, spaces) == Returned(old(Now(current, frame, spaces)), context)
    {
      hide Linked, TableOk, Housed, HeapOk, AddressSpaces.Valid, AddressSpaces.Snapshot, AddressSpaces.Others,
           AddressSpaces.Space, AddressSpaces.FramesHeld, UserRangeFree, SignalsOk, InfosOf, FlagsOf, Returns, Returned,
           Now, CanTakeSignals;
      c := CurrentFacts();
      CurrentReady();
      CurrentCanTake();
      InfosAt(tasks);
      OthersOf(current.directory);
      ghost var infos, w := InfosOf(tasks), spaces.Snapshot();
      ok := LeaveHandler(context, frame, c, infos);
      SignalsChanged(infos, w, c);
    }

    method LeaveHandler(context: nat, frame: RegisterFrame, ghost c: nat, ghost infos: seq<Info>) returns (ok: bool)
      requires Linked(tasks, readyQueue) && InfosOf(tasks) == infos && c < |tasks| && tasks[c] == current
      requires infos[c] == InfoOf(current)
      requires forall i :: 0 <= i < |tasks| && i != c ==> tasks[i] != current
      requires CanTakeSignals(current, spaces)
      modifies current`signalActive, current`activeSignal, frame
      ensures Linked(tasks, readyQueue) && SignalsOk(current.SignalFields())
      ensures forall i :: 0 <= i < |tasks| && i != c ==> InfoOf(tasks[i]) == infos[i]
      ensures InfoOf(current) == infos[c].(signals := current.SignalFields())
      ensures ok <==> Returns(old(Now(current, frame, spaces)), context)
      ensures Now(current, frame, spaces) == Returned(old(Now(current, frame, spaces)), context)
    {
      hide Distinct, InfosOf, SignalsOk, Returns, Returned, Now, AddressSpaces.Valid, AddressSpaces.Memory, StackMapped;
      InfosAt(tasks);
      ok := Return(current, context, frame, spaces);
      forall i | 0 <= i < |tasks| && i != c
        ensures InfoOf(tasks[i]) == infos[i]
      {
        assert infos[i] == old(InfoOf(tasks[i]));
      }
    }

    /** The delivery before every return to user mode, up to the exit it may end in. */
    method DeliverPending(frame: RegisterFrame) returns (d: Delivery, ghost n: nat, ghost c: nat)
      requires Valid() && current.isUser
      modifies current`pending, current`signalActive, current`activeSignal, frame, spaces`phys
      ensures Valid() && c < |tasks| && tasks[c] == current
      ensures OnlySignals(old(InfosOf(tasks)), InfosOf(tasks), c, current.SignalFields())
      ensures if old(MayDeliver(current.isUser, current.state, current.signalActive, frame.regs.cs))
              then IsLowest(old(current.pending), n)
              else n == 0
      ensures (Now(current, frame, spaces), d) == Delivered(old(Now(current, frame, spaces)), n)
      ensures spaces.Others(current.directory) == old(spaces.Others(current.directory))
    {
      hide Linked, TableOk, Housed, HeapOk, AddressSpaces.Valid, AddressSpaces.Snapshot, AddressSpaces.Others,
           AddressSpaces.Space, AddressSpaces.FramesHeld, UserRangeFree, SignalsOk, InfosOf, FlagsOf, Delivered, Now,
           CanTakeSignals, IsLowest, MayDeliver, AddressSpaces.Flags;
      c := CurrentFacts();
      CurrentReady();
      CurrentCanTake();
      InfosAt(tasks);
      OthersOf(current.directory);
      ghost var infos, w := InfosOf(tasks), spaces.Snapshot();
      d, n := EnterHandler(frame, c, infos);
      SignalsChanged(infos, w, c);
    }

    method EnterHandler(frame: RegisterFrame, ghost c: nat, ghost infos: seq<Info>) returns (d: Delivery, ghost n: nat)
      requires Linked(tasks, readyQueue) && InfosOf(tasks) == infos && c < |tasks| && tasks[c] == current
      requires infos[c] == InfoOf(current)
      requires forall i :: 0 <= i < |tasks| && i != c ==> tasks[i] != current
      requires CanTakeSignals(current, spaces) && Ready(spaces, current.directory)
      modifies current`pending, current`signalActive, current`activeSignal, frame, spaces`phys
      ensures Linked(tasks, readyQueue) && SignalsOk(current.SignalFields()) && Ready(spaces, current.directory)
      ensures forall i :: 0 <= i < |tasks| && i != c ==> InfoOf(tasks[i]) == infos[i]
      ensures InfoOf(current) == infos[c].(signals := current.SignalFields())
      ensures if old(MayDeliver(current.isUser, current.state, current.signalActive, frame.regs.cs))
              then IsLowest(old(current.pending), n)
              else n == 0
      ensures (Now(current, frame, spaces), d) == Delivered(old(Now(current, frame, spaces)), n)
      ensures spaces.Others(current.directory) == old(spaces.Others(current.directory))
      ensures spaces.Flags(current.directory) == old(spaces.Flags(current.directory))
    {
      hide Linked, Chained, InfosOf, SignalsOk, Delivered, Now, AddressSpaces.Valid, AddressSpaces.Memory, StackMapped,
           IsLowest, MayDeliver, AddressSpaces.Others, AddressSpaces.Flags, UserRangeFree;
      InfosAt(tasks);
      LinksChain(tasks, readyQueue);
      ghost var links := NextOf(tasks);
      d, n := Deliver(current, frame, spaces);
      assert NextOf(tasks) == links;
      LinksChain(tasks, readyQueue);
      forall i | 0 <= i < |tasks| && i != c
        ensures InfoOf(tasks[i]) == infos[i]
      {
        assert infos[i] == old(InfoOf(tasks[i]));
      }
    }

    /** task_signal_deliver as every system call ends with it: `left` is the process after the delivery; a fatal signal
        then exits with 128 plus its number, and that call never comes back. */
    method ReturnToUser(frame: RegisterFrame)
        returns (d: Delivery, ghost n: nat, ghost left: Machine, ghost c: nat, ghost p: nat)
      requires Valid()
      modifies this`current, tasks, frame, spaces`phys
      ensures Valid() && tasks == old(tasks) && c < |tasks| && tasks[c] == old(current)
      ensures if old(MayDeliver(current.isUser, current.state, current.signalActive, frame.regs.cs))
              then IsLowest(old(current.pending), n)
              else n == 0
      ensures (left, d) == Delivered(old(Now(current, frame, spaces)), n) && frame.regs == left.regs
      ensures d == Resume ==> current == old(current) && Now(current, frame, spaces) == left
      ensures d == Resume ==> OnlySignals(old(InfosOf(tasks)), InfosOf(tasks), c, left.signals)
      ensures d.Terminate? ==>
                current != old(current) && Dies(old(InfosOf(tasks)), c, left.signals, d.status, p, InfosOf(tasks))
      ensures d.Terminate? ==> old(current).state == Zombie && old(current).exitStatus == d.status
      ensures spaces.Others(old(current.directory)) == old(spaces.Others(current.directory))
    {
      hide Linked, TableOk, Housed, HeapOk, AddressSpaces.Valid, AddressSpaces.Snapshot, AddressSpaces.Others,
           AddressSpaces.Space, SignalsOk, InfosOf, Delivered, Now, IsLowest, Exited, AddressSpaces.Memory, Table.Valid,
           OnlySignals, Dies;
      d, n, p := Resume, 0, 0;
      CurrentListed();
      NowParts(frame);
      if !current.isUser {
        left := Now(current, frame, spaces);
        c := CurrentFacts();
        Undelivered(left);
        SignalsUnchanged(c);
        return;
      }
      ghost var infos := InfosOf(tasks);
      d, n, c := DeliverPending(frame);
      ghost var delivered := InfosOf(tasks);
      left := Now(current, frame, spaces);
      NowParts(frame);
      if d.Terminate? {
        ghost var c';
        c', p := Exit(d.status);
        OneCurrent(c, c');
        DiesAfter(infos, delivered, c, left.signals, d.status, p, InfosOf(tasks));
      }
    }

    lemma NowParts(frame: RegisterFrame)
      ensures Now(current, frame, spaces).signals == current.SignalFields()
      ensures Now(current, frame, spaces).regs == frame.regs
    {
      hide AddressSpaces.Memory;
    }

    lemma SignalsUnchanged(c: nat)
      requires c < |tasks| && tasks[c] == current
      ensures OnlySignals(InfosOf(tasks), InfosOf(tasks), c, current.SignalFields())
    {
      InfosAt(tasks);
    }

    lemma OneCurrent(c: nat, c': nat)
      requires Valid() && c < |tasks| && c' < |tasks| && tasks[c] == tasks[c']
      ensures c == c'
    {
      hide TableOk, Housed, AddressSpaces.Valid, AddressSpaces.Snapshot, UserRangeFree, InfosOf;
    }
  }

  lemma Undelivered(m: Machine)
    ensures Delivered(m, 0) == (m, Resume)
  {
  }

  /** The two tables differ at most in the signal fields of process c. */
  ghost predicate OnlySignals(before: seq<Info>, after: seq<Info>, c: nat, s: Signals) {
    c < |before| && after == before[c := before[c].(signals := s)]
  }

  /** The process took signal state s and exited. */
  ghost predicate Dies(before: seq<Info>, c: nat, s: Signals, status: int, p: nat, after: seq<Info>) {
    c < |before| && Exited(before[c := before[c].(signals := s)], c, status, p, after)
  }

  lemma DiesAfter(before: seq<Info>, mid: seq<Info>, c: nat, s: Signals, status: int, p: nat, after: seq<Info>)
    requires OnlySignals(before, mid, c, s) && Exited(mid, c, status, p, after)
    ensures Dies(before, c, s, status, p, after)
  {
    hide Exited;
  }

  /** Every process keeps its PID and its directory. */
  ghost predicate SameHomes(before: seq<Info>, after: seq<Info>) {
    && |after| == |before|
    && forall i :: 0 <= i < |after| ==> after[i].id == before[i].id && after[i].directory == before[i].directory
  }

  lemma SignalsKeepIds(before: seq<Info>, after: seq<Info>, c: nat, s: Signals)
    requires OnlySignals(before, after, c, s)
    ensures SameHomes(before, after)
  {
  }

  lemma ExitKeepsIds(before: seq<Info>, c: nat, status: int, p: nat, after: seq<Info>)
    requires Exited(before, c, status, p, after)
    ensures SameHomes(before, after)
  {
    hide Raised;
  }

  /** Exec changes neither who a process is nor what it waits for. */
  ghost predicate SameProcess(before: Info, after: Info) {
    && after.id == before.id && after.parentId == before.parentId && after.state == before.state
    && after.isUser == before.isUser
  }

  lemma InitialHeap()
    ensures HeapOk(EmptyHeap(USER_HEAP_START),
                   WithPages(map[], FIRST_STACK_PAGE, LAST_STACK_PAGE, true))
  {
  }

  lemma RunnableHeap(file: FileNode)
    requires RunnableFile(file)
    ensures var top := PageUp(Highest(ProgramsOf(file.bytes)));
            HeapOk(EmptyHeap(top), ProgramFlags(ProgramsOf(file.bytes)))
  {
    NewProgramHeap(ProgramsOf(file.bytes), |file.bytes|, HeaderOf(file.bytes).entry);
  }

  lemma DirectoriesApart(ps: seq<Info>, nextPid: int, c: nat)
    requires TableOk(ps, nextPid) && c < |ps|
    ensures forall i :: 0 <= i < |ps| && i != c ==> ps[i].directory != ps[c].directory
  {
    hide SignalsOk;
  }

  lemma PutBack(spaces: map<int, Space>, d: int, space: Space)
    requires d in spaces
    ensures (spaces - {d})[d := space] == spaces[d := space]
  {
  }

  /** What the search for a child finds. */
  lemma ChildAt(tasks: seq<Task>, k: nat, pid: int, parent: int, nextPid: int)
    requires TableOk(InfosOf(tasks), nextPid) && k <= |tasks| && (forall i :: 0 <= i < k ==> tasks[i].id != pid)
    requires k < |tasks| ==> tasks[k].id == pid
    requires pid > 0
    ensures k < |tasks| && tasks[k].parentId == parent ==>
              k > 0 && IsChild(InfosOf(tasks)[k], pid, parent) && HasChild(InfosOf(tasks), pid, parent)
    ensures k == |tasks| || tasks[k].parentId != parent ==> !HasChild(InfosOf(tasks), pid, parent)
    ensures k < |tasks| ==> InfosOf(tasks)[k] == InfoOf(tasks[k])
  {
    hide SignalsOk;
    InfosAt(tasks);
    hide InfosOf;
    forall i | 0 <= i < |tasks| && IsChild(InfosOf(tasks)[i], pid, parent) ensures i == k && k > 0 {
      assert InfosOf(tasks)[i] == InfoOf(tasks[i]);
      if k < |tasks| { assert InfosOf(tasks)[k] == InfoOf(tasks[k]); }
    }
    if k < |tasks| { assert InfosOf(tasks)[k] == InfoOf(tasks[k]); }
  }

  lemma GoneFor(infos: seq<Info>, nextPid: int, k: nat, pid: int)
    requires TableOk(infos, nextPid) && 0 < k < |infos| && infos[k].id == pid
    ensures Gone(infos[..k] + infos[k + 1..], nextPid, pid)
  {
    hide SignalsOk;
    TableRemoved(infos, nextPid, k);
  }

  lemma WithoutDirectory(w: World, w': World, d: int)
    requires w'.spaces.Keys == w.spaces.Keys - {d} && forall e :: e in w'.spaces ==> w'.spaces[e] == w.spaces[e]
    ensures w'.spaces == w.spaces - {d}
  {
    assert (w.spaces - {d}).Keys == w'.spaces.Keys;
    assert forall e :: e in w'.spaces ==> (w.spaces - {d})[e] == w'.spaces[e];
  }

  /** The table after process c exits: a zombie with its status, and SIGCHLD sent to its parent, entry p. */
  ghost predicate Exited(before: seq<Info>, c: nat, status: int, p: nat, after: seq<Info>) {
    && c < |before|
    && var dead := before[c := Dead(before[c], status)];
    && IsTask(dead, p, before[c].parentId)
    && after == if before[c].parentId > 0 then Notified(dead, p, SIGNAL_CHLD) else dead
  }

  /** Only the exiting process and its parent change; the parent gets SIGCHLD when it catches that signal, and is
      otherwise left as it was but for waking up. */
  lemma ExitedMeans(ps: seq<Info>, nextPid: int, c: nat, status: int, p: nat, after: seq<Info>)
    requires TableOk(ps, nextPid) && Exited(ps, c, status, p, after) && 0 < c
    ensures p != c && IsTask(ps, p, ps[c].parentId) && |after| == |ps|
    ensures forall i :: 0 <= i < |ps| && i != c && i != p ==> after[i] == ps[i]
    ensures after[c] == ps[c].(state := Zombie, exitStatus := status)
    ensures p < |ps| ==>
              && |ps[p].signals.handlers| == 32
              && after[p] ==
                   ps[p].(state := after[p].state, signals := ps[p].signals.(pending := after[p].signals.pending))
              && PendingSet(after[p].signals.pending) ==
                   PendingSet(ps[p].signals.pending) +
                   (if p != 0 && ps[p].state != Zombie && ps[p].signals.handlers[17] >= 2 then {17} else {})
              && after[p].state == if p != 0 && ps[p].state == WaitingInput then Runnable else ps[p].state
  {
    hide TableOk, PendingSet, Notified, SignalsOk;
    var dead := ps[c := Dead(ps[c], status)];
    EntryFacts(ps, nextPid, c);
    TableDead(ps, nextPid, c, status);
    NotifiedMeans(dead, nextPid, p, 17);
    if p < |ps| { EntryFacts(ps, nextPid, p); }
    assert dead[c].id == ps[c].id;
    assert forall i :: 0 <= i < |ps| ==> dead[i].id == ps[i].id;
  }

  lemma DeadHoused(ps: seq<Info>, c: nat, status: int, w: World, kernel: int)
    requires Housed(ps, w, kernel) && c < |ps|
    ensures Housed(ps[c := Dead(ps[c], status)], w, kernel)
  {
    HousedSame(ps, ps[c := Dead(ps[c], status)], w, kernel);
  }

  lemma StillDead(ps: seq<Info>, k: nat, n: int, c: nat, status: int)
    requires c < |ps| && ps[c].state == Zombie && ps[c].exitStatus == status
    ensures Notified(ps, k, n)[c].state == Zombie && Notified(ps, k, n)[c].exitStatus == status
  {
  }

  ghost function FirstTask(ps: seq<Info>, pid: int): (k: nat)
    ensures IsTask(ps, k, pid)
  {
    if exists i :: 0 <= i < |ps| && ps[i].id == pid then
      var i :| 0 <= i < |ps| && ps[i].id == pid; i
    else |ps|
  }

  lemma ParentFacts(ps: seq<Info>, w: World, nextPid: int, kernel: int, c: nat)
    requires TableOk(ps, nextPid) && Housed(ps, w, kernel) && c < |ps|
    ensures ps[c].directory in w.spaces && ps[c].directory != kernel && SignalsOk(ps[c].signals)
    ensures 0 <= ps[c].id < nextPid
    ensures ps[c].isUser ==> HeapOk(ps[c].heap, FlagsOf(w.spaces[ps[c].directory]))
  {
    hide HeapOk, SignalsOk;
  }

  lemma HeadIsKernel(ps: seq<Info>, nextPid: int)
    requires TableOk(ps, nextPid)
    ensures |ps| > 0 && !ps[0].isUser
  {
    hide SignalsOk;
  }

  lemma RemovedAt(ts: seq<Task>, k: nat)
    requires 0 < k < |ts| && Distinct(ts)
    ensures var rest := ts[..k] + ts[k + 1..];
            && (forall i :: 0 <= i < |rest| ==> rest[i] == ts[if i < k then i else i + 1])
            && (forall t :: t in rest ==> t in ts && t != ts[k])
            && (forall i :: 0 <= i < |ts| && i != k ==> ts[i] in rest)
            && Distinct(rest)
  {
    var rest := ts[..k] + ts[k + 1..];
    forall i | 0 <= i < |ts| && i != k ensures ts[i] in rest {
      assert rest[if i < k then i else i - 1] == ts[i];
    }
  }

  lemma InfosAt(tasks: seq<Task>)
    ensures forall i :: 0 <= i < |tasks| ==> InfosOf(tasks)[i] == InfoOf(tasks[i])
  {
  }

  lemma TaskSignals(ps: seq<Info>, nextPid: int, k: nat)
    requires TableOk(ps, nextPid) && k < |ps|
    ensures SignalsOk(ps[k].signals) && |ps[k].signals.handlers| == SIGNAL_COUNT
  {
    hide Has;
  }

  /** One entry of the table differs from what it was. */
  lemma InfosPut(tasks: seq<Task>, infos: seq<Info>, k: nat)
    requires k < |tasks| == |infos| && forall i :: 0 <= i < |tasks| && i != k ==> InfoOf(tasks[i]) == infos[i]
    ensures InfosOf(tasks) == infos[k := InfoOf(tasks[k])]
  {
    hide InfoOf;
  }

  lemma InfosAppended(before: seq<Task>, infos: seq<Info>, t: Task)
    requires |before| == |infos| && forall i :: 0 <= i < |before| ==> InfoOf(before[i]) == infos[i]
    ensures InfosOf(before + [t]) == infos + [InfoOf(t)]
  {
    hide InfoOf;
  }

  lemma Lengthened(before: seq<Task>, head: Task, t: Task)
    requires |before| > 0 && before[0] == head && Distinct(before) && t !in before && t.next == null
    requires forall i :: 0 <= i < |before| - 1 ==> before[i].next == Successor(before, i)
    requires before[|before| - 1].next == t
    ensures Linked(before + [t], head)
  {
    var ts := before + [t];
    forall i | 0 <= i < |ts| ensures ts[i].next == Successor(ts, i) {
      if i < |before| - 1 { assert before[i].next == Successor(before, i); }
    }
  }

  lemma InfosRemoved(before: seq<Task>, infos: seq<Info>, k: nat)
    requires k < |before| == |infos| && forall i :: 0 <= i < |before| ==> InfoOf(before[i]) == infos[i]
    ensures InfosOf(before[..k] + before[k + 1..]) == infos[..k] + infos[k + 1..]
  {
    hide InfoOf;
    var rest, left := before[..k] + before[k + 1..], infos[..k] + infos[k + 1..];
    forall i | 0 <= i < |rest| ensures InfosOf(rest)[i] == left[i] {
      var j := if i < k then i else i + 1;
      assert rest[i] == before[j] && left[i] == infos[j];
    }
  }

  /** The list without task k, once the task before it points past it. */
  lemma Relinked(before: seq<Task>, head: Task, k: nat)
    requires 0 < k < |before| && before[0] == head && Distinct(before)
    requires forall i :: 0 <= i < |before| && i != k - 1 ==> before[i].next == Successor(before, i)
    requires before[k - 1].next == Successor(before, k)
    ensures Linked(before[..k] + before[k + 1..], head)
  {
    RemovedAt(before, k);
    var rest := before[..k] + before[k + 1..];
    forall i | 0 <= i < |rest| ensures rest[i].next == Successor(rest, i) {
      var j := if i < k then i else i + 1;
      assert rest[i] == before[j];
    }
  }

  /** What the scheduler reads of the list; its head is always runnable. */
  lemma RunStates(tasks: seq<Task>, nextPid: int)
    requires TableOk(InfosOf(tasks), nextPid)
    ensures var run := RunnableOf(InfosOf(tasks));
            |run| == |tasks| > 0 && run[0] && forall i :: 0 <= i < |tasks| ==> run[i] == (tasks[i].state == Runnable)
  {
    forall i | 0 <= i < |tasks| ensures InfosOf(tasks)[i] == InfoOf(tasks[i]) {
    }
    hide SignalsOk;
  }

  lemma AroundHead(n: nat, c: nat)
    requires c < n
    ensures Around(n, c, n - c) == 0
  {
  }

  lemma AroundFirst(n: nat, c: nat)
    requires c < n
    ensures Around(n, c, 1) == if c + 1 == n then 0 else c + 1
  {
  }

  lemma AroundNext(n: nat, c: nat, k: nat)
    requires c < n && k < n - c
    ensures Around(n, c, k + 1) == if Around(n, c, k) + 1 == n then 0 else Around(n, c, k) + 1
  {
  }

  lemma OnlyTask(tasks: seq<Task>, head: Task)
    requires Linked(tasks, head) && head.next == null
    ensures |tasks| == 1
  {
    assert tasks[0].next == Successor(tasks, 0);
  }
}
