/** src/task.h and src/isr.h: one process, and the interrupt frame its return to user mode is read from. */
module Processes {
  import opened Memory
  import opened Frames

  const USER_ADDRESS_MIN := 0x0040_0000
  const USER_HEAP_LIMIT := 0xBFF0_0000
  const USER_STACK_TOP := 0xC000_0000
  const TASK_STACK_SIZE := 8192
  const STACK_BOTTOM := USER_STACK_TOP - TASK_STACK_SIZE

  const SIGNAL_COUNT := 32
  const SIGNAL_KILL := 9
  const SIGNAL_CHLD := 17
  const SIGNAL_DEFAULT := 0
  const SIGNAL_IGNORE := 1

  datatype TaskState = Runnable | WaitingInput | Zombie

  datatype Registers = Registers(ds: nat, edi: nat, esi: nat, ebp: nat, esp: nat, ebx: nat, edx: nat, ecx: nat,
                                 eax: nat, intNo: nat, errCode: nat, eip: nat, cs: nat, eflags: nat, useresp: nat,
                                 ss: nat)

  const REGISTER_WORDS := 16

  /** The sixteen words of the frame, in memory order. */
  function WordsOf(r: Registers): (words: seq<nat>)
    ensures |words| == REGISTER_WORDS
  {
    [r.ds, r.edi, r.esi, r.ebp, r.esp, r.ebx, r.edx, r.ecx, r.eax,
     r.intNo, r.errCode, r.eip, r.cs, r.eflags, r.useresp, r.ss]
  }

  function RegistersOf(w: seq<nat>): Registers
    requires |w| == REGISTER_WORDS
  {
    Registers(w[0], w[1], w[2], w[3], w[4], w[5], w[6], w[7], w[8], w[9], w[10], w[11], w[12], w[13], w[14], w[15])
  }

  ghost predicate Bounded(r: Registers) {
    forall i :: 0 <= i < REGISTER_WORDS ==> WordsOf(r)[i] <= U32_MAX
  }

  /** The signal fields of a task. */
  datatype Signals = Signals(handlers: seq<nat>, pending: Word, trampoline: nat, active: bool, activeNumber: nat)

  /** The interrupt frame on the kernel stack. */
  class RegisterFrame {
    var regs: Registers

    constructor (r: Registers)
      ensures regs == r
    {
      regs := r;
    }
  }

  class Task {
    var id: int
    var parentId: int
    var state: TaskState
    var exitStatus: int
    var directory: int
    var isUser: bool

    var heapStart: nat
    var heapBreak: nat
    var heapMappedEnd: nat
    var heapLimit: nat
    /** The highest break since the program started. */
    ghost var heapHighest: nat

    var handlers: seq<nat>
    var pending: Word
    var trampoline: nat
    var signalActive: bool
    var activeSignal: nat

    var next: Task?

    /** A zeroed task_t. */
    constructor ()
      ensures id == 0 && parentId == 0 && state == Runnable && exitStatus == 0 && directory == 0 && !isUser
      ensures heapStart == heapBreak == heapMappedEnd == heapLimit == heapHighest == 0 && next == null
      ensures SignalFields() == Signals(seq(SIGNAL_COUNT, _ => 0), 0, 0, false, 0)
    {
      id, parentId, state, exitStatus, directory, isUser := 0, 0, Runnable, 0, 0, false;
      heapStart, heapBreak, heapMappedEnd, heapLimit, heapHighest := 0, 0, 0, 0, 0;
      handlers, pending, trampoline, signalActive, activeSignal := seq(SIGNAL_COUNT, _ => 0), 0, 0, false, 0;
      next := null;
    }

    /** The fields fork copies or sets; the signal fields are still zero. */
    constructor ChildOf(parent: Task, pid: int, d: int)
      ensures id == pid && parentId == parent.id && state == Runnable && exitStatus == 0 && directory == d
      ensures isUser == parent.isUser
      ensures heapStart == parent.heapStart && heapBreak == parent.heapBreak
      ensures heapMappedEnd == parent.heapMappedEnd && heapLimit == parent.heapLimit && next == null
      ensures heapHighest == parent.heapHighest
    {
      id, parentId, state, exitStatus, directory, isUser := pid, parent.id, Runnable, 0, d, parent.isUser;
      heapStart, heapBreak := parent.heapStart, parent.heapBreak;
      heapMappedEnd, heapLimit, heapHighest := parent.heapMappedEnd, parent.heapLimit, parent.heapHighest;
      handlers, pending, trampoline, signalActive, activeSignal := seq(SIGNAL_COUNT, _ => 0), 0, 0, false, 0;
      next := null;
    }

    /** The fields create_initial_user_process sets, the rest zero. */
    constructor Initial(pid: int, d: int, heap: nat, limit: nat)
      ensures id == pid && parentId == 0 && state == Runnable && exitStatus == 0 && directory == d && isUser
      ensures heapStart == heapBreak == heapMappedEnd == heapHighest == heap && heapLimit == limit && next == null
      ensures SignalFields() == Signals(seq(SIGNAL_COUNT, _ => 0), 0, 0, false, 0)
    {
      id, parentId, state, exitStatus, directory, isUser := pid, 0, Runnable, 0, d, true;
      heapStart, heapBreak, heapMappedEnd, heapLimit, heapHighest := heap, heap, heap, limit, heap;
      handlers, pending, trampoline, signalActive, activeSignal := seq(SIGNAL_COUNT, _ => 0), 0, 0, false, 0;
      next := null;
    }

    ghost function SignalFields(): Signals
      reads this
    {
      Signals(handlers, pending, trampoline, signalActive, activeSignal)
    }
  }
}
