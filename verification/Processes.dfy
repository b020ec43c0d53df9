/** Processes and threads of the HLE kernel. */
module Processes {
  import opened Bits

  type ProcessId = int
  type ThreadId = int

  datatype ThreadState = Created | Ready | Running | Waiting | Terminated

  /** X0 to X30. */
  type Registers = s: seq<u64> | |s| == 31 witness seq(31, _ => 0)

  datatype CpuContext = CpuContext(x: Registers, sp: u64, pc: u64, pstate: u32, tpidr: u64)

  function BlankContext(): CpuContext { CpuContext(seq(31, _ => 0), 0, 0, 0, 0) }

  datatype Thread = Thread(
    id: ThreadId, name: string, state: ThreadState, context: CpuContext, idealCore: int, priority: u32,
    ownerPid: ProcessId)

  function NewThread(id: ThreadId, ownerPid: ProcessId, entry: u64, stackTop: u64): Thread {
    Thread(id, "", Created, BlankContext().(pc := entry, sp := stackTop), -1, 44, ownerPid)
  }

  function MainThread(process: string, id: ThreadId, ownerPid: ProcessId, entry: u64, stackTop: u64): Thread {
    NewThread(id, ownerPid, entry, stackTop).(name := process + "-main", state := Ready)
  }

  /** A thread that is ready to run from an entry point on its own stack, with all registers zero. */
  ghost predicate StartsAt(t: Thread, entry: u64, stackTop: u64, priority: u32) {
    && t.state == Ready && t.priority == priority && t.idealCore == -1
    && t.context.pc == entry && t.context.sp == stackTop && t.context.pstate == 0 && t.context.tpidr == 0
    && forall r :: 0 <= r < 31 ==> t.context.x[r] == 0
  }

  /** The scheduler picks threads in these states. */
  predicate Schedulable(t: Thread) { t.state == Ready || t.state == Running }

  predicate ThreadFits(t: ThreadId, thread: Thread, pid: ProcessId, next: ThreadId) {
    thread.id == t && thread.ownerPid == pid && 1 <= t < next && Schedulable(thread)
  }

  /** Keys agree with the threads they hold, no thread is in a state the scheduler skips, and every
      thread ID is below the counter. */
  ghost predicate ThreadsFit(threads: map<ThreadId, Thread>, pid: ProcessId, next: ThreadId) {
    forall t :: t in threads ==> ThreadFits(t, threads[t], pid, next)
  }

  datatype MemoryState = Free | CodeStatic | CodeMutable | Heap | SharedMemory | MappedMemory | Stack | ThreadLocal

  datatype MemoryRegion = MemoryRegion(base: u64, size: u64, perm: u32, state: MemoryState)

  class Process {
    const pid: ProcessId
    const name: string
    const codeBase: u64
    const codeSize: u64
    var threads: map<ThreadId, Thread>
    var memoryMap: seq<MemoryRegion>
    var nextThreadId: u64

    ghost predicate Valid()
      reads this
    {
      1 <= nextThreadId && ThreadsFit(threads, pid, nextThreadId)
    }

    constructor (pid: ProcessId, name: string, codeBase: u64, codeSize: u64)
      ensures Valid() && this.pid == pid && this.name == name && this.codeBase == codeBase && this.codeSize == codeSize
      ensures threads == map[] && memoryMap == [] && nextThreadId == 1
    {
      this.pid, this.name, this.codeBase, this.codeSize := pid, name, codeBase, codeSize;
      threads, memoryMap, nextThreadId := map[], [], 1;
    }

    method CreateMainThread(entry: u64, stackTop: u64) returns (tid: ThreadId)
      requires Valid() && nextThreadId < 0xFFFF_FFFF_FFFF_FFFF
      modifies `threads, `nextThreadId
      ensures Valid() && tid == old(nextThreadId) && tid !in old(threads) && nextThreadId == tid + 1
      ensures threads == old(threads)[tid := MainThread(name, tid, pid, entry, stackTop)]
      ensures StartsAt(threads[tid], entry, stackTop, 44) && threads[tid].name == name + "-main"
    {
      tid := nextThreadId;
      nextThreadId := nextThreadId + 1;
      var thread := NewThread(tid, pid, entry, stackTop);
      thread := thread.(name := name + "-main");
      thread := thread.(state := Ready);
      threads := threads[tid := thread];
    }

    method CreateThread(entry: u64, stackTop: u64, priority: u32) returns (tid: ThreadId)
      requires Valid() && nextThreadId < 0xFFFF_FFFF_FFFF_FFFF
      modifies `threads, `nextThreadId
      ensures Valid() && tid == old(nextThreadId) && tid !in old(threads) && nextThreadId == tid + 1
      ensures threads ==
        old(threads)[tid := NewThread(tid, pid, entry, stackTop).(priority := priority, state := Ready)]
      ensures StartsAt(threads[tid], entry, stackTop, priority) && threads[tid].name == ""
    {
      tid := nextThreadId;
      nextThreadId := nextThreadId + 1;
      var thread := NewThread(tid, pid, entry, stackTop);
      thread := thread.(priority := priority);
      thread := thread.(state := Ready);
      threads := threads[tid := thread];
    }

    /** Overwrite a thread by one that fits its place. */
    method Update(t: ThreadId, thread: Thread)
      requires Valid() && t in threads && ThreadFits(t, thread, pid, nextThreadId)
      modifies `threads
      ensures Valid() && threads == old(threads)[t := thread]
    {
      threads := threads[t := thread];
    }

    method MapMemory(base: u64, size: u64, perm: u32, state: MemoryState)
      modifies `memoryMap
      ensures memoryMap == old(memoryMap) + [MemoryRegion(base, size, perm, state)]
    {
      memoryMap := memoryMap + [MemoryRegion(base, size, perm, state)];
    }
  }
}
