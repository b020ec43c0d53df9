/** The HLE kernel: processes, thread handles, the timeslice and the code loader. */
module Kernel {
  import opened Bits
  import opened Wrappers
  import opened Processes
  import opened Scheduler
  import opened CodeLoader
  import opened CpuManager

  type Handle = int

  const FIRST_HANDLE := 0x1000

  // -- Handles -------------------------------------------------------------------------------

  type Threads = map<Slot, Thread>

  /** A handle has been given out, names an existing thread, and is that thread's only one. */
  ghost predicate HandlesFit(handles: map<Handle, Slot>, next: u32, threads: Threads) {
    && FIRST_HANDLE <= next
    && (forall h :: h in handles ==> FIRST_HANDLE <= h < next && handles[h] in threads)
    && (forall h, g :: h in handles && g in handles && h != g ==> handles[h] != handles[g])
  }

  ghost predicate Unclaimed(handles: map<Handle, Slot>, slot: Slot) { forall h :: h in handles ==> handles[h] != slot }

  lemma HandleAdded(handles: map<Handle, Slot>, next: u32, threads: Threads, slot: Slot)
    requires HandlesFit(handles, next, threads) && next < 0xFFFF_FFFF
    requires slot in threads && Unclaimed(handles, slot)
    ensures HandlesFit(handles[next := slot], next + 1, threads)
  {
  }

  /** A filled core slot holds an existing thread, different from the others. */
  ghost predicate SlotsFit(slots: seq<Slot>, threads: Threads) {
    Distinct(slots) && forall i :: 0 <= i < |slots| ==> slots[i] in threads
  }

  /** One more thread leaves what was said about the old ones as it was. */
  lemma ThreadAdded(handles: map<Handle, Slot>, next: u32, slots: seq<Slot>, threads: Threads, s: Slot, t: Thread)
    requires HandlesFit(handles, next, threads) && SlotsFit(slots, threads)
    ensures HandlesFit(handles, next, threads[s := t]) && SlotsFit(slots, threads[s := t])
    ensures s !in threads ==> Unclaimed(handles, s)
  {
  }

  lemma SameKeys(handles: map<Handle, Slot>, next: u32, slots: seq<Slot>, before: Threads, after: Threads)
    requires HandlesFit(handles, next, before) && SlotsFit(slots, before) && before.Keys == after.Keys
    ensures HandlesFit(handles, next, after) && SlotsFit(slots, after)
  {
  }

  // -- Enumerations ------------------------------------------------------------------------

  /** Any key of a map: hash maps promise no order. */
  method Pick<T(==)>(s: set<T>) returns (x: T)
    requires s != {}
    ensures x in s
  {
    x :| x in s;
  }

  /** Slots that are all different are no more than the set they come from. */
  lemma {:induction false} DistinctFit(slots: seq<Slot>, s: set<Slot>)
    requires Distinct(slots) && forall i :: 0 <= i < |slots| ==> slots[i] in s
    ensures |slots| <= |s|
    ensures (forall x :: x in s ==> x in slots) ==> |slots| == |s|
  {
    if slots != [] {
      var last := |slots| - 1;
      var rest := s - {slots[last]};
      DistinctFit(slots[..last], rest);
    }
  }

  /** The first eight of the threads that are ready. */
  function Taken(order: seq<Slot>): (r: seq<Slot>)
    ensures |r| <= CORE_COUNT && r <= order
  {
    if |order| <= CORE_COUNT then order else order[..CORE_COUNT]
  }

  /** The slots are as many of the threads as there are cores for, and all of them if that is enough. */
  ghost predicate Fills(slots: seq<Slot>, keys: set<Slot>) {
    if |keys| <= 8 then |slots| == |keys| && forall s :: s in keys ==> s in slots else |slots| == 8
  }

  lemma TakenFills(ready: seq<Slot>, threads: Threads)
    requires SlotsFit(ready, threads) && |ready| == |threads|
    ensures Fills(Taken(ready), threads.Keys)
  {
    forall s | s in threads ensures s in ready {
      if s !in ready {
        DistinctFit(ready, threads.Keys - {s});
      }
    }
  }

  // -- The kernel --------------------------------------------------------------------------

  class Kernel {
    const cpu: CpuManager
    const runningOn: array<Option<Slot>>
    var processes: map<ProcessId, Process>
    var nextPid: u64
    var handleTable: map<Handle, Slot>
    var nextHandle: u32
    var namedPorts: map<string, Handle>

    /** Every thread of every process. */
    ghost var threads: Threads

    /** The slots that fill the first cores. */
    ghost var running: seq<Slot>

    ghost function Snapshot(): Machine
      reads this, cpu
    {
      Machine(threads, cpu.cores, cpu.memory)
    }

    /** A process is found under its own ID, which has been given out. */
    ghost predicate ProcessesValid()
      reads this, processes.Values
    {
      1 <= nextPid && forall p :: p in processes ==> processes[p].pid == p && 1 <= p < nextPid && processes[p].Valid()
    }

    ghost predicate Exists(slot: Slot)
      reads this, processes.Values
    {
      slot.pid in processes && slot.tid in processes[slot.pid].threads
    }

    /** `threads` holds the threads of all processes. */
    ghost predicate ThreadsAgree()
      reads this, processes.Values
    {
      && (forall s: Slot :: s in threads ==> Exists(s) && threads[s] == processes[s.pid].threads[s.tid])
      && (forall p, t :: p in processes && t in processes[p].threads ==> Slot(p, t) in threads)
    }

    /** The same when process `p` has the threads `own`. */
    ghost predicate AgreeBut(p: ProcessId, own: map<ThreadId, Thread>)
      reads this, processes.Values
    {
      && p in processes
      && (forall s: Slot :: s in threads && s.pid == p ==> s.tid in own && threads[s] == own[s.tid])
      && (forall s: Slot :: s in threads && s.pid != p ==> Exists(s) && threads[s] == processes[s.pid].threads[s.tid])
      && (forall t :: t in own ==> Slot(p, t) in threads)
      && (forall q, t :: q in processes && q != p && t in processes[q].threads ==> Slot(q, t) in threads)
    }

    /** The filled core slots are a prefix, and hold different existing threads. */
    ghost predicate RunningValid()
      reads this, runningOn
    {
      Filled(running) && SlotsFit(running, threads)
    }

    /** Exactly the first cores are filled, with `slots`. */
    ghost predicate Filled(slots: seq<Slot>)
      reads this, runningOn
    {
      && runningOn.Length == CORE_COUNT && |slots| <= CORE_COUNT
      && forall i :: 0 <= i < CORE_COUNT ==> runningOn[i] == if i < |slots| then Some(slots[i]) else None
    }

    ghost predicate Valid()
      reads this, cpu, runningOn, processes.Values
    {
      && ProcessesValid() && ThreadsAgree() && HandlesFit(handleTable, nextHandle, threads)
      && cpu.Valid() && RunningValid()
    }

    constructor (exec: Exec, cores: seq<Core>)
      requires |cores| == CORE_COUNT && KeepsSize(exec)
      ensures Valid() && fresh(cpu) && fresh(runningOn) && cpu.exec == exec && cpu.cores == cores
      ensures processes == map[] && handleTable == map[] && namedPorts == map[] && threads == map[] && running == []
      ensures nextPid == 1 && nextHandle == 0x1000
    {
      cpu := new CpuManager(exec, cores);
      processes, nextPid := map[], 1;
      handleTable, nextHandle := map[], FIRST_HANDLE;
      namedPorts, running, threads := map[], [], map[];
      runningOn := new Option<Slot>[CORE_COUNT](_ => None);
    }

    // -- Processes, threads and handles ------------------------------------------------------

    method CreateProcess(name: string, codeBase: u64, codeSize: u64) returns (pid: ProcessId)
      requires Valid() && nextPid < 0xFFFF_FFFF_FFFF_FFFF
      modifies `processes, `nextPid
      ensures Valid() && pid == old(nextPid) && nextPid == pid + 1 && pid !in old(processes)
      ensures pid in processes && processes == old(processes)[pid := processes[pid]]
      ensures fresh(processes[pid]) && processes[pid].name == name
      ensures processes[pid].codeBase == codeBase && processes[pid].codeSize == codeSize
      ensures processes[pid].threads == map[] && processes[pid].memoryMap == [] && processes[pid].nextThreadId == 1
    {
      pid := nextPid;
      nextPid := nextPid + 1;
      var process := new Process(pid, name, codeBase, codeSize);
      processes := processes[pid := process];
    }

    /** Give the thread a handle. */
    method AllocHandle(pid: ProcessId, tid: ThreadId) returns (handle: Handle)
      requires HandlesFit(handleTable, nextHandle, threads) && nextHandle < 0xFFFF_FFFF
      requires Slot(pid, tid) in threads && Unclaimed(handleTable, Slot(pid, tid))
      modifies `handleTable, `nextHandle
      ensures HandlesFit(handleTable, nextHandle, threads)
      ensures handle == old(nextHandle) && handle !in old(handleTable) && nextHandle == handle + 1
      ensures handleTable == old(handleTable)[handle := Slot(pid, tid)]
    {
      HandleAdded(handleTable, nextHandle, threads, Slot(pid, tid));
      handle := nextHandle;
      nextHandle := nextHandle + 1;
      handleTable := handleTable[handle := Slot(pid, tid)];
    }

    /** The thread table after an entry of one process was written. */
    ghost method Record(p: ProcessId, t: ThreadId, own: map<ThreadId, Thread>)
      requires AgreeBut(p, own) && t in processes[p].threads
      requires processes[p].threads == own[t := processes[p].threads[t]]
      modifies `threads
      ensures ThreadsAgree() && threads == old(threads)[Slot(p, t) := processes[p].threads[t]]
    {
      threads := threads[Slot(p, t) := processes[p].threads[t]];
    }

    /** The process part of creating a main thread. */
    method StartMainThread(process: Process, entry: u64, stackTop: u64) returns (tid: ThreadId)
      requires ProcessesValid() && ThreadsAgree() && process.pid in processes && processes[process.pid] == process
      requires process.nextThreadId < 0xFFFF_FFFF_FFFF_FFFF
      modifies process`threads, process`nextThreadId, `threads
      ensures ProcessesValid() && ThreadsAgree() && Slot(process.pid, tid) !in old(threads)
      ensures tid == old(process.nextThreadId) && process.nextThreadId == tid + 1
      ensures threads ==
        old(threads)[Slot(process.pid, tid) := MainThread(process.name, tid, process.pid, entry, stackTop)]
    {
      ghost var own := process.threads;
      tid := process.CreateMainThread(entry, stackTop);
      Record(process.pid, tid, own);
    }

    method CreateMainThread(pid: ProcessId, entry: u64, stackTop: u64) returns (r: Option<(Handle, ThreadId)>)
      requires Valid() && nextHandle < 0xFFFF_FFFF
      requires pid in processes ==> processes[pid].nextThreadId < 0xFFFF_FFFF_FFFF_FFFF
      modifies `handleTable, `nextHandle, `threads, processes.Values`threads, processes.Values`nextThreadId
      ensures Valid() && (r.None? <==> pid !in processes)
      ensures processes == old(processes) && nextPid == old(nextPid)
      ensures unchanged(`namedPorts)
      ensures r.None? ==> threads == old(threads) && handleTable == old(handleTable)
      ensures r.None? ==> nextHandle == old(nextHandle)
      ensures forall p :: p in processes && p != pid ==> processes[p].nextThreadId == old(processes[p].nextThreadId)
      ensures r.Some? ==> r.value == (old(nextHandle), old(processes[pid].nextThreadId))
      ensures r.Some? ==> nextHandle == old(nextHandle) + 1 && processes[pid].nextThreadId == r.value.1 + 1
      ensures r.Some? ==> handleTable == old(handleTable)[r.value.0 := Slot(pid, r.value.1)]
      ensures r.Some? ==> Slot(pid, r.value.1) !in old(threads)
      ensures r.Some? ==>
        threads ==
          old(threads)[Slot(pid, r.value.1) := MainThread(processes[pid].name, r.value.1, pid, entry, stackTop)]
    {
      if pid !in processes {
        return None;
      }
      var tid := StartMainThread(processes[pid], entry, stackTop);
      ThreadAdded(handleTable, nextHandle, running, old(threads), Slot(pid, tid), threads[Slot(pid, tid)]);
      var handle := AllocHandle(pid, tid);
      r := Some((handle, tid));
    }

    /** An additional thread of a process: it gets no handle. */
    method CreateThread(process: Process, entry: u64, stackTop: u64, priority: u32) returns (tid: ThreadId)
      requires Valid() && process.pid in processes && processes[process.pid] == process
      requires process.nextThreadId < 0xFFFF_FFFF_FFFF_FFFF
      modifies process`threads, process`nextThreadId, `threads
      ensures Valid() && Slot(process.pid, tid) !in old(threads)
      ensures tid == old(process.nextThreadId) && process.nextThreadId == tid + 1
      ensures threads == old(threads)[Slot(process.pid, tid) :=
        NewThread(tid, process.pid, entry, stackTop).(priority := priority, state := Ready)]
    {
      ghost var own := process.threads;
      tid := process.CreateThread(entry, stackTop, priority);
      Record(process.pid, tid, own);
      ThreadAdded(handleTable, nextHandle, running, old(threads), Slot(process.pid, tid), process.threads[tid]);
    }

    /** Unknown processes are ignored. */
    method MapProcessMemory(pid: ProcessId, base: u64, size: u64, perm: u32, state: MemoryState)
      requires Valid()
      modifies processes.Values`memoryMap
      ensures Valid() && threads == old(threads)
      ensures forall p :: p in processes && p != pid ==> processes[p].memoryMap == old(processes[p].memoryMap)
      ensures pid in processes ==>
        processes[pid].memoryMap == old(processes[pid].memoryMap) + [MemoryRegion(base, size, perm, state)]
    {
      if pid in processes {
        processes[pid].MapMemory(base, size, perm, state);
      }
    }

    method RegisterPort(name: string, handle: Handle)
      requires Valid()
      modifies `namedPorts
      ensures Valid() && namedPorts == old(namedPorts)[name := handle]
    {
      namedPorts := namedPorts[name := handle];
    }

    method ConnectToPort(name: string) returns (r: Option<Handle>)
      ensures r == if name in namedPorts then Some(namedPorts[name]) else None
    {
      r := if name in namedPorts then Some(namedPorts[name]) else None;
    }

    // -- Scheduling ---------------------------------------------------------------------------

    /** A thread of the process that the scheduler picks. */
    static ghost predicate Runs(process: Process, s: Slot)
      reads process
    {
      s.pid == process.pid && s.tid in process.threads && Schedulable(process.threads[s.tid])
    }

    ghost predicate Runnable(s: Slot)
      reads this, processes.Values
    {
      s.pid in processes && Runs(processes[s.pid], s)
    }

    /** The schedulable threads, each once, in whatever order the maps are enumerated: all the threads. */
    method CollectReady() returns (ready: seq<Slot>)
      requires ProcessesValid() && ThreadsAgree()
      ensures forall s: Slot :: s in ready <==> Runnable(s)
      ensures SlotsFit(ready, threads) && |ready| == |threads|
    {
      ready := [];
      var pids := processes.Keys;
      while pids != {}
        invariant pids <= processes.Keys && Distinct(ready)
        invariant forall s: Slot :: s in ready <==> Runnable(s) && s.pid !in pids
        decreases |pids|
      {
        var p := Pick(pids);
        pids := pids - {p};
        ready := CollectFrom(processes[p], ready);
      }
      AllReady(ready);
    }

    static method CollectFrom(process: Process, before: seq<Slot>) returns (ready: seq<Slot>)
      requires process.Valid() && Distinct(before) && forall s :: s in before ==> s.pid != process.pid
      ensures Distinct(ready) && forall s: Slot :: s in ready <==> s in before || Runs(process, s)
    {
      ready := before;
      var tids := process.threads.Keys;
      while tids != {}
        invariant tids <= process.threads.Keys && Distinct(ready)
        invariant forall s: Slot :: s in ready <==> s in before || (Runs(process, s) && s.tid !in tids)
        decreases |tids|
      {
        var t := Pick(tids);
        tids := tids - {t};
        var thread := process.threads[t];
        if thread.state == Ready || thread.state == Running {
          ready := ready + [Slot(process.pid, thread.id)];
        }
      }
    }

    /** The schedulable threads are all the threads there are. */
    lemma AllReady(ready: seq<Slot>)
      requires ProcessesValid() && ThreadsAgree() && Distinct(ready) && forall s: Slot :: s in ready <==> Runnable(s)
      ensures SlotsFit(ready, threads) && |ready| == |threads|
    {
      forall i | 0 <= i < |ready| ensures ready[i] in threads {
        assert ready[i] in ready;
        assert Slot(ready[i].pid, ready[i].tid) in threads;
      }
      forall s | s in threads ensures s in ready {
        assert Exists(s);
      }
      DistinctFit(ready, threads.Keys);
    }

    /** Threads are never removed, so the new assignment overwrites every core slot of the last one. */
    lemma NoStaleSlot(ready: seq<Slot>)
      requires SlotsFit(running, threads) && |running| <= CORE_COUNT && |ready| == |threads|
      ensures |running| <= |Taken(ready)|
    {
      DistinctFit(running, threads.Keys);
    }

    /** Put a thread on core `i` and load its context. */
    method AssignCore(i: nat, slot: Slot)
      requires cpu.Valid() && ThreadsAgree() && slot in threads && i < CORE_COUNT == runningOn.Length
      modifies runningOn, cpu`cores
      ensures cpu.Valid() && runningOn[..] == old(runningOn[..])[i := Some(slot)]
      ensures cpu.cores == old(cpu.cores)[i := Load(old(cpu.cores[i]), threads[slot].context)]
    {
      runningOn[i] := Some(slot);
      if slot.pid in processes && slot.tid in processes[slot.pid].threads {
        cpu.LoadContext(i, processes[slot.pid].threads[slot.tid].context);
      }
    }

    /** The first `k` core slots are filled from the ready threads, the others as before. */
    ghost predicate FilledUpTo(ready: seq<Slot>, k: nat, before: seq<Option<Slot>>)
      reads this, runningOn
    {
      && runningOn.Length == |before| == CORE_COUNT && k <= |ready|
      && forall i :: 0 <= i < CORE_COUNT ==> runningOn[i] == if i < k then Some(ready[i]) else before[i]
    }

    method AssignNext(i: nat, ready: seq<Slot>, ghost before: Machine, ghost slots: seq<Option<Slot>>)
      requires cpu.Valid() && ThreadsAgree() && i < |Taken(ready)| && ready[i] in threads && FilledUpTo(ready, i, slots)
      requires Snapshot() == Fold(LoadCore(Taken(ready)), before, i)
      modifies runningOn, cpu`cores
      ensures cpu.Valid() && FilledUpTo(ready, i + 1, slots)
      ensures Snapshot() == Fold(LoadCore(Taken(ready)), before, i + 1)
    {
      AssignCore(i, ready[i]);
    }

    method AssignFirst(ready: seq<Slot>, n: nat, ghost before: Machine, ghost slots: seq<Option<Slot>>)
      requires cpu.Valid() && ThreadsAgree() && SlotsFit(ready, threads) && n == |Taken(ready)|
      requires FilledUpTo(ready, 0, slots) && Snapshot() == before
      modifies runningOn, cpu`cores
      ensures cpu.Valid() && FilledUpTo(ready, n, slots)
      ensures Snapshot() == Fold(LoadCore(Taken(ready)), before, n)
    {
      for i := 0 to n
        invariant cpu.Valid() && FilledUpTo(ready, i, slots)
        invariant Snapshot() == Fold(LoadCore(Taken(ready)), before, i)
      {
        AssignNext(i, ready, before, slots);
      }
    }

    /** Give the first ready threads a core each, and load their contexts. */
    method AssignToCores(ready: seq<Slot>)
      requires cpu.Valid() && ThreadsAgree() && SlotsFit(ready, threads)
      requires Filled(running) && |running| <= |Taken(ready)|
      modifies runningOn, cpu`cores, `running
      ensures cpu.Valid() && running == Taken(ready) && Filled(running)
      ensures Snapshot() == Fold(LoadCore(running), old(Snapshot()), |running|)
    {
      AssignFirst(ready, |Taken(ready)|, Snapshot(), runningOn[..]);
      running := Taken(ready);
    }

    /** Execute one step on each active core. */
    method ExecuteCores()
      requires cpu.Valid() && Filled(running)
      modifies cpu`cores, cpu`memory
      ensures cpu.Valid() && Snapshot() == Fold(StepCore(cpu.exec), old(Snapshot()), |running|)
    {
      ghost var step, before := StepCore(cpu.exec), Snapshot();
      for i := 0 to CORE_COUNT
        invariant cpu.Valid() && Snapshot() == Fold(step, before, Clip(i, |running|))
      {
        if runningOn[i].Some? {
          cpu.Step(i);
        }
      }
    }

    method SaveThread(i: nat, process: Process, tid: ThreadId)
      requires ProcessesValid() && ThreadsAgree() && i < |cpu.cores|
      requires process.pid in processes && processes[process.pid] == process && tid in process.threads
      modifies process`threads, `threads
      ensures ProcessesValid() && ThreadsAgree() && Slot(process.pid, tid) in old(threads)
      ensures threads ==
        old(threads)[Slot(process.pid, tid) := Save(old(threads)[Slot(process.pid, tid)], cpu.cores[i])]
    {
      assert Slot(process.pid, tid) in threads;
      var thread := process.threads[tid];
      var context := cpu.SaveContext(i, thread.context);
      thread := thread.(context := context, state := Running);
      ghost var own := process.threads;
      process.Update(tid, thread);
      Record(process.pid, tid, own);
    }

    /** Save the context of core `i` to the thread it runs, if it runs one. */
    method SaveSlot(i: nat)
      requires ProcessesValid() && ThreadsAgree() && i < runningOn.Length == |cpu.cores|
      requires runningOn[i] == if i < |running| then Some(running[i]) else None
      requires i < |running| ==> running[i] in threads
      modifies `threads, processes.Values`threads
      ensures forall p :: p in processes ==> processes[p].nextThreadId == old(processes[p].nextThreadId)
      ensures ProcessesValid() && ThreadsAgree()
      ensures threads.Keys == old(threads.Keys)
      ensures Snapshot() == if i < |running| then SaveCore(running)(old(Snapshot()), i) else old(Snapshot())
    {
      match runningOn[i]
      case None =>
      case Some(slot) =>
        if slot.pid in processes && slot.tid in processes[slot.pid].threads {
          SaveThread(i, processes[slot.pid], slot.tid);
        }
    }

    /** Save the contexts of the threads that ran. */
    method SaveContexts()
      requires ProcessesValid() && ThreadsAgree() && cpu.Valid() && Filled(running) && SlotsFit(running, threads)
      modifies `threads, processes.Values`threads
      ensures forall p :: p in processes ==> processes[p].nextThreadId == old(processes[p].nextThreadId)
      ensures ProcessesValid() && ThreadsAgree() && threads.Keys == old(threads.Keys)
      ensures Snapshot() == Fold(SaveCore(running), old(Snapshot()), |running|)
    {
      SaveCores(Snapshot());
      assert Clip(CORE_COUNT, |running|) == |running|;
    }

    method SaveCores(ghost before: Machine)
      requires ProcessesValid() && ThreadsAgree() && cpu.Valid() && Filled(running) && SlotsFit(running, threads)
      requires Snapshot() == before
      modifies `threads, processes.Values`threads
      ensures forall p :: p in processes ==> processes[p].nextThreadId == old(processes[p].nextThreadId)
      ensures ProcessesValid() && ThreadsAgree() && threads.Keys == before.threads.Keys
      ensures Snapshot() == Fold(SaveCore(running), before, Clip(CORE_COUNT, |running|))
    {
      for i := 0 to CORE_COUNT
        invariant ProcessesValid() && ThreadsAgree() && threads.Keys == before.threads.Keys
        invariant forall p :: p in processes ==> processes[p].nextThreadId == old(processes[p].nextThreadId)
        invariant Snapshot() == Fold(SaveCore(running), before, Clip(i, |running|))
      {
        SaveNext(i, before);
      }
    }

    method SaveNext(i: nat, ghost before: Machine)
      requires ProcessesValid() && ThreadsAgree() && i < runningOn.Length == |cpu.cores|
      requires runningOn[i] == if i < |running| then Some(running[i]) else None
      requires i < |running| ==> running[i] in threads
      requires Snapshot() == Fold(SaveCore(running), before, Clip(i, |running|))
      modifies `threads, processes.Values`threads
      ensures forall p :: p in processes ==> processes[p].nextThreadId == old(processes[p].nextThreadId)
      ensures ProcessesValid() && ThreadsAgree() && threads.Keys == old(threads.Keys)
      ensures Snapshot() == Fold(SaveCore(running), before, Clip(i + 1, |running|))
    {
      ghost var now := Snapshot();
      SaveSlot(i);
      FoldMore(SaveCore(running), before, now, Snapshot(), i, |running|);
    }

    /** The first two batches: load the first of the ready threads, then step them. */
    method LoadAndExecute(ready: seq<Slot>)
      requires cpu.Valid() && ThreadsAgree() && Filled(running)
      requires SlotsFit(ready, threads) && |running| <= |Taken(ready)|
      modifies `running, runningOn, cpu`cores, cpu`memory
      ensures cpu.Valid() && running == Taken(ready) && Filled(running) && SlotsFit(running, threads)
      ensures Snapshot() == Fold(StepCore(cpu.exec), Fold(LoadCore(running), old(Snapshot()), |running|), |running|)
    {
      AssignToCores(ready);
      ExecuteCores();
    }

    /** Load, step and save the first of the ready threads, batch by batch. */
    method RunBatch(ready: seq<Slot>)
      requires ProcessesValid() && ThreadsAgree() && cpu.Valid() && Filled(running)
      requires SlotsFit(ready, threads) && |running| <= |Taken(ready)|
      modifies `threads, `running, runningOn, cpu`cores, cpu`memory, processes.Values`threads
      ensures forall p :: p in processes ==> processes[p].nextThreadId == old(processes[p].nextThreadId)
      ensures ProcessesValid() && ThreadsAgree() && cpu.Valid()
      ensures running == Taken(ready) && Filled(running) && threads.Keys == old(threads.Keys)
      ensures Snapshot() == Sequential(cpu.exec, running, old(Snapshot()), |running|)
    {
      LoadAndExecute(ready);
      SaveContexts();
      BatchIsSequential(cpu.exec, running, old(Snapshot()), |running|);
    }

    /** The ready threads, and what running the first of them will mean. */
    method FindReady() returns (ready: seq<Slot>)
      requires ProcessesValid() && ThreadsAgree() && SlotsFit(running, threads) && |running| <= CORE_COUNT
      ensures SlotsFit(ready, threads) && |running| <= |Taken(ready)| && Fills(Taken(ready), threads.Keys)
    {
      ready := CollectReady();
      NoStaleSlot(ready);
      TakenFills(ready, threads);
    }

    /** The timeslice on the ready threads keeps the kernel valid. */
    method RunReady(ready: seq<Slot>)
      requires Valid() && SlotsFit(ready, threads) && |running| <= |Taken(ready)|
      modifies `threads, `running, runningOn, cpu`cores, cpu`memory, processes.Values`threads
      ensures forall p :: p in processes ==> processes[p].nextThreadId == old(processes[p].nextThreadId)
      ensures Valid() && threads.Keys == old(threads.Keys) && running == Taken(ready)
      ensures Snapshot() == Sequential(cpu.exec, running, old(Snapshot()), |running|)
    {
      RunBatch(ready);
      SameKeys(handleTable, nextHandle, ready, old(threads), threads);
    }

    /** One timeslice: whatever order the threads are found in, the first eight run on a core each, as
        if each core in turn had loaded, stepped and saved its thread. With at most eight, all run. */
    method Step()
      requires Valid()
      modifies `threads, `running, runningOn, cpu`cores, cpu`memory, processes.Values`threads
      ensures forall p :: p in processes ==> processes[p].nextThreadId == old(processes[p].nextThreadId)
      ensures Valid() && threads.Keys == old(threads.Keys)
      ensures Fills(running, threads.Keys)
      ensures Snapshot() == Sequential(cpu.exec, running, old(Snapshot()), |running|)
      ensures Timeslice(cpu.exec, running, old(Snapshot()), Snapshot())
    {
      var ready := FindReady();
      RunReady(ready);
      ReadyTimeslice(cpu.exec, ready, running, old(Snapshot()), Snapshot());
    }

    static lemma ReadyTimeslice(exec: Exec, ready: seq<Slot>, slots: seq<Slot>, m: Machine, r: Machine)
      requires SlotsFit(ready, m.threads) && slots == Taken(ready) && |m.cores| == CORE_COUNT
      requires r == Sequential(exec, slots, m, |slots|)
      ensures Timeslice(exec, slots, m, r)
    {
      SequentialIsTimeslice(exec, slots, m, r);
    }

    /** The next thread ID of every process. */
    ghost predicate Counts(nextTid: map<ProcessId, int>)
      reads this, processes.Values`nextThreadId
    {
      forall p :: p in processes && p in nextTid ==> processes[p].nextThreadId == nextTid[p]
    }

    /** What a timeslice leaves of the bookkeeping. */
    method Tick(ghost nextTid: map<ProcessId, int>)
      requires Valid() && Counts(nextTid)
      modifies `threads, `running, runningOn, cpu`cores, cpu`memory, processes.Values`threads
      ensures Valid() && threads.Keys == old(threads.Keys) && Fills(running, threads.Keys) && Counts(nextTid)
      ensures nextPid == old(nextPid) && nextHandle == old(nextHandle) && handleTable == old(handleTable)
      ensures processes == old(processes)
      ensures unchanged(`namedPorts)
    {
      Step();
    }

    // -- Loading code ----------------------------------------------------------------------------

    /** Load code at any address. */
    method LoadCode(vaddr: u64, code: seq<byte>) returns (written: nat)
      requires Valid() && vaddr + |code| <= 0x1_0000_0000_0000_0000
      modifies cpu`memory
      ensures Valid() && written == |code|
      ensures cpu.memory == Loaded(old(cpu.memory), vaddr, code)
      ensures vaddr + |code| <= 0x3_0000_0000 ==> Copied(old(cpu.memory), cpu.memory, vaddr, code)
    {
      CopiedIfFits(cpu.memory, vaddr, code);
      cpu.LoadChunks(vaddr, code);
      written := |code|;
    }
  }
}
