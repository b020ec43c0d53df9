/** One timeslice of the scheduler as a function on the whole machine: in the program's three
    batches, and one core at a time. */
module Scheduler {
  import opened Bits
  import opened Processes

  /** A thread, named by its process and its ID there. */
  datatype Slot = Slot(pid: ProcessId, tid: ThreadId)

  /** Everything a core holds besides the registers the kernel saves and restores, as words. */
  type Hidden = seq<u64>

  datatype Core = Core(x: Registers, sp: u64, pc: u64, hidden: Hidden)

  /** The effect of executing one instruction on a core and the shared memory. */
  type Exec = (Core, seq<byte>) -> (Core, seq<byte>)

  datatype Machine = Machine(threads: map<Slot, Thread>, cores: seq<Core>, memory: seq<byte>)

  function Load(core: Core, context: CpuContext): Core {
    core.(x := context.x, sp := context.sp, pc := context.pc)
  }

  function Save(thread: Thread, core: Core): Thread {
    thread.(context := thread.context.(x := core.x, sp := core.sp, pc := core.pc), state := Running)
  }

  // -- Actions on one core -----------------------------------------------------------

  /** Something done for each core index in turn. */
  type Action = (Machine, nat) -> Machine

  /** Load the context of the thread assigned to core `i`, if there is one. */
  function LoadCore(slots: seq<Slot>): Action {
    (m: Machine, i: nat) =>
      if i < |m.cores| && i < |slots| && slots[i] in m.threads
      then m.(cores := m.cores[i := Load(m.cores[i], m.threads[slots[i]].context)])
      else m
  }

  function StepCore(exec: Exec): Action {
    (m: Machine, i: nat) =>
      if i < |m.cores|
      then var r := exec(m.cores[i], m.memory); m.(cores := m.cores[i := r.0], memory := r.1)
      else m
  }

  /** Save core `i` to the thread assigned to it, if there is one. */
  function SaveCore(slots: seq<Slot>): Action {
    (m: Machine, i: nat) =>
      if i < |m.cores| && i < |slots| && slots[i] in m.threads
      then m.(threads := m.threads[slots[i] := Save(m.threads[slots[i]], m.cores[i])])
      else m
  }

  function Then(a: Action, b: Action): Action { (m: Machine, i: nat) => b(a(m, i), i) }

  /** An action for the core indices below `n`, in order. */
  function Fold(a: Action, m: Machine, n: nat): Machine
  {
    if n == 0 then m else a(Fold(a, m, n - 1), n - 1)
  }

  function Clip(i: nat, k: nat): nat { if i < k then i else k }

  /** A loop over all cores that acts on the first `k` only. */
  lemma FoldMore(a: Action, before: Machine, now: Machine, next: Machine, i: nat, k: nat)
    requires now == Fold(a, before, Clip(i, k)) && next == if i < k then a(now, i) else now
    ensures next == Fold(a, before, Clip(i + 1, k))
  {
  }

  /** Load every context, step every core, save every context. */
  function Batch(exec: Exec, slots: seq<Slot>, m: Machine, n: nat): Machine {
    Fold(SaveCore(slots), Fold(StepCore(exec), Fold(LoadCore(slots), m, n), n), n)
  }

  /** Load, step and save one core. */
  function OneCore(exec: Exec, slots: seq<Slot>): Action {
    Then(Then(LoadCore(slots), StepCore(exec)), SaveCore(slots))
  }

  function Sequential(exec: Exec, slots: seq<Slot>, m: Machine, n: nat): Machine {
    Fold(OneCore(exec, slots), m, n)
  }

  // -- Batches of actions that commute ---------------------------------------------------

  /** Actions for different indices may be swapped. */
  ghost predicate Commute(a: Action, b: Action) {
    forall m: Machine, i: nat, k: nat :: i != k ==> a(b(m, k), i) == b(a(m, i), k)
  }

  lemma {:induction false} FoldCommutes(a: Action, b: Action, m: Machine, n: nat, k: nat)
    requires Commute(a, b) && n <= k
    ensures Fold(a, b(m, k), n) == b(Fold(a, m, n), k)
  {
    if n > 0 {
      FoldCommutes(a, b, m, n - 1, k);
    }
  }

  /** Two batches in a row are one batch of both actions. */
  lemma {:induction false} FoldThen(a: Action, b: Action, m: Machine, n: nat)
    requires Commute(b, a)
    ensures Fold(b, Fold(a, m, n), n) == Fold(Then(a, b), m, n)
  {
    if n > 0 {
      FoldThen(a, b, m, n - 1);
      FoldCommutes(b, a, Fold(a, m, n - 1), n - 1, n - 1);
    }
  }

  ghost predicate Distinct(slots: seq<Slot>) { forall i, j :: 0 <= i < j < |slots| ==> slots[i] != slots[j] }

  lemma StepLoadCommute(exec: Exec, slots: seq<Slot>)
    ensures Commute(StepCore(exec), LoadCore(slots))
  {
    var step, load := StepCore(exec), LoadCore(slots);
    forall m: Machine, i: nat, k: nat | i != k ensures step(load(m, k), i) == load(step(m, i), k) {
      if i < |m.cores| && k < |m.cores| && k < |slots| && slots[k] in m.threads {
        var core := exec(m.cores[i], m.memory).0;
        var loaded := Load(m.cores[k], m.threads[slots[k]].context);
        assert m.cores[k := loaded][i := core] == m.cores[i := core][k := loaded];
      }
    }
  }

  lemma SaveStepCommute(exec: Exec, slots: seq<Slot>)
    ensures Commute(SaveCore(slots), StepCore(exec))
  {
  }

  lemma SaveLoadCommute(slots: seq<Slot>)
    requires Distinct(slots)
    ensures Commute(SaveCore(slots), LoadCore(slots))
  {
  }

  lemma SaveAfterBoth(exec: Exec, slots: seq<Slot>)
    requires Distinct(slots)
    ensures Commute(SaveCore(slots), Then(LoadCore(slots), StepCore(exec)))
  {
    SaveStepCommute(exec, slots);
    SaveLoadCommute(slots);
    CommuteThen(SaveCore(slots), LoadCore(slots), StepCore(exec));
  }

  lemma CommuteThen(a: Action, b: Action, c: Action)
    requires Commute(a, b) && Commute(a, c)
    ensures Commute(a, Then(b, c))
  {
  }

  /** The batch schedule refines the sequential one: whatever a core's instruction does to the core
      and to shared memory, the memory, every core and every thread come out the same. */
  lemma BatchIsSequential(exec: Exec, slots: seq<Slot>, m: Machine, n: nat)
    requires Distinct(slots)
    ensures Batch(exec, slots, m, n) == Sequential(exec, slots, m, n)
  {
    StepLoadCommute(exec, slots);
    SaveAfterBoth(exec, slots);
    FoldThen(LoadCore(slots), StepCore(exec), m, n);
    FoldThen(Then(LoadCore(slots), StepCore(exec)), SaveCore(slots), m, n);
  }

  // -- What a timeslice does ---------------------------------------------------------------

  /** The assignment gives each of its slots, existing and pairwise distinct, a core of its own. */
  ghost predicate Assignable(m: Machine, slots: seq<Slot>) {
    |slots| <= |m.cores| && Distinct(slots) && forall i :: 0 <= i < |slots| ==> slots[i] in m.threads
  }

  /** A thread after a timeslice: running, and the same thread otherwise. */
  predicate SameThread(before: Thread, after: Thread) {
    after == before.(context := after.context, state := Running)
  }

  /** The machine after the first `n` cores have had their turn. */
  ghost predicate Framed(m: Machine, r: Machine, slots: seq<Slot>, n: nat) {
    && |r.cores| == |m.cores| && r.threads.Keys == m.threads.Keys && n <= |slots|
    && (forall i :: n <= i < |m.cores| ==> r.cores[i] == m.cores[i])
    && (forall t :: t in m.threads && t !in slots[..n] ==> r.threads[t] == m.threads[t])
    && (forall i :: 0 <= i < n ==> slots[i] in m.threads && SameThread(m.threads[slots[i]], r.threads[slots[i]]))
  }

  lemma OneCoreFrames(exec: Exec, slots: seq<Slot>, m: Machine, r: Machine, k: nat)
    requires Assignable(m, slots) && k < |slots| && Framed(m, r, slots, k)
    ensures Framed(m, OneCore(exec, slots)(r, k), slots, k + 1)
  {
    var slot := slots[k];
    assert slot in m.threads && slot !in slots[..k];
    assert slots[..k + 1] == slots[..k] + [slot];
  }

  lemma {:induction false} FoldFrames(a: Action, m: Machine, slots: seq<Slot>, n: nat)
    requires n <= |slots| && Framed(m, m, slots, 0)
    requires forall r: Machine, k: nat :: k < n && Framed(m, r, slots, k) ==> Framed(m, a(r, k), slots, k + 1)
    ensures Framed(m, Fold(a, m, n), slots, n)
  {
    if n > 0 {
      FoldFrames(a, m, slots, n - 1);
      assert Framed(m, a(Fold(a, m, n - 1), n - 1), slots, n);
    }
  }

  /** A timeslice touches the chosen threads and their cores only, and leaves the chosen running. */
  lemma SequentialFrame(exec: Exec, slots: seq<Slot>, m: Machine, n: nat)
    requires Assignable(m, slots) && n <= |slots|
    ensures Framed(m, Sequential(exec, slots, m, n), slots, n)
  {
    var act := OneCore(exec, slots);
    forall r: Machine, k: nat | k < n && Framed(m, r, slots, k) ensures Framed(m, act(r, k), slots, k + 1) {
      OneCoreFrames(exec, slots, m, r, k);
    }
    FoldFrames(act, m, slots, n);
  }

  /** One core's turn: a core with the program counter, stack pointer and registers of its thread executes one
      instruction on the memory, and the thread is left running with those the core then has. */
  ghost predicate Turn(exec: Exec, thread: Thread, core: Core, memory: seq<byte>,
                       thread': Thread, core': Core, memory': seq<byte>) {
    var context := thread.context;
    && exec(Core(x := context.x, sp := context.sp, pc := context.pc, hidden := core.hidden), memory) == (core', memory')
    && thread' == thread.(context := context.(x := core'.x, sp := core'.sp, pc := core'.pc), state := Running)
  }

  /** What one chosen thread sees: it takes its turn on the memory the cores before it left. The first core starts on
      the machine as it is. */
  lemma SequentialStep(exec: Exec, slots: seq<Slot>, m: Machine, k: nat)
    requires Assignable(m, slots) && k < |slots|
    ensures k == 0 ==> Sequential(exec, slots, m, k) == m
    ensures var before, after := Sequential(exec, slots, m, k), Sequential(exec, slots, m, k + 1);
      && k < |after.cores| && slots[k] in after.threads && slots[k] in m.threads
      && Turn(exec, m.threads[slots[k]], m.cores[k], before.memory,
              after.threads[slots[k]], after.cores[k], after.memory)
  {
    SequentialFrame(exec, slots, m, k);
    assert slots[k] in m.threads && slots[k] !in slots[..k];
  }

  /** Core `k` and its thread are the same in both machines. */
  ghost predicate Stays(r: Machine, t: Machine, slots: seq<Slot>, k: nat) {
    && k < |slots| && k < |r.cores| && k < |t.cores| && slots[k] in r.threads && slots[k] in t.threads
    && t.cores[k] == r.cores[k] && t.threads[slots[k]] == r.threads[slots[k]]
  }

  lemma OneCoreElsewhere(exec: Exec, slots: seq<Slot>, m: Machine, r: Machine, k: nat, n: nat)
    requires Assignable(m, slots) && k < n < |slots| && Framed(m, r, slots, n)
    ensures Stays(r, OneCore(exec, slots)(r, n), slots, k)
  {
    assert slots[k] in m.threads && slots[n] != slots[k];
  }

  lemma StaysOn(r: Machine, s: Machine, t: Machine, slots: seq<Slot>, k: nat)
    ensures Stays(r, s, slots, k) && Stays(s, t, slots, k) ==> Stays(r, t, slots, k)
  {
  }

  lemma NextStays(exec: Exec, slots: seq<Slot>, m: Machine, k: nat, n: nat)
    requires Assignable(m, slots) && k < n < |slots|
    ensures Stays(Sequential(exec, slots, m, n), Sequential(exec, slots, m, n + 1), slots, k)
  {
    SequentialFrame(exec, slots, m, n);
    OneCoreElsewhere(exec, slots, m, Sequential(exec, slots, m, n), k, n);
  }

  lemma OwnStays(exec: Exec, slots: seq<Slot>, m: Machine, k: nat)
    requires Assignable(m, slots) && k < |slots|
    ensures var r := Sequential(exec, slots, m, k + 1); Stays(r, r, slots, k)
  {
    SequentialFrame(exec, slots, m, k + 1);
    assert slots[k] in m.threads;
  }

  lemma {:induction false} StaysThrough(stages: seq<Machine>, slots: seq<Slot>, k: nat, n: nat)
    requires k < n < |stages| && Stays(stages[k + 1], stages[k + 1], slots, k)
    requires forall i :: k < i < |stages| - 1 ==> Stays(stages[i], stages[i + 1], slots, k)
    ensures Stays(stages[k + 1], stages[n], slots, k)
    decreases n
  {
    if n > k + 1 {
      StaysThrough(stages, slots, k, n - 1);
      StaysOn(stages[k + 1], stages[n - 1], stages[n], slots, k);
    }
  }

  /** The machine before each turn, and after the last. */
  function Stages(exec: Exec, slots: seq<Slot>, m: Machine): (stages: seq<Machine>)
    ensures |stages| == |slots| + 1
    ensures forall k :: 0 <= k <= |slots| ==> stages[k] == Sequential(exec, slots, m, k)
  {
    seq(|slots| + 1, k requires 0 <= k => Sequential(exec, slots, m, k))
  }

  /** The cores after it leave a thread, and the core it ran on, as they are. */
  lemma SequentialStays(exec: Exec, slots: seq<Slot>, m: Machine, k: nat, n: nat)
    requires Assignable(m, slots) && k < n <= |slots|
    ensures Stays(Sequential(exec, slots, m, k + 1), Sequential(exec, slots, m, n), slots, k)
  {
    var stages := Stages(exec, slots, m);
    OwnStays(exec, slots, m, k);
    forall i | k < i < |stages| - 1 ensures Stays(stages[i], stages[i + 1], slots, k) {
      NextStays(exec, slots, m, k, i);
    }
    StaysThrough(stages, slots, k, n);
  }

  /** A whole timeslice: the chosen threads take their turns on the first cores, each on the memory the one before it
      left; every other thread, and every other core, stays as it was. */
  ghost predicate Timeslice(exec: Exec, slots: seq<Slot>, m: Machine, r: Machine) {
    && |slots| <= |m.cores| == |r.cores| && r.threads.Keys == m.threads.Keys
    && (forall i :: |slots| <= i < |m.cores| ==> r.cores[i] == m.cores[i])
    && (forall t :: t in m.threads && t !in slots ==> r.threads[t] == m.threads[t])
    && exists memories: seq<seq<byte>> :: TurnsTaken(exec, slots, m, r, memories)
  }

  /** Every turn, with the memories between them. */
  ghost predicate TurnsTaken(exec: Exec, slots: seq<Slot>, m: Machine, r: Machine, memories: seq<seq<byte>>) {
    && |slots| <= |m.cores| == |r.cores| && |memories| == |slots| + 1
    && memories[0] == m.memory && memories[|slots|] == r.memory
    && forall k :: 0 <= k < |slots| ==> TurnTaken(exec, slots[k], k, m, r, memories[k], memories[k + 1])
  }

  ghost predicate TurnTaken(exec: Exec, slot: Slot, k: nat, m: Machine, r: Machine, memory: seq<byte>,
                            memory': seq<byte>) {
    && k < |m.cores| && k < |r.cores| && slot in m.threads && slot in r.threads
    && Turn(exec, m.threads[slot], m.cores[k], memory, r.threads[slot], r.cores[k], memory')
  }

  lemma SequentialTurn(exec: Exec, slots: seq<Slot>, m: Machine, r: Machine, k: nat)
    requires Assignable(m, slots) && k < |slots| && r == Sequential(exec, slots, m, |slots|)
    ensures TurnTaken(exec, slots[k], k, m, r, Sequential(exec, slots, m, k).memory,
                      Sequential(exec, slots, m, k + 1).memory)
  {
    SequentialStep(exec, slots, m, k);
    SequentialStays(exec, slots, m, k, |slots|);
  }

  /** The memory before each turn, and after the last. */
  function Memories(exec: Exec, slots: seq<Slot>, m: Machine): (memories: seq<seq<byte>>)
    ensures |memories| == |slots| + 1
    ensures forall k :: 0 <= k <= |slots| ==> memories[k] == Sequential(exec, slots, m, k).memory
  {
    seq(|slots| + 1, k requires 0 <= k => Sequential(exec, slots, m, k).memory)
  }

  /** The sequential timeslice is one. */
  lemma SequentialIsTimeslice(exec: Exec, slots: seq<Slot>, m: Machine, r: Machine)
    requires Assignable(m, slots) && r == Sequential(exec, slots, m, |slots|)
    ensures Timeslice(exec, slots, m, r)
  {
    SequentialFrame(exec, slots, m, |slots|);
    assert slots[..|slots|] == slots;
    SequentialTurns(exec, slots, m, r);
  }

  lemma SequentialTurns(exec: Exec, slots: seq<Slot>, m: Machine, r: Machine)
    requires Assignable(m, slots) && r == Sequential(exec, slots, m, |slots|) && |r.cores| == |m.cores|
    ensures TurnsTaken(exec, slots, m, r, Memories(exec, slots, m))
  {
    var memories := Memories(exec, slots, m);
    forall k | 0 <= k < |slots| ensures TurnTaken(exec, slots[k], k, m, r, memories[k], memories[k + 1]) {
      SequentialTurn(exec, slots, m, r, k);
    }
  }
}
