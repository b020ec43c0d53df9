/** Whole runs of the kernel, compared with plain bookkeeping. */
module KernelRun {
  import opened Bits
  import opened Wrappers
  import opened Processes
  import opened Scheduler
  import opened CpuManager
  import opened Kernel

  datatype Request =
    | NewProcess(name: string, codeBase: u64, codeSize: u64)
    | NewMainThread(pid: ProcessId, entry: u64, stackTop: u64)
    | NewThread(pid: ProcessId, entry: u64, stackTop: u64, priority: u32)
    | MapRegion(pid: ProcessId, base: u64, size: u64, perm: u32, state: MemoryState)
    | RegisterPort(name: string, handle: Handle)
    | ConnectToPort(name: string)
    | Timeslice

  datatype Reply =
    | NewPid(pid: ProcessId)
    | NewMain(started: Option<(Handle, ThreadId)>)
    | NewTid(tid: Option<ThreadId>)
    | Connected(handle: Option<Handle>)
    | Done

  // -- The reference -----------------------------------------------------------------------

  /** The counters, the slots of all threads, the handles and the ports. */
  datatype Book = Book(nextPid: int, nextTid: map<ProcessId, int>, slots: set<Slot>, nextHandle: int,
                       handles: map<Handle, Slot>, ports: map<string, Handle>)

  const START := Book(1, map[], {}, FIRST_HANDLE, map[], map[])

  function AddProcess(book: Book): Book {
    book.(nextPid := book.nextPid + 1, nextTid := book.nextTid[book.nextPid := 1])
  }

  function AddThread(book: Book, pid: ProcessId): Book
    requires pid in book.nextTid
  {
    var tid := book.nextTid[pid];
    book.(nextTid := book.nextTid[pid := tid + 1], slots := book.slots + {Slot(pid, tid)})
  }

  function AddHandle(book: Book, slot: Slot): Book {
    book.(nextHandle := book.nextHandle + 1, handles := book.handles[book.nextHandle := slot])
  }

  /** Everything is numbered by its counter, and a port answers with the last handle registered under its name. */
  function BookStep(book: Book, q: Request): (Book, Reply) {
    match q
    case NewProcess(_, _, _) => (AddProcess(book), NewPid(book.nextPid))
    case NewMainThread(pid, _, _) =>
      if pid !in book.nextTid then (book, NewMain(None))
      else
        var tid := book.nextTid[pid];
        (AddHandle(AddThread(book, pid), Slot(pid, tid)), NewMain(Some((book.nextHandle, tid))))
    case NewThread(pid, _, _, _) =>
      if pid !in book.nextTid then (book, NewTid(None)) else (AddThread(book, pid), NewTid(Some(book.nextTid[pid])))
    case MapRegion(_, _, _, _, _) => (book, Done)
    case RegisterPort(name, handle) => (book.(ports := book.ports[name := handle]), Done)
    case ConnectToPort(name) => (book, Connected(if name in book.ports then Some(book.ports[name]) else None))
    case Timeslice => (book, Done)
  }

  function RunBook(book: Book, qs: seq<Request>): (r: (Book, seq<Reply>))
    ensures |r.1| == |qs|
  {
    if qs == [] then (book, [])
    else
      var (b, replies) := RunBook(book, qs[..|qs| - 1]);
      var (b', reply) := BookStep(b, qs[|qs| - 1]);
      (b', replies + [reply])
  }

  lemma RunBookSnoc(book: Book, qs: seq<Request>, q: Request)
    ensures var (b, replies) := RunBook(book, qs);
      RunBook(book, qs + [q]) == (BookStep(b, q).0, replies + [BookStep(b, q).1])
  {
    assert (qs + [q])[..|qs|] == qs;
  }

  /** No counter is further than `n` requests take it. */
  ghost predicate Within(book: Book, n: nat) {
    && book.nextPid <= 1 + n && book.nextHandle <= FIRST_HANDLE + n
    && forall p :: p in book.nextTid ==> book.nextTid[p] <= 1 + n
  }

  lemma StepWithin(book: Book, q: Request, n: nat)
    requires Within(book, n)
    ensures Within(BookStep(book, q).0, n + 1)
  {
  }

  // -- The reference in every run --------------------------------------------------------------

  /** Numbers are handed out without gaps, every thread ever created is still there, every handle names one of them, and
      no two handles the same. */
  ghost predicate Numbered(book: Book) {
    && (forall p :: p in book.nextTid <==> 1 <= p < book.nextPid)
    && (forall p :: p in book.nextTid ==> book.nextTid[p] >= 1)
    && (forall s: Slot :: s in book.slots <==> s.pid in book.nextTid && 1 <= s.tid < book.nextTid[s.pid])
    && (forall h :: h in book.handles <==> FIRST_HANDLE <= h < book.nextHandle)
    && (forall h :: h in book.handles ==> book.handles[h] in book.slots)
    && (forall h, g :: h in book.handles && g in book.handles && h != g ==> book.handles[h] != book.handles[g])
  }

  lemma StepNumbered(book: Book, q: Request)
    requires Numbered(book) && 1 <= book.nextPid && FIRST_HANDLE <= book.nextHandle
    ensures Numbered(BookStep(book, q).0)
  {
  }

  // -- Agreement with the kernel -------------------------------------------------------------

  /** The kernel's counters, tables and ports are those of the book, and its threads are the book's. */
  ghost predicate Agrees(kernel: Kernel, book: Book)
    reads kernel, kernel.processes.Values`nextThreadId
  {
    && kernel.nextPid == book.nextPid && kernel.nextHandle == book.nextHandle
    && kernel.handleTable == book.handles && kernel.namedPorts == book.ports && kernel.threads.Keys == book.slots
    && kernel.processes.Keys == book.nextTid.Keys
    && kernel.Counts(book.nextTid)
  }

  method ServeNewProcess(kernel: Kernel, q: Request, ghost book: Book) returns (reply: Reply)
    requires kernel.Valid() && Agrees(kernel, book) && Within(book, 0xFFFF_0000) && q.NewProcess?
    modifies kernel`processes, kernel`nextPid
    ensures kernel.Valid() && fresh(kernel.processes.Values - old(kernel.processes.Values))
    ensures Agrees(kernel, BookStep(book, q).0) && reply == BookStep(book, q).1
  {
    var pid := kernel.CreateProcess(q.name, q.codeBase, q.codeSize);
    reply := NewPid(pid);
  }

  method ServeNewMainThread(kernel: Kernel, q: Request, ghost book: Book) returns (reply: Reply)
    requires kernel.Valid() && Agrees(kernel, book) && Within(book, 0xFFFF_0000 - FIRST_HANDLE) && q.NewMainThread?
    modifies kernel`handleTable, kernel`nextHandle, kernel`threads
    modifies kernel.processes.Values`threads, kernel.processes.Values`nextThreadId
    ensures kernel.Valid() && Agrees(kernel, BookStep(book, q).0) && reply == BookStep(book, q).1
  {
    var r := kernel.CreateMainThread(q.pid, q.entry, q.stackTop);
    reply := NewMain(r);
  }

  method ServeNewThread(kernel: Kernel, q: Request, ghost book: Book) returns (reply: Reply)
    requires kernel.Valid() && Agrees(kernel, book) && Within(book, 0xFFFF_0000) && q.NewThread?
    modifies kernel`threads, kernel.processes.Values`threads, kernel.processes.Values`nextThreadId
    ensures kernel.Valid() && Agrees(kernel, BookStep(book, q).0) && reply == BookStep(book, q).1
  {
    if q.pid !in kernel.processes {
      return NewTid(None);
    }
    var tid := kernel.CreateThread(kernel.processes[q.pid], q.entry, q.stackTop, q.priority);
    reply := NewTid(Some(tid));
  }

  method ServeMapRegion(kernel: Kernel, q: Request, ghost book: Book) returns (reply: Reply)
    requires kernel.Valid() && Agrees(kernel, book) && q.MapRegion?
    modifies kernel.processes.Values`memoryMap
    ensures kernel.Valid() && Agrees(kernel, BookStep(book, q).0) && reply == BookStep(book, q).1
  {
    kernel.MapProcessMemory(q.pid, q.base, q.size, q.perm, q.state);
    reply := Done;
  }

  method ServePort(kernel: Kernel, q: Request, ghost book: Book) returns (reply: Reply)
    requires kernel.Valid() && Agrees(kernel, book) && (q.RegisterPort? || q.ConnectToPort?)
    modifies kernel`namedPorts
    ensures kernel.Valid() && Agrees(kernel, BookStep(book, q).0) && reply == BookStep(book, q).1
  {
    if q.RegisterPort? {
      kernel.RegisterPort(q.name, q.handle);
      reply := Done;
    } else {
      var handle := kernel.ConnectToPort(q.name);
      reply := Connected(handle);
    }
  }

  /** A timeslice fills exactly the first cores, with different existing threads, all of them if there are at most
      eight: `Valid` says that the filled slots are different, exist and come first. */
  method ServeTimeslice(kernel: Kernel, ghost book: Book) returns (reply: Reply)
    requires kernel.Valid() && Agrees(kernel, book)
    modifies kernel`threads, kernel`running, kernel.runningOn, kernel.cpu`cores, kernel.cpu`memory
    modifies kernel.processes.Values`threads
    ensures kernel.Valid() && Agrees(kernel, book) && Fills(kernel.running, kernel.threads.Keys) && reply == Done
  {
    kernel.Tick(book.nextTid);
    reply := Done;
  }

  // -- Runs --------------------------------------------------------------------------------------

  /** A request that creates something. */
  method ServeCreation(kernel: Kernel, q: Request, ghost book: Book) returns (reply: Reply)
    requires kernel.Valid() && Agrees(kernel, book) && Within(book, 0xFFFF_0000 - FIRST_HANDLE)
    requires q.NewProcess? || q.NewMainThread? || q.NewThread?
    modifies kernel, kernel.processes.Values
    ensures kernel.Valid() && Agrees(kernel, BookStep(book, q).0) && reply == BookStep(book, q).1
    ensures fresh(kernel.processes.Values - old(kernel.processes.Values))
  {
    if q.NewProcess? {
      reply := ServeNewProcess(kernel, q, book);
    } else if q.NewMainThread? {
      reply := ServeNewMainThread(kernel, q, book);
    } else {
      reply := ServeNewThread(kernel, q, book);
    }
  }

  /** A request that neither creates nor runs anything. */
  method ServeTables(kernel: Kernel, q: Request, ghost book: Book) returns (reply: Reply)
    requires kernel.Valid() && Agrees(kernel, book) && (q.MapRegion? || q.RegisterPort? || q.ConnectToPort?)
    modifies kernel`namedPorts, kernel.processes.Values`memoryMap
    ensures kernel.Valid() && Agrees(kernel, BookStep(book, q).0) && reply == BookStep(book, q).1
  {
    if q.MapRegion? {
      reply := ServeMapRegion(kernel, q, book);
    } else {
      reply := ServePort(kernel, q, book);
    }
  }

  /** A request of any kind. */
  method Serve(kernel: Kernel, q: Request, ghost book: Book) returns (reply: Reply)
    requires kernel.Valid() && Agrees(kernel, book) && Within(book, 0xFFFF_0000 - FIRST_HANDLE)
    modifies kernel, kernel.runningOn, kernel.cpu, kernel.processes.Values
    ensures kernel.Valid() && Agrees(kernel, BookStep(book, q).0) && reply == BookStep(book, q).1
    ensures fresh(kernel.processes.Values - old(kernel.processes.Values))
    ensures q.Timeslice? ==> Fills(kernel.running, kernel.threads.Keys)
  {
    if q.Timeslice? {
      reply := ServeTimeslice(kernel, book);
    } else if q.NewProcess? || q.NewMainThread? || q.NewThread? {
      reply := ServeCreation(kernel, q, book);
    } else {
      reply := ServeTables(kernel, q, book);
    }
  }

  /** The requests served so far, and what they leave. */
  ghost predicate Served(kernel: Kernel, book: Book, replies: seq<Reply>, done: seq<Request>)
    reads kernel, kernel.processes.Values`nextThreadId
  {
    && Agrees(kernel, book) && Within(book, |done|) && RunBook(START, done) == (book, replies)
    && (done != [] && done[|done| - 1].Timeslice? ==> Fills(kernel.running, kernel.threads.Keys))
  }

  method ServeNext(kernel: Kernel, q: Request, ghost book: Book, replies: seq<Reply>, ghost done: seq<Request>)
    returns (reply: Reply)
    requires kernel.Valid() && Served(kernel, book, replies, done) && |done| <= 0xFFFF_0000 - FIRST_HANDLE
    modifies kernel, kernel.runningOn, kernel.cpu, kernel.processes.Values
    ensures kernel.Valid() && fresh(kernel.processes.Values - old(kernel.processes.Values))
    ensures Served(kernel, BookStep(book, q).0, replies + [reply], done + [q])
  {
    RunBookSnoc(START, done, q);
    StepWithin(book, q, |done|);
    reply := Serve(kernel, q, book);
  }

  method ServeLast(kernel: Kernel, replies: seq<Reply>, qs: seq<Request>) returns (all: seq<Reply>)
    requires 0 < |qs| <= 0xFFFF_0000 - FIRST_HANDLE && kernel.Valid()
    requires Served(kernel, RunBook(START, qs[..|qs| - 1]).0, replies, qs[..|qs| - 1])
    modifies kernel, kernel.runningOn, kernel.cpu, kernel.processes.Values
    ensures kernel.Valid() && fresh(kernel.processes.Values - old(kernel.processes.Values))
    ensures Served(kernel, RunBook(START, qs).0, all, qs)
  {
    assert qs[..|qs| - 1] + [qs[|qs| - 1]] == qs;
    ghost var book := RunBook(START, qs[..|qs| - 1]).0;
    var reply := ServeNext(kernel, qs[|qs| - 1], book, replies, qs[..|qs| - 1]);
    all := replies + [reply];
  }

  method Begin(exec: Exec, cores: seq<Core>) returns (kernel: Kernel)
    requires |cores| == CORE_COUNT && KeepsSize(exec)
    ensures kernel.Valid() && Served(kernel, START, [], [])
    ensures fresh(kernel) && fresh(kernel.cpu) && fresh(kernel.runningOn) && fresh(kernel.processes.Values)
  {
    kernel := new Kernel(exec, cores);
  }

  /** Any run of a new kernel: its invariants hold, its replies, counters, handles, ports and threads are those of the
      reference, and whenever the last request was a timeslice the first cores, and no others, are filled. */
  method Run(exec: Exec, cores: seq<Core>, qs: seq<Request>) returns (kernel: Kernel, replies: seq<Reply>)
    requires |cores| == CORE_COUNT && KeepsSize(exec) && |qs| <= 0xFFFF_0000 - FIRST_HANDLE
    ensures kernel.Valid() && Served(kernel, RunBook(START, qs).0, replies, qs)
    ensures fresh(kernel) && fresh(kernel.cpu) && fresh(kernel.runningOn) && fresh(kernel.processes.Values)
    decreases |qs|
  {
    if qs == [] {
      kernel := Begin(exec, cores);
      return kernel, [];
    }
    kernel, replies := Run(exec, cores, qs[..|qs| - 1]);
    replies := ServeLast(kernel, replies, qs);
  }

  /** The reference numbers everything without gaps in every run. */
  lemma {:induction false} RunNumbered(qs: seq<Request>)
    ensures var book := RunBook(START, qs).0;
      Numbered(book) && 1 <= book.nextPid && FIRST_HANDLE <= book.nextHandle
    decreases |qs|
  {
    if qs != [] {
      RunNumbered(qs[..|qs| - 1]);
      StepNumbered(RunBook(START, qs[..|qs| - 1]).0, qs[|qs| - 1]);
    }
  }

  /** The handle that the last registration of a name gave, if there was one. */
  function LastRegistered(qs: seq<Request>, name: string): Option<Handle> {
    if qs == [] then None
    else
      var q := qs[|qs| - 1];
      if q.RegisterPort? && q.name == name then Some(q.handle) else LastRegistered(qs[..|qs| - 1], name)
  }

  /** Whatever else happens in a run, connecting to a port gives the handle last registered under its name. */
  lemma {:induction false} ConnectGivesLast(qs: seq<Request>, name: string)
    ensures RunBook(START, qs + [ConnectToPort(name)]).1[|qs|] == Connected(LastRegistered(qs, name))
  {
    RunBookSnoc(START, qs, ConnectToPort(name));
    PortsAreLast(qs, name);
  }

  lemma {:induction false} PortsAreLast(qs: seq<Request>, name: string)
    ensures var ports := RunBook(START, qs).0.ports;
      LastRegistered(qs, name) == if name in ports then Some(ports[name]) else None
    decreases |qs|
  {
    if qs != [] {
      PortsAreLast(qs[..|qs| - 1], name);
    }
  }
}
