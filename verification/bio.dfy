/** Background jobs of one type: producers, one worker and waiting clients, interleaved at every lock operation. */
module BackgroundJobs {
  datatype Job = Job(arg1: int, arg2: int, arg3: int)

  /** A list node: the job and the number of its submission, which stands for the node's identity. */
  datatype Node = Node(id: nat, job: Job)

  /** Where the worker is in bioProcessBackgroundJobs. */
  datatype WorkerPc =
    | WStart                 // about to take the lock for the first time
    | WLoop                  // lock held, top of the loop
    | WWaiting               // inside pthread_cond_wait, not signalled
    | WWoken                 // signalled, waiting for the lock
    | WAwake                 // lock held again, about to give it up once more (Win32 safe mode)
    | WRelock                // outside safe mode, waiting for the lock
    | WPicked(node: Node)    // lock held, first node taken
    | WWorking(node: Node)   // lock released, job running
    | WWorked(node: Node)    // job finished, waiting for the lock
    | WDelete(node: Node)    // lock held, about to unlink the node
    | WDecrement             // lock held, about to decrement the counter
    | WBroadcast             // lock held, about to wake the clients

  /** Where a client thread is: creating a job, asking for the counter, or waiting for a step. */
  datatype ClientPc =
    | Idle
    | CreateLock(job: Job)
    | CreateAppend(job: Job)
    | CreateCount
    | CreateSignal
    | CreateUnlock
    | AskLock
    | AskRead
    | StepLock
    | StepRead
    | StepWaiting            // inside pthread_cond_wait, not signalled
    | StepWoken              // signalled, waiting for the lock
    | StepReread
    | Return(val: int, before: nat)  // lock held: value read, and how many jobs had been submitted then
    | Returned(val: int, before: nat)

  datatype Holder = Free | ByWorker | ByClient(id: nat)

  /** The shared variables, the program counters, and two histories: jobs submitted and jobs carried out. */
  datatype State = State(
    holder: Holder, queue: seq<Node>, pending: int, worker: WorkerPc, clients: map<nat, ClientPc>,
    submitted: seq<Job>, carriedOut: seq<Job>)

  function Init(ids: set<nat>): (s: State) {
    State(Free, [], 0, WStart, map i | i in ids :: Idle, [], [])
  }

  /** listDelNode. */
  function Unlink(q: seq<Node>, x: Node): (r: seq<Node>) {
    if q == [] then [] else if q[0] == x then q[1..] else [q[0]] + Unlink(q[1..], x)
  }

  // ----- Steps -----

  /** A step of the worker; when it cannot move, nothing happens. */
  function WorkerStep(s: State): (s': State) {
    match s.worker
    case WStart => if s.holder.Free? then s.(holder := ByWorker, worker := WLoop) else s
    case WLoop =>
      if s.queue == [] then s.(holder := Free, worker := WWaiting)
      else s.(worker := WPicked(s.queue[0]))
    case WWaiting => s
    case WWoken => if s.holder.Free? then s.(holder := ByWorker, worker := WAwake) else s
    case WAwake => s.(holder := Free, worker := WRelock)
    case WRelock => if s.holder.Free? then s.(holder := ByWorker, worker := WLoop) else s
    case WPicked(node) => s.(holder := Free, worker := WWorking(node))
    case WWorking(node) => s.(carriedOut := s.carriedOut + [node.job], worker := WWorked(node))
    case WWorked(node) => if s.holder.Free? then s.(holder := ByWorker, worker := WDelete(node)) else s
    case WDelete(node) => s.(queue := Unlink(s.queue, node), worker := WDecrement)
    case WDecrement => s.(pending := s.pending - 1, worker := WBroadcast)
    case WBroadcast => s.(clients := WakeAll(s.clients), worker := WLoop)
  }

  function Wake(pc: ClientPc): ClientPc { if pc == StepWaiting then StepWoken else pc }

  function WakeAll(clients: map<nat, ClientPc>): map<nat, ClientPc> {
    map i | i in clients :: Wake(clients[i])
  }

  function SetClient(s: State, i: nat, pc: ClientPc): State { s.(clients := s.clients[i := pc]) }

  /** A step of client i. */
  function ClientStep(s: State, i: nat): (s': State)
    requires i in s.clients
  {
    match s.clients[i]
    case Idle => s
    case CreateLock(job) => if s.holder.Free? then SetClient(s.(holder := ByClient(i)), i, CreateAppend(job)) else s
    case CreateAppend(job) =>
      SetClient(s.(queue := s.queue + [Node(|s.submitted|, job)], submitted := s.submitted + [job]), i, CreateCount)
    case CreateCount => SetClient(s.(pending := s.pending + 1), i, CreateSignal)
    case CreateSignal =>
      SetClient(s.(worker := if s.worker == WWaiting then WWoken else s.worker), i, CreateUnlock)
    case CreateUnlock => SetClient(s.(holder := Free), i, Idle)
    case AskLock => if s.holder.Free? then SetClient(s.(holder := ByClient(i)), i, AskRead) else s
    case AskRead => SetClient(s, i, Return(s.pending, |s.submitted|))
    case StepLock => if s.holder.Free? then SetClient(s.(holder := ByClient(i)), i, StepRead) else s
    case StepRead =>
      if s.pending != 0 then SetClient(s.(holder := Free), i, StepWaiting)
      else SetClient(s, i, Return(s.pending, |s.submitted|))
    case StepWaiting => s
    case StepWoken => if s.holder.Free? then SetClient(s.(holder := ByClient(i)), i, StepReread) else s
    case StepReread => SetClient(s, i, Return(s.pending, |s.submitted|))
    case Return(val, before) => SetClient(s.(holder := Free), i, Returned(val, before))
    case Returned(val, before) => SetClient(s, i, Idle)
  }

  datatype Event =
    | WorkerMoves
    | WorkerWakes                 // a wakeup that nobody caused
    | ClientMoves(id: nat)
    | ClientWakes(id: nat)
    | CallCreate(id: nat, job: Job)
    | CallPending(id: nat)
    | CallWaitStep(id: nat)

  function Next(s: State, e: Event): (s': State) {
    match e
    case WorkerMoves => WorkerStep(s)
    case WorkerWakes => s.(worker := if s.worker == WWaiting then WWoken else s.worker)
    case ClientMoves(i) => if i in s.clients then ClientStep(s, i) else s
    case ClientWakes(i) => if i in s.clients then SetClient(s, i, Wake(s.clients[i])) else s
    case CallCreate(i, job) => if i in s.clients && s.clients[i] == Idle then SetClient(s, i, CreateLock(job)) else s
    case CallPending(i) => if i in s.clients && s.clients[i] == Idle then SetClient(s, i, AskLock) else s
    case CallWaitStep(i) => if i in s.clients && s.clients[i] == Idle then SetClient(s, i, StepLock) else s
  }

  function Run(s: State, es: seq<Event>): (s': State)
    decreases |es|
  {
    if es == [] then s else Run(Next(s, es[0]), es[1..])
  }

  // ----- The invariant -----

  predicate WorkerHolds(pc: WorkerPc) {
    pc.WLoop? || pc.WAwake? || pc.WPicked? || pc.WDelete? || pc.WDecrement? || pc.WBroadcast?
  }

  predicate ClientHolds(pc: ClientPc) {
    || pc.CreateAppend? || pc.CreateCount? || pc.CreateSignal? || pc.CreateUnlock?
    || pc.AskRead? || pc.StepRead? || pc.StepReread? || pc.Return?
  }

  ghost predicate Locking(s: State) {
    && (s.holder == ByWorker <==> WorkerHolds(s.worker))
    && (s.holder.ByClient? ==> s.holder.id in s.clients && ClientHolds(s.clients[s.holder.id]))
    && (forall i :: i in s.clients && ClientHolds(s.clients[i]) ==> s.holder == ByClient(i))
  }

  /** The job at the head of the queue has already been carried out. */
  predicate HeadDone(pc: WorkerPc) { pc.WWorked? || pc.WDelete? }

  predicate HasNode(pc: WorkerPc) { pc.WPicked? || pc.WWorking? || pc.WWorked? || pc.WDelete? }

  /** Jobs not yet carried out, oldest first. */
  function Outstanding(s: State): (q: seq<Node>) {
    if HeadDone(s.worker) && s.queue != [] then s.queue[1..] else s.queue
  }

  function Jobs(q: seq<Node>): (js: seq<Job>)
    ensures |js| == |q|
  {
    seq(|q|, i requires 0 <= i < |q| => q[i].job)
  }

  ghost predicate Fifo(s: State) {
    && s.submitted == s.carriedOut + Jobs(Outstanding(s))
    && (HasNode(s.worker) ==> s.queue != [] && s.queue[0] == s.worker.node)
    && (forall k :: 0 <= k < |s.queue| ==> s.queue[k].id == |s.submitted| - |s.queue| + k)
  }

  /** The counter is the queue length, except inside the two critical sections that change both. */
  ghost predicate Counting(s: State) {
    s.pending == |s.queue|
      - (if s.holder.ByClient? && s.holder.id in s.clients && s.clients[s.holder.id].CreateCount? then 1 else 0)
      + (if s.worker.WDecrement? then 1 else 0)
  }

  /** Nobody sleeps through the event it waits for. */
  ghost predicate Signalling(s: State) {
    && (s.worker.WWaiting? && s.queue != [] ==>
      s.holder.ByClient? && s.holder.id in s.clients
        && (s.clients[s.holder.id].CreateCount? || s.clients[s.holder.id].CreateSignal?))
    && ((exists i :: i in s.clients && s.clients[i].StepWaiting?) ==>
          s.queue != [] || s.worker.WDecrement? || s.worker.WBroadcast?)
  }

  /** A value read by a client bounds the jobs that are still not carried out. */
  ghost predicate Reading(s: State) {
    forall i :: i in s.clients ==>
      match s.clients[i]
      case Return(val, before) => before - val <= |s.carriedOut| && before <= |s.submitted|
      case Returned(val, before) => before - val <= |s.carriedOut| && before <= |s.submitted|
      case _ => true
  }

  ghost predicate Inv(s: State) {
    Locking(s) && Fifo(s) && Counting(s) && Signalling(s) && Reading(s)
  }

  lemma InitInv(ids: set<nat>)
    ensures Inv(Init(ids))
  {
  }

  // ----- Every step keeps it -----

  lemma WorkerKeepsLocking(s: State)
    requires Locking(s)
    ensures Locking(WorkerStep(s))
  {
  }

  lemma UnlinkHead(q: seq<Node>, x: Node)
    requires q != [] && q[0] == x
    ensures Unlink(q, x) == q[1..]
  {
  }

  lemma WorkingKeepsFifo(s: State)
    requires Fifo(s) && s.worker.WWorking?
    ensures Fifo(WorkerStep(s))
  {
    assert Jobs(s.queue) == [s.worker.node.job] + Jobs(s.queue[1..]);
  }

  lemma DeletingKeepsFifo(s: State)
    requires Fifo(s) && s.worker.WDelete?
    ensures Fifo(WorkerStep(s))
  {
    hide Jobs;
    UnlinkHead(s.queue, s.worker.node);
  }

  lemma OtherwiseKeepsFifo(s: State)
    requires Fifo(s) && !s.worker.WWorking? && !s.worker.WDelete?
    ensures Fifo(WorkerStep(s))
  {
    hide Jobs;
  }

  lemma WorkerKeepsFifo(s: State)
    requires Fifo(s)
    ensures Fifo(WorkerStep(s))
  {
    hide Fifo, WorkerStep;
    if s.worker.WWorking? {
      WorkingKeepsFifo(s);
    } else if s.worker.WDelete? {
      DeletingKeepsFifo(s);
    } else {
      OtherwiseKeepsFifo(s);
    }
  }

  lemma WorkerKeepsCounts(s: State)
    requires Locking(s) && Fifo(s) && Counting(s) && Signalling(s)
    ensures Counting(WorkerStep(s)) && Signalling(WorkerStep(s))
  {
    if s.worker.WDelete? { UnlinkHead(s.queue, s.worker.node); }
  }

  lemma WorkerKeeps(s: State)
    requires Inv(s)
    ensures Inv(WorkerStep(s))
  {
    hide WorkerStep;
    WorkerKeepsLocking(s);
    WorkerKeepsFifo(s);
    WorkerKeepsCounts(s);
    WorkerKeepsReading(s);
  }

  lemma WorkerKeepsReading(s: State)
    requires Reading(s)
    ensures Reading(WorkerStep(s))
  {
  }

  lemma ClientKeepsLocking(s: State, i: nat)
    requires i in s.clients && Locking(s)
    ensures Locking(ClientStep(s, i))
  {
  }

  lemma ClientKeepsFifo(s: State, i: nat)
    requires i in s.clients && Locking(s) && Fifo(s)
    ensures Fifo(ClientStep(s, i))
  {
    var s' := ClientStep(s, i);
    if s.clients[i].CreateAppend? {
      var node := Node(|s.submitted|, s.clients[i].job);
      assert Outstanding(s') == Outstanding(s) + [node];
      assert Jobs(Outstanding(s')) == Jobs(Outstanding(s)) + [node.job];
    }
  }

  lemma ClientKeepsCounts(s: State, i: nat)
    requires i in s.clients && Locking(s) && Counting(s)
    ensures Counting(ClientStep(s, i))
  {
    var s' := ClientStep(s, i);
    assert forall j :: j in s.clients && j != i ==> s'.clients[j] == s.clients[j];
  }

  lemma ClientKeepsSignals(s: State, i: nat)
    requires i in s.clients && Locking(s) && Counting(s) && Signalling(s)
    ensures Signalling(ClientStep(s, i))
  {
    var s' := ClientStep(s, i);
    assert forall j :: j in s.clients && j != i ==> s'.clients[j] == s.clients[j];
  }

  lemma ClientKeepsReading(s: State, i: nat)
    requires i in s.clients && Inv(s)
    ensures Reading(ClientStep(s, i))
  {
    var pc := s.clients[i];
    if pc.AskRead? || pc.StepRead? || pc.StepReread? {
      assert s.holder == ByClient(i);
      assert |s.submitted| == |s.carriedOut| + |Outstanding(s)|;
    }
  }

  lemma ClientKeeps(s: State, i: nat)
    requires i in s.clients && Inv(s)
    ensures Inv(ClientStep(s, i))
  {
    hide ClientStep;
    ClientKeepsLocking(s, i);
    ClientKeepsFifo(s, i);
    ClientKeepsCounts(s, i);
    ClientKeepsSignals(s, i);
    ClientKeepsReading(s, i);
  }

  /** A client outside the critical sections that begins a call or is woken. */
  lemma OutsideKeeps(s: State, i: nat, pc: ClientPc)
    requires Inv(s) && i in s.clients && !ClientHolds(s.clients[i]) && !ClientHolds(pc)
    requires !pc.StepWaiting? && !pc.Returned?
    ensures Inv(SetClient(s, i, pc))
  {
    var t := SetClient(s, i, pc);
    assert forall j :: j in s.clients && j != i ==> t.clients[j] == s.clients[j];
  }

  lemma WakeKeeps(s: State)
    requires Inv(s) && s.worker.WWaiting?
    ensures Inv(s.(worker := WWoken))
  {
  }

  lemma NextKeeps(s: State, e: Event)
    requires Inv(s)
    ensures Inv(Next(s, e))
  {
    hide WorkerStep, ClientStep, Inv, SetClient;
    match e
    case WorkerMoves => WorkerKeeps(s);
    case WorkerWakes => if s.worker.WWaiting? { WakeKeeps(s); }
    case ClientMoves(i) => if i in s.clients { ClientKeeps(s, i); }
    case ClientWakes(i) =>
      if i in s.clients {
        if s.clients[i].StepWaiting? { OutsideKeeps(s, i, StepWoken); } else { SameClient(s, i); }
      }
    case CallCreate(i, job) => if i in s.clients && s.clients[i].Idle? { OutsideKeeps(s, i, CreateLock(job)); }
    case CallPending(i) => if i in s.clients && s.clients[i].Idle? { OutsideKeeps(s, i, AskLock); }
    case CallWaitStep(i) => if i in s.clients && s.clients[i].Idle? { OutsideKeeps(s, i, StepLock); }
  }

  lemma SameClient(s: State, i: nat)
    requires i in s.clients
    ensures SetClient(s, i, s.clients[i]) == s
  {
    assert s.clients[i := s.clients[i]] == s.clients;
  }

  lemma {:induction false} RunKeeps(s: State, es: seq<Event>)
    requires Inv(s)
    ensures Inv(Run(s, es))
    decreases |es|
  {
    hide Inv, Next;
    if es != [] {
      NextKeeps(s, es[0]);
      RunKeeps(Next(s, es[0]), es[1..]);
    }
  }

  // ----- What it means for the callers -----

  /** Jobs finished and taken off the queue. */
  function Completed(s: State): (js: seq<Job>) {
    if HeadDone(s.worker) && s.carriedOut != [] then s.carriedOut[..|s.carriedOut| - 1] else s.carriedOut
  }

  /**
   * In every state of every interleaving: jobs are carried out in the order of their submission, each once; with
   * the lock free the counter is the number of jobs submitted and not completed; and a worker that sleeps with
   * the lock free has an empty queue.
   */
  lemma Safety(ids: set<nat>, es: seq<Event>)
    ensures var s := Run(Init(ids), es);
      && s.carriedOut <= s.submitted && Completed(s) <= s.submitted
      && (s.holder.Free? ==> s.pending == |s.queue| == |s.submitted| - |Completed(s)|)
      && (s.holder.Free? && s.worker.WWaiting? ==> s.queue == [] && s.carriedOut == s.submitted)
  {
    hide Run, Init;
    InitInv(ids);
    RunKeeps(Init(ids), es);
    var s := Run(Init(ids), es);
    assert |s.submitted| == |s.carriedOut| + |Outstanding(s)|;
  }

  /**
   * What a client is told, on every interleaving: the number of jobs submitted and not completed at the moment it
   * reads the counter. Waiting for a step returns at once exactly if there are none; otherwise it gives up the lock
   * and waits, and reads the counter again when it has been woken.
   */
  lemma ToldTheTruth(ids: set<nat>, es: seq<Event>, i: nat)
    requires i in Run(Init(ids), es).clients
    ensures var s := Run(Init(ids), es);
      var (pc, s', left) := (s.clients[i], ClientStep(s, i), |s.submitted| - |Completed(s)|);
      && i in s'.clients
      && (pc.AskRead? || pc.StepReread? ==> s'.clients[i] == Return(left, |s.submitted|))
      && (pc.StepRead? && left == 0 ==> s'.clients[i] == Return(0, |s.submitted|) && s'.holder == s.holder)
      && (pc.StepRead? && left != 0 ==> s'.clients[i] == StepWaiting && s'.holder == Free)
      && (pc.Return? ==> s'.clients[i] == Returned(pc.val, pc.before) && s'.holder == Free)
  {
    hide Run, Init;
    InitInv(ids);
    RunKeeps(Init(ids), es);
    var s := Run(Init(ids), es);
    if ClientHolds(s.clients[i]) { TruthFromInv(s, i); }
  }

  lemma TruthFromInv(s: State, i: nat)
    requires Inv(s) && i in s.clients && ClientHolds(s.clients[i])
    ensures s.pending - (if s.worker.WDecrement? then 1 else 0) + (if s.clients[i].CreateCount? then 1 else 0)
      == |s.submitted| - |Completed(s)|
  {
    assert s.holder == ByClient(i);
    assert |s.submitted| == |s.carriedOut| + |Outstanding(s)|;
  }

  /** A client that was told zero knows that every job submitted before the counter was read has been carried out. */
  lemma ZeroMeansAllDone(ids: set<nat>, es: seq<Event>, i: nat)
    requires i in Run(Init(ids), es).clients && Run(Init(ids), es).clients[i].Returned?
      && Run(Init(ids), es).clients[i].val == 0
    ensures var s := Run(Init(ids), es);
      s.clients[i].before <= |s.submitted| && s.submitted[..s.clients[i].before] <= s.carriedOut
  {
    hide Run, Init;
    InitInv(ids);
    RunKeeps(Init(ids), es);
  }

  /**
   * No deadlock: the holder of the lock can move; with the lock free and work or a waiting client left, the worker
   * can.
   */
  lemma SomebodyMoves(ids: set<nat>, es: seq<Event>)
    ensures var s := Run(Init(ids), es);
      && (s.holder == ByWorker ==> WorkerStep(s) != s)
      && (s.holder.ByClient? ==> s.holder.id in s.clients && ClientStep(s, s.holder.id) != s)
      && (s.holder.Free? && s.queue != [] ==> WorkerStep(s) != s)
      && (s.holder.Free? && (exists i :: i in s.clients && s.clients[i].StepWaiting?) ==> WorkerStep(s) != s)
  {
    hide Run, Init;
    InitInv(ids);
    RunKeeps(Init(ids), es);
    MovesFromInv(Run(Init(ids), es));
  }

  lemma MovesFromInv(s: State)
    requires Inv(s)
    ensures s.holder == ByWorker ==> WorkerStep(s) != s
    ensures s.holder.ByClient? ==> s.holder.id in s.clients && ClientStep(s, s.holder.id) != s
    ensures s.holder.Free? && s.queue != [] ==> WorkerStep(s) != s
    ensures s.holder.Free? && (exists i :: i in s.clients && s.clients[i].StepWaiting?) ==> WorkerStep(s) != s
  {
    if s.holder.ByClient? {
      var i := s.holder.id;
      assert ClientStep(s, i).clients[i] != s.clients[i];
    }
    assert !s.worker.WWaiting? ==> s.holder.Free? || s.holder == ByWorker ==> WorkerStep(s).worker != s.worker;
  }

  // ----- Whole calls, and what the worker gets done -----

  function Moves(id: nat, n: nat): (es: seq<Event>) {
    seq(n, _ => ClientMoves(id))
  }

  lemma MovesOne(s: State, id: nat, n: nat)
    requires n > 0 && id in s.clients
    ensures Run(s, Moves(id, n)) == Run(ClientStep(s, id), Moves(id, n - 1))
  {
    hide ClientStep;
    assert Moves(id, n)[1..] == Moves(id, n - 1);
  }

  lemma NoMoves(s: State, id: nat)
    ensures Run(s, Moves(id, 0)) == s
  {
  }

  /** With the lock free the counter tells the truth. */
  lemma FreeCounts(s: State)
    requires Inv(s) && s.holder.Free?
    ensures s.pending == |s.submitted| - |Completed(s)|
  {
    assert |s.submitted| == |s.carriedOut| + |Outstanding(s)|;
  }

  /**
   * A client that finds the lock free and is not disturbed submits its job in five moves: the job is the last one of
   * the queue and counted, the lock is free again, and a worker that slept has been woken.
   */
  lemma CreateSubmits(s: State, id: nat, job: Job)
    requires Inv(s) && s.holder.Free? && id in s.clients && s.clients[id].Idle?
    ensures var t := Run(Next(s, CallCreate(id, job)), Moves(id, 5));
      && t.submitted == s.submitted + [job] && t.carriedOut == s.carriedOut
      && t.queue == s.queue + [Node(|s.submitted|, job)] && t.pending == s.pending + 1
      && t.holder.Free? && t.clients == s.clients && !t.worker.WWaiting?
  {
    hide Run, Moves, Inv, Completed;
    var t0 := Next(s, CallCreate(id, job));
    var t1 := ClientStep(t0, id);
    var t2 := ClientStep(t1, id);
    var t3 := ClientStep(t2, id);
    var t4 := ClientStep(t3, id);
    var t5 := ClientStep(t4, id);
    MovesOne(t0, id, 5); MovesOne(t1, id, 4); MovesOne(t2, id, 3); MovesOne(t3, id, 2); MovesOne(t4, id, 1);
    NoMoves(t5, id);
    FreeCounts(s);
    assert t5.clients == s.clients[id := Idle];
  }

  /** Asking takes three moves and tells the number of jobs submitted and not completed. */
  lemma AskAnswers(s: State, id: nat)
    requires Inv(s) && s.holder.Free? && id in s.clients && s.clients[id].Idle?
    ensures var t := Run(Next(s, CallPending(id)), Moves(id, 3));
      t == s.(clients := s.clients[id := Returned(|s.submitted| - |Completed(s)|, |s.submitted|)])
  {
    hide Run, Moves, Inv, Completed;
    var t0 := Next(s, CallPending(id));
    var t1 := ClientStep(t0, id);
    var t2 := ClientStep(t1, id);
    var t3 := ClientStep(t2, id);
    MovesOne(t0, id, 3); MovesOne(t1, id, 2); MovesOne(t2, id, 1);
    NoMoves(t3, id);
    FreeCounts(s);
    assert t3.clients == s.clients[id := t3.clients[id]];
  }

  /** Waiting for a step with nothing left to do returns 0 in three moves; otherwise two moves lead into the wait. */
  lemma StepWaits(s: State, id: nat)
    requires Inv(s) && s.holder.Free? && id in s.clients && s.clients[id].Idle?
    ensures var left := |s.submitted| - |Completed(s)|; var t0 := Next(s, CallWaitStep(id));
      if left == 0 then Run(t0, Moves(id, 3)) == s.(clients := s.clients[id := Returned(0, |s.submitted|)])
      else Run(t0, Moves(id, 2)) == s.(clients := s.clients[id := StepWaiting])
  {
    hide Run, Moves, Inv, Completed;
    var t0 := Next(s, CallWaitStep(id));
    var t1 := ClientStep(t0, id);
    var t2 := ClientStep(t1, id);
    var t3 := ClientStep(t2, id);
    MovesOne(t0, id, 3); MovesOne(t1, id, 2); MovesOne(t2, id, 1);
    MovesOne(t0, id, 2); MovesOne(t1, id, 1);
    NoMoves(t2, id);
    NoMoves(t3, id);
    FreeCounts(s);
    assert t2.clients == s.clients[id := t2.clients[id]] && t3.clients == s.clients[id := t3.clients[id]];
  }

  /** A client that was woken returns, when it gets the lock, what is left then. */
  lemma WokenReturns(s: State, id: nat)
    requires Inv(s) && s.holder.Free? && id in s.clients && s.clients[id].StepWoken?
    ensures Run(s, Moves(id, 3))
      == s.(clients := s.clients[id := Returned(|s.submitted| - |Completed(s)|, |s.submitted|)])
  {
    hide Run, Moves, Inv, Completed;
    var t1 := ClientStep(s, id);
    var t2 := ClientStep(t1, id);
    var t3 := ClientStep(t2, id);
    MovesOne(s, id, 3); MovesOne(t1, id, 2); MovesOne(t2, id, 1);
    NoMoves(t3, id);
    FreeCounts(s);
    assert t3.clients == s.clients[id := t3.clients[id]];
  }

  function WorkerAlone(s: State, n: nat): (t: State)
    decreases n
  {
    if n == 0 then s else WorkerAlone(WorkerStep(s), n - 1)
  }

  lemma {:induction false} WorkerAloneIsRun(s: State, n: nat)
    ensures WorkerAlone(s, n) == Run(s, seq(n, _ => WorkerMoves))
    decreases n
  {
    hide WorkerStep;
    if n > 0 {
      WorkerAloneIsRun(WorkerStep(s), n - 1);
      assert seq(n, _ => WorkerMoves)[1..] == seq(n - 1, _ => WorkerMoves);
    }
  }

  /** Moves the worker still has to make until it sleeps, if nobody disturbs it. */
  function Remaining(s: State): (n: nat) {
    var jobs := 7 * |s.queue|;
    match s.worker
    case WStart => 2 + jobs
    case WLoop => 1 + jobs
    case WWaiting => 0
    case WWoken => 4 + jobs
    case WAwake => 3 + jobs
    case WRelock => 2 + jobs
    case WPicked(_) => jobs
    case WWorking(_) => if jobs > 0 then jobs - 1 else 0
    case WWorked(_) => if jobs > 0 then jobs - 2 else 0
    case WDelete(_) => if jobs > 0 then jobs - 3 else 0
    case WDecrement => 3 + jobs
    case WBroadcast => 2 + jobs
  }

  lemma WorkerProgresses(s: State)
    requires Inv(s) && !s.holder.ByClient?
    ensures var t := WorkerStep(s);
      !t.holder.ByClient? && t.submitted == s.submitted && t.clients.Keys == s.clients.Keys
    ensures !s.worker.WWaiting? ==> Remaining(WorkerStep(s)) < Remaining(s)
  {
    if s.worker.WDelete? { UnlinkHead(s.queue, s.worker.node); }
  }

  /**
   * Left to itself, with no client inside a critical section, the worker carries out every job submitted, counts down
   * to zero and wakes every client that waits for a step, in Remaining(s) moves.
   */
  lemma {:induction false} WorkerFinishes(s: State)
    requires Inv(s) && !s.holder.ByClient?
    ensures var t := WorkerAlone(s, Remaining(s));
      && t.submitted == s.submitted == t.carriedOut && t.queue == [] && t.pending == 0 && t.holder.Free?
      && t.worker.WWaiting? && t.clients.Keys == s.clients.Keys
      && forall i :: i in t.clients ==> !t.clients[i].StepWaiting?
    decreases Remaining(s)
  {
    hide WorkerStep, Remaining;
    if s.worker.WWaiting? {
      AsleepIsDone(s);
    } else {
      WorkerProgresses(s);
      WorkerKeeps(s);
      WorkerFinishes(WorkerStep(s));
      assert Remaining(s) > 0;
      WorkerMore(WorkerStep(s), Remaining(WorkerStep(s)), Remaining(s) - 1);
    }
  }

  lemma AsleepIsDone(s: State)
    requires Inv(s) && s.worker.WWaiting? && !s.holder.ByClient?
    ensures Remaining(s) == 0 && s.holder.Free? && s.queue == [] && s.pending == 0 && s.carriedOut == s.submitted
    ensures forall i :: i in s.clients ==> !s.clients[i].StepWaiting?
  {
  }

  /** A worker that sleeps stays asleep. */
  lemma {:induction false} WorkerMore(s: State, n: nat, m: nat)
    requires n <= m && WorkerAlone(s, n).worker.WWaiting?
    ensures WorkerAlone(s, m) == WorkerAlone(s, n)
    decreases m
  {
    hide WorkerStep;
    if n > 0 {
      WorkerMore(WorkerStep(s), n - 1, m - 1);
    } else if m > 0 {
      assert WorkerStep(s) == s by { Sleeps(s); }
      WorkerMore(s, 0, m - 1);
    }
  }

  lemma Sleeps(s: State)
    requires s.worker.WWaiting?
    ensures WorkerStep(s) == s
  {
  }
}
