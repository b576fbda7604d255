/** The thread pool's dispatcher, its workers and the threads that assign tasks, as interleaved
    atomic steps. A task is named by its write ticket in the queue. A gate is a flag: waiting is
    being blocked until it is 1. The fields from `owner` on are histories that no step looks at. */
module PoolProtocol {
  type Tid = int

  datatype Option<T> = None | Some(value: T)

  // assignTask: enqueue, then open the dispatcher's gate
  datatype Assigner =
    | Away
    | Enqueuing(t: int)     // drew ticket t, has not published the task
    | Signalling(t: int)    // published, about to open the gate

  datatype Dispatcher =
    | AtGate
    | CheckQueue            // head of the inner loop
    | Draw                  // about to start dequeue()
    | Await(t: int)         // holds read ticket t, until the task is published
    | Try(t: int)           // about to compare-exchange the pool flag of worker `id`
    | Give(t: int, j: int)  // claimed worker j: about to store its task
    | Open(j: int)          // about to open worker j's gate
    | CheckAgain            // after the inner loop
    | Reset
    | Recheck
    | Reopen

  datatype WorkerAt =
    | Waiting               // blocked on its own gate
    | Awake                 // past the gate, about to look at its task
    | Running(t: int)
    | Clearing              // the task has returned
    | Resetting             // about to close its gate
    | Freeing               // about to clear its pool flag

  datatype Worker = Worker(flag: int, poolFlag: int, task: Option<int>, at: WorkerAt)

  datatype Pool = Pool(
    written: int,           // writeTicket and readTicket of the task queue
    read: int,
    published: set<int>,
    gate: int,
    assigners: map<Tid, Assigner>,
    dispatcher: Dispatcher,
    id: int,
    workers: seq<Worker>,
    owner: map<int, Tid>,       // who assigned each task
    givenTo: map<int, int>,     // which worker it was given to
    ranOn: map<int, int>)       // which worker has started it

  function AssignerAt(s: Pool, a: Tid): Assigner
  {
    if a in s.assigners then s.assigners[a] else Away
  }

  function Start(n: nat): Pool
  {
    Pool(0, 0, {}, 0, map[], AtGate, 0, seq(n, _ => Worker(0, 0, None, Waiting)), map[], map[], map[])
  }

  predicate Shape(s: Pool)
  {
    && 0 <= s.id < |s.workers|
    && (s.dispatcher.Give? ==> 0 <= s.dispatcher.j < |s.workers|)
    && (s.dispatcher.Open? ==> 0 <= s.dispatcher.j < |s.workers|)
  }

  // ----- steps

  const TASK_QUEUE := 1024

  // Tickets whose place in the queue has been read and freed
  function Freed(s: Pool): int
  {
    if s.dispatcher.Await? then s.read - 1 else s.read
  }

  // Its place in the queue is free: the task of one lap earlier has been taken out
  predicate HasRoom(s: Pool, t: int)
  {
    t < Freed(s) + TASK_QUEUE
  }

  function AssignerStep(s: Pool, a: Tid): Pool
  {
    match AssignerAt(s, a)
    case Away =>
      s.(written := s.written + 1,
         owner := s.owner[s.written := a],
         assigners := s.assigners[a := Enqueuing(s.written)])
    case Enqueuing(t) =>
      if HasRoom(s, t) then s.(published := s.published + {t}, assigners := s.assigners[a := Signalling(t)]) else s
    case Signalling(t) => s.(gate := 1, assigners := s.assigners[a := Away])
  }

  function SetWorker(s: Pool, j: int, w: Worker): Pool
    requires 0 <= j < |s.workers|
  {
    s.(workers := s.workers[j := w])
  }

  // Round robin: the next worker, whether or not this one could be claimed
  function TryWorker(s: Pool, t: int): Pool
    requires Shape(s)
  {
    var w, next := s.workers[s.id], (s.id + 1) % |s.workers|;
    if w.poolFlag == 0 then SetWorker(s, s.id, w.(poolFlag := 1)).(dispatcher := Give(t, s.id), id := next)
    else s.(id := next)
  }

  function GiveTask(s: Pool, t: int, j: int): Pool
    requires 0 <= j < |s.workers|
  {
    SetWorker(s, j, s.workers[j].(task := Some(t))).(dispatcher := Open(j), givenTo := s.givenTo[t := j])
  }

  predicate AtWorkers(d: Dispatcher)
  {
    d.Try? || d.Give? || d.Open?
  }

  // Giving a task to a worker
  function HandingStep(s: Pool): Pool
    requires Shape(s) && AtWorkers(s.dispatcher)
  {
    match s.dispatcher
    case Try(t) => TryWorker(s, t)
    case Give(t, j) => GiveTask(s, t, j)
    case Open(j) => SetWorker(s, j, s.workers[j].(flag := 1)).(dispatcher := CheckQueue)
  }

  // Following the queue and the gate
  function QueueStep(s: Pool): Pool
    requires !AtWorkers(s.dispatcher)
  {
    match s.dispatcher
    case AtGate => if s.gate == 1 then s.(dispatcher := CheckQueue) else s
    case CheckQueue => s.(dispatcher := if s.written == s.read then CheckAgain else Draw)
    case Draw => s.(read := s.read + 1, dispatcher := Await(s.read))
    case Await(t) => if t in s.published then s.(dispatcher := Try(t)) else s
    case CheckAgain => s.(dispatcher := if s.written == s.read then Reset else AtGate)
    case Reset => s.(gate := 0, dispatcher := Recheck)
    case Recheck => s.(dispatcher := if s.written == s.read then AtGate else Reopen)
    case Reopen => s.(gate := 1, dispatcher := AtGate)
  }

  function DispatcherStep(s: Pool): Pool
    requires Shape(s)
  {
    if AtWorkers(s.dispatcher) then HandingStep(s) else QueueStep(s)
  }

  function WorkerStep(s: Pool, j: int): Pool
    requires 0 <= j < |s.workers|
  {
    var w := s.workers[j];
    match w.at
    case Waiting => if w.flag == 1 then SetWorker(s, j, w.(at := Awake)) else s
    case Awake =>
      if w.task == None then SetWorker(s, j, w.(at := Waiting))
      else SetWorker(s, j, w.(at := Running(w.task.value))).(ranOn := s.ranOn[w.task.value := j])
    case Running(t) => SetWorker(s, j, w.(at := Clearing))
    case Clearing => SetWorker(s, j, w.(task := None, at := Resetting))
    case Resetting => SetWorker(s, j, w.(flag := 0, at := Freeing))
    case Freeing => SetWorker(s, j, w.(poolFlag := 0, at := Waiting))
  }

  // ----- the invariant

  predicate Idle(w: Worker)
  {
    w.flag == 0 && w.task == None && w.at == Waiting
  }

  predicate Claimed(s: Pool, j: int)
  {
    s.dispatcher.Give? && s.dispatcher.j == j
  }

  predicate Given(s: Pool, j: int)
  {
    s.dispatcher.Open? && s.dispatcher.j == j
  }

  // Task t was given to worker j, which has not started it
  predicate Fresh(s: Pool, j: int, task: Option<int>)
  {
    task.Some? && task.value in s.givenTo && s.givenTo[task.value] == j && task.value !in s.ranOn
  }

  predicate Started(s: Pool, j: int, task: Option<int>)
  {
    task.Some? && task.value in s.ranOn && s.ranOn[task.value] == j
  }

  predicate WorkerOk(s: Pool, j: int)
    requires 0 <= j < |s.workers|
  {
    var w := s.workers[j];
    if w.poolFlag == 0 then Idle(w) && !Claimed(s, j) && !Given(s, j)
    else if Claimed(s, j) then w.poolFlag == 1 && Idle(w)
    else if Given(s, j) then w.poolFlag == 1 && w.flag == 0 && w.at == Waiting && Fresh(s, j, w.task)
    else w.poolFlag == 1 &&
         match w.at
         case Waiting => w.flag == 1 && Fresh(s, j, w.task)
         case Awake => w.flag == 1 && Fresh(s, j, w.task)
         case Running(t) => w.flag == 1 && w.task == Some(t) && Started(s, j, w.task)
         case Clearing => w.flag == 1 && Started(s, j, w.task)
         case Resetting => w.flag == 1 && w.task == None
         case Freeing => w.flag == 0 && w.task == None
  }

  // The dispatcher holds ticket t, which nobody has been given yet
  predicate InHand(s: Pool, t: int)
  {
    (s.dispatcher.Await? || s.dispatcher.Try? || s.dispatcher.Give?) && s.dispatcher.t == t
  }

  // Its assigner has not signalled yet
  predicate Pending(s: Pool, t: int)
  {
    t in s.owner && AssignerAt(s, s.owner[t]) in {Enqueuing(t), Signalling(t)}
  }

  predicate TaskOk(s: Pool, t: int)
  {
    && (t in s.published ==> 0 <= t < s.written)
    && (0 <= t < s.written && t !in s.published ==> t in s.owner && AssignerAt(s, s.owner[t]) == Enqueuing(t))
    && (t in s.givenTo <==> 0 <= t < s.read && !InHand(s, t))
    && (t in s.ranOn ==> t in s.givenTo && s.ranOn[t] == s.givenTo[t])
    && (t in s.givenTo && t !in s.ranOn ==> 0 <= s.givenTo[t] < |s.workers| && s.workers[s.givenTo[t]].task == Some(t))
    && (InHand(s, t) ==> 0 <= t < s.read)
    // No wakeup is lost: a closed gate that the dispatcher waits at will be opened for this task
    && (s.read <= t < s.written && s.dispatcher == AtGate && s.gate == 0 ==> Pending(s, t))
  }

  predicate AssignerOk(s: Pool, a: Tid)
  {
    match AssignerAt(s, a)
    case Away => true
    case Enqueuing(t) => 0 <= t < s.written && t in s.owner && s.owner[t] == a && t !in s.published
    case Signalling(t) => 0 <= t < s.written && t in s.owner && s.owner[t] == a && t in s.published
  }

  predicate GateOk(s: Pool)
  {
    && (s.gate == 0 || s.gate == 1)
    && (s.gate == 0 ==> s.dispatcher.AtGate? || s.dispatcher.Recheck? || s.dispatcher.Reopen?)
    && 0 <= s.read <= s.written
    && (s.dispatcher.Draw? ==> s.read < s.written)
  }

  ghost predicate Inv(s: Pool)
  {
    && Shape(s) && GateOk(s)
    && (forall j :: 0 <= j < |s.workers| ==> WorkerOk(s, j))
    && (forall t :: TaskOk(s, t))
    && (forall a :: AssignerOk(s, a))
  }

  // ----- every step keeps it

  lemma StartInv(n: nat)
    requires n > 0
    ensures Inv(Start(n))
  {
  }

  lemma AssignerTask(s: Pool, a: Tid, t: int)
    requires GateOk(s) && TaskOk(s, t) && AssignerOk(s, a)
    ensures TaskOk(AssignerStep(s, a), t)
  {
  }

  lemma AssignerAssigner(s: Pool, a: Tid, b: Tid)
    requires GateOk(s) && TaskOk(s, s.written) && AssignerOk(s, a) && AssignerOk(s, b)
    ensures AssignerOk(AssignerStep(s, a), b)
  {
  }

  lemma AssignerKeeps(s: Pool, a: Tid)
    requires Inv(s)
    ensures Inv(AssignerStep(s, a))
  {
    var s' := AssignerStep(s, a);
    assert GateOk(s');
    forall j | 0 <= j < |s'.workers|
      ensures WorkerOk(s', j)
    {
      assert WorkerOk(s, j);
    }
    hide TaskOk;
    hide AssignerOk;
    hide AssignerStep;
    forall t
      ensures TaskOk(s', t)
    {
      AssignerTask(s, a, t);
    }
    forall b
      ensures AssignerOk(s', b)
    {
      AssignerAssigner(s, a, b);
    }
  }

  // The ticket the dispatcher is busy with, or the next one it will draw
  function Busy(s: Pool): int
  {
    match s.dispatcher
    case Await(t) => t
    case Try(t) => t
    case Give(t, j) => t
    case _ => s.read
  }

  lemma HandingWorker(s: Pool, j: int)
    requires Shape(s) && AtWorkers(s.dispatcher) && 0 <= j < |s.workers| && WorkerOk(s, j) && TaskOk(s, Busy(s))
    requires s.dispatcher.Try? ==> WorkerOk(s, s.id)
    ensures WorkerOk(HandingStep(s), j)
  {
  }

  lemma HandingTask(s: Pool, t: int)
    requires Shape(s) && AtWorkers(s.dispatcher) && TaskOk(s, t) && TaskOk(s, Busy(s))
    requires s.dispatcher.Try? ==> WorkerOk(s, s.id)
    requires s.dispatcher.Give? || s.dispatcher.Open? ==> WorkerOk(s, s.dispatcher.j)
    ensures TaskOk(HandingStep(s), t)
  {
  }

  lemma HandingShape(s: Pool)
    requires Shape(s) && AtWorkers(s.dispatcher) && GateOk(s)
    ensures Shape(HandingStep(s)) && |HandingStep(s).workers| == |s.workers|
    ensures GateOk(HandingStep(s)) && SameAssigners(s, HandingStep(s))
  {
  }

  lemma QueueWorker(s: Pool, j: int)
    requires !AtWorkers(s.dispatcher) && 0 <= j < |s.workers| && WorkerOk(s, j)
    ensures WorkerOk(QueueStep(s), j)
  {
  }

  lemma DrawTask(s: Pool, t: int)
    requires s.dispatcher.Draw? && GateOk(s) && TaskOk(s, t)
    ensures TaskOk(QueueStep(s), t)
  {
  }

  lemma QueueTask(s: Pool, t: int)
    requires !AtWorkers(s.dispatcher) && !s.dispatcher.Draw? && GateOk(s) && TaskOk(s, t)
    ensures TaskOk(QueueStep(s), t)
  {
  }

  lemma QueueShape(s: Pool)
    requires Shape(s) && !AtWorkers(s.dispatcher) && GateOk(s)
    ensures Shape(QueueStep(s)) && |QueueStep(s).workers| == |s.workers| && GateOk(QueueStep(s))
  {
  }

  lemma QueueAssigners(s: Pool)
    requires !AtWorkers(s.dispatcher)
    ensures SameAssigners(s, QueueStep(s))
  {
  }

  predicate SameAssigners(s: Pool, s': Pool)
  {
    s'.assigners == s.assigners && s'.written == s.written && s'.owner == s.owner && s'.published == s.published
  }

  lemma DispatcherKeeps(s: Pool)
    requires Inv(s)
    ensures Inv(DispatcherStep(s))
  {
    if AtWorkers(s.dispatcher) { HandingShape(s); } else { QueueShape(s); QueueAssigners(s); }
    var s' := DispatcherStep(s);
    hide HandingStep;
    hide QueueStep;
    hide WorkerOk;
    hide TaskOk;
    hide GateOk;
    forall j | 0 <= j < |s'.workers|
      ensures WorkerOk(s', j)
    {
      if AtWorkers(s.dispatcher) { HandingWorker(s, j); } else { QueueWorker(s, j); }
    }
    forall t
      ensures TaskOk(s', t)
    {
      if AtWorkers(s.dispatcher) { HandingTask(s, t); }
      else if s.dispatcher.Draw? { DrawTask(s, t); }
      else { QueueTask(s, t); }
    }
    forall a
      ensures AssignerOk(s', a)
    {
      assert AssignerOk(s, a);
    }
  }

  lemma WorkerWorker(s: Pool, i: int, j: int)
    requires 0 <= i < |s.workers| && 0 <= j < |s.workers| && WorkerOk(s, i) && WorkerOk(s, j)
    ensures WorkerOk(WorkerStep(s, i), j)
  {
  }

  lemma WorkerTask(s: Pool, i: int, t: int)
    requires 0 <= i < |s.workers| && WorkerOk(s, i) && TaskOk(s, t)
    ensures TaskOk(WorkerStep(s, i), t)
  {
  }

  lemma WorkerShape(s: Pool, i: int)
    requires Shape(s) && GateOk(s) && 0 <= i < |s.workers|
    ensures Shape(WorkerStep(s, i)) && GateOk(WorkerStep(s, i)) && |WorkerStep(s, i).workers| == |s.workers|
  {
  }

  lemma WorkerAssigners(s: Pool, i: int)
    requires 0 <= i < |s.workers|
    ensures SameAssigners(s, WorkerStep(s, i))
  {
  }

  lemma WorkerKeeps(s: Pool, i: int)
    requires Inv(s) && 0 <= i < |s.workers|
    ensures Inv(WorkerStep(s, i))
  {
    WorkerShape(s, i);
    WorkerAssigners(s, i);
    var s' := WorkerStep(s, i);
    hide WorkerOk;
    hide TaskOk;
    hide WorkerStep;
    hide GateOk;
    forall j | 0 <= j < |s'.workers|
      ensures WorkerOk(s', j)
    {
      WorkerWorker(s, i, j);
    }
    forall t
      ensures TaskOk(s', t)
    {
      WorkerTask(s, i, t);
    }
    forall a
      ensures AssignerOk(s', a)
    {
      assert AssignerOk(s, a);
    }
  }
}
