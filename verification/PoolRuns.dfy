/** What the pool guarantees after any schedule of its threads: every task runs on one worker, at
    most once, and the only states in which nobody can move are those where every task has run. */
module PoolRuns {
  import opened Arithmetic
  import opened PoolProtocol

  datatype Move = Assign(a: Tid) | Dispatch | Work(j: int)

  function Next(s: Pool, m: Move): Pool
  {
    match m
    case Assign(a) => AssignerStep(s, a)
    case Dispatch => if Shape(s) then DispatcherStep(s) else s
    case Work(j) => if 0 <= j < |s.workers| then WorkerStep(s, j) else s
  }

  function Exec(s: Pool, run: seq<Move>): Pool
  {
    if run == [] then s else Next(Exec(s, run[..|run| - 1]), run[|run| - 1])
  }

  ghost predicate Reachable(s: Pool)
  {
    exists n: nat, run :: n > 0 && s == Exec(Start(n), run)
  }

  lemma NextKeeps(s: Pool, m: Move)
    requires Inv(s)
    ensures Inv(Next(s, m))
  {
    assert Shape(s);
    hide Inv;
    match m
    case Assign(a) => AssignerKeeps(s, a);
    case Dispatch => DispatcherKeeps(s);
    case Work(j) => if 0 <= j < |s.workers| { WorkerKeeps(s, j); }
  }

  lemma {:induction false} RunKeeps(s: Pool, run: seq<Move>)
    requires Inv(s)
    ensures Inv(Exec(s, run))
  {
    if run != [] {
      RunKeeps(s, run[..|run| - 1]);
      NextKeeps(Exec(s, run[..|run| - 1]), run[|run| - 1]);
    }
  }

  lemma ExecNone(s: Pool)
    ensures Exec(s, []) == s
  {
  }

  lemma ExecOn(s: Pool, run: seq<Move>, m: Move)
    ensures Exec(s, run + [m]) == Next(Exec(s, run), m)
  {
    assert (run + [m])[..|run|] == run;
  }

  lemma {:induction false} ExecJoin(s: Pool, first: seq<Move>, rest: seq<Move>)
    ensures Exec(s, first + rest) == Exec(Exec(s, first), rest)
  {
    if rest == [] {
      assert first + rest == first;
    } else {
      assert (first + rest)[..|first + rest| - 1] == first + rest[..|rest| - 1];
      ExecJoin(s, first, rest[..|rest| - 1]);
    }
  }

  lemma ReachableInv(s: Pool)
    requires Reachable(s)
    ensures Inv(s)
  {
    var n: nat, run :| n > 0 && s == Exec(Start(n), run);
    StartInv(n);
    RunKeeps(Start(n), run);
  }

  // ----- each task once, on one worker

  /** The dispatcher gives a task only to a worker that holds none and is blocked at its gate, and
      only a task that has been given to nobody. */
  lemma GivenOnlyWhenFree(s: Pool)
    requires Reachable(s) && s.dispatcher.Give?
    ensures 0 <= s.dispatcher.j < |s.workers|
    ensures var w := s.workers[s.dispatcher.j]; w.task == None && w.at == Waiting && w.flag == 0
    ensures s.dispatcher.t !in s.givenTo && s.dispatcher.t !in s.ranOn
  {
    ReachableInv(s);
    assert WorkerOk(s, s.dispatcher.j) && TaskOk(s, s.dispatcher.t);
  }

  /** A worker past its gate finds a task, the one it was given, which nobody has started. */
  lemma StartsOnce(s: Pool, j: int)
    requires Reachable(s) && 0 <= j < |s.workers| && s.workers[j].at == Awake
    ensures s.workers[j].task.Some? && s.workers[j].task.value !in s.ranOn
    ensures Next(s, Work(j)).ranOn == s.ranOn[s.workers[j].task.value := j]
  {
    ReachableInv(s);
    assert WorkerOk(s, j);
  }

  /** No two workers ever hold the same task. */
  lemma OneHolder(s: Pool, i: int, j: int)
    requires Reachable(s) && 0 <= i < |s.workers| && 0 <= j < |s.workers|
    requires s.workers[i].task.Some? && s.workers[i].task == s.workers[j].task
    ensures i == j
  {
    ReachableInv(s);
    var t := s.workers[i].task.value;
    assert WorkerOk(s, i) && WorkerOk(s, j) && TaskOk(s, t);
  }

  /** Once a task has been given to a worker, or started by one, that never changes. */
  lemma HistoriesOnlyGrow(s: Pool, m: Move, t: int)
    requires Inv(s)
    ensures t in s.givenTo ==> t in Next(s, m).givenTo && Next(s, m).givenTo[t] == s.givenTo[t]
    ensures t in s.ranOn ==> t in Next(s, m).ranOn && Next(s, m).ranOn[t] == s.ranOn[t]
  {
    assert TaskOk(s, Busy(s));
    match m
    case Assign(a) =>
    case Dispatch => if AtWorkers(s.dispatcher) { HandingHistory(s, t); } else { QueueHistory(s); }
    case Work(j) => if 0 <= j < |s.workers| { WorkerHistory(s, j, t); }
  }

  lemma HandingHistory(s: Pool, t: int)
    requires Shape(s) && AtWorkers(s.dispatcher) && TaskOk(s, Busy(s))
    ensures t in s.givenTo ==> t in HandingStep(s).givenTo && HandingStep(s).givenTo[t] == s.givenTo[t]
    ensures HandingStep(s).ranOn == s.ranOn
  {
  }

  lemma QueueHistory(s: Pool)
    requires !AtWorkers(s.dispatcher)
    ensures QueueStep(s).givenTo == s.givenTo && QueueStep(s).ranOn == s.ranOn
  {
  }

  lemma WorkerHistory(s: Pool, j: int, t: int)
    requires 0 <= j < |s.workers| && WorkerOk(s, j)
    ensures WorkerStep(s, j).givenTo == s.givenTo
    ensures t in s.ranOn ==> t in WorkerStep(s, j).ranOn && WorkerStep(s, j).ranOn[t] == s.ranOn[t]
  {
  }

  // Given to a worker that has not started it
  predicate WaitsAtWorker(s: Pool, t: int)
  {
    t in s.givenTo && t !in s.ranOn && 0 <= s.givenTo[t] < |s.workers| && s.workers[s.givenTo[t]].task == Some(t)
  }

  /** An assigned task is in exactly one place: the queue, the dispatcher's hands, its worker's
      hands, or started; none is lost and none is doubled. */
  lemma OnePlace(s: Pool, t: int)
    requires Reachable(s) && 0 <= t < s.written
    ensures One(s.read <= t) + One(InHand(s, t)) + One(WaitsAtWorker(s, t)) + One(t in s.ranOn) == 1
  {
    ReachableInv(s);
    assert TaskOk(s, t);
  }

  // The published tasks that have not been taken out again
  predicate TasksFit(s: Pool)
  {
    forall t :: t in s.published ==> t < (if s.dispatcher.Await? then s.read - 1 else s.read) + 1024
  }

  lemma NextFits(s: Pool, m: Move)
    requires TasksFit(s)
    ensures TasksFit(Next(s, m))
  {
    match m
    case Assign(a) =>
    case Dispatch =>
      if Shape(s) { if AtWorkers(s.dispatcher) { HandingFits(s); } else { QueueFits(s); } }
    case Work(j) =>
  }

  lemma HandingFits(s: Pool)
    requires Shape(s) && AtWorkers(s.dispatcher) && TasksFit(s)
    ensures TasksFit(HandingStep(s))
  {
  }

  lemma QueueFits(s: Pool)
    requires !AtWorkers(s.dispatcher) && TasksFit(s)
    ensures TasksFit(QueueStep(s))
  {
  }

  lemma {:induction false} RunFits(s: Pool, run: seq<Move>)
    requires TasksFit(s)
    ensures TasksFit(Exec(s, run))
  {
    if run != [] {
      RunFits(s, run[..|run| - 1]);
      hide TasksFit;
      NextFits(Exec(s, run[..|run| - 1]), run[|run| - 1]);
    }
  }

  /** However many tasks are assigned, a published one is never 1024 places or more ahead of the oldest
      that is still in the queue. */
  lemma QueueNeverOverruns(s: Pool, t: int)
    requires Reachable(s) && t in s.published
    ensures t < (if s.dispatcher.Await? then s.read - 1 else s.read) + 1024
  {
    var n: nat, run :| n > 0 && s == Exec(Start(n), run);
    RunFits(Start(n), run);
  }

  // ----- no lost wakeup

  /** A queued task means the dispatcher is awake, its gate is open, or the very thread that
      assigned this task is still about to open it. */
  lemma NoLostWakeup(s: Pool, t: int)
    requires Reachable(s) && s.read <= t < s.written
    ensures s.dispatcher != AtGate || s.gate == 1 || Pending(s, t)
  {
    ReachableInv(s);
    assert TaskOk(s, t);
  }

  // No thread inside an assignment, and none of the pool's own, has a step that changes anything
  ghost predicate Stuck(s: Pool)
    requires Shape(s)
  {
    && (forall a :: AssignerAt(s, a) == Away || AssignerStep(s, a) == s)
    && DispatcherStep(s) == s
    && (forall j :: 0 <= j < |s.workers| ==> WorkerStep(s, j) == s)
  }

  // A busy worker that nobody is handing a task to can move
  lemma BusyWorkerMoves(s: Pool, j: int)
    requires 0 <= j < |s.workers| && WorkerOk(s, j) && s.workers[j].poolFlag != 0
    requires !Claimed(s, j) && !Given(s, j)
    ensures WorkerStep(s, j) != s
  {
    var w := s.workers[j];
    assert WorkerStep(s, j).workers[j] != w;
  }

  // An assigner that cannot move waits for room in the queue
  lemma StuckAssigner(s: Pool, a: Tid)
    requires Shape(s) && Stuck(s)
    ensures AssignerAt(s, a).Away? || (AssignerAt(s, a).Enqueuing? && !HasRoom(s, AssignerAt(s, a).t))
  {
    if !AssignerAt(s, a).Away? {
      assert AssignerStep(s, a).assigners == s.assigners;
    }
  }

  lemma DispatcherStuckAtGate(s: Pool)
    requires Inv(s) && Stuck(s)
    ensures s.dispatcher == AtGate && s.gate == 0
  {
    assert TaskOk(s, Busy(s));
    if Busy(s) in s.owner { StuckAssigner(s, s.owner[Busy(s)]); }
    match s.dispatcher
    case Try(t) =>
      assert WorkerOk(s, s.id);
      if s.workers[s.id].poolFlag != 0 { BusyWorkerMoves(s, s.id); }
    case _ =>
  }

  /** Deadlock freedom: when nothing can move, every assigned task has been started, every worker is
      idle, and no assigner is left waiting for room in the queue. */
  lemma StuckMeansDone(s: Pool, t: int)
    requires Reachable(s) && Shape(s) && Stuck(s)
    ensures s.dispatcher == AtGate && s.read == s.written && AssignerAt(s, t) == Away
    ensures 0 <= t < s.written ==> t in s.ranOn
    ensures 0 <= t < |s.workers| ==> Idle(s.workers[t])
  {
    ReachableInv(s);
    DispatcherStuckAtGate(s);
    assert TaskOk(s, s.read);
    if s.read in s.owner { StuckAssigner(s, s.owner[s.read]); }
    StuckAssigner(s, t);
    assert AssignerOk(s, t);
    assert TaskOk(s, t);
    if 0 <= t < |s.workers| { StuckWorkerIsIdle(s, t); }
    if 0 <= t < s.written && t !in s.ranOn { StuckWorkerIsIdle(s, s.givenTo[t]); }
  }

  lemma StuckWorkerIsIdle(s: Pool, j: int)
    requires Inv(s) && Stuck(s) && s.dispatcher == AtGate && 0 <= j < |s.workers|
    ensures Idle(s.workers[j])
  {
    assert WorkerOk(s, j);
    if s.workers[j].poolFlag != 0 { BusyWorkerMoves(s, j); }
  }
}
