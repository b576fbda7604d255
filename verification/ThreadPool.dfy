/** The pool's storage and the atomic accesses of assignTask, taskDispatcher and the worker loop,
    one method each. Every method is one step of the machine in PoolProtocol.dfy, so any
    interleaving of the threads' calls is one of its runs. */
module ThreadPools {
  import opened Arithmetic
  import opened PoolProtocol
  import opened PoolRuns

  // Workers whose pool flag is clear
  function FreeWorkers(ws: seq<Worker>): nat
  {
    if ws == [] then 0
    else FreeWorkers(ws[..|ws| - 1]) + if ws[|ws| - 1].poolFlag == 0 then 1 else 0
  }

  lemma {:induction false} SomeFree(ws: seq<Worker>) returns (i: int)
    requires FreeWorkers(ws) > 0
    ensures 0 <= i < |ws| && ws[i].poolFlag == 0
  {
    if ws[|ws| - 1].poolFlag == 0 {
      i := |ws| - 1;
    } else {
      i := SomeFree(ws[..|ws| - 1]);
    }
  }

  lemma {:induction false} OneFewerFree(ws: seq<Worker>, j: int, w: Worker)
    requires 0 <= j < |ws| && ws[j].poolFlag == 0 && w.poolFlag != 0
    ensures FreeWorkers(ws[j := w]) == FreeWorkers(ws) - 1
  {
    var n := |ws| - 1;
    if j == n {
      assert ws[j := w][..n] == ws[..n];
    } else {
      assert ws[j := w][..n] == ws[..n][j := w];
      OneFewerFree(ws[..n], j, w);
    }
  }

  lemma ClaimedFree(s: Pool, j: int)
    requires Inv(s) && 0 <= j < |s.workers| && s.workers[j].poolFlag == 0
    ensures s.workers[j] == Worker(0, 0, None, Waiting)
  {
    assert WorkerOk(s, j);
  }

  lemma SixTurns(s: Pool, m: Move)
    ensures Exec(s, [m, m, m, m, m, m]) == Next(Next(Next(Next(Next(Next(s, m), m), m), m), m), m)
  {
    hide Next;
    ExecNone(s);
    ExecOn(s, [], m);
    ExecOn(s, [m], m);
    ExecOn(s, [m, m], m);
    ExecOn(s, [m, m, m], m);
    ExecOn(s, [m, m, m, m], m);
    ExecOn(s, [m, m, m, m, m], m);
    hide Exec;
    assert [] + [m] == [m] && [m] + [m] == [m, m] && [m, m] + [m] == [m, m, m];
    assert [m, m, m] + [m] == [m, m, m, m] && [m, m, m, m] + [m] == [m, m, m, m, m];
    assert [m, m, m, m, m] + [m] == [m, m, m, m, m, m];
  }

  // How many workers further round b is than a
  function Distance(a: int, b: int, n: int): int
  {
    if a <= b then b - a else b + n - a
  }

  // Going round from a, every worker before b is busy
  predicate BusyBefore(a: int, b: int, ws: seq<Worker>)
  {
    forall i :: 0 <= i < |ws| && Distance(a, i, |ws|) < Distance(a, b, |ws|) ==> ws[i].poolFlag != 0
  }

  lemma NoneBefore(a: int, ws: seq<Worker>)
    requires 0 <= a < |ws|
    ensures BusyBefore(a, a, ws)
  {
  }

  lemma DistanceBounds(a: int, b: int, n: int)
    requires 0 <= a < n && 0 <= b < n
    ensures Distance(a, a, n) == 0 <= Distance(a, b, n) < n
  {
  }

  // Past one more busy worker, not beyond a free one
  lemma OneFurther(a: int, j: int, free: int, ws: seq<Worker>)
    requires 0 <= a < |ws| && 0 <= j < |ws| && 0 <= free < |ws|
    requires BusyBefore(a, j, ws) && ws[j].poolFlag != 0 && ws[free].poolFlag == 0
    requires Distance(a, j, |ws|) <= Distance(a, free, |ws|)
    ensures var next := (j + 1) % |ws|;
            && 0 <= next < |ws| && BusyBefore(a, next, ws)
            && Distance(a, next, |ws|) == Distance(a, j, |ws|) + 1 <= Distance(a, free, |ws|)
  {
    var n := |ws|;
    if j + 1 == n { UniqueRemainder(n, n, 1, 0); } else { UniqueRemainder(j + 1, n, 0, j + 1); }
  }

  // A scan that began at `s` and has passed over busy workers only, none of them beyond a free one
  ghost predicate Scanning(s: Pool, p: Pool, ticket: int, free: int)
  {
    && p.dispatcher == Try(ticket) && p.workers == s.workers
    && 0 <= s.id < |s.workers| && 0 <= p.id < |s.workers| && BusyBefore(s.id, p.id, s.workers)
    && 0 <= free < |s.workers| && s.workers[free].poolFlag == 0
    && Distance(s.id, p.id, |s.workers|) <= Distance(s.id, free, |s.workers|)
  }

  // It ended at the first free worker
  ghost predicate FirstFree(s: Pool, p: Pool, ticket: int, j: int)
  {
    && 0 <= s.id < |s.workers| && 0 <= j < |s.workers|
    && BusyBefore(s.id, j, s.workers) && s.workers[j].poolFlag == 0
    && p.dispatcher == Give(ticket, j) && p.id == (j + 1) % |s.workers|
    && p.workers == s.workers[j := s.workers[j].(poolFlag := 1)]
  }

  lemma ScanStarts(s: Pool, ticket: int, free: int)
    requires Shape(s) && s.dispatcher == Try(ticket)
    requires 0 <= free < |s.workers| && s.workers[free].poolFlag == 0
    ensures Scanning(s, s, ticket, free)
  {
    NoneBefore(s.id, s.workers);
    DistanceBounds(s.id, free, |s.workers|);
  }

  // One more exchange: it claims the worker, or the scan comes nearer to a free one
  lemma ScanOn(s: Pool, p: Pool, p': Pool, ticket: int, free: int)
    requires Scanning(s, p, ticket, free) && p'.id == (p.id + 1) % |p.workers|
    requires p.workers[p.id].poolFlag == 0 ==>
               && p'.dispatcher == Give(ticket, p.id)
               && p'.workers == p.workers[p.id := p.workers[p.id].(poolFlag := 1)]
    requires p.workers[p.id].poolFlag != 0 ==> p'.dispatcher == Try(ticket) && p'.workers == p.workers
    ensures p.workers[p.id].poolFlag == 0 ==> FirstFree(s, p', ticket, p.id)
    ensures p.workers[p.id].poolFlag != 0 ==>
              && Scanning(s, p', ticket, free)
              && Distance(s.id, p.id, |s.workers|) < Distance(s.id, p'.id, |s.workers|)
              && Distance(s.id, p'.id, |s.workers|) <= Distance(s.id, free, |s.workers|)
  {
    if p.workers[p.id].poolFlag != 0 {
      OneFurther(s.id, p.id, free, s.workers);
    }
  }

  // Each of these tasks has been given to a worker whose gate is open for it
  predicate AtOpenGates(givenTo: map<int, int>, ws: seq<Worker>, from: int, to: int)
  {
    forall t :: from <= t < to ==>
      t in givenTo && 0 <= givenTo[t] < |ws| && ws[givenTo[t]] == Worker(1, 1, Some(t), Waiting)
  }

  lemma OneMoreGate(givenTo: map<int, int>, ws: seq<Worker>, from: int, to: int, j: int)
    requires AtOpenGates(givenTo, ws, from, to) && 0 <= j < |ws| && ws[j].poolFlag == 0
    ensures AtOpenGates(givenTo[to := j], ws[j := Worker(1, 1, Some(to), Waiting)], from, to + 1)
  {
  }

  // Part way through the queue as it stood at `s`: a free worker for every task still in it, and the
  // others at open gates
  ghost predicate Emptying(s: Pool, p: Pool)
  {
    && s.read <= p.read <= p.written == s.written && p.published == s.published
    && p.written - p.read <= FreeWorkers(p.workers)
    && AtOpenGates(p.givenTo, p.workers, s.read, p.read)
  }

  lemma EmptyingStarts(s: Pool, p: Pool)
    requires s.read <= s.written && s.written - s.read <= FreeWorkers(s.workers) && p == s.(dispatcher := p.dispatcher)
    ensures Emptying(s, p)
  {
  }

  lemma EmptyingOn(s: Pool, p: Pool, p': Pool, j: int)
    requires Emptying(s, p) && p'.read == p.read + 1 <= p.written == p'.written && p'.published == p.published
    requires 0 <= j < |p.workers| && p.workers[j].poolFlag == 0
    requires p'.workers == p.workers[j := Worker(1, 1, Some(p.read), Waiting)]
    requires p'.givenTo == p.givenTo[p.read := j] && FreeWorkers(p'.workers) == FreeWorkers(p.workers) - 1
    ensures Emptying(s, p')
  {
    OneMoreGate(p.givenTo, p.workers, s.read, p.read, j);
  }

  lemma TaskAndWorker(s: Pool, p: Pool)
    requires Emptying(s, p) && p.read < p.written && (forall t :: s.read <= t < s.written ==> t in s.published)
    ensures p.read in p.published && FreeWorkers(p.workers) > 0
  {
  }

  class ThreadPool {
    const workers: array<Worker>
    var taskFlag: int
    var writeTicket: int
    var readTicket: int
    var lastIdDispatched: int
    var dispatcher: Dispatcher       // where the dispatcher thread is

    ghost var published: set<int>
    ghost var assigners: map<Tid, Assigner>
    ghost var owner: map<int, Tid>
    ghost var givenTo: map<int, int>
    ghost var ranOn: map<int, int>

    ghost function State(): Pool
      reads this, workers
    {
      Pool(writeTicket, readTicket, published, taskFlag, assigners, dispatcher, lastIdDispatched, workers[..],
           owner, givenTo, ranOn)
    }

    ghost predicate Valid()
      reads this, workers
    {
      Inv(State())
    }

    constructor (threadCount: nat)
      requires threadCount > 0
      ensures Valid() && fresh(workers) && State() == Start(threadCount)
    {
      workers := new Worker[threadCount](_ => Worker(0, 0, None, Waiting));
      taskFlag, writeTicket, readTicket, lastIdDispatched := 0, 0, 0, 0;
      published, assigners, dispatcher, owner, givenTo, ranOn := {}, map[], AtGate, map[], map[], map[];
      new;
      assert workers[..] == Start(threadCount).workers;
      StartInv(threadCount);
    }

    // ----- assignTask

    method TakeWriteTicket(a: Tid) returns (ticket: int)
      requires Valid() && AssignerAt(State(), a) == Away
      modifies this`writeTicket, this`assigners, this`owner
      ensures Valid() && State() == Next(old(State()), Assign(a))
      ensures AssignerAt(State(), a) == Enqueuing(ticket)
      ensures ticket == old(writeTicket) && writeTicket == ticket + 1
    {
      ghost var after := Next(State(), Assign(a));
      NextKeeps(State(), Assign(a));
      assert Shape(State());
      hide Inv;
      ticket := writeTicket;
      writeTicket := writeTicket + 1;
      assigners, owner := assigners[a := Enqueuing(ticket)], owner[ticket := a];
      assert State() == after;
    }

    // Whether the place of a ticket in the queue has been freed
    predicate Room(ticket: int)
      reads this`dispatcher, this`readTicket
    {
      ticket < (if dispatcher.Await? then readTicket - 1 else readTicket) + TASK_QUEUE
    }

    // False while the queue's 1024 places are all taken
    method PublishTask(a: Tid, ticket: int) returns (done: bool)
      requires Valid() && AssignerAt(State(), a) == Enqueuing(ticket)
      modifies this`published, this`assigners
      ensures Valid() && State() == Next(old(State()), Assign(a))
      ensures done == Room(ticket) && AssignerAt(State(), a) == if done then Signalling(ticket) else Enqueuing(ticket)
      ensures done == (ticket < (if dispatcher.Await? then readTicket - 1 else readTicket) + 1024)
      ensures published == if done then old(published) + {ticket} else old(published)
    {
      ghost var after := Next(State(), Assign(a));
      NextKeeps(State(), Assign(a));
      assert Shape(State());
      hide Inv;
      done := Room(ticket);
      if done {
        published := published + {ticket};
        assigners := assigners[a := Signalling(ticket)];
      }
      assert State() == after;
    }

    method SignalTaskGate(a: Tid, ghost ticket: int)
      requires Valid() && AssignerAt(State(), a) == Signalling(ticket)
      modifies this`taskFlag, this`assigners
      ensures Valid() && State() == Next(old(State()), Assign(a))
      ensures taskFlag == 1 && AssignerAt(State(), a) == Away
    {
      ghost var after := Next(State(), Assign(a));
      NextKeeps(State(), Assign(a));
      assert Shape(State());
      hide Inv;
      taskFlag := 1;
      assigners := assigners[a := Away];
      assert State() == after;
    }

    // ----- taskDispatcher

    method PollTaskGate() returns (open: bool)
      requires Valid() && dispatcher == AtGate
      modifies this`dispatcher
      ensures Valid() && State() == Next(old(State()), Dispatch)
      ensures dispatcher == if open then CheckQueue else AtGate
      ensures open == (taskFlag == 1)
    {
      ghost var after := Next(State(), Dispatch);
      NextKeeps(State(), Dispatch);
      assert Shape(State());
      hide Inv;
      open := taskFlag == 1;
      if open {
        dispatcher := CheckQueue;
      }
      assert State() == after;
    }

    method QueueIsEmpty() returns (empty: bool)
      requires Valid() && dispatcher == CheckQueue
      modifies this`dispatcher
      ensures Valid() && State() == Next(old(State()), Dispatch)
      ensures dispatcher == if empty then CheckAgain else Draw
      ensures empty == (writeTicket == readTicket)
    {
      ghost var after := Next(State(), Dispatch);
      NextKeeps(State(), Dispatch);
      assert Shape(State());
      hide Inv;
      empty := writeTicket == readTicket;
      dispatcher := if empty then CheckAgain else Draw;
      assert State() == after;
    }

    method TakeReadTicket() returns (ticket: int)
      requires Valid() && dispatcher == Draw
      modifies this`readTicket, this`dispatcher
      ensures Valid() && State() == Next(old(State()), Dispatch)
      ensures dispatcher == Await(ticket) && ticket < writeTicket
      ensures ticket == old(readTicket) && readTicket == ticket + 1
    {
      ghost var after := Next(State(), Dispatch);
      NextKeeps(State(), Dispatch);
      assert Shape(State());
      hide Inv;
      ticket := readTicket;
      readTicket := readTicket + 1;
      dispatcher := Await(ticket);
      assert State() == after;
    }

    method ReceiveTask(ticket: int)
      requires Valid() && dispatcher == Await(ticket) && ticket in published
      modifies this`dispatcher
      ensures Valid() && State() == Next(old(State()), Dispatch)
      ensures dispatcher == Try(ticket)
    {
      ghost var after := Next(State(), Dispatch);
      NextKeeps(State(), Dispatch);
      assert Shape(State());
      hide Inv;
      dispatcher := Try(ticket);
      assert State() == after;
    }

    // One compare-exchange on a worker's pool flag; the next one tried is its neighbour
    method TryClaim(ticket: int) returns (won: bool, j: int)
      requires Valid() && dispatcher == Try(ticket)
      modifies this`dispatcher, this`lastIdDispatched, workers
      ensures Valid() && State() == Next(old(State()), Dispatch)
      ensures j == old(lastIdDispatched) && lastIdDispatched == (j + 1) % workers.Length
      ensures dispatcher == if won then Give(ticket, j) else Try(ticket)
      ensures won == (old(workers[j].poolFlag) == 0)
      ensures workers[..] == if won then old(workers[..])[j := old(workers[j]).(poolFlag := 1)] else old(workers[..])
    {
      ghost var after := Next(State(), Dispatch);
      NextKeeps(State(), Dispatch);
      assert Shape(State());
      hide Inv;
      j := lastIdDispatched;
      won := workers[j].poolFlag == 0;
      if won {
        workers[j] := workers[j].(poolFlag := 1);
        dispatcher := Give(ticket, j);
      }
      lastIdDispatched := (j + 1) % workers.Length;
      assert State() == after;
    }

    method StoreTask(ticket: int, j: int)
      requires Valid() && dispatcher == Give(ticket, j)
      modifies this`dispatcher, this`givenTo, workers
      ensures Valid() && State() == Next(old(State()), Dispatch)
      ensures 0 <= j < workers.Length && dispatcher == Open(j)
      ensures workers[..] == old(workers[..])[j := old(workers[j]).(task := Some(ticket))]
      ensures givenTo == old(givenTo)[ticket := j]
    {
      ghost var after := Next(State(), Dispatch);
      NextKeeps(State(), Dispatch);
      assert Shape(State());
      hide Inv;
      workers[j] := workers[j].(task := Some(ticket));
      dispatcher := Open(j);
      givenTo := givenTo[ticket := j];
      assert State() == after;
    }

    method OpenWorkerGate(j: int)
      requires Valid() && dispatcher == Open(j)
      modifies this`dispatcher, workers
      ensures Valid() && State() == Next(old(State()), Dispatch)
      ensures 0 <= j < workers.Length && dispatcher == CheckQueue
      ensures workers[..] == old(workers[..])[j := old(workers[j]).(flag := 1)]
    {
      ghost var after := Next(State(), Dispatch);
      NextKeeps(State(), Dispatch);
      assert Shape(State());
      hide Inv;
      workers[j] := workers[j].(flag := 1);
      dispatcher := CheckQueue;
      assert State() == after;
    }

    method QueueStillEmpty() returns (empty: bool)
      requires Valid() && dispatcher == CheckAgain
      modifies this`dispatcher
      ensures Valid() && State() == Next(old(State()), Dispatch)
      ensures dispatcher == if empty then Reset else AtGate
      ensures empty == (writeTicket == readTicket)
    {
      ghost var after := Next(State(), Dispatch);
      NextKeeps(State(), Dispatch);
      assert Shape(State());
      hide Inv;
      empty := writeTicket == readTicket;
      dispatcher := if empty then Reset else AtGate;
      assert State() == after;
    }

    method ResetTaskGate()
      requires Valid() && dispatcher == Reset
      modifies this`taskFlag, this`dispatcher
      ensures Valid() && State() == Next(old(State()), Dispatch)
      ensures taskFlag == 0 && dispatcher == Recheck
    {
      ghost var after := Next(State(), Dispatch);
      NextKeeps(State(), Dispatch);
      assert Shape(State());
      hide Inv;
      taskFlag := 0;
      dispatcher := Recheck;
      assert State() == after;
    }

    // A task queued between the check and the reset would otherwise be left behind a closed gate
    method RecheckQueue() returns (empty: bool)
      requires Valid() && dispatcher == Recheck
      modifies this`dispatcher
      ensures Valid() && State() == Next(old(State()), Dispatch)
      ensures dispatcher == if empty then AtGate else Reopen
      ensures empty == (writeTicket == readTicket)
    {
      ghost var after := Next(State(), Dispatch);
      NextKeeps(State(), Dispatch);
      assert Shape(State());
      hide Inv;
      empty := writeTicket == readTicket;
      dispatcher := if empty then AtGate else Reopen;
      assert State() == after;
    }

    method ReopenTaskGate()
      requires Valid() && dispatcher == Reopen
      modifies this`taskFlag, this`dispatcher
      ensures Valid() && State() == Next(old(State()), Dispatch)
      ensures taskFlag == 1 && dispatcher == AtGate
    {
      ghost var after := Next(State(), Dispatch);
      NextKeeps(State(), Dispatch);
      assert Shape(State());
      hide Inv;
      taskFlag := 1;
      dispatcher := AtGate;
      assert State() == after;
    }

    // ----- the worker loop

    method PollWorkerGate(j: int) returns (open: bool)
      requires Valid() && 0 <= j < workers.Length && workers[j].at == Waiting
      modifies workers
      ensures Valid() && State() == Next(old(State()), Work(j))
      ensures open == (old(workers[j].flag) == 1)
      ensures workers[..] == if open then old(workers[..])[j := old(workers[j]).(at := Awake)] else old(workers[..])
    {
      ghost var after := Next(State(), Work(j));
      NextKeeps(State(), Work(j));
      assert Shape(State());
      hide Inv;
      open := workers[j].flag == 1;
      if open {
        workers[j] := workers[j].(at := Awake);
      }
      assert State() == after;
    }

    // Past the gate there is always a task
    method StartTask(j: int) returns (ticket: int)
      requires Valid() && 0 <= j < workers.Length && workers[j].at == Awake
      modifies this`ranOn, workers
      ensures Valid() && State() == Next(old(State()), Work(j))
      ensures old(workers[j].task) == Some(ticket) && ticket !in old(ranOn) && ranOn == old(ranOn)[ticket := j]
      ensures workers[..] == old(workers[..])[j := old(workers[j]).(at := Running(ticket))]
    {
      ghost var after := Next(State(), Work(j));
      NextKeeps(State(), Work(j));
      assert Shape(State());
      assert WorkerOk(State(), j);
      hide Inv;
      ticket := workers[j].task.value;
      workers[j] := workers[j].(at := Running(ticket));
      ranOn := ranOn[ticket := j];
      assert State() == after;
    }

    method TaskReturned(j: int, ghost ticket: int)
      requires Valid() && 0 <= j < workers.Length && workers[j].at == Running(ticket)
      modifies workers
      ensures Valid() && State() == Next(old(State()), Work(j))
      ensures workers[..] == old(workers[..])[j := old(workers[j]).(at := Clearing)]
    {
      ghost var after := Next(State(), Work(j));
      NextKeeps(State(), Work(j));
      assert Shape(State());
      hide Inv;
      workers[j] := workers[j].(at := Clearing);
      assert State() == after;
    }

    method ClearTask(j: int)
      requires Valid() && 0 <= j < workers.Length && workers[j].at == Clearing
      modifies workers
      ensures Valid() && State() == Next(old(State()), Work(j))
      ensures workers[..] == old(workers[..])[j := old(workers[j]).(task := None, at := Resetting)]
    {
      ghost var after := Next(State(), Work(j));
      NextKeeps(State(), Work(j));
      assert Shape(State());
      hide Inv;
      workers[j] := workers[j].(task := None, at := Resetting);
      assert State() == after;
    }

    method ResetWorkerGate(j: int)
      requires Valid() && 0 <= j < workers.Length && workers[j].at == Resetting
      modifies workers
      ensures Valid() && State() == Next(old(State()), Work(j))
      ensures workers[..] == old(workers[..])[j := old(workers[j]).(flag := 0, at := Freeing)]
    {
      ghost var after := Next(State(), Work(j));
      NextKeeps(State(), Work(j));
      assert Shape(State());
      hide Inv;
      workers[j] := workers[j].(flag := 0, at := Freeing);
      assert State() == after;
    }

    method FreeWorker(j: int)
      requires Valid() && 0 <= j < workers.Length && workers[j].at == Freeing
      modifies workers
      ensures Valid() && State() == Next(old(State()), Work(j))
      ensures workers[..] == old(workers[..])[j := old(workers[j]).(poolFlag := 0, at := Waiting)]
    {
      ghost var after := Next(State(), Work(j));
      NextKeeps(State(), Work(j));
      assert Shape(State());
      hide Inv;
      workers[j] := workers[j].(poolFlag := 0, at := Waiting);
      assert State() == after;
    }

    // ----- the source's operations and loops, run with no other thread in between

    /** assignTask, when the queue has room: the task is published and the gate is open. */
    method AssignTask(a: Tid) returns (ticket: int)
      requires Valid() && AssignerAt(State(), a) == Away && Room(writeTicket)
      modifies this`writeTicket, this`published, this`taskFlag, this`assigners, this`owner
      ensures Valid() && State() == Exec(old(State()), [Assign(a), Assign(a), Assign(a)])
      ensures ticket == old(writeTicket) && ticket in published && taskFlag == 1
    {
      hide Inv;
      hide Exec;
      hide Next;
      ghost var s, m := State(), Assign(a);
      ExecNone(s);
      ExecOn(s, [], m);
      ExecOn(s, [m], m);
      ExecOn(s, [m, m], m);
      assert [] + [m] == [m] && [m] + [m] == [m, m] && [m, m] + [m] == [m, m, m];
      ticket := TakeWriteTicket(a);
      var done := PublishTask(a, ticket);
      SignalTaskGate(a, ticket);
    }

    // The scan for a free worker, which the source repeats until one is found
    method Scan(ticket: int) returns (j: int, ghost run: seq<Move>)
      requires Valid() && dispatcher == Try(ticket) && FreeWorkers(workers[..]) > 0
      modifies this`dispatcher, this`lastIdDispatched, workers
      ensures Valid() && State() == Exec(old(State()), run)
      ensures 0 <= j < workers.Length && old(workers[j].poolFlag) == 0 && dispatcher == Give(ticket, j)
      ensures BusyBefore(old(lastIdDispatched), j, old(workers[..]))
      ensures lastIdDispatched == (j + 1) % workers.Length
      ensures workers[..] == old(workers[..])[j := old(workers[j]).(poolFlag := 1)]
    {
      assert Shape(State());
      hide Inv;
      hide Exec;
      hide Next;
      hide FreeWorkers;
      hide Scanning;
      hide Distance;
      ghost var s := State();
      ghost var free := SomeFree(workers[..]);
      ExecNone(s);
      ScanStarts(s, ticket, free);
      run, j := [], lastIdDispatched;
      var won := false;
      while !won
        invariant Valid() && State() == Exec(s, run)
        invariant !won ==> dispatcher == Try(ticket) && Scanning(s, State(), ticket, free)
        invariant won ==> FirstFree(s, State(), ticket, j)
        decreases !won, Distance(s.id, free, workers.Length) - Distance(s.id, lastIdDispatched, workers.Length)
      {
        ghost var p := State();
        ExecOn(s, run, Dispatch);
        run := run + [Dispatch];
        won, j := TryClaim(ticket);
        ScanOn(s, p, State(), ticket, free);
      }
    }

    /** The task goes to the first free worker from lastIdDispatched on, whose gate is opened, and the
        next scan starts behind it. */
    method HandOut(ticket: int) returns (j: int, ghost run: seq<Move>)
      requires Valid() && dispatcher == Try(ticket) && FreeWorkers(workers[..]) > 0
      modifies this`dispatcher, this`lastIdDispatched, this`givenTo, workers
      ensures Valid() && State() == Exec(old(State()), run)
      ensures 0 <= j < workers.Length && old(workers[j].poolFlag) == 0
      ensures BusyBefore(old(lastIdDispatched), j, old(workers[..]))
      ensures lastIdDispatched == (j + 1) % workers.Length && dispatcher == CheckQueue
      ensures workers[..] == old(workers[..])[j := Worker(1, 1, Some(ticket), Waiting)]
      ensures givenTo == old(givenTo)[ticket := j]
    {
      hide Inv;
      hide Exec;
      hide Next;
      hide FreeWorkers;
      hide BusyBefore;
      ghost var s := State();
      j, run := Scan(ticket);
      ClaimedFree(s, j);
      ExecOn(s, run, Dispatch);
      run := run + [Dispatch];
      StoreTask(ticket, j);
      ExecOn(s, run, Dispatch);
      run := run + [Dispatch];
      OpenWorkerGate(j);
    }

    /** One turn of a worker's loop, from a gate that is open to waiting again: the task it was given
        is started, once, and the worker is free afterwards. */
    method RunWorker(j: int) returns (ticket: int)
      requires Valid() && 0 <= j < workers.Length && workers[j].at == Waiting && workers[j].flag == 1
      modifies this`ranOn, workers
      ensures Valid() && State() == Exec(old(State()), [Work(j), Work(j), Work(j), Work(j), Work(j), Work(j)])
      ensures old(workers[j].task) == Some(ticket) && ticket !in old(ranOn) && ranOn == old(ranOn)[ticket := j]
      ensures workers[..] == old(workers[..])[j := Worker(0, 0, None, Waiting)]
    {
      hide Inv;
      hide Exec;
      hide Next;
      ghost var s := State();
      SixTurns(s, Work(j));
      var open := PollWorkerGate(j);
      ticket := StartTask(j);
      TaskReturned(j, ticket);
      ClearTask(j);
      ResetWorkerGate(j);
      FreeWorker(j);
    }

    /** The dispatcher's inner loop, with a free worker for every queued task: it empties the queue,
        and each task is at the open gate of a worker of its own. */
    method DispatchAll() returns (ghost run: seq<Move>)
      requires Valid() && dispatcher == CheckQueue && writeTicket - readTicket <= FreeWorkers(workers[..])
      requires forall t :: readTicket <= t < writeTicket ==> t in published
      modifies this`dispatcher, this`lastIdDispatched, this`readTicket, this`givenTo, workers
      ensures Valid() && State() == Exec(old(State()), run)
      ensures dispatcher == CheckAgain && readTicket == writeTicket
      ensures AtOpenGates(givenTo, workers[..], old(readTicket), writeTicket)
    {
      ghost var s := State();
      assert GateOk(s);
      ExecNone(s);
      ExecOn(s, [], Dispatch);
      hide Inv;
      hide Exec;
      hide Next;
      hide FreeWorkers;
      hide AtOpenGates;
      hide Emptying;
      run := [] + [Dispatch];
      var empty := QueueIsEmpty();
      EmptyingStarts(s, State());
      while !empty
        invariant Valid() && State() == Exec(s, run) && Emptying(s, State())
        invariant dispatcher == if empty then CheckAgain else Draw
        invariant empty == (writeTicket == readTicket)
        decreases writeTicket - readTicket
      {
        ghost var p, j, next := State(), 0, [];
        TaskAndWorker(s, p);
        empty, j, next := DispatchNext();
        EmptyingOn(s, p, State(), j);
        ExecJoin(s, run, next);
        run := run + next;
      }
    }

    // One task from the queue to a free worker, and a look whether another is there
    method DispatchNext() returns (empty: bool, ghost j: int, ghost run: seq<Move>)
      requires Valid() && dispatcher == Draw && readTicket in published && FreeWorkers(workers[..]) > 0
      modifies this`dispatcher, this`lastIdDispatched, this`readTicket, this`givenTo, workers
      ensures Valid() && State() == Exec(old(State()), run) && dispatcher == if empty then CheckAgain else Draw
      ensures readTicket == old(readTicket) + 1 <= writeTicket && empty == (writeTicket == readTicket)
      ensures FreeWorkers(workers[..]) == old(FreeWorkers(workers[..])) - 1
      ensures 0 <= j < workers.Length && old(workers[j].poolFlag) == 0
      ensures workers[..] == old(workers[..])[j := Worker(1, 1, Some(old(readTicket)), Waiting)]
      ensures givenTo == old(givenTo)[old(readTicket) := j]
    {
      hide Inv;
      hide Exec;
      hide Next;
      hide FreeWorkers;
      ghost var s := State();
      ExecNone(s);
      ExecOn(s, [], Dispatch);
      ExecOn(s, [Dispatch], Dispatch);
      assert [] + [Dispatch] == [Dispatch] && [Dispatch] + [Dispatch] == [Dispatch, Dispatch];
      var ticket := TakeReadTicket();
      ReceiveTask(ticket);
      ghost var before := workers[..];
      ghost var rest;
      j, rest := HandOut(ticket);
      OneFewerFree(before, j, Worker(1, 1, Some(ticket), Waiting));
      run := [Dispatch, Dispatch] + rest;
      ExecJoin(s, [Dispatch, Dispatch], rest);
      ExecOn(s, run, Dispatch);
      run := run + [Dispatch];
      empty := QueueIsEmpty();
    }

    /** One turn of the dispatcher's outer loop behind an open gate, with a free worker for every queued
        task and nobody assigning meanwhile: the gate is closed behind an empty queue. */
    method DispatcherTurn() returns (ghost run: seq<Move>)
      requires Valid() && dispatcher == AtGate && taskFlag == 1
      requires writeTicket - readTicket <= FreeWorkers(workers[..])
      requires forall t :: readTicket <= t < writeTicket ==> t in published
      modifies this`taskFlag, this`dispatcher, this`lastIdDispatched, this`readTicket, this`givenTo, workers
      ensures Valid() && State() == Exec(old(State()), run)
      ensures dispatcher == AtGate && taskFlag == 0 && readTicket == writeTicket
      ensures AtOpenGates(givenTo, workers[..], old(readTicket), writeTicket)
    {
      hide Inv;
      hide Exec;
      hide Next;
      hide FreeWorkers;
      hide AtOpenGates;
      ghost var s := State();
      ExecNone(s);
      ExecOn(s, [], Dispatch);
      var open := PollTaskGate();
      ghost var rest := DispatchAll();
      ExecJoin(s, [] + [Dispatch], rest);
      run := [] + [Dispatch] + rest;
      ExecOn(s, run, Dispatch);
      run := run + [Dispatch];
      var empty := QueueStillEmpty();
      ExecOn(s, run, Dispatch);
      run := run + [Dispatch];
      ResetTaskGate();
      ExecOn(s, run, Dispatch);
      run := run + [Dispatch];
      empty := RecheckQueue();
    }
  }
}
