/** The ring never deadlocks: when no operation that holds a ticket can move, either everyone
    waiting is a producer and the ring is exactly full, or everyone waiting is a consumer and
    there is nothing to read. Also, why one slot is not enough. */
module RingProgress {
  import opened Arithmetic
  import opened RingBuffer
  import opened RingSafety

  ghost predicate PendingWrite<A>(s: Ring<A>, t: int)
    requires Shape(s)
  {
    0 <= t < s.w && !WriteDone(s, t)
  }

  ghost predicate PendingRead<A>(s: Ring<A>, t: int)
    requires Shape(s)
  {
    0 <= t < s.r && !ReadDone(s, t)
  }

  // Published and not yet read
  ghost predicate Unread<A>(s: Ring<A>, t: int)
    requires Shape(s)
  {
    t >= 0 && WriteDone(s, t) && !ReadDone(s, t)
  }

  // A thread that holds no ticket, or whose slot is not at its ticket yet
  predicate CannotMove<A>(s: Ring<A>, tid: Tid)
    requires Shape(s)
  {
    match PcOf(s, tid)
    case EnqWait(t, v) => Seq(s, t) != t
    case DeqWait(t) => Seq(s, t) != t + 1
    case EnqStore(t, v) => false
    case EnqPublish(t, v) => false
    case DeqLoad(t) => false
    case DeqFree(t, v) => false
    case _ => true
  }

  // Of a thread that holds a ticket: exactly when its next access would change nothing
  lemma CannotMoveIff<A>(s: Ring<A>, tid: Tid, t: int)
    requires Shape(s) && (HoldsWrite(PcOf(s, tid), t) || HoldsRead(PcOf(s, tid), t))
    ensures CannotMove(s, tid) <==> Step(s, tid, Go) == s
  {
    hide Slot;
    assert !CannotMove(s, tid) ==> PcOf(GoStep(s, tid), tid) != PcOf(s, tid);
  }

  ghost predicate ProducersWaitForSpace<A>(s: Ring<A>)
    requires Shape(s)
  {
    && (exists t :: PendingWrite(s, t))
    && (forall t :: !PendingRead(s, t))
    && (forall t :: Unread(s, t) <==> s.r <= t < s.r + s.size)
  }

  ghost predicate ConsumersWaitForItems<A>(s: Ring<A>)
    requires Shape(s)
  {
    && (exists t :: PendingRead(s, t))
    && (forall t :: !PendingWrite(s, t))
    && (forall t :: !Unread(s, t))
  }

  ghost predicate Waiting<A>(s: Ring<A>, t: int)
    requires Shape(s)
  {
    PendingWrite(s, t) || PendingRead(s, t)
  }

  lemma {:induction false} LeastWaiting<A>(s: Ring<A>, from: int, bound: int) returns (t: int)
    requires Shape(s) && 0 <= from <= bound && Waiting(s, bound)
    requires forall u :: 0 <= u < from ==> !Waiting(s, u)
    ensures Waiting(s, t) && forall u :: 0 <= u < t ==> !Waiting(s, u)
    decreases bound - from
  {
    if Waiting(s, from) {
      t := from;
    } else {
      t := LeastWaiting(s, from + 1, bound);
    }
  }

  // If the least waiting ticket is a producer's, it is exactly one lap past the first unclaimed read
  lemma OldestProducer<A>(s: Ring<A>, t: int)
    requires Inv(s) && PendingWrite(s, t)
    requires forall u :: 0 <= u < t ==> !Waiting(s, u)
    requires forall tid :: CannotMove(s, tid)
    ensures t == s.r + s.size && WriteDone(s, t - s.size) && !ReadDone(s, t - s.size)
  {
    hide Slot;
    var i, p := Slot(t, s.size), t - s.size;
    assert WriteOk(s, t) && CannotMove(s, s.writer[t]);
    var q := Seq(s, t);
    assert q != t && q < t;
    assert SlotOk(s.size, i, q);
    var u := if Slot(q, s.size) == i then q else q - 1;
    OtherTickets(t, u, s.size);
    assert t >= s.size;
    NextLap(p, s.size);
    assert !Waiting(s, p);
    assert p >= s.r;
    FullLap(s, t);
  }

  lemma FullLap<A>(s: Ring<A>, t: int)
    requires Inv(s) && 0 <= s.r <= t - s.size && t < s.w
    requires forall u :: 0 <= u < t ==> !Waiting(s, u)
    ensures t == s.r + s.size
  {
    hide Slot;
    NextLap(s.r, s.size);
    assert ReadOk(s, s.r);
    assert s.r + s.size < t ==> !Waiting(s, s.r + s.size);
  }

  lemma ProducersBehindFullRing<A>(s: Ring<A>, t: int)
    requires Inv(s) && PendingWrite(s, t) && t == s.r + s.size
    requires forall u :: 0 <= u < t ==> !Waiting(s, u)
    ensures ProducersWaitForSpace(s)
  {
    forall u
      ensures Unread(s, u) <==> s.r <= u < s.r + s.size
    {
      UnreadWindow(s, t, u);
    }
    forall u
      ensures !PendingRead(s, u)
    {
      if 0 <= u < t { assert !Waiting(s, u); }
    }
  }

  lemma UnreadWindow<A>(s: Ring<A>, t: int, u: int)
    requires Inv(s) && t < s.w && t == s.r + s.size
    requires forall x :: 0 <= x < t ==> !Waiting(s, x)
    ensures Unread(s, u) <==> s.r <= u < s.r + s.size
  {
    hide Slot;
    if 0 <= u {
      assert ReadOk(s, u) && WriteOk(s, u);
      if u < t {
        assert !Waiting(s, u);
      } else {
        BeyondTheLap(s, u);
      }
    }
  }

  // Nothing is published a lap or more past the reads: its slot still waits for an unclaimed read
  lemma BeyondTheLap<A>(s: Ring<A>, u: int)
    requires Inv(s) && u >= s.r + s.size
    ensures !WriteDone(s, u)
  {
    hide Slot;
    var i := u - s.r;
    var k := i / s.size;
    SameRemainder(i, s.size);
    var v := u - k * s.size;
    LapsBack(u, s.size, k);
    assert Seq(s, v) == Seq(s, u);
    assert v >= s.r;
    MulMonotone(1, k, s.size);
    assert ReadOk(s, v);
  }

  lemma {:induction false} LapsBack(u: int, size: int, k: int)
    requires size > 0 && k >= 0
    ensures Slot(u - k * size, size) == Slot(u, size)
    decreases k
  {
    if k > 0 {
      assert k * size == (k - 1) * size + size;
      LapsBack(u, size, k - 1);
      NextLap(u - k * size, size);
    }
  }

  // The least waiting ticket is a consumer's: its item has not been written, nor will be by anyone waiting
  lemma OldestConsumer<A>(s: Ring<A>, t: int)
    requires Inv(s) && PendingRead(s, t) && !PendingWrite(s, t)
    requires forall u :: 0 <= u < t ==> !Waiting(s, u)
    requires forall tid :: CannotMove(s, tid)
    ensures s.w <= t && ConsumersWaitForItems(s)
  {
    hide Slot;
    var i := Slot(t, s.size);
    assert ReadOk(s, t) && CannotMove(s, s.reader[t]);
    var q := Seq(s, t);
    assert q != t + 1 && q < t + s.size;
    assert SlotOk(s.size, i, q);
    var u := if Slot(q, s.size) == i then q else q - 1;
    OtherTickets(t, u, s.size);
    assert !WriteDone(s, t);
    forall x
      ensures !PendingWrite(s, x) && !Unread(s, x)
    {
      if 0 <= x {
        assert WriteOk(s, x);
        if x < t { assert !Waiting(s, x); }
      }
    }
  }

  /** If some operation holds a ticket and none of them can move, the waiters are all producers in
      front of exactly `size` unread items, or all consumers with nothing to read; never both. */
  lemma NoDeadlock<A>(s: Ring<A>, t: int)
    requires Inv(s) && Waiting(s, t)
    requires forall tid :: CannotMove(s, tid)
    ensures ProducersWaitForSpace(s) != ConsumersWaitForItems(s)
  {
    assert Shape(s);
    hide Inv;
    var oldest := LeastWaiting(s, 0, t);
    if PendingWrite(s, oldest) {
      OldestProducer(s, oldest);
      ProducersBehindFullRing(s, oldest);
    } else {
      OldestConsumer(s, oldest);
    }
  }

  /** Threads that hold a ticket are exactly the ones whose ticket is still waiting. */
  lemma HoldersAreWaiting<A>(s: Ring<A>, tid: Tid, t: int)
    requires Inv(s)
    ensures HoldsWrite(PcOf(s, tid), t) <==> PendingWrite(s, t) && t in s.writer && s.writer[t] == tid
    ensures HoldsRead(PcOf(s, tid), t) <==> PendingRead(s, t) && t in s.reader && s.reader[t] == tid
  {
    hide Slot;
    hide SlotOk;
    assert PcOk(s, tid);
    if t >= 0 { assert WriteOk(s, t) && ReadOk(s, t); }
  }

  // ----- why the size must be at least 2

  lemma ExecAppend<A>(s: Ring<A>, run: seq<Label<A>>, l: Label<A>)
    requires Shape(s)
    ensures Exec(s, run + [l]) == Step(Exec(s, run), l.tid, l.action)
  {
    assert (run + [l])[..|run|] == run;
  }

  // Thread 1 publishes ticket 0 in a ring of one slot
  lemma OneItemPublished() returns (run: seq<Label<int>>)
    ensures var s := Exec(Init(1, [0]), run);
            s.size == 1 && s.seqs == [1] && s.w == 1 && s.r == 0 && 2 !in s.pcs && 3 !in s.pcs
  {
    var s0 := Init(1, [0]);
    var s1 := Step(s0, 1, StartEnq(10));
    var s2 := Step(s1, 1, Go);
    var s3 := Step(s2, 1, Go);
    run := [Label(1, StartEnq(10))];
    ExecAppend(s0, [], Label(1, StartEnq(10)));
    ExecAppend(s0, run, Label(1, Go));
    run := run + [Label(1, Go)];
    ExecAppend(s0, run, Label(1, Go));
    run := run + [Label(1, Go)];
    ExecAppend(s0, run, Label(1, Go));
    run := run + [Label(1, Go)];
  }

  /** With one slot, "published for ticket 0" and "free for ticket 1" are the same number, and a
      run exists that puts a writer and a reader inside the same data. */
  lemma OneSlotIsUnsafe() returns (run: seq<Label<int>>)
    ensures var s := Exec(Init(1, [0]), run);
            InData(PcOf(s, 2)) && InData(PcOf(s, 3)) && Slot(PcOf(s, 2).t, 1) == Slot(PcOf(s, 3).t, 1)
  {
    var s0 := Init(1, [0]);
    run := OneItemPublished();
    ExecAppend(s0, run, Label(2, StartEnq(20)));
    run := run + [Label(2, StartEnq(20))];
    ExecAppend(s0, run, Label(2, Go));
    run := run + [Label(2, Go)];
    ExecAppend(s0, run, Label(3, StartDeq));
    run := run + [Label(3, StartDeq)];
    ExecAppend(s0, run, Label(3, Go));
    run := run + [Label(3, Go)];
  }
}
