/** Safety of the ring over every interleaving: the invariant holds in every reachable state, so
    each value goes from the writer of a ticket to the reader of that ticket exactly once, and
    no two threads are ever inside one slot's data. */
module RingSafety {
  import opened RingBuffer

  lemma InitInv<A>(size: int, data: seq<A>)
    requires size >= 2 && |data| == size
    ensures Inv(Init(size, data))
  {
    var s := Init(size, data);
    forall i | 0 <= i < size
      ensures SlotOk(size, i, s.seqs[i])
    {
      InitialSlots(size, i);
    }
    forall t | t >= 0
      ensures Seq(s, t) <= t
    {
      SlotBelow(t, size);
    }
  }

  lemma SlotBelow(t: int, size: int)
    requires size > 0 && t >= 0
    ensures Slot(t, size) <= t
  {
    if t < size { InitialSlots(size, t); }
  }

  // ----- steps that only move one thread

  lemma MoveKeeps<A>(s: Ring<A>, tid: Tid, pc: Pc<A>)
    requires Inv(s) && PcOk(Move(s, tid, pc), tid)
    requires forall t :: HoldsWrite(PcOf(s, tid), t) ==> HoldsWrite(pc, t)
    requires forall t :: HoldsRead(PcOf(s, tid), t) ==> HoldsRead(pc, t)
    ensures Inv(Move(s, tid, pc))
  {
    hide Slot;
    hide SlotOk;
    var s' := Move(s, tid, pc);
    forall t | t >= 0
      ensures WriteOk(s', t)
    {
      assert WriteOk(s, t);
    }
    forall t | t >= 0
      ensures ReadOk(s', t)
    {
      assert ReadOk(s, t);
    }
    forall u
      ensures PcOk(s', u)
    {
      assert PcOk(s, u);
    }
  }

  lemma DrawWriteKeeps<A>(s: Ring<A>, tid: Tid, pc: Pc<A>)
    requires Inv(s) && PcOk(DrawWrite(s, tid, pc), tid) && HoldsWrite(pc, s.w)
    requires forall t :: !HoldsWrite(PcOf(s, tid), t) && !HoldsRead(PcOf(s, tid), t)
    ensures Inv(DrawWrite(s, tid, pc))
  {
    hide Slot;
    hide SlotOk;
    var s' := DrawWrite(s, tid, pc);
    forall t | t >= 0
      ensures WriteOk(s', t)
    {
      assert WriteOk(s, t);
    }
    forall t | t >= 0
      ensures ReadOk(s', t)
    {
      assert ReadOk(s, t);
    }
    forall u
      ensures PcOk(s', u)
    {
      assert PcOk(s, u);
    }
  }

  lemma DrawReadKeeps<A>(s: Ring<A>, tid: Tid, pc: Pc<A>)
    requires Inv(s) && PcOk(DrawRead(s, tid, pc), tid) && HoldsRead(pc, s.r)
    requires forall t :: !HoldsWrite(PcOf(s, tid), t) && !HoldsRead(PcOf(s, tid), t)
    ensures Inv(DrawRead(s, tid, pc))
  {
    hide Slot;
    hide SlotOk;
    var s' := DrawRead(s, tid, pc);
    forall t | t >= 0
      ensures WriteOk(s', t)
    {
      assert WriteOk(s, t);
    }
    forall t | t >= 0
      ensures ReadOk(s', t)
    {
      assert ReadOk(s, t);
    }
    forall u
      ensures PcOk(s', u)
    {
      assert PcOk(s, u);
    }
  }

  // ----- steps on one slot

  // While the slot is at ticket t, any other ticket of the slot is a lap away
  lemma OtherTickets(t: int, u: int, size: int)
    requires size > 0 && Slot(t, size) == Slot(u, size)
    ensures u == t || u >= t + size || u <= t - size
  {
    if u > t { LapApart(t, u, size); }
    if u < t { LapApart(u, t, size); }
  }

  lemma StoreDataKeeps<A>(s: Ring<A>, tid: Tid, t: int, v: A)
    requires Inv(s) && PcOf(s, tid) == EnqStore(t, v)
    ensures Inv(StoreData(s, tid, t, v))
  {
    hide Slot;
    hide SlotOk;
    var s' := StoreData(s, tid, t, v);
    assert PcOk(s, tid);
    assert WriteOk(s, t);
    forall u | u >= 0
      ensures WriteOk(s', u) && ReadOk(s', u)
    {
      assert WriteOk(s, u) && ReadOk(s, u);
      if Slot(u, s.size) == Slot(t, s.size) { OtherTickets(t, u, s.size); }
    }
    forall x
      ensures PcOk(s', x)
    {
      StoreDataOthers(s, tid, t, v, x);
    }
  }

  lemma StoreDataOthers<A>(s: Ring<A>, tid: Tid, t: int, v: A, x: Tid)
    requires Inv(s) && PcOf(s, tid) == EnqStore(t, v)
    ensures PcOk(StoreData(s, tid, t, v), x)
  {
    hide Slot;
    hide SlotOk;
    hide WriteOk;
    hide ReadOk;
    assert PcOk(s, tid) && PcOk(s, x);
    match PcOf(s, x)
    case EnqPublish(u, y) =>
      if Slot(u, s.size) == Slot(t, s.size) { OtherTickets(t, u, s.size); }
    case _ =>
  }

  lemma PublishKeeps<A>(s: Ring<A>, tid: Tid, t: int, v: A)
    requires Inv(s) && PcOf(s, tid) == EnqPublish(t, v)
    ensures Inv(Publish(s, tid, t))
  {
    hide Slot;
    var s' := Publish(s, tid, t);
    assert PcOk(s, tid);
    assert WriteOk(s, t) && ReadOk(s, t);
    forall u | u >= 0
      ensures WriteOk(s', u) && ReadOk(s', u)
    {
      assert WriteOk(s, u) && ReadOk(s, u);
      if Slot(u, s.size) == Slot(t, s.size) { OtherTickets(t, u, s.size); }
    }
    forall i | 0 <= i < s.size
      ensures SlotOk(s.size, i, s'.seqs[i])
    {
      assert SlotOk(s.size, i, s.seqs[i]);
    }
    forall x
      ensures PcOk(s', x)
    {
      PublishOthers(s, tid, t, v, x);
    }
  }

  lemma PublishOthers<A>(s: Ring<A>, tid: Tid, t: int, v: A, x: Tid)
    requires Inv(s) && PcOf(s, tid) == EnqPublish(t, v)
    ensures PcOk(Publish(s, tid, t), x)
  {
    hide Slot;
    hide SlotOk;
    hide WriteOk;
    hide ReadOk;
    assert PcOk(s, tid) && PcOk(s, x);
    var pc := PcOf(s, x);
    if !(pc.Idle? || pc.TryEnqLoad? || pc.TryDeqLoad?) && Slot(pc.t, s.size) == Slot(t, s.size) {
      OtherTickets(t, pc.t, s.size);
    }
  }

  lemma FreeSlotKeeps<A>(s: Ring<A>, tid: Tid, t: int, v: A)
    requires Inv(s) && PcOf(s, tid) == DeqFree(t, v)
    ensures Inv(FreeSlot(s, tid, t, v))
  {
    hide Slot;
    var s' := FreeSlot(s, tid, t, v);
    assert PcOk(s, tid);
    assert WriteOk(s, t) && ReadOk(s, t);
    NextLap(t, s.size);
    forall u | u >= 0
      ensures WriteOk(s', u) && ReadOk(s', u)
    {
      assert WriteOk(s, u) && ReadOk(s, u);
      if Slot(u, s.size) == Slot(t, s.size) { OtherTickets(t, u, s.size); }
    }
    forall i | 0 <= i < s.size
      ensures SlotOk(s.size, i, s'.seqs[i])
    {
      assert SlotOk(s.size, i, s.seqs[i]);
    }
    forall x
      ensures PcOk(s', x)
    {
      FreeSlotOthers(s, tid, t, v, x);
    }
  }

  lemma FreeSlotOthers<A>(s: Ring<A>, tid: Tid, t: int, v: A, x: Tid)
    requires Inv(s) && PcOf(s, tid) == DeqFree(t, v)
    ensures PcOk(FreeSlot(s, tid, t, v), x)
  {
    hide Slot;
    hide SlotOk;
    hide WriteOk;
    hide ReadOk;
    assert PcOk(s, tid) && PcOk(s, x);
    var pc := PcOf(s, x);
    if !(pc.Idle? || pc.TryEnqLoad? || pc.TryDeqLoad?) && Slot(pc.t, s.size) == Slot(t, s.size) {
      OtherTickets(t, pc.t, s.size);
    }
  }

  // ----- compare-exchange

  /** A compare-exchange that succeeds finds the slot still free for its ticket: the thread goes
      straight on to the data, with no wait left. */
  lemma CasFindsSlotFree<A>(s: Ring<A>, tid: Tid, t: int, v: A)
    requires Inv(s) && PcOf(s, tid) == TryEnqCas(t, v) && s.w == t
    ensures Seq(s, t) == t && t !in s.written
  {
    assert PcOk(s, tid) && WriteOk(s, t);
  }

  lemma CasFindsItemPublished<A>(s: Ring<A>, tid: Tid, t: int)
    requires Inv(s) && PcOf(s, tid) == TryDeqCas(t) && s.r == t
    ensures Seq(s, t) == t + 1 && t in s.written
  {
    assert PcOk(s, tid) && ReadOk(s, t) && WriteOk(s, t);
  }

  // ----- every step

  lemma GoKeeps<A>(s: Ring<A>, tid: Tid)
    requires Inv(s)
    ensures Inv(GoStep(s, tid))
  {
    hide Slot;
    hide SlotOk;
    hide WriteOk;
    hide ReadOk;
    assert PcOk(s, tid);
    match PcOf(s, tid)
    case Idle =>
    case EnqWait(t, v) => if Seq(s, t) == t { MoveKeeps(s, tid, EnqStore(t, v)); }
    case EnqStore(t, v) => StoreDataKeeps(s, tid, t, v);
    case EnqPublish(t, v) => PublishKeeps(s, tid, t, v);
    case DeqWait(t) => if Seq(s, t) == t + 1 { MoveKeeps(s, tid, DeqLoad(t)); }
    case DeqLoad(t) => LoadKeeps(s, tid, t);
    case DeqFree(t, v) => FreeSlotKeeps(s, tid, t, v);
    case TryEnqCas(t, v) => CasKeeps(s, tid);
    case TryDeqCas(t) => CasKeeps(s, tid);
    case _ => PollKeeps(s, tid);
  }

  lemma LoadKeeps<A>(s: Ring<A>, tid: Tid, t: int)
    requires Inv(s) && PcOf(s, tid) == DeqLoad(t)
    ensures Inv(GoStep(s, tid))
  {
    hide Slot;
    hide SlotOk;
    hide ReadOk;
    assert PcOk(s, tid) && WriteOk(s, t);
    MoveKeeps(s, tid, DeqFree(t, s.data[Slot(t, s.size)]));
  }

  lemma CasKeeps<A>(s: Ring<A>, tid: Tid)
    requires Inv(s) && (PcOf(s, tid).TryEnqCas? || PcOf(s, tid).TryDeqCas?)
    ensures Inv(GoStep(s, tid))
  {
    hide Slot;
    hide SlotOk;
    hide WriteOk;
    hide ReadOk;
    match PcOf(s, tid)
    case TryEnqCas(t, v) =>
      if s.w == t {
        CasFindsSlotFree(s, tid, t, v);
        DrawWriteKeeps(s, tid, EnqStore(t, v));
      } else {
        MoveKeeps(s, tid, TryEnqPoll(s.w, v));
      }
    case TryDeqCas(t) =>
      if s.r == t {
        CasFindsItemPublished(s, tid, t);
        DrawReadKeeps(s, tid, DeqLoad(t));
      } else {
        MoveKeeps(s, tid, TryDeqPoll(s.r));
      }
  }

  lemma PollKeeps<A>(s: Ring<A>, tid: Tid)
    requires Inv(s)
    requires var pc := PcOf(s, tid); pc.TryEnqLoad? || pc.TryEnqPoll? || pc.TryDeqLoad? || pc.TryDeqPoll?
    ensures Inv(GoStep(s, tid))
  {
    hide Slot;
    hide SlotOk;
    hide WriteOk;
    hide ReadOk;
    assert PcOk(s, tid);
    MoveKeeps(s, tid, GoStep(s, tid).pcs[tid]);
  }

  lemma StepKeeps<A>(s: Ring<A>, tid: Tid, a: Action<A>)
    requires Inv(s)
    ensures Inv(Step(s, tid, a))
  {
    hide Slot;
    hide SlotOk;
    hide GoStep;
    match a
    case StartEnq(v) =>
      if PcOf(s, tid) == Idle {
        assert WriteOk(s, s.w);
        DrawWriteKeeps(s, tid, EnqWait(s.w, v));
      }
    case StartDeq =>
      if PcOf(s, tid) == Idle {
        assert ReadOk(s, s.r);
        DrawReadKeeps(s, tid, DeqWait(s.r));
      }
    case StartTryEnq(v) => if PcOf(s, tid) == Idle { MoveKeeps(s, tid, TryEnqLoad(v)); }
    case StartTryDeq => if PcOf(s, tid) == Idle { MoveKeeps(s, tid, TryDeqLoad); }
    case Go => GoKeeps(s, tid);
    case SpuriousCasFailure =>
      match PcOf(s, tid) {
        case TryEnqCas(t, v) => MoveKeeps(s, tid, TryEnqPoll(s.w, v));
        case TryDeqCas(t) => MoveKeeps(s, tid, TryDeqPoll(s.r));
        case _ =>
      }
  }

  // ----- whole runs: any schedule of any number of threads

  datatype Label<A> = Label(tid: Tid, action: Action<A>)

  function Exec<A>(s: Ring<A>, run: seq<Label<A>>): (s': Ring<A>)
    requires Shape(s)
    ensures Shape(s')
  {
    if run == [] then s
    else
      var before := Exec(s, run[..|run| - 1]);
      Step(before, run[|run| - 1].tid, run[|run| - 1].action)
  }

  lemma {:induction false} RunKeeps<A>(s: Ring<A>, run: seq<Label<A>>)
    requires Inv(s)
    ensures Inv(Exec(s, run))
  {
    if run != [] {
      RunKeeps(s, run[..|run| - 1]);
      StepKeeps(Exec(s, run[..|run| - 1]), run[|run| - 1].tid, run[|run| - 1].action);
    }
  }

  ghost predicate Reachable<A(!new)>(s: Ring<A>, size: int, data: seq<A>)
    requires size >= 2 && |data| == size
  {
    exists run :: s == Exec(Init(size, data), run)
  }

  lemma ReachableInv<A(!new)>(s: Ring<A>, size: int, data: seq<A>)
    requires size >= 2 && |data| == size && Reachable(s, size, data)
    ensures Inv(s)
  {
    var run :| s == Exec(Init(size, data), run);
    InitInv(size, data);
    RunKeeps(Init(size, data), run);
  }

  // ----- what the invariant means

  /** The value handed to read ticket t is the one written under write ticket t. */
  lemma HandedWasWritten<A(!new)>(s: Ring<A>, size: int, data: seq<A>, t: int)
    requires size >= 2 && |data| == size && Reachable(s, size, data) && t >= 0
    ensures t in s.handed ==> t in s.written && s.handed[t] == s.written[t] && t < s.r && t < s.w
    ensures t < s.r ==> t in s.reader
    ensures t < s.w ==> t in s.writer
  {
    ReachableInv(s, size, data);
    assert ReadOk(s, t) && WriteOk(s, t);
  }

  // What a step adds to the histories
  ghost predicate HistoriesGrow<A>(s: Ring<A>, s': Ring<A>, tid: Tid, t: int)
  {
    && (t in s.handed ==> t in s'.handed && s'.handed[t] == s.handed[t])
    && (t in s.written ==> t in s'.written && s'.written[t] == s.written[t])
    && (t in s.writer && t < s.w ==> t in s'.writer && s'.writer[t] == s.writer[t])
    && (t in s.reader && t < s.r ==> t in s'.reader && s'.reader[t] == s.reader[t])
    && (t in s'.handed && t !in s.handed ==>
          t in s.reader && s.reader[t] == tid && t in s.written && s'.handed[t] == s.written[t])
    && (t in s'.written && t !in s.written ==> t in s.writer && s.writer[t] == tid)
  }

  /** A read ticket is handed its value by the thread that drew it, once; nothing recorded is
      ever changed. */
  lemma HistoriesOnlyGrow<A>(s: Ring<A>, tid: Tid, a: Action<A>, t: int)
    requires Inv(s) && t >= 0
    ensures HistoriesGrow(s, Step(s, tid, a), tid, t)
  {
    hide GoStep;
    if a.Go? {
      assert PcOk(s, tid) && ReadOk(s, t);
      GoHistories(s, tid, t);
    }
  }

  // What one step of a thread does to the histories
  lemma GoRecords<A>(s: Ring<A>, tid: Tid)
    requires Shape(s)
    ensures var pc, s' := PcOf(s, tid), GoStep(s, tid);
            && s'.written == (if pc.EnqStore? then s.written[pc.t := pc.v] else s.written)
            && s'.handed == (if pc.DeqFree? then s.handed[pc.t := pc.v] else s.handed)
            && s'.writer == (if pc.TryEnqCas? && s.w == pc.t then s.writer[s.w := tid] else s.writer)
            && s'.reader == (if pc.TryDeqCas? && s.r == pc.t then s.reader[s.r := tid] else s.reader)
  {
    hide Slot;
    match PcOf(s, tid)
    case EnqStore(t, v) => assert GoStep(s, tid) == StoreData(s, tid, t, v);
    case EnqPublish(t, v) => assert GoStep(s, tid) == Publish(s, tid, t);
    case DeqFree(t, v) => assert GoStep(s, tid) == FreeSlot(s, tid, t, v);
    case _ =>
  }

  lemma GoHistories<A>(s: Ring<A>, tid: Tid, t: int)
    requires Shape(s) && s.size >= 2 && PcOk(s, tid) && ReadOk(s, t) && t >= 0
    ensures HistoriesGrow(s, GoStep(s, tid), tid, t)
  {
    GoRecords(s, tid);
    hide GoStep;
    hide Slot;
  }

  /** The seq of a slot only moves forward: t to t + 1 when ticket t is published, t + 1 to
      t + size when it is read. */
  lemma SeqMovesForward<A>(s: Ring<A>, tid: Tid, a: Action<A>, i: int)
    requires Inv(s) && 0 <= i < s.size
    ensures Forward(s.size, i, s.seqs[i], Step(s, tid, a).seqs[i])
  {
    hide Slot;
    hide SlotOk;
    hide WriteOk;
    hide ReadOk;
    assert PcOk(s, tid);
  }

  predicate Forward(size: int, i: int, q: int, q': int)
    requires size > 0
  {
    q' == q || (q' == q + 1 && Slot(q, size) == i) || (q' == q - 1 + size && Slot(q - 1, size) == i)
  }

  predicate InData<A>(pc: Pc<A>)
  {
    pc.EnqStore? || pc.EnqPublish? || pc.DeqLoad? || pc.DeqFree?
  }

  /** No two threads are ever inside the same slot's data. */
  lemma MutualExclusion<A>(s: Ring<A>, x: Tid, y: Tid)
    requires Inv(s) && x != y && InData(PcOf(s, x)) && InData(PcOf(s, y))
    ensures Slot(PcOf(s, x).t, s.size) != Slot(PcOf(s, y).t, s.size)
  {
    hide Slot;
    assert PcOk(s, x) && PcOk(s, y);
    var t, u := PcOf(s, x).t, PcOf(s, y).t;
    if Slot(t, s.size) == Slot(u, s.size) { OtherTickets(t, u, s.size); }
  }

  // ----- try operations that give up

  /** tryEnqueue answers false only when the reader of one lap earlier had not freed the slot;
      the shared state is untouched and no ticket is taken. */
  lemma RefusedEnqueue<A>(s: Ring<A>, tid: Tid, t: int, v: A)
    requires Inv(s) && PcOf(s, tid) == TryEnqPoll(t, v) && PcOf(GoStep(s, tid), tid) == Idle
    ensures GoStep(s, tid) == s.(pcs := s.pcs[tid := Idle])
    ensures t >= s.size && !ReadDone(s, t - s.size)
  {
    hide Slot;
    assert PcOk(s, tid);
    var q := Seq(s, t);
    assert SlotOk(s.size, Slot(t, s.size), q);
    var u := if Slot(q, s.size) == Slot(t, s.size) then q else q - 1;
    OtherTickets(t, u, s.size);
    NextLap(t - s.size, s.size);
  }

  /** tryDequeue answers false only when the item of its ticket had not been published. */
  lemma RefusedDequeue<A>(s: Ring<A>, tid: Tid, t: int)
    requires Inv(s) && PcOf(s, tid) == TryDeqPoll(t) && PcOf(GoStep(s, tid), tid) == Idle
    ensures GoStep(s, tid) == s.(pcs := s.pcs[tid := Idle])
    ensures !WriteDone(s, t) && t >= 0
  {
    hide Slot;
    assert PcOk(s, tid);
  }
}
