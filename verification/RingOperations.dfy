/** What a whole operation on the ring does. Run with no other thread in between, each of the four is
    exactly a step of a bounded queue; with others in between, a try operation goes round again only
    because another thread took the ticket it was trying for. */
module RingOperations {
  import opened RingBuffer
  import opened RingSafety

  // n further accesses of one thread
  function Gone<A>(s: Ring<A>, tid: Tid, n: nat): (s': Ring<A>)
    requires Shape(s)
    ensures Shape(s') && s'.size == s.size
  {
    if n == 0 then s else GoStep(Gone(s, tid, n - 1), tid)
  }

  lemma GoneFew<A>(s: Ring<A>, tid: Tid)
    requires Shape(s)
    ensures var s1 := GoStep(s, tid);
            var s2 := GoStep(s1, tid);
            var s3 := GoStep(s2, tid);
            var s4 := GoStep(s3, tid);
            && Gone(s, tid, 1) == s1 && Gone(s, tid, 2) == s2 && Gone(s, tid, 3) == s3
            && Gone(s, tid, 5) == GoStep(s4, tid)
  {
    hide GoStep;
    var s1 := GoStep(s, tid);
    assert Gone(s, tid, 0) == s;
    assert Gone(s, tid, 1) == s1;
    assert Gone(s, tid, 2) == GoStep(s1, tid);
    assert Gone(s, tid, 3) == GoStep(Gone(s, tid, 2), tid);
    assert Gone(s, tid, 4) == GoStep(Gone(s, tid, 3), tid);
  }

  // From a free place to the end of an enqueue
  lemma WriteThrough<A>(s: Ring<A>, tid: Tid, t: int, v: A)
    requires Shape(s) && PcOf(s, tid) == EnqStore(t, v)
    ensures var s1 := GoStep(s, tid);
            s1 == StoreData(s, tid, t, v) && GoStep(s1, tid) == Publish(s1, tid, t)
  {
    hide Slot;
  }

  lemma ReadThrough<A>(s: Ring<A>, tid: Tid, t: int)
    requires Shape(s) && PcOf(s, tid) == DeqLoad(t)
    ensures var v, s1 := s.data[Slot(t, s.size)], GoStep(s, tid);
            s1 == Move(s, tid, DeqFree(t, v)) && GoStep(s1, tid) == FreeSlot(s1, tid, t, v)
  {
    hide Slot;
  }

  lemma WrittenIn<A>(s: Ring<A>, s0: Ring<A>, tid: Tid, v: A)
    requires Shape(s) && Shape(s0) && s0 == DrawWrite(s, tid, EnqStore(s.w, v)).(pcs := s0.pcs)
    ensures PutIn(s, Publish(StoreData(s0, tid, s.w, v), tid, s.w), tid, v)
  {
    hide Slot;
  }

  lemma ReadOut<A>(s: Ring<A>, s0: Ring<A>, tid: Tid)
    requires Shape(s) && Shape(s0) && s0 == DrawRead(s, tid, DeqLoad(s.r)).(pcs := s0.pcs) && s.r in s.written
    ensures TookOut(s, FreeSlot(s0, tid, s.r, s.written[s.r]), tid)
  {
    hide Slot;
  }

  /** The place of the next write ticket is free exactly when the ring has never been full, or the
      item of one lap earlier has been handed to its reader. */
  lemma RoomIff<A>(s: Ring<A>)
    requires Inv(s)
    ensures Shape(s) && Seq(s, s.w) <= s.w
    ensures Seq(s, s.w) == s.w <==> s.w < s.size || s.w - s.size in s.handed
  {
    hide Slot;
    var t, i := s.w - s.size, Slot(s.w, s.size);
    assert WriteOk(s, s.w) && SlotOk(s.size, i, s.seqs[i]);
    if s.w < s.size {
      InitialSlots(s.size, s.w);
      FirstLapSlot(s);
    } else {
      NextLap(t, s.size);
      assert ReadOk(s, t);
    }
  }

  lemma FirstLapSlot<A>(s: Ring<A>)
    requires Inv(s) && s.w < s.size && Seq(s, s.w) <= s.w
    ensures Seq(s, s.w) == s.w
  {
    hide Slot;
    hide WriteOk;
    hide ReadOk;
    hide PcOk;
    var q, i := Seq(s, s.w), Slot(s.w, s.size);
    assert SlotOk(s.size, i, s.seqs[i]);
    InitialSlots(s.size, s.w);
    InitialSlots(s.size, q);
    if q >= 1 { InitialSlots(s.size, q - 1); }
  }

  // The item of the next read ticket has been published
  ghost predicate ItemReady<A>(s: Ring<A>)
    requires Shape(s)
  {
    Seq(s, s.r) == s.r + 1
  }

  lemma ReadyIff<A>(s: Ring<A>)
    requires Inv(s)
    ensures Shape(s) && Seq(s, s.r) <= s.r + 1 && (ItemReady(s) <==> WriteDone(s, s.r))
    ensures ItemReady(s) ==> s.r in s.written && s.data[Slot(s.r, s.size)] == s.written[s.r]
  {
    hide Slot;
    assert ReadOk(s, s.r) && WriteOk(s, s.r);
  }

  // What an operation leaves that put v into the ring
  ghost predicate PutIn<A>(s: Ring<A>, s': Ring<A>, tid: Tid, v: A)
    requires Shape(s) && Shape(s') && s.size == s'.size
  {
    && PcOf(s', tid) == Idle && s'.w == s.w + 1 && s'.r == s.r
    && s'.written == s.written[s.w := v] && s'.handed == s.handed && s'.writer == s.writer[s.w := tid]
    && Seq(s', s.w) == s.w + 1
  }

  // What an operation leaves that took the oldest item out
  ghost predicate TookOut<A>(s: Ring<A>, s': Ring<A>, tid: Tid)
    requires Shape(s) && Shape(s') && s.size == s'.size
  {
    && PcOf(s', tid) == Idle && s'.r == s.r + 1 && s'.w == s.w && s'.written == s.written
    && s.r in s.written && s'.handed == s.handed[s.r := s.written[s.r]] && s'.reader == s.reader[s.r := tid]
    && Seq(s', s.r) == s.r + s.size
  }

  /** tryEnqueue alone answers at once: the item is in the ring exactly when there was room, and
      otherwise nothing but the thread's own position has changed. */
  lemma TryEnqueueAlone<A>(s: Ring<A>, tid: Tid, v: A)
    requires Inv(s) && PcOf(s, tid) == Idle
    ensures var called := Step(s, tid, StartTryEnq(v));
            if s.w < s.size || s.w - s.size in s.handed then PutIn(s, Gone(called, tid, 5), tid, v)
            else Gone(called, tid, 2) == s.(pcs := s.pcs[tid := Idle])
  {
    hide Slot;
    hide Inv;
    hide PutIn;
    hide StoreData;
    hide Publish;
    RoomIff(s);
    var s0 := Step(s, tid, StartTryEnq(v));
    GoneFew(s0, tid);
    var s1 := GoStep(s0, tid);
    var s2 := GoStep(s1, tid);
    assert s1 == Move(s0, tid, TryEnqPoll(s.w, v));
    if Seq(s, s.w) == s.w {
      assert s2 == Move(s1, tid, TryEnqCas(s.w, v));
      var s3 := GoStep(s2, tid);
      WriteThrough(s3, tid, s.w, v);
      WrittenIn(s, s3, tid, v);
    }
  }

  /** enqueue alone: the item is in the ring when there was room, and otherwise the thread waits. */
  lemma EnqueueAlone<A>(s: Ring<A>, tid: Tid, v: A)
    requires Inv(s) && PcOf(s, tid) == Idle
    ensures var called := Step(s, tid, StartEnq(v));
            if s.w < s.size || s.w - s.size in s.handed then PutIn(s, Gone(called, tid, 3), tid, v)
            else Gone(called, tid, 1) == called && PcOf(called, tid) == EnqWait(s.w, v)
  {
    hide Slot;
    hide Inv;
    hide PutIn;
    hide StoreData;
    hide Publish;
    RoomIff(s);
    var s0 := Step(s, tid, StartEnq(v));
    GoneFew(s0, tid);
    if Seq(s, s.w) == s.w {
      var s1 := GoStep(s0, tid);
      WriteThrough(s1, tid, s.w, v);
      WrittenIn(s, s1, tid, v);
    }
  }

  /** tryDequeue alone answers at once: it hands over the oldest item exactly when that has been
      published, and otherwise nothing but the thread's own position has changed. */
  lemma TryDequeueAlone<A>(s: Ring<A>, tid: Tid)
    requires Inv(s) && PcOf(s, tid) == Idle
    ensures var called := Step(s, tid, StartTryDeq);
            if WriteDone(s, s.r) then TookOut(s, Gone(called, tid, 5), tid)
            else Gone(called, tid, 2) == s.(pcs := s.pcs[tid := Idle])
  {
    hide Slot;
    hide Inv;
    hide WriteDone;
    hide TookOut;
    hide FreeSlot;
    ReadyIff(s);
    var s0 := Step(s, tid, StartTryDeq);
    GoneFew(s0, tid);
    var s1 := GoStep(s0, tid);
    var s2 := GoStep(s1, tid);
    assert s1 == Move(s0, tid, TryDeqPoll(s.r));
    if Seq(s, s.r) == s.r + 1 {
      assert s2 == Move(s1, tid, TryDeqCas(s.r));
      var s3 := GoStep(s2, tid);
      ReadThrough(s3, tid, s.r);
      ReadOut(s, GoStep(s3, tid), tid);
    }
  }

  /** dequeue alone: the oldest item is handed over when it has been published, and otherwise the
      thread waits. */
  lemma DequeueAlone<A>(s: Ring<A>, tid: Tid)
    requires Inv(s) && PcOf(s, tid) == Idle
    ensures var called := Step(s, tid, StartDeq);
            if WriteDone(s, s.r) then TookOut(s, Gone(called, tid, 3), tid)
            else Gone(called, tid, 1) == called && PcOf(called, tid) == DeqWait(s.r)
  {
    hide Slot;
    hide Inv;
    hide WriteDone;
    hide TookOut;
    hide FreeSlot;
    ReadyIff(s);
    var s0 := Step(s, tid, StartDeq);
    GoneFew(s0, tid);
    if Seq(s, s.r) == s.r + 1 {
      var s1 := GoStep(s0, tid);
      ReadThrough(s1, tid, s.r);
      ReadOut(s, GoStep(s1, tid), tid);
    }
  }

  /** With other threads about, tryEnqueue tries the ticket that writeTicket held when it looked, and
      goes round again only if that ticket has been taken since: some other enqueue got on. */
  lemma TryEnqueueGetsOn<A>(s: Ring<A>, tid: Tid)
    requires Inv(s)
    ensures var pc, next := PcOf(s, tid), PcOf(GoStep(s, tid), tid);
            && (pc.TryEnqLoad? ==> next == TryEnqPoll(s.w, pc.v))
            && (pc.TryEnqPoll? && !next.TryEnqCas? && next != Idle ==> next == TryEnqLoad(pc.v) && pc.t < s.w)
            && (pc.TryEnqCas? && next != EnqStore(pc.t, pc.v) ==> next == TryEnqPoll(s.w, pc.v) && pc.t < s.w)
  {
    hide Slot;
    hide SlotOk;
    hide ReadOk;
    var pc := PcOf(s, tid);
    assert PcOk(s, tid);
    if pc.TryEnqPoll? && pc.t >= 0 { assert WriteOk(s, pc.t); }
  }

  /** The same of tryDequeue and the read tickets. */
  lemma TryDequeueGetsOn<A>(s: Ring<A>, tid: Tid)
    requires Inv(s)
    ensures var pc, next := PcOf(s, tid), PcOf(GoStep(s, tid), tid);
            && (pc.TryDeqLoad? ==> next == TryDeqPoll(s.r))
            && (pc.TryDeqPoll? && !next.TryDeqCas? && next != Idle ==> next == TryDeqLoad && pc.t < s.r)
            && (pc.TryDeqCas? && next != DeqLoad(pc.t) ==> next == TryDeqPoll(s.r) && pc.t < s.r)
  {
    hide Slot;
    hide SlotOk;
    hide WriteOk;
    var pc := PcOf(s, tid);
    assert PcOk(s, tid);
    if pc.TryDeqPoll? && pc.t >= 0 { assert ReadOk(s, pc.t); }
  }
}
