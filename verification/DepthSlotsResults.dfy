/** What the depth-slot protocol guarantees in every state a run of its two threads can reach. */
module DepthSlotsResults {
  import opened Arithmetic
  import opened RingBuffer
  import opened DepthSlots
  import opened DepthSlotsSafety
  import opened DepthSlotsRuns

  /** Every slot has exactly one owner: the ring (with a release under way counted as the ring's),
      the stream thread, one queued event, or the book thread. */
  lemma OneOwner<C(!new)>(s: Handoff<C>, x: int)
    requires DepthSlotsRuns.Reachable(s) && 0 <= x < 128
    ensures RingHolds(s.tickets, s.ring.r, x) + DecoderHolds(s, x) + QueueHolds(s.queue, x) + BookHoldsIt(s, x) == 1
  {
    ReachableInv(s);
    hide RingLink;
    assert Holders(s, x) == One(0 <= x < s.ring.size);
  }

  lemma {:induction false} QueuedTwice<C>(queue: seq<Message<C>>, i: int, j: int)
    requires 0 <= i < j < |queue| && queue[i].Event? && queue[j].Event? && queue[i].slot == queue[j].slot
    ensures QueueHolds(queue, queue[i].slot) >= 2
  {
    if i == 0 {
      assert queue[1..][j - 1] == queue[j];
      QueuedSlot(queue[1..], queue[j]);
    } else {
      QueuedTwice(queue[1..], i - 1, j - 1);
    }
  }

  /** Two queued events never share arrays, and neither shares them with the thread that is
      writing or the one that is reading. */
  lemma QueuedApart<C(!new)>(s: Handoff<C>, i: int, j: int)
    requires DepthSlotsRuns.Reachable(s) && 0 <= i < |s.queue| && s.queue[i].Event?
    ensures i < j < |s.queue| && s.queue[j].Event? ==> s.queue[i].slot != s.queue[j].slot
    ensures s.dec.DecFill? ==> s.dec.slot != s.queue[i].slot
    ensures s.book.BookHolds? ==> s.book.slot != s.queue[i].slot
  {
    ReachableInv(s);
    hide RingLink;
    var x := s.queue[i].slot;
    assert Holders(s, x) == One(0 <= x < s.ring.size);
    QueuedSlot(s.queue, s.queue[i]);
    if i < j < |s.queue| && s.queue[j].Event? && s.queue[j].slot == x { QueuedTwice(s.queue, i, j); }
  }

  /** The arrays of an event, queued or in the book thread's hands, still hold what the decoder
      put there, whatever either thread did since. */
  lemma EventsIntact<C(!new)>(s: Handoff<C>, i: int)
    requires DepthSlotsRuns.Reachable(s)
    ensures |s.arrays| == 128
    ensures 0 <= i < |s.queue| && s.queue[i].Event? ==>
              0 <= s.queue[i].slot < 128 && s.arrays[s.queue[i].slot] == s.queue[i].levels
    ensures s.book.BookHolds? ==> 0 <= s.book.slot < 128 && s.arrays[s.book.slot] == s.book.levels
  {
    ReachableInv(s);
    hide RingLink;
    if 0 <= i < |s.queue| { assert Intact(s.arrays, s.queue[i]); }
  }

  /** An acquire that passed the count test draws a read ticket below writeTicket. It waits exactly
      when the book thread's release holds that very ticket and has not published it yet; never
      for a release that is still to begin. */
  lemma AcquireWaitsOnlyForRelease<C(!new)>(s: Handoff<C>)
    requires DepthSlotsRuns.Reachable(s) && s.dec.DecDraw?
    ensures s.ring.r < s.ring.w && Shape(s.ring)
    ensures !WriteDone(s.ring, s.ring.r) <==> HoldsWrite(PcOf(s.ring, BOOK), s.ring.r)
  {
    ReachableInv(s);
    hide Slot;
    DrawSound(s, Undecodable);
    var ring := s.ring;
    assert WriteOk(ring, ring.r) && PcOk(ring, BOOK);
    if !WriteDone(ring, ring.r) { WriterIsBook(s, ring.r); }
  }

  lemma WriterIsBook<C>(s: Handoff<C>, t: int)
    requires DepthSlots.Inv(s) && s.dec.DecDraw? && 0 <= t < s.ring.w && !WriteDone(s.ring, t)
    ensures HoldsWrite(PcOf(s.ring, BOOK), t)
  {
    hide Slot;
    assert WriteOk(s.ring, t) && PcCarries(s.ring, s.tickets, DECODER);
    assert OthersIdle(s.ring);
  }

  /** When the book thread's release, if any, drew the newest ticket (no release of the stream
      thread began after it), the acquire does not wait at all. */
  lemma NoOverlapNoWait<C(!new)>(s: Handoff<C>)
    requires DepthSlotsRuns.Reachable(s) && s.dec.DecDraw?
    requires forall t :: HoldsWrite(PcOf(s.ring, BOOK), t) ==> t == s.ring.w - 1
    ensures Shape(s.ring) && WriteDone(s.ring, s.ring.r)
  {
    AcquireWaitsOnlyForRelease(s);
    ReachableInv(s);
    hide Slot;
    hide RingBuffer.Inv;
  }

  /** A release never waits for space: at its ticket its place in the ring is already free. */
  lemma ReleaseNeverWaits<C(!new)>(s: Handoff<C>, tid: Tid)
    requires DepthSlotsRuns.Reachable(s) && PcOf(s.ring, tid).EnqWait?
    ensures Shape(s.ring) && PcOf(Step(s.ring, tid, Go), tid) == EnqStore(PcOf(s.ring, tid).t, PcOf(s.ring, tid).v)
  {
    ReachableInv(s);
    hide Slot;
    assert PcCarries(s.ring, s.tickets, tid);
  }

  /** An acquire is refused only when every slot is in a queued event, with the book thread, or on
      its way back from it. */
  lemma RefusedMeansAllOut<C(!new)>(s: Handoff<C>)
    requires DepthSlotsRuns.Reachable(s) && s.dec.DecNext?
    ensures s.count == 0 <==>
              |QueueList(s.queue)| + One(s.book.BookHolds? || s.book.BookEnqueue? || s.book.BookRecount?) == 128
  {
    ReachableInv(s);
    SlotCount(s);
    hide RingLink;
    hide QueueList;
  }

  /** A dropped event has given its slot back, and nothing leaks: with no event queued or in hand,
      all slots are free again. */
  lemma NothingLeaks<C(!new)>(s: Handoff<C>)
    requires DepthSlotsRuns.Reachable(s)
    requires s.dec.DecNext? || s.dec == DecSend(Dropped)
    requires s.book.BookNext? && forall m :: m in s.queue ==> m.Dropped?
    ensures s.count == 128
  {
    ReachableInv(s);
    SlotCount(s);
    hide RingLink;
    NoEvents(s.queue);
  }

  lemma {:induction false} NoEvents<C>(queue: seq<Message<C>>)
    requires forall m :: m in queue ==> m.Dropped?
    ensures QueueList(queue) == []
  {
    if queue != [] {
      assert queue[0] in queue;
      NoEvents(queue[1..]);
    }
  }

  /** The stream's buffer never holds more than its 1024 messages. */
  lemma BufferFits<C(!new)>(s: Handoff<C>)
    requires DepthSlotsRuns.Reachable(s)
    ensures |s.queue| <= 1024
  {
    var first: Handoff<C>, run: seq<Move<C>> :| Fresh(first) && s == Exec(first, run);
    RunFits(first, run);
  }

  lemma {:induction false} RunFits<C>(first: Handoff<C>, run: seq<Move<C>>)
    requires |first.queue| <= 1024
    ensures |Exec(first, run).queue| <= 1024
  {
    if run != [] {
      RunFits(first, run[..|run| - 1]);
      NextFits(Exec(first, run[..|run| - 1]), run[|run| - 1]);
    }
  }

  lemma NextFits<C>(s: Handoff<C>, m: Move<C>)
    requires |s.queue| <= 1024
    ensures |DepthSlotsRuns.Next(s, m).queue| <= 1024
  {
    hide Slot;
  }
}
