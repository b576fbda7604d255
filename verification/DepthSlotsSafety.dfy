/** Over every interleaving of the stream thread and the book thread each depth slot has exactly
    one owner, so the arrays of a queued event are never overwritten; and neither thread waits
    inside the ring for something that has not begun. */
module DepthSlotsSafety {
  import opened Arithmetic
  import opened RingBuffer
  import opened RingSafety
  import opened DepthSlots

  // ----- the ring's steps

  lemma GoTickets(ring: Ring<int>, tickets: seq<int>, tid: Tid, t: int)
    requires RingLink(ring, tickets) && t >= 0
    ensures TicketCarries(Step(ring, tid, Go), tickets, t)
    ensures var ring' := Step(ring, tid, Go); ring'.w == ring.w && ring'.r == ring.r && ring'.size == ring.size
  {
    hide Slot;
    assert Shape(ring);
    hide RingBuffer.Inv;
    assert PcCarries(ring, tickets, tid) && TicketCarries(ring, tickets, t);
  }

  lemma OwnPc(ring: Ring<int>, tickets: seq<int>, tid: Tid)
    requires RingLink(ring, tickets)
    ensures PcCarries(Step(ring, tid, Go), tickets, tid)
  {
    hide Slot;
    assert Shape(ring);
    hide RingBuffer.Inv;
    assert PcCarries(ring, tickets, tid);
  }

  lemma OtherPc(ring: Ring<int>, tickets: seq<int>, tid: Tid, x: Tid)
    requires RingLink(ring, tickets) && x != tid
    ensures PcCarries(Step(ring, tid, Go), tickets, x)
  {
    hide Slot;
    assert Shape(ring);
    var ring', pc := Step(ring, tid, Go), PcOf(ring, x);
    OtherThread(ring, tickets, tid, x);
    StepKeeps(ring, tid, Go);
    assert PcOk(ring', x);
    if pc.EnqWait? {
      SeqMovesForward(ring, tid, Go, Slot(pc.t, ring.size));
    }
    hide GoStep;
    hide RingBuffer.Step;
    hide RingBuffer.Inv;
    assert PcCarries(ring, tickets, x);
  }

  lemma OtherThread(ring: Ring<int>, tickets: seq<int>, tid: Tid, x: Tid)
    requires RingLink(ring, tickets) && x != tid
    ensures var ring' := Step(ring, tid, Go);
            PcOf(ring', x) == PcOf(ring, x) && ring'.r == ring.r && ring'.size == ring.size
  {
    hide Slot;
    assert Shape(ring);
    hide RingBuffer.Inv;
    assert PcCarries(ring, tickets, tid);
  }

  lemma GoLink(ring: Ring<int>, tickets: seq<int>, tid: Tid)
    requires RingLink(ring, tickets)
    ensures RingLink(Step(ring, tid, Go), tickets)
  {
    assert Shape(ring);
    hide RingBuffer.Inv;
    hide RingBuffer.Step;
    StepKeeps(ring, tid, Go);
    GoTickets(ring, tickets, tid, 0);
    forall t | t >= 0
      ensures TicketCarries(Step(ring, tid, Go), tickets, t)
    {
      GoTickets(ring, tickets, tid, t);
    }
    forall x
      ensures PcCarries(Step(ring, tid, Go), tickets, x)
    {
      if x == tid { OwnPc(ring, tickets, tid); } else { OtherPc(ring, tickets, tid, x); }
    }
  }

  lemma DrawLink(ring: Ring<int>, tickets: seq<int>)
    requires RingLink(ring, tickets) && PcOf(ring, DECODER) == Idle && ring.r < ring.w
    ensures RingLink(Step(ring, DECODER, StartDeq), tickets)
  {
    hide Slot;
    StepKeeps(ring, DECODER, StartDeq);
    var ring' := Step(ring, DECODER, StartDeq);
    hide RingBuffer.Inv;
    forall t | t >= 0
      ensures TicketCarries(ring', tickets, t)
    {
      assert TicketCarries(ring, tickets, t);
    }
    forall x
      ensures PcCarries(ring', tickets, x)
    {
      assert PcCarries(ring, tickets, x) && PcCarries(ring, tickets, DECODER);
    }
  }

  lemma ReleaseLink(ring: Ring<int>, tickets: seq<int>, tid: Tid, slot: int)
    requires RingLink(ring, tickets) && PcOf(ring, tid) == Idle && Seq(ring, ring.w) == ring.w
    ensures RingLink(Step(ring, tid, StartEnq(slot)), tickets + [slot])
  {
    hide Slot;
    StepKeeps(ring, tid, StartEnq(slot));
    assert WriteOk(ring, ring.w);
    var ring', tickets' := Step(ring, tid, StartEnq(slot)), tickets + [slot];
    hide RingBuffer.Inv;
    forall t | t >= 0
      ensures TicketCarries(ring', tickets', t)
    {
      assert TicketCarries(ring, tickets, t);
    }
    forall x
      ensures PcCarries(ring', tickets', x)
    {
      assert PcCarries(ring, tickets, x);
    }
  }

  // ----- room in the ring

  // With fewer tickets outstanding than the ring has places, the next write finds its place free
  lemma PlaceIsFree(ring: Ring<int>, tickets: seq<int>)
    requires RingLink(ring, tickets)
    requires ring.w - ring.r < ring.size
    requires Dequeuing(PcOf(ring, DECODER)) ==> ring.w - ring.r + 1 < ring.size
    ensures Seq(ring, ring.w) == ring.w
  {
    hide Slot;
    assert WriteOk(ring, ring.w);
    var p := ring.w - ring.size;
    NextLap(p, ring.size);
    if p >= 0 {
      assert ReadOk(ring, p) && PcCarries(ring, tickets, if p in ring.reader then ring.reader[p] else BOOK);
    } else {
      FirstLap(ring);
    }
  }

  lemma FirstLap(ring: Ring<int>)
    requires RingBuffer.Inv(ring) && ring.w < ring.size
    ensures Seq(ring, ring.w) == ring.w
  {
    hide Slot;
    InitialSlots(ring.size, ring.w);
    assert WriteOk(ring, ring.w);
    var q := Seq(ring, ring.w);
    assert SlotOk(ring.size, ring.w, q);
    if Slot(q, ring.size) == ring.w {
      OtherTickets(ring.w, q, ring.size);
    } else {
      OtherTickets(ring.w, q - 1, ring.size);
    }
  }

  // What the next ring access of a thread does to the rest
  lemma GoEffect(ring: Ring<int>, tickets: seq<int>, tid: Tid)
    requires RingLink(ring, tickets)
    ensures var ring' := Step(ring, tid, Go);
            && RingLink(ring', tickets) && ring'.r == ring.r && ring'.w == ring.w && ring'.size == ring.size
            && (Enqueuing(PcOf(ring', tid)) <==> Enqueuing(PcOf(ring, tid)) && !PcOf(ring, tid).EnqPublish?)
            && (Dequeuing(PcOf(ring', tid)) <==> Dequeuing(PcOf(ring, tid)) && !PcOf(ring, tid).DeqFree?)
            && (forall x :: x != tid ==> PcOf(ring', x) == PcOf(ring, x))
  {
    hide Slot;
    assert Shape(ring);
    GoLink(ring, tickets, tid);
    GoTickets(ring, tickets, tid, 0);
    OwnNext(ring, tickets, tid);
    hide RingBuffer.Inv;
    hide RingBuffer.Step;
    forall x | x != tid
      ensures PcOf(Step(ring, tid, Go), x) == PcOf(ring, x)
    {
      OtherThread(ring, tickets, tid, x);
    }
  }

  lemma OwnNext(ring: Ring<int>, tickets: seq<int>, tid: Tid)
    requires RingLink(ring, tickets)
    ensures var ring' := Step(ring, tid, Go);
            && (Enqueuing(PcOf(ring', tid)) <==> Enqueuing(PcOf(ring, tid)) && !PcOf(ring, tid).EnqPublish?)
            && (Dequeuing(PcOf(ring', tid)) <==> Dequeuing(PcOf(ring, tid)) && !PcOf(ring, tid).DeqFree?)
  {
    hide Slot;
    assert Shape(ring);
    hide RingBuffer.Inv;
    assert PcCarries(ring, tickets, tid);
  }

  // The value a dequeue is about to hand over is the slot of its ticket
  lemma HandedSlot(ring: Ring<int>, tickets: seq<int>)
    requires RingLink(ring, tickets) && PcOf(ring, DECODER).DeqFree?
    ensures 1 <= ring.r && PcOf(ring, DECODER).v == tickets[ring.r - 1]
  {
    hide Slot;
    assert PcOk(ring, DECODER) && PcCarries(ring, tickets, DECODER);
    assert TicketCarries(ring, tickets, ring.r - 1);
  }

  // ----- conservation

  lemma {:induction false} QueueGrows<C>(queue: seq<Message<C>>, m: Message<C>, x: int)
    ensures QueueHolds(queue + [m], x) == QueueHolds(queue, x) + Carries(m, x)
  {
    if queue == [] {
      assert queue + [m] == [m];
    } else {
      QueueGrows(queue[1..], m, x);
      assert (queue + [m])[1..] == queue[1..] + [m];
    }
  }

  lemma {:induction false} QueuedSlot<C>(queue: seq<Message<C>>, m: Message<C>)
    requires m in queue && m.Event?
    ensures QueueHolds(queue, m.slot) >= 1
  {
    NoDebts(queue[1..], m.slot);
    if queue[0] != m { QueuedSlot(queue[1..], m); }
  }

  lemma {:induction false} NoDebts<C>(queue: seq<Message<C>>, x: int)
    ensures QueueHolds(queue, x) >= 0
  {
    if queue != [] { NoDebts(queue[1..], x); }
  }

  lemma RingTakes(tickets: seq<int>, r: int, slot: int, x: int)
    requires 0 <= r <= |tickets|
    ensures RingHolds(tickets + [slot], r, x) == RingHolds(tickets, r, x) + One(slot == x)
  {
    assert (tickets + [slot])[r..] == tickets[r..] + [slot];
  }

  lemma RingGives(tickets: seq<int>, r: int, x: int)
    requires 0 <= r < |tickets|
    ensures RingHolds(tickets, r, x) == RingHolds(tickets, r + 1, x) + One(tickets[r] == x)
  {
    assert tickets[r..] == [tickets[r]] + tickets[r + 1..];
  }

  // The slots held outside the ring, as a list
  ghost function QueueList<C>(queue: seq<Message<C>>): seq<int>
  {
    if queue == [] then [] else (if queue[0].Event? then [queue[0].slot] else []) + QueueList(queue[1..])
  }

  ghost function DecoderList<C>(s: Handoff<C>): seq<int>
  {
    match s.dec
    case DecDequeue => if 1 <= s.ring.r <= |s.tickets| then [s.tickets[s.ring.r - 1]] else []
    case DecFill(slot) => [slot]
    case DecDiscard(slot) => [slot]
    case DecSend(m) => if m.Event? then [m.slot] else []
    case _ => []
  }

  ghost function BookList<C>(s: Handoff<C>): seq<int>
  {
    if s.book.BookHolds? then [s.book.slot] else []
  }

  lemma {:induction false} QueueListCounts<C>(queue: seq<Message<C>>, x: int)
    ensures multiset(QueueList(queue))[x] == QueueHolds(queue, x)
  {
    if queue != [] { QueueListCounts(queue[1..], x); }
  }

  lemma AtMostOne(list: seq<int>, x: int)
    requires |list| <= 1
    ensures multiset(list)[x] == One(|list| == 1 && list[0] == x)
  {
    if |list| == 1 { assert list == [list[0]]; }
  }

  lemma ShortLists<C>(s: Handoff<C>, x: int)
    ensures var d := DecoderList(s); |d| <= 1 && DecoderHolds(s, x) == One(|d| == 1 && d[0] == x)
    ensures var b := BookList(s); |b| <= 1 && BookHoldsIt(s, x) == One(|b| == 1 && b[0] == x)
  {
  }

  lemma ListsCount<C>(s: Handoff<C>, x: int)
    ensures multiset(DecoderList(s))[x] == DecoderHolds(s, x)
    ensures multiset(QueueList(s.queue))[x] == QueueHolds(s.queue, x)
    ensures multiset(BookList(s))[x] == BookHoldsIt(s, x)
  {
    hide *;
    QueueListCounts(s.queue, x);
    ShortLists(s, x);
    AtMostOne(DecoderList(s), x);
    AtMostOne(BookList(s), x);
  }

  ghost function AllSlots(n: nat): (m: multiset<int>)
    ensures |m| == n
    ensures forall x :: m[x] == One(0 <= x < n)
  {
    if n == 0 then multiset{} else AllSlots(n - 1) + multiset{n - 1}
  }

  lemma FourParts(a: multiset<int>, b: multiset<int>, c: multiset<int>, d: multiset<int>, n: nat)
    requires forall x :: a[x] + b[x] + c[x] + d[x] == One(0 <= x < n)
    ensures |a| + |b| + |c| + |d| == n
  {
    assert a + b + c + d == AllSlots(n);
  }

  /** Every slot is held in exactly one place, so the places hold as many as there are slots. */
  lemma SlotCount<C>(s: Handoff<C>)
    requires DepthSlots.Inv(s)
    ensures s.ring.w - s.ring.r + |DecoderList(s)| + |QueueList(s.queue)| + |BookList(s)| == s.ring.size
  {
    hide RingBuffer.Inv;
    hide QueueList;
    hide QueueHolds;
    hide AllSlots;
    assert 0 <= s.ring.r <= s.ring.w == |s.tickets|;
    hide RingLink;
    hide Threads;
    hide Contents;
    hide Uncounted;
    hide DecoderList;
    hide BookList;
    hide DecoderHolds;
    hide BookHoldsIt;
    var a, b, c, d := s.tickets[s.ring.r..], DecoderList(s), QueueList(s.queue), BookList(s);
    forall x
      ensures multiset(a)[x] + multiset(b)[x] + multiset(c)[x] + multiset(d)[x] == One(0 <= x < s.ring.size)
    {
      ListsCount(s, x);
      assert Holders(s, x) == One(0 <= x < s.ring.size);
    }
    FourParts(multiset(a), multiset(b), multiset(c), multiset(d), s.ring.size);
  }
}
