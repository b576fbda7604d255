/** The 128 array slots that carry depth events from the stream thread (which decodes) to the
    book thread. Free slots wait in the ring of RingBuffer.dfy and are counted apart. Each atomic
    access of either thread is one step; `tickets` and the `levels` of a message are histories that
    no step looks at. */
module DepthSlots {
  import opened Arithmetic
  import opened RingBuffer

  const SLOTS := 128
  const STREAM_BUFFER := 1024

  const OWNER: Tid := 0      // builds the holder
  const DECODER: Tid := 1
  const BOOK: Tid := 2

  // What the stream thread queues; `levels` is what it left in the slot's arrays
  datatype Message<C> = Dropped | Event(slot: int, levels: C)

  datatype Decoder<C> =
    | DecNext                // about to load freeCount
    | DecClaim               // saw a free slot: about to take one off freeCount
    | DecDraw                // about to start freeSlots.dequeue()
    | DecDequeue             // inside it
    | DecFill(slot: int)     // writing into the slot's arrays
    | DecDiscard(slot: int)  // could not decode: about to start freeSlots.enqueue(slot)
    | DecEnqueue             // inside it
    | DecRecount             // about to add one to freeCount
    | DecSend(msg: Message<C>)

  datatype Book<C> =
    | BookNext
    | BookHolds(slot: int, levels: C)
    | BookEnqueue
    | BookRecount

  datatype Handoff<C> = Handoff(
    ring: Ring<int>,
    count: int,
    arrays: seq<C>,
    dec: Decoder<C>,
    book: Book<C>,
    queue: seq<Message<C>>,
    tickets: seq<int>)      // the slot each write ticket carries

  // ----- who has which slot

  function Carries<C>(m: Message<C>, x: int): int
  {
    One(m.Event? && m.slot == x)
  }

  function QueueHolds<C>(queue: seq<Message<C>>, x: int): int
  {
    if queue == [] then 0 else Carries(queue[0], x) + QueueHolds(queue[1..], x)
  }

  function DecoderHolds<C>(s: Handoff<C>, x: int): int
  {
    match s.dec
    case DecDequeue => One(1 <= s.ring.r <= |s.tickets| && s.tickets[s.ring.r - 1] == x)
    case DecFill(slot) => One(slot == x)
    case DecDiscard(slot) => One(slot == x)
    case DecSend(m) => Carries(m, x)
    case _ => 0
  }

  function BookHoldsIt<C>(s: Handoff<C>, x: int): int
  {
    One(s.book.BookHolds? && s.book.slot == x)
  }

  // Published in the ring, or being released into it
  function RingHolds(tickets: seq<int>, r: int, x: int): int
  {
    if 0 <= r <= |tickets| then multiset(tickets[r..])[x] else 0
  }

  // How many places hold slot x
  function Holders<C>(s: Handoff<C>, x: int): int
  {
    RingHolds(s.tickets, s.ring.r, x) + DecoderHolds(s, x) + QueueHolds(s.queue, x) + BookHoldsIt(s, x)
  }

  // ----- steps

  datatype Choice<C> = Write(levels: C) | Decoded | Undecodable

  ghost function StartRelease<C>(s: Handoff<C>, tid: Tid, slot: int): Handoff<C>
    requires Shape(s.ring)
  {
    s.(ring := Step(s.ring, tid, StartEnq(slot)), tickets := s.tickets + [slot])
  }

  ghost function Filling<C>(s: Handoff<C>, slot: int, c: Choice<C>): Handoff<C>
    requires 0 <= slot < |s.arrays|
  {
    match c
    case Write(levels) => s.(arrays := s.arrays[slot := levels])
    case Decoded => s.(dec := DecSend(Event(slot, s.arrays[slot])))
    case Undecodable => s.(dec := DecDiscard(slot))
  }

  ghost function DecoderStep<C>(s: Handoff<C>, c: Choice<C>): Handoff<C>
    requires Shape(s.ring) && (s.dec.DecFill? ==> 0 <= s.dec.slot < |s.arrays|)
  {
    match s.dec
    case DecNext => s.(dec := if s.count == 0 then DecSend(Dropped) else DecClaim)
    case DecClaim => s.(count := s.count - 1, dec := DecDraw)
    case DecDraw => s.(ring := Step(s.ring, DECODER, StartDeq), dec := DecDequeue)
    case DecDequeue =>
      var pc := PcOf(s.ring, DECODER);
      s.(ring := Step(s.ring, DECODER, Go), dec := if pc.DeqFree? then DecFill(pc.v) else DecDequeue)
    case DecFill(slot) => Filling(s, slot, c)
    case DecDiscard(slot) => StartRelease(s, DECODER, slot).(dec := DecEnqueue)
    case DecEnqueue =>
      var pc := PcOf(s.ring, DECODER);
      s.(ring := Step(s.ring, DECODER, Go), dec := if pc.EnqPublish? then DecRecount else DecEnqueue)
    case DecRecount => s.(count := s.count + 1, dec := DecSend(Dropped))
    case DecSend(m) => if |s.queue| < STREAM_BUFFER then s.(queue := s.queue + [m], dec := DecNext) else s
  }

  ghost function TakeMessage<C>(s: Handoff<C>): Handoff<C>
  {
    if s.queue == [] then s
    else if s.queue[0].Dropped? then s.(queue := s.queue[1..])
    else s.(queue := s.queue[1..], book := BookHolds(s.queue[0].slot, s.queue[0].levels))
  }

  ghost function BookStep<C>(s: Handoff<C>): Handoff<C>
    requires Shape(s.ring)
  {
    match s.book
    case BookNext => TakeMessage(s)
    case BookHolds(slot, levels) => StartRelease(s, BOOK, slot).(book := BookEnqueue)
    case BookEnqueue =>
      var pc := PcOf(s.ring, BOOK);
      s.(ring := Step(s.ring, BOOK, Go), book := if pc.EnqPublish? then BookRecount else BookEnqueue)
    case BookRecount => s.(count := s.count + 1, book := BookNext)
  }

  // ----- the invariant

  predicate Enqueuing(pc: Pc<int>)
  {
    pc.EnqWait? || pc.EnqStore? || pc.EnqPublish?
  }

  predicate Dequeuing(pc: Pc<int>)
  {
    pc.DeqWait? || pc.DeqLoad? || pc.DeqFree?
  }

  // An enqueue under way carries its ticket's slot, and its place in the ring is free already
  ghost predicate PcCarries(ring: Ring<int>, tickets: seq<int>, tid: Tid)
    requires Shape(ring)
  {
    var pc := PcOf(ring, tid);
    && (Enqueuing(pc) ==> 0 <= pc.t < |tickets| && pc.v == tickets[pc.t])
    && (pc.EnqWait? ==> Seq(ring, pc.t) == pc.t)
    && (Dequeuing(pc) ==> tid == DECODER && pc.t == ring.r - 1)
    && (!Enqueuing(pc) && !Dequeuing(pc) ==> pc == Idle)
  }

  ghost predicate TicketCarries(ring: Ring<int>, tickets: seq<int>, t: int)
  {
    t in ring.written ==> 0 <= t < |tickets| && ring.written[t] == tickets[t]
  }

  ghost predicate RingLink(ring: Ring<int>, tickets: seq<int>)
  {
    && RingBuffer.Inv(ring) && |tickets| == ring.w && 0 <= ring.r <= ring.w
    && (forall t :: t >= 0 ==> TicketCarries(ring, tickets, t))
    && (forall tid :: PcCarries(ring, tickets, tid))
  }

  // Slots claimed and not yet drawn, or back in the ring and not yet counted
  ghost function Uncounted<C>(s: Handoff<C>): int
  {
    One(s.dec.DecDraw?) + One(s.dec.DecEnqueue? || s.dec.DecRecount?) + One(s.book.BookEnqueue? || s.book.BookRecount?)
  }

  ghost predicate Intact<C>(arrays: seq<C>, m: Message<C>)
  {
    m.Event? ==> 0 <= m.slot < |arrays| && arrays[m.slot] == m.levels
  }

  ghost predicate Contents<C>(s: Handoff<C>)
  {
    && (forall m :: m in s.queue ==> Intact(s.arrays, m))
    && (s.dec.DecSend? ==> Intact(s.arrays, s.dec.msg))
    && (s.book.BookHolds? ==> Intact(s.arrays, Event(s.book.slot, s.book.levels)))
  }

  ghost predicate OthersIdle(ring: Ring<int>)
  {
    forall tid :: tid != DECODER && tid != BOOK ==> PcOf(ring, tid) == Idle
  }

  ghost predicate Threads<C>(s: Handoff<C>)
  {
    && (Dequeuing(PcOf(s.ring, DECODER)) <==> s.dec.DecDequeue?)
    && (Enqueuing(PcOf(s.ring, DECODER)) <==> s.dec.DecEnqueue?)
    && (Enqueuing(PcOf(s.ring, BOOK)) <==> s.book.BookEnqueue?)
    && (s.dec.DecClaim? ==> s.count > 0)
    && (s.dec.DecDequeue? ==> s.ring.r >= 1)
    && OthersIdle(s.ring)
  }

  ghost predicate Inv<C>(s: Handoff<C>)
  {
    && RingLink(s.ring, s.tickets) && s.ring.size == |s.arrays|
    && Threads(s)
    && s.count >= 0 && s.ring.w - s.ring.r == s.count + Uncounted(s)
    && (forall x :: Holders(s, x) == One(0 <= x < s.ring.size))
    && Contents(s)
  }
}
