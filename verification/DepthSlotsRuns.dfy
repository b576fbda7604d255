/** Whole runs of the two threads: one owner per slot, intact events, and no wait for a release
    that has not begun. */
module DepthSlotsRuns {
  import opened Arithmetic
  import opened RingBuffer
  import opened RingSafety
  import opened DepthSlots
  import opened DepthSlotsSafety

  // ----- releases

  ghost predicate Releasing<C>(s: Handoff<C>, tid: Tid, slot: int)
  {
    (tid == BOOK && s.book.BookHolds? && slot == s.book.slot) || (tid == DECODER && s.dec == DecDiscard(slot))
  }

  lemma RoomForRelease<C>(s: Handoff<C>, tid: Tid, slot: int)
    requires DepthSlots.Inv(s) && Releasing(s, tid, slot)
    ensures PcOf(s.ring, tid) == Idle && Seq(s.ring, s.ring.w) == s.ring.w
  {
    hide QueueHolds;
    SlotCount(s);
    assert Shape(s.ring) && PcCarries(s.ring, s.tickets, tid);
    hide RingBuffer.Inv;
    hide PcCarries;
    hide RingLink;
    PlaceIsFree(s.ring, s.tickets);
  }

  lemma ReleaseKeepsRing<C>(s: Handoff<C>, tid: Tid, slot: int)
    requires DepthSlots.Inv(s) && Releasing(s, tid, slot)
    ensures var s' := StartRelease(s, tid, slot);
            && RingLink(s'.ring, s'.tickets) && s'.ring.size == s.ring.size
            && s'.ring.r == s.ring.r && s'.ring.w == s.ring.w + 1
            && PcOf(s'.ring, tid) == EnqWait(s.ring.w, slot)
            && forall x :: x != tid ==> PcOf(s'.ring, x) == PcOf(s.ring, x)
  {
    hide QueueHolds;
    hide AllSlots;
    hide PcCarries;
    hide TicketCarries;
    assert Shape(s.ring);
    RoomForRelease(s, tid, slot);
    ReleaseLink(s.ring, s.tickets, tid, slot);
    hide RingBuffer.Inv;
  }

  ghost predicate SoundRing<C>(s: Handoff<C>)
  {
    RingLink(s.ring, s.tickets) && s.ring.size == |s.arrays|
  }

  // Everything the invariant says apart from the ring and who holds what
  ghost predicate Tallies<C>(s: Handoff<C>)
  {
    && Threads(s) && Contents(s)
    && s.count >= 0 && s.ring.w - s.ring.r == s.count + Uncounted(s)
  }

  // A step keeps both, and moves slots without losing or copying one
  ghost predicate Sound<C>(s: Handoff<C>, s': Handoff<C>)
  {
    SoundRing(s') && Tallies(s') && s'.ring.size == s.ring.size && forall x :: Holders(s', x) == Holders(s, x)
  }

  lemma Assemble<C>(s: Handoff<C>, s': Handoff<C>)
    requires DepthSlots.Inv(s) && Sound(s, s')
    ensures DepthSlots.Inv(s')
  {
    hide RingLink;
    hide Threads;
    hide Contents;
    hide Uncounted;
    hide Holders;
    forall x
      ensures Holders(s', x) == One(0 <= x < s'.ring.size)
    {
      assert Holders(s, x) == One(0 <= x < s.ring.size);
    }
  }

  lemma DiscardSound<C>(s: Handoff<C>, c: Choice<C>)
    requires DepthSlots.Inv(s) && s.dec.DecDiscard?
    ensures Sound(s, DecoderStep(s, c))
  {
    hide QueueHolds;
    hide RingHolds;
    assert Shape(s.ring);
    ReleaseKeepsRing(s, DECODER, s.dec.slot);
    forall x
      ensures RingHolds(s.tickets + [s.dec.slot], s.ring.r, x) ==
                RingHolds(s.tickets, s.ring.r, x) + One(s.dec.slot == x)
    {
      RingTakes(s.tickets, s.ring.r, s.dec.slot, x);
    }
    hide RingLink;
    hide RingBuffer.Step;
    hide Intact;
  }

  // ----- the other steps of the stream thread

  // Steps that leave the ring alone and neither take nor give a slot
  lemma CountSound<C>(s: Handoff<C>, c: Choice<C>)
    requires DepthSlots.Inv(s) && (s.dec.DecNext? || s.dec.DecClaim? || s.dec.DecRecount?)
    ensures Sound(s, DecoderStep(s, c))
  {
    assert Shape(s.ring);
    hide RingLink;
    hide Intact;
    hide QueueHolds;
    hide RingHolds;
  }

  lemma FillSound<C>(s: Handoff<C>, c: Choice<C>)
    requires DepthSlots.Inv(s) && s.dec.DecFill?
    ensures 0 <= s.dec.slot < |s.arrays|
    ensures Sound(s, DecoderStep(s, c))
  {
    FillsNothingQueued(s);
    assert Shape(s.ring);
    hide RingLink;
    hide QueueHolds;
    hide RingHolds;
  }

  // The slot being filled is no other message's
  lemma FillsNothingQueued<C>(s: Handoff<C>)
    requires DepthSlots.Inv(s) && s.dec.DecFill?
    ensures 0 <= s.dec.slot < |s.arrays|
    ensures forall m :: m in s.queue && m.Event? ==> m.slot != s.dec.slot
    ensures s.book.BookHolds? ==> s.book.slot != s.dec.slot
  {
    hide RingLink;
    var x := s.dec.slot;
    NoDebts(s.queue, x);
    assert Holders(s, x) == One(0 <= x < s.ring.size);
    forall m | m in s.queue && m.Event?
      ensures m.slot != x
    {
      QueuedSlot(s.queue, m);
    }
  }

  lemma SendSound<C>(s: Handoff<C>, c: Choice<C>)
    requires DepthSlots.Inv(s) && s.dec.DecSend?
    ensures Sound(s, DecoderStep(s, c))
  {
    forall x
      ensures QueueHolds(s.queue + [s.dec.msg], x) == QueueHolds(s.queue, x) + Carries(s.dec.msg, x)
    {
      QueueGrows(s.queue, s.dec.msg, x);
    }
    assert Shape(s.ring);
    hide RingLink;
    hide QueueHolds;
    hide RingHolds;
  }

  lemma DrawSound<C>(s: Handoff<C>, c: Choice<C>)
    requires DepthSlots.Inv(s) && s.dec.DecDraw?
    ensures s.ring.r < s.ring.w
    ensures Sound(s, DecoderStep(s, c))
  {
    hide QueueHolds;
    hide RingHolds;
    assert Shape(s.ring) && PcCarries(s.ring, s.tickets, DECODER);
    DrawLink(s.ring, s.tickets);
    forall x
      ensures RingHolds(s.tickets, s.ring.r, x) == RingHolds(s.tickets, s.ring.r + 1, x) + One(s.tickets[s.ring.r] == x)
    {
      RingGives(s.tickets, s.ring.r, x);
    }
    forall tid | tid != DECODER && tid != BOOK
      ensures PcOf(DecoderStep(s, c).ring, tid) == Idle
    {
      assert PcOf(s.ring, tid) == Idle;
    }
    hide RingLink;
  }

  lemma DequeueSound<C>(s: Handoff<C>, c: Choice<C>)
    requires DepthSlots.Inv(s) && s.dec.DecDequeue?
    ensures Sound(s, DecoderStep(s, c))
  {
    hide QueueHolds;
    hide RingHolds;
    assert Shape(s.ring);
    GoEffect(s.ring, s.tickets, DECODER);
    if PcOf(s.ring, DECODER).DeqFree? { HandedSlot(s.ring, s.tickets); }
    hide RingLink;
    hide RingBuffer.Step;
  }

  lemma EnqueueSound<C>(s: Handoff<C>, c: Choice<C>)
    requires DepthSlots.Inv(s) && s.dec.DecEnqueue?
    ensures Sound(s, DecoderStep(s, c))
  {
    hide QueueHolds;
    hide RingHolds;
    assert Shape(s.ring);
    GoEffect(s.ring, s.tickets, DECODER);
    hide RingLink;
    hide RingBuffer.Step;
  }

  // ----- the steps of the book thread

  lemma TakeContents<C>(s: Handoff<C>)
    requires Contents(s) && s.book.BookNext?
    ensures Contents(TakeMessage(s))
  {
    if s.queue != [] {
      var m := s.queue[0];
      assert Intact(s.arrays, m);
      hide Intact;
      assert m.Event? ==> Event(m.slot, m.levels) == m;
    }
  }

  lemma TakeSound<C>(s: Handoff<C>)
    requires DepthSlots.Inv(s) && s.book.BookNext?
    ensures Sound(s, BookStep(s))
  {
    assert Shape(s.ring);
    hide RingLink;
    hide RingHolds;
    hide DecoderHolds;
    hide OthersIdle;
    TakeContents(s);
    hide Contents;
  }

  lemma BookReleaseSound<C>(s: Handoff<C>)
    requires DepthSlots.Inv(s) && s.book.BookHolds?
    ensures Sound(s, BookStep(s))
  {
    hide QueueHolds;
    hide RingHolds;
    assert Shape(s.ring) && s.ring.w == |s.tickets|;
    ReleaseKeepsRing(s, BOOK, s.book.slot);
    forall x
      ensures RingHolds(s.tickets + [s.book.slot], s.ring.r, x) ==
                RingHolds(s.tickets, s.ring.r, x) + One(s.book.slot == x)
    {
      RingTakes(s.tickets, s.ring.r, s.book.slot, x);
    }
    hide RingLink;
    hide RingBuffer.Step;
    hide Intact;
  }

  lemma BookEnqueueSound<C>(s: Handoff<C>)
    requires DepthSlots.Inv(s) && s.book.BookEnqueue?
    ensures Sound(s, BookStep(s))
  {
    hide QueueHolds;
    hide RingHolds;
    assert Shape(s.ring);
    GoEffect(s.ring, s.tickets, BOOK);
    hide RingLink;
    hide RingBuffer.Step;
    hide Intact;
  }

  lemma BookRecountSound<C>(s: Handoff<C>)
    requires DepthSlots.Inv(s) && s.book.BookRecount?
    ensures Sound(s, BookStep(s))
  {
    assert Shape(s.ring);
    hide RingLink;
    hide QueueHolds;
    hide RingHolds;
    hide Intact;
  }

  // ----- every step

  ghost predicate Runnable<C>(s: Handoff<C>)
  {
    Shape(s.ring) && (s.dec.DecFill? ==> 0 <= s.dec.slot < |s.arrays|)
  }

  lemma AlwaysRunnable<C>(s: Handoff<C>)
    requires DepthSlots.Inv(s)
    ensures Runnable(s)
  {
    if s.dec.DecFill? { FillsNothingQueued(s); }
  }

  lemma DecoderSound<C>(s: Handoff<C>, c: Choice<C>)
    requires DepthSlots.Inv(s)
    ensures Runnable(s) && Sound(s, DecoderStep(s, c))
  {
    AlwaysRunnable(s);
    hide DepthSlots.Inv;
    hide Sound;
    match s.dec
    case DecDraw => DrawSound(s, c);
    case DecDequeue => DequeueSound(s, c);
    case DecFill(slot) => FillSound(s, c);
    case DecDiscard(slot) => DiscardSound(s, c);
    case DecEnqueue => EnqueueSound(s, c);
    case DecSend(m) => SendSound(s, c);
    case _ => CountSound(s, c);
  }

  lemma BookSound<C>(s: Handoff<C>)
    requires DepthSlots.Inv(s)
    ensures Runnable(s) && Sound(s, BookStep(s))
  {
    AlwaysRunnable(s);
    hide DepthSlots.Inv;
    hide Sound;
    match s.book
    case BookNext => TakeSound(s);
    case BookHolds(slot, levels) => BookReleaseSound(s);
    case BookEnqueue => BookEnqueueSound(s);
    case BookRecount => BookRecountSound(s);
  }

  // One atomic access of either thread
  datatype Move<C> = OfDecoder(choice: Choice<C>) | OfBook

  ghost function Next<C>(s: Handoff<C>, m: Move<C>): Handoff<C>
  {
    if !Runnable(s) then s
    else if m.OfDecoder? then DecoderStep(s, m.choice)
    else BookStep(s)
  }

  lemma NextKeeps<C>(s: Handoff<C>, m: Move<C>)
    requires DepthSlots.Inv(s)
    ensures DepthSlots.Inv(Next(s, m)) && Next(s, m).ring.size == s.ring.size
  {
    if m.OfDecoder? { DecoderSound(s, m.choice); } else { BookSound(s); }
    hide DepthSlots.Inv;
    Assemble(s, Next(s, m));
  }

  // ----- from the constructor on

  // One call of enqueue with no other thread about
  ghost function Enqueued(ring: Ring<int>, slot: int): (ring': Ring<int>)
    requires Shape(ring)
    ensures Shape(ring')
  {
    Step(Step(Step(Step(ring, OWNER, StartEnq(slot)), OWNER, Go), OWNER, Go), OWNER, Go)
  }

  // The ring after the constructor has put the first k slots in
  ghost function Filled(n: nat, data: seq<int>, k: nat): (ring: Ring<int>)
    requires n >= 1 && |data| == n
    ensures Shape(ring)
  {
    if k == 0 then Init(n, data) else Enqueued(Filled(n, data, k - 1), k - 1)
  }

  function UpTo(n: nat): seq<int>
  {
    seq(n, i => i)
  }

  ghost predicate AllIdle(ring: Ring<int>)
  {
    forall tid :: PcOf(ring, tid) == Idle
  }

  // A quiet ring that holds the slots from 0 to k - 1, and has handed out none
  ghost predicate HoldsFirst(ring: Ring<int>, n: nat, k: nat)
  {
    RingLink(ring, UpTo(k)) && ring.size == n && ring.w == k && ring.r == 0 && AllIdle(ring)
  }

  lemma EmptyHolds(n: nat, data: seq<int>)
    requires n >= 2 && |data| == n
    ensures HoldsFirst(Init(n, data), n, 0)
  {
    EmptyLinks(n, data);
    hide RingLink;
    assert UpTo(0) == [];
  }

  lemma OneMoreHeld(ring: Ring<int>, n: nat, k: nat)
    requires HoldsFirst(ring, n, k) && k < n
    ensures HoldsFirst(Enqueued(ring, k), n, k + 1)
  {
    assert Shape(ring);
    FillOne(ring, UpTo(k), k);
    hide RingLink;
    hide Enqueued;
    hide AllIdle;
    assert UpTo(k + 1) == UpTo(k) + [k];
  }

  lemma {:induction false} FilledHolds(n: nat, data: seq<int>, k: nat)
    requires n >= 2 && |data| == n && k <= n
    ensures HoldsFirst(Filled(n, data, k), n, k)
  {
    hide HoldsFirst;
    hide Enqueued;
    hide Init;
    if k == 0 {
      EmptyHolds(n, data);
    } else {
      FilledHolds(n, data, k - 1);
      OneMoreHeld(Filled(n, data, k - 1), n, k - 1);
    }
  }

  lemma FilledLinks(n: nat, data: seq<int>, k: nat)
    requires n >= 2 && |data| == n && k <= n
    ensures var ring := Filled(n, data, k);
            RingLink(ring, UpTo(k)) && ring.size == n && ring.w == k && ring.r == 0 && AllIdle(ring)
  {
    FilledHolds(n, data, k);
    hide RingLink;
    hide AllIdle;
    hide Filled;
  }

  lemma OthersStay(ring: Ring<int>, slot: int, tid: Tid)
    requires Shape(ring)
    ensures tid != OWNER ==> PcOf(Step(ring, OWNER, StartEnq(slot)), tid) == PcOf(ring, tid)
  {
  }

  lemma EmptyLinks(n: nat, data: seq<int>)
    requires n >= 2 && |data| == n
    ensures RingLink(Init(n, data), [])
  {
    hide Slot;
    InitInv(n, data);
    hide RingBuffer.Inv;
  }

  lemma FillOne(ring: Ring<int>, tickets: seq<int>, slot: int)
    requires RingLink(ring, tickets) && ring.w < ring.size && AllIdle(ring)
    ensures var ring' := Enqueued(ring, slot);
            && RingLink(ring', tickets + [slot]) && AllIdle(ring')
            && ring'.size == ring.size && ring'.w == ring.w + 1 && ring'.r == ring.r
  {
    FirstLap(ring);
    ReleaseLink(ring, tickets, OWNER, slot);
    var r1, ts := Step(ring, OWNER, StartEnq(slot)), tickets + [slot];
    assert PcOf(r1, OWNER) == EnqWait(ring.w, slot) && PcCarries(r1, ts, OWNER);
    GoEffect(r1, ts, OWNER);
    var r2 := Step(r1, OWNER, Go);
    assert PcOf(r2, OWNER) == EnqStore(ring.w, slot);
    GoEffect(r2, ts, OWNER);
    var r3 := Step(r2, OWNER, Go);
    assert PcOf(r3, OWNER) == EnqPublish(ring.w, slot);
    GoEffect(r3, ts, OWNER);
    var r4 := Step(r3, OWNER, Go);
    assert PcOf(r4, OWNER) == Idle;
    hide RingLink;
    hide RingBuffer.Step;
    forall tid
      ensures PcOf(r4, tid) == Idle
    {
      assert PcOf(r4, tid) == PcOf(r3, tid) == PcOf(r2, tid) == PcOf(r1, tid) || tid == OWNER;
      assert PcOf(r1, tid) == PcOf(ring, tid) || tid == OWNER by { OthersStay(ring, slot, tid); }
    }
  }

  lemma FilledStart(n: nat, data: seq<int>)
    requires n >= 1 && |data| == n
    ensures Filled(n, data, 0) == Init(n, data)
  {
  }

  lemma FilledNext(n: nat, data: seq<int>, k: nat)
    requires n >= 2 && |data| == n && k < n
    ensures var ring := Filled(n, data, k);
            PcOf(ring, OWNER) == Idle && ring.w == k && ring.size == n && Filled(n, data, k + 1) == Enqueued(ring, k)
  {
    FilledLinks(n, data, k);
    hide RingLink;
    hide Enqueued;
  }

  ghost function Start<C>(n: nat, data: seq<int>, arrays: seq<C>): Handoff<C>
    requires n >= 2 && |data| == n && |arrays| == n
  {
    Handoff(Filled(n, data, n), n, arrays, DecNext, BookNext, [], UpTo(n))
  }

  lemma StartInv<C>(n: nat, data: seq<int>, arrays: seq<C>)
    requires n >= 2 && |data| == n && |arrays| == n
    ensures DepthSlots.Inv(Start(n, data, arrays))
  {
    FilledLinks(n, data, n);
    hide RingLink;
    hide Filled;
    forall x
      ensures RingHolds(UpTo(n), 0, x) == One(0 <= x < n)
    {
      UpToHolds(n, x);
    }
  }

  lemma {:induction false} UpToHolds(n: nat, x: int)
    ensures RingHolds(UpTo(n), 0, x) == One(0 <= x < n)
  {
    if n > 0 {
      UpToHolds(n - 1, x);
      RingTakes(UpTo(n - 1), 0, n - 1, x);
      assert UpTo(n) == UpTo(n - 1) + [n - 1];
    }
  }

  // After a schedule of the two threads
  ghost function Exec<C>(first: Handoff<C>, run: seq<Move<C>>): Handoff<C>
  {
    if run == [] then first else Next(Exec(first, run[..|run| - 1]), run[|run| - 1])
  }

  lemma {:induction false} RunKeeps<C>(first: Handoff<C>, run: seq<Move<C>>)
    requires DepthSlots.Inv(first)
    ensures DepthSlots.Inv(Exec(first, run)) && Exec(first, run).ring.size == first.ring.size
  {
    if run != [] {
      RunKeeps(first, run[..|run| - 1]);
      NextKeeps(Exec(first, run[..|run| - 1]), run[|run| - 1]);
    }
  }

  // A new holder of SLOTS slots, every slot free; nothing is known of the memory behind them
  ghost predicate Fresh<C(!new)>(s: Handoff<C>)
  {
    exists data: seq<int>, arrays: seq<C> ::
      |data| == SLOTS && |arrays| == SLOTS && s == Start(SLOTS, data, arrays)
  }

  lemma StartIsFresh<C(!new)>(data: seq<int>, arrays: seq<C>)
    requires |data| == SLOTS && |arrays| == SLOTS
    ensures Fresh(Start(SLOTS, data, arrays))
  {
  }

  // The states a holder can be in
  ghost predicate Reachable<C(!new)>(s: Handoff<C>)
  {
    exists first: Handoff<C>, run: seq<Move<C>> :: Fresh(first) && s == Exec(first, run)
  }

  lemma ReachableInv<C(!new)>(s: Handoff<C>)
    requires Reachable(s)
    ensures DepthSlots.Inv(s) && s.ring.size == SLOTS
  {
    var first: Handoff<C>, run: seq<Move<C>> :| Fresh(first) && s == Exec(first, run);
    var data: seq<int>, arrays: seq<C> :|
      |data| == SLOTS && |arrays| == SLOTS && first == Start(SLOTS, data, arrays);
    StartInv(SLOTS, data, arrays);
    FilledLinks(SLOTS, data, SLOTS);
    RunKeeps(first, run);
  }
}
