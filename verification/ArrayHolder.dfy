/** The storage behind the depth slots and the atomic accesses of `acquire` and `release`, one
    method each. Every method is one step of the machine in DepthSlots.dfy, so any interleaving
    of the two threads' calls is one of its runs. */
module ArrayHolders {
  import opened RingBuffer
  import opened AtomicRings
  import opened DepthSlots
  import opened DepthSlotsSafety
  import opened DepthSlotsRuns
  import opened DepthSlotsOverlap

  ghost function MoveOf<C>(tid: Tid): Move<C>
  {
    if tid == DECODER then OfDecoder(Undecodable) else OfBook
  }

  lemma FewMoves<C>(s: Handoff<C>, m: Move<C>)
    ensures Exec(s, [m]) == Next(s, m)
    ensures Exec(s, [m, m, m, m, m]) == Next(Next(Next(Next(Next(s, m), m), m), m), m)
    ensures Exec(s, [m, m, m, m, m, m]) == Next(Next(Next(Next(Next(Next(s, m), m), m), m), m), m)
  {
    hide Next;
    assert [m][..0] == [] && [m, m][..1] == [m] && [m, m, m][..2] == [m, m] && [m, m, m, m][..3] == [m, m, m];
    assert [m, m, m, m, m][..4] == [m, m, m, m] && [m, m, m, m, m, m][..5] == [m, m, m, m, m];
    assert Exec(s, [m, m]) == Next(Exec(s, [m]), m);
    assert Exec(s, [m, m, m]) == Next(Exec(s, [m, m]), m);
    assert Exec(s, [m, m, m, m]) == Next(Exec(s, [m, m, m]), m);
  }

  class OrderbookArrayHolder<C(0, !new)> {
    const freeSlots: AtomicRingBuffer<int>
    const arrays: array<C>           // per slot, the contents of its bid and ask arrays
    var freeCount: int

    ghost var dec: Decoder<C>
    ghost var book: Book<C>
    ghost var queue: seq<Message<C>>
    ghost var tickets: seq<int>

    ghost function State(): Handoff<C>
      reads this, freeSlots, freeSlots.seqs, freeSlots.data, arrays
    {
      Handoff(freeSlots.State(), freeCount, arrays[..], dec, book, queue, tickets)
    }

    ghost function Repr(): set<object>
    {
      {this, freeSlots, freeSlots.seqs, freeSlots.data, arrays}
    }

    ghost predicate Separate()
    {
      && (freeSlots as object) != this && (freeSlots.seqs as object) != freeSlots.data
      && (arrays as object) !in {freeSlots, freeSlots.seqs as object, freeSlots.data}
    }

    ghost predicate Valid()
      reads this, freeSlots, freeSlots.seqs, freeSlots.data, arrays
    {
      Separate() && freeSlots.Valid() && DepthSlots.Inv(State())
    }

    constructor ()
      ensures Valid() && fresh(Repr())
      ensures Fresh(State()) && arrays.Length == 128 && freeCount == 128 && dec == DecNext && book == BookNext
    {
      hide RingBuffer.Inv;
      hide DepthSlots.Inv;
      hide RingBuffer.Init;
      hide Fresh;
      hide Filled;
      hide UpTo;
      freeSlots := new AtomicRingBuffer<int>(SLOTS);
      arrays := new C[SLOTS];
      freeCount := SLOTS;
      dec, book, queue, tickets := DecNext, BookNext, [], UpTo(SLOTS);
      new;
      ghost var data := freeSlots.data[..];
      FillRing(data);
      StartInv(SLOTS, data, arrays[..]);
      StartIsFresh(data, arrays[..]);
      assert State() == Start(SLOTS, data, arrays[..]);
    }

    method FillRing(ghost data: seq<int>)
      requires Separate() && freeSlots.Valid() && |data| == SLOTS && freeSlots.State() == Init(SLOTS, data)
      modifies freeSlots, freeSlots.seqs, freeSlots.data
      ensures freeSlots.Valid() && freeSlots.State() == Filled(SLOTS, data, SLOTS)
    {
      hide RingBuffer.Inv;
      hide RingBuffer.Init;
      hide Enqueued;
      hide Filled;
      hide Slot;
      FilledStart(SLOTS, data);
      for i := 0 to SLOTS
        invariant freeSlots.Valid() && freeSlots.State() == Filled(SLOTS, data, i)
      {
        FilledNext(SLOTS, data, i);
        EnqueueAlone(i);
      }
    }

    // enqueue while no other thread is about
    method EnqueueAlone(slot: int)
      requires Separate() && freeSlots.Valid()
      requires PcOf(freeSlots.State(), OWNER) == Idle && freeSlots.State().w < freeSlots.State().size
      modifies freeSlots, freeSlots.seqs, freeSlots.data
      ensures freeSlots.Valid() && freeSlots.State() == Enqueued(old(freeSlots.State()), slot)
    {
      FirstLap(freeSlots.State());
      hide RingBuffer.Inv;
      hide Slot;
      var ticket := freeSlots.TakeWriteTicket(OWNER, slot);
      var ready := freeSlots.PollForWrite(OWNER, ticket, slot);
      freeSlots.StoreItem(OWNER, ticket, slot);
      freeSlots.PublishItem(OWNER, ticket, slot);
    }

    // ----- acquire

    method LoadFreeCount() returns (free: bool)
      requires Valid() && dec == DecNext
      modifies this`dec
      ensures Valid() && State() == Next(old(State()), OfDecoder(Undecodable))
      ensures dec == if free then DecClaim else DecSend(Dropped)
      ensures free == (freeCount != 0)
    {
      AlwaysRunnable(State());
      NextKeeps(State(), OfDecoder(Undecodable));
      hide DepthSlots.Inv;
      free := freeCount != 0;
      dec := if free then DecClaim else DecSend(Dropped);
    }

    method TakeOne()
      requires Valid() && dec == DecClaim
      modifies this`freeCount, this`dec
      ensures Valid() && State() == Next(old(State()), OfDecoder(Undecodable))
      ensures dec == DecDraw
      ensures freeCount == old(freeCount) - 1
    {
      AlwaysRunnable(State());
      NextKeeps(State(), OfDecoder(Undecodable));
      hide DepthSlots.Inv;
      freeCount := freeCount - 1;
      dec := DecDraw;
    }

    method DrawSlot() returns (ticket: int)
      requires Valid() && dec == DecDraw
      modifies this`dec, freeSlots
      ensures Valid() && State() == Next(old(State()), OfDecoder(Undecodable))
      ensures dec == DecDequeue && PcOf(freeSlots.State(), DECODER) == DeqWait(ticket)
      ensures ticket == old(freeSlots.readTicket) && freeSlots.seqs[..] == old(freeSlots.seqs[..])
    {
      AlwaysRunnable(State());
      NextKeeps(State(), OfDecoder(Undecodable));
      assert PcOf(freeSlots.State(), DECODER) == Idle by {
        assert PcCarries(freeSlots.State(), tickets, DECODER);
      }
      hide DepthSlots.Inv;
      hide RingBuffer.Inv;
      hide RingBuffer.Step;
      ticket := freeSlots.TakeReadTicket(DECODER);
      dec := DecDequeue;
    }

    method PollForSlot(ticket: int) returns (ready: bool)
      requires Valid() && dec == DecDequeue && PcOf(freeSlots.State(), DECODER) == DeqWait(ticket)
      modifies freeSlots`pcs
      ensures Valid() && State() == Next(old(State()), OfDecoder(Undecodable))
      ensures PcOf(freeSlots.State(), DECODER) == if ready then DeqLoad(ticket) else DeqWait(ticket)
      ensures Shape(old(freeSlots.State())) && ready == (Seq(old(freeSlots.State()), ticket) == ticket + 1)
    {
      AlwaysRunnable(State());
      NextKeeps(State(), OfDecoder(Undecodable));
      hide DepthSlots.Inv;
      hide RingBuffer.Inv;
      hide RingBuffer.Step;
      ready := freeSlots.PollForRead(DECODER, ticket);
    }

    method LoadSlot(ticket: int) returns (slot: int)
      requires Valid() && dec == DecDequeue && PcOf(freeSlots.State(), DECODER) == DeqLoad(ticket)
      modifies freeSlots`pcs
      ensures Valid() && State() == Next(old(State()), OfDecoder(Undecodable))
      ensures PcOf(freeSlots.State(), DECODER) == DeqFree(ticket, slot)
    {
      AlwaysRunnable(State());
      NextKeeps(State(), OfDecoder(Undecodable));
      hide DepthSlots.Inv;
      hide RingBuffer.Inv;
      hide RingBuffer.Step;
      slot := freeSlots.LoadItem(DECODER, ticket);
    }

    // The last access of acquire: from here on the slot is the decoder's
    method FreePlace(ticket: int, slot: int)
      requires Valid() && dec == DecDequeue && PcOf(freeSlots.State(), DECODER) == DeqFree(ticket, slot)
      modifies this`dec, freeSlots`pcs, freeSlots`handed, freeSlots.seqs
      ensures Valid() && State() == Next(old(State()), OfDecoder(Undecodable))
      ensures dec == DecFill(slot) && 0 <= slot < arrays.Length
    {
      AlwaysRunnable(State());
      NextKeeps(State(), OfDecoder(Undecodable));
      ghost var after := Next(State(), OfDecoder(Undecodable));
      AlwaysRunnable(after);
      hide DepthSlots.Inv;
      hide RingBuffer.Inv;
      hide RingBuffer.Step;
      freeSlots.FreeItem(DECODER, ticket, slot);
      dec := DecFill(slot);
      assert State() == after;
    }

    // ----- decoding

    method WriteLevels(slot: int, levels: C)
      requires Valid() && dec == DecFill(slot) && 0 <= slot < arrays.Length
      modifies arrays
      ensures Valid() && State() == Next(old(State()), OfDecoder(Write(levels)))
      ensures arrays[slot] == levels
    {
      AlwaysRunnable(State());
      NextKeeps(State(), OfDecoder(Write(levels)));
      ghost var before, after := State(), Next(State(), OfDecoder(Write(levels)));
      hide DepthSlots.Inv;
      hide RingBuffer.Inv;
      arrays[slot] := levels;
      assert arrays[..] == before.arrays[slot := levels];
      assert State() == after;
    }

    method FinishDecoding(slot: int, ok: bool)
      requires Valid() && dec == DecFill(slot) && 0 <= slot < arrays.Length
      modifies this`dec
      ensures Valid() && State() == Next(old(State()), OfDecoder(if ok then Decoded else Undecodable))
      ensures dec == if ok then DecSend(Event(slot, arrays[slot])) else DecDiscard(slot)
    {
      AlwaysRunnable(State());
      NextKeeps(State(), OfDecoder(if ok then Decoded else Undecodable));
      hide DepthSlots.Inv;
      dec := if ok then DecSend(Event(slot, arrays[slot])) else DecDiscard(slot);
    }

    // ----- release

    method BeginRelease(tid: Tid, slot: int) returns (ticket: int)
      requires Valid() && Releasing(State(), tid, slot)
      modifies this`dec, this`book, this`tickets, freeSlots
      ensures Valid() && State() == Next(old(State()), MoveOf(tid))
      ensures PcOf(freeSlots.State(), tid) == EnqWait(ticket, slot)
      ensures tid == DECODER ==> dec == DecEnqueue && book == old(book)
      ensures tid == BOOK ==> book == BookEnqueue && dec == old(dec)
    {
      AlwaysRunnable(State());
      NextKeeps(State(), MoveOf(tid));
      RoomForRelease(State(), tid, slot);
      hide DepthSlots.Inv;
      hide RingBuffer.Inv;
      hide RingBuffer.Step;
      ticket := freeSlots.TakeWriteTicket(tid, slot);
      tickets := tickets + [slot];
      if tid == DECODER { dec := DecEnqueue; } else { book := BookEnqueue; }
    }

    ghost predicate InRelease(tid: Tid)
      reads this`dec, this`book
    {
      (tid == DECODER && dec == DecEnqueue) || (tid == BOOK && book == BookEnqueue)
    }

    method PollForPlace(tid: Tid, ticket: int, slot: int) returns (ready: bool)
      requires Valid() && InRelease(tid) && PcOf(freeSlots.State(), tid) == EnqWait(ticket, slot)
      modifies freeSlots`pcs
      ensures Valid() && State() == Next(old(State()), MoveOf(tid))
      ensures ready && PcOf(freeSlots.State(), tid) == EnqStore(ticket, slot)
    {
      AlwaysRunnable(State());
      NextKeeps(State(), MoveOf(tid));
      assert PcCarries(freeSlots.State(), tickets, tid);
      hide DepthSlots.Inv;
      hide RingBuffer.Inv;
      ready := freeSlots.PollForWrite(tid, ticket, slot);
    }

    method StoreSlot(tid: Tid, ticket: int, slot: int)
      requires Valid() && InRelease(tid) && PcOf(freeSlots.State(), tid) == EnqStore(ticket, slot)
      modifies freeSlots`pcs, freeSlots`written, freeSlots.data
      ensures Valid() && State() == Next(old(State()), MoveOf(tid))
      ensures PcOf(freeSlots.State(), tid) == EnqPublish(ticket, slot)
    {
      AlwaysRunnable(State());
      NextKeeps(State(), MoveOf(tid));
      hide DepthSlots.Inv;
      hide RingBuffer.Inv;
      hide RingBuffer.Step;
      freeSlots.StoreItem(tid, ticket, slot);
    }

    method PublishSlot(tid: Tid, ticket: int, slot: int)
      requires Valid() && InRelease(tid) && PcOf(freeSlots.State(), tid) == EnqPublish(ticket, slot)
      modifies this`dec, this`book, freeSlots`pcs, freeSlots.seqs
      ensures Valid() && State() == Next(old(State()), MoveOf(tid))
      ensures tid == DECODER ==> dec == DecRecount && book == old(book)
      ensures tid == BOOK ==> book == BookRecount && dec == old(dec)
    {
      AlwaysRunnable(State());
      NextKeeps(State(), MoveOf(tid));
      hide DepthSlots.Inv;
      hide RingBuffer.Inv;
      hide RingBuffer.Step;
      freeSlots.PublishItem(tid, ticket, slot);
      if tid == DECODER { dec := DecRecount; } else { book := BookRecount; }
    }

    // Whatever freeCount admits has been published, or its release holds a ticket
    method CountBack(tid: Tid)
      requires Valid() && ((tid == DECODER && dec == DecRecount) || (tid == BOOK && book == BookRecount))
      modifies this`freeCount, this`dec, this`book
      ensures Valid() && State() == Next(old(State()), MoveOf(tid))
      ensures freeCount == old(freeCount) + 1
      ensures tid == DECODER ==> dec == DecSend(Dropped) && book == old(book)
      ensures tid == BOOK ==> book == BookNext && dec == old(dec)
    {
      AlwaysRunnable(State());
      NextKeeps(State(), MoveOf(tid));
      hide DepthSlots.Inv;
      freeCount := freeCount + 1;
      if tid == DECODER { dec := DecSend(Dropped); } else { book := BookNext; }
    }

    // ----- acquire and release, run with no other thread in between

    /** acquire, when no release is under way: it fails exactly when the count is zero, and otherwise
        returns, without a wait, a slot that is then the decoder's. */
    method Acquire() returns (slot: int, ghost run: seq<Move<C>>)
      requires Valid() && dec == DecNext && book != BookEnqueue
      modifies this`dec, this`freeCount, freeSlots, freeSlots.seqs
      ensures Valid() && State() == Exec(old(State()), run)
      ensures (slot == -1) == (old(freeCount) == 0)
      ensures slot == -1 ==> dec == DecSend(Dropped) && freeCount == 0
      ensures slot != -1 ==> 0 <= slot < arrays.Length && dec == DecFill(slot) && freeCount == old(freeCount) - 1
    {
      hide DepthSlots.Inv;
      hide RingBuffer.Inv;
      hide Next;
      hide Exec;
      hide Slot;
      ghost var s, m: Move<C> := State(), OfDecoder(Undecodable);
      FewMoves(s, m);
      run := [m];
      var free := LoadFreeCount();
      if !free {
        return -1, run;
      }
      TakeOne();
      ItemIsThere(State());
      var ticket := DrawSlot();
      var ready := PollForSlot(ticket);
      slot := LoadSlot(ticket);
      FreePlace(ticket, slot);
      run := [m, m, m, m, m, m];
    }

    /** release, by either thread: afterwards the slot can be drawn and counts again; there is no wait. */
    method Release(tid: Tid, slot: int) returns (ghost run: seq<Move<C>>)
      requires Valid() && Releasing(State(), tid, slot)
      modifies this`dec, this`book, this`tickets, this`freeCount, freeSlots, freeSlots.seqs, freeSlots.data
      ensures Valid() && State() == Exec(old(State()), run)
      ensures freeCount == old(freeCount) + 1
      ensures tid == DECODER ==> dec == DecSend(Dropped) && book == old(book)
      ensures tid == BOOK ==> book == BookNext && dec == old(dec)
    {
      hide DepthSlots.Inv;
      hide RingBuffer.Inv;
      hide Next;
      hide Exec;
      hide Slot;
      hide MoveOf;
      ghost var m: Move<C> := MoveOf(tid);
      FewMoves(State(), m);
      run := [m, m, m, m, m];
      assert (tid == DECODER) != (tid == BOOK);
      var ticket := BeginRelease(tid, slot);
      var ready := PollForPlace(tid, ticket, slot);
      StoreSlot(tid, ticket, slot);
      PublishSlot(tid, ticket, slot);
      CountBack(tid);
    }

    // ----- the stream's buffer, whose enqueue and dequeue are one step each here

    ghost method Send()
      requires Valid() && dec.DecSend? && |queue| < 1024
      modifies this`dec, this`queue
      ensures Valid() && State() == Next(old(State()), OfDecoder(Undecodable))
      ensures queue == old(queue) + [old(dec).msg] && dec == DecNext
    {
      AlwaysRunnable(State());
      NextKeeps(State(), OfDecoder(Undecodable));
      hide DepthSlots.Inv;
      queue, dec := queue + [dec.msg], DecNext;
    }

    ghost method Receive()
      requires Valid() && book.BookNext? && queue != []
      modifies this`book, this`queue
      ensures Valid() && State() == Next(old(State()), OfBook)
      ensures queue == old(queue)[1..]
      ensures book == if old(queue)[0].Event? then BookHolds(old(queue)[0].slot, old(queue)[0].levels) else BookNext
    {
      AlwaysRunnable(State());
      NextKeeps(State(), OfBook);
      hide DepthSlots.Inv;
      if queue[0].Event? { book := BookHolds(queue[0].slot, queue[0].levels); }
      queue := queue[1..];
    }
  }
}
