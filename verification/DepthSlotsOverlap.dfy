/** The one way an acquire can wait: a release of the book thread has drawn its ticket but not yet
    published, and a later release of the stream thread has been counted. A run that gets there. */
module DepthSlotsOverlap {
  import opened Arithmetic
  import opened RingBuffer
  import opened DepthSlots
  import opened DepthSlotsSafety
  import opened DepthSlotsRuns

  lemma {:induction false} ExecJoin<C>(s: Handoff<C>, first: seq<Move<C>>, rest: seq<Move<C>>)
    ensures Exec(s, first + rest) == Exec(Exec(s, first), rest)
  {
    if rest == [] {
      assert first + rest == first;
    } else {
      assert (first + rest)[..|first + rest| - 1] == first + rest[..|rest| - 1];
      ExecJoin(s, first, rest[..|rest| - 1]);
    }
  }

  // Some schedule goes from one state to the other
  ghost predicate Leads<C(!new)>(s: Handoff<C>, s': Handoff<C>)
  {
    exists run :: Exec(s, run) == s'
  }

  lemma LeadsStep<C(!new)>(s: Handoff<C>, m: Move<C>)
    ensures Leads(s, Next(s, m))
  {
    assert Exec(s, [m]) == Next(Exec(s, [m][..0]), m);
    hide Next;
  }

  lemma LeadsSelf<C(!new)>(s: Handoff<C>)
    ensures Leads(s, s)
  {
    assert Exec(s, []) == s;
  }

  lemma LeadsOn<C(!new)>(a: Handoff<C>, b: Handoff<C>, c: Handoff<C>)
    requires Leads(a, b) && Leads(b, c)
    ensures Leads(a, c)
  {
    var first :| Exec(a, first) == b;
    var rest :| Exec(b, rest) == c;
    ExecJoin(a, first, rest);
  }

  // One more move, with the invariant
  lemma Then<C(!new)>(first: Handoff<C>, s: Handoff<C>, m: Move<C>) returns (s': Handoff<C>)
    requires Leads(first, s) && DepthSlots.Inv(s)
    ensures s' == Next(s, m) && Leads(first, s') && DepthSlots.Inv(s') && Runnable(s)
  {
    s' := Next(s, m);
    AlwaysRunnable(s);
    NextKeeps(s, m);
    LeadsStep(s, m);
    LeadsOn(first, s, s');
  }

  // ----- an acquire with no release under way

  lemma ItemIsThere<C>(s: Handoff<C>)
    requires DepthSlots.Inv(s) && s.dec.DecDraw? && !s.book.BookEnqueue?
    ensures s.ring.r < s.ring.w && Seq(s.ring, s.ring.r) == s.ring.r + 1
  {
    hide Slot;
    DrawSound(s, Undecodable);
    var r := s.ring.r;
    assert WriteOk(s.ring, r) && ReadOk(s.ring, r);
    assert PcCarries(s.ring, s.tickets, if r in s.ring.writer then s.ring.writer[r] else BOOK) && OthersIdle(s.ring);
  }

  // What stays as it is while the stream thread works alone
  ghost predicate Quiet<C>(s: Handoff<C>, s': Handoff<C>)
  {
    s'.book == s.book && s'.ring.size == s.ring.size && PcOf(s'.ring, BOOK) == PcOf(s.ring, BOOK)
  }

  lemma DecoderIdle<C>(s: Handoff<C>)
    requires DepthSlots.Inv(s) && !s.dec.DecDequeue? && !s.dec.DecEnqueue?
    ensures PcOf(s.ring, DECODER) == Idle
  {
    assert PcCarries(s.ring, s.tickets, DECODER);
  }

  // freeCount is looked at, taken from, and a read ticket drawn
  lemma DrawRuns<C(!new)>(first: Handoff<C>, s: Handoff<C>) returns (s': Handoff<C>)
    requires Leads(first, s) && DepthSlots.Inv(s) && s.dec == DecNext && s.count > 0 && !s.book.BookEnqueue?
    ensures Leads(first, s') && DepthSlots.Inv(s') && s'.dec == DecDequeue && Quiet(s, s')
    ensures s'.count == s.count - 1 && s'.queue == s.queue && s'.ring.w == s.ring.w && s'.ring.r == s.ring.r + 1
    ensures PcOf(s'.ring, DECODER) == DeqWait(s.ring.r) && Shape(s'.ring) && Seq(s'.ring, s.ring.r) == s.ring.r + 1
  {
    var move := OfDecoder(Undecodable);
    s' := Then(first, s, move);
    s' := Then(first, s', move);
    DecoderIdle(s');
    ItemIsThere(s');
    hide DepthSlots.Inv;
    hide Slot;
    s' := Then(first, s', move);
  }

  // The published item is taken without a wait
  lemma FetchRuns<C(!new)>(first: Handoff<C>, s: Handoff<C>, t: int) returns (s': Handoff<C>)
    requires Leads(first, s) && DepthSlots.Inv(s) && s.dec == DecDequeue && Shape(s.ring)
    requires PcOf(s.ring, DECODER) == DeqWait(t) && Seq(s.ring, t) == t + 1
    ensures Leads(first, s') && DepthSlots.Inv(s') && s'.dec.DecFill? && Quiet(s, s')
    ensures s'.count == s.count && s'.queue == s.queue && s'.ring.w == s.ring.w && s'.ring.r == s.ring.r
  {
    hide DepthSlots.Inv;
    hide Slot;
    hide Leads;
    var move := OfDecoder(Undecodable);
    s' := Then(first, s, move);
    assert PcOf(s'.ring, DECODER) == DeqLoad(t);
    s' := Then(first, s', move);
    assert PcOf(s'.ring, DECODER).DeqFree?;
    s' := Then(first, s', move);
  }

  lemma SendRuns<C(!new)>(first: Handoff<C>, s: Handoff<C>) returns (s': Handoff<C>)
    requires Leads(first, s) && DepthSlots.Inv(s) && s.dec.DecFill? && |s.queue| < STREAM_BUFFER
    ensures Leads(first, s') && DepthSlots.Inv(s') && s'.dec == DecNext && Quiet(s, s')
    ensures |s'.queue| == |s.queue| + 1 && s'.queue[..|s.queue|] == s.queue && s'.queue[|s.queue|].Event?
    ensures s'.count == s.count && s'.ring.w == s.ring.w && s'.ring.r == s.ring.r
  {
    hide DepthSlots.Inv;
    s' := Then(first, s, OfDecoder(Decoded));
    s' := Then(first, s', OfDecoder(Decoded));
  }

  // ----- releases

  // The book thread takes an event and draws the ticket of its release
  lemma BookBegins<C(!new)>(first: Handoff<C>, s: Handoff<C>) returns (s': Handoff<C>)
    requires Leads(first, s) && DepthSlots.Inv(s) && s.book == BookNext && s.queue != [] && s.queue[0].Event?
    ensures Leads(first, s') && DepthSlots.Inv(s') && s'.book == BookEnqueue && s'.ring.size == s.ring.size
    ensures PcOf(s'.ring, BOOK) == EnqWait(s.ring.w, s.queue[0].slot)
    ensures s'.dec == s.dec && s'.count == s.count && s'.queue == s.queue[1..]
    ensures s'.ring.r == s.ring.r && s'.ring.w == s.ring.w + 1
  {
    hide DepthSlots.Inv;
    s' := Then(first, s, OfBook);
    RoomForRelease(s', BOOK, s.queue[0].slot);
    s' := Then(first, s', OfBook);
  }

  lemma FreeAtOnce<C>(s: Handoff<C>, t: int, v: int)
    requires DepthSlots.Inv(s) && PcOf(s.ring, DECODER) == EnqWait(t, v)
    ensures Shape(s.ring) && Seq(s.ring, t) == t
  {
    assert PcCarries(s.ring, s.tickets, DECODER);
  }

  // The stream thread gives a slot back while the book thread's release stands still
  lemma DiscardRuns<C(!new)>(first: Handoff<C>, s: Handoff<C>) returns (s': Handoff<C>)
    requires Leads(first, s) && DepthSlots.Inv(s) && s.dec.DecFill?
    ensures Leads(first, s') && DepthSlots.Inv(s') && s'.dec == DecRecount && Quiet(s, s')
    ensures s'.count == s.count && s'.queue == s.queue && s'.ring.w == s.ring.w + 1 && s'.ring.r == s.ring.r
  {
    hide DepthSlots.Inv;
    hide Slot;
    hide Leads;
    var move, slot, t := OfDecoder(Undecodable), s.dec.slot, s.ring.w;
    s' := Then(first, s, move);
    DecoderIdle(s');
    s' := Then(first, s', move);
    assert PcOf(s'.ring, DECODER) == EnqWait(t, slot);
    FreeAtOnce(s', t, slot);
    s' := PublishRuns(first, s', t, slot);
  }

  lemma PublishRuns<C(!new)>(first: Handoff<C>, s: Handoff<C>, t: int, slot: int) returns (s': Handoff<C>)
    requires Leads(first, s) && DepthSlots.Inv(s) && s.dec == DecEnqueue && Shape(s.ring)
    requires PcOf(s.ring, DECODER) == EnqWait(t, slot) && Seq(s.ring, t) == t
    ensures Leads(first, s') && DepthSlots.Inv(s') && s'.dec == DecRecount && Quiet(s, s')
    ensures s'.count == s.count && s'.queue == s.queue && s'.ring.w == s.ring.w && s'.ring.r == s.ring.r
  {
    hide DepthSlots.Inv;
    hide Slot;
    hide Leads;
    var move := OfDecoder(Undecodable);
    s' := Then(first, s, move);
    assert PcOf(s'.ring, DECODER) == EnqStore(t, slot);
    s' := Then(first, s', move);
    assert PcOf(s'.ring, DECODER) == EnqPublish(t, slot);
    s' := Then(first, s', move);
  }

  // It is counted, and the dropped message sent
  lemma RecountRuns<C(!new)>(first: Handoff<C>, s: Handoff<C>) returns (s': Handoff<C>)
    requires Leads(first, s) && DepthSlots.Inv(s) && s.dec == DecRecount && |s.queue| < STREAM_BUFFER
    ensures Leads(first, s') && DepthSlots.Inv(s') && s'.dec == DecNext && Quiet(s, s')
    ensures s'.count == s.count + 1 && s'.ring.w == s.ring.w && s'.ring.r == s.ring.r
  {
    hide DepthSlots.Inv;
    hide Leads;
    s' := Then(first, s, OfDecoder(Undecodable));
    s' := Then(first, s', OfDecoder(Undecodable));
  }

  // The count test passes
  lemma ClaimRuns<C(!new)>(first: Handoff<C>, s: Handoff<C>) returns (s': Handoff<C>)
    requires Leads(first, s) && DepthSlots.Inv(s) && s.dec == DecNext && s.count > 0
    ensures Leads(first, s') && DepthSlots.Inv(s') && s'.dec == DecDraw && Quiet(s, s')
    ensures s'.ring.w == s.ring.w && s'.ring.r == s.ring.r
  {
    hide DepthSlots.Inv;
    hide Leads;
    s' := Then(first, s, OfDecoder(Undecodable));
    s' := Then(first, s', OfDecoder(Undecodable));
  }

  // ----- the run

  // k events decoded and none taken
  ghost predicate Backlog(s: Handoff<int>, k: nat)
  {
    && s.dec == DecNext && s.book == BookNext && s.ring.size == SLOTS
    && s.count == SLOTS - k && s.ring.r == k && s.ring.w == SLOTS
    && |s.queue| == k && (k > 0 ==> s.queue[0].Event?)
  }

  lemma {:induction false} BacklogGrows(first: Handoff<int>, k: nat) returns (s: Handoff<int>)
    requires DepthSlots.Inv(first) && Backlog(first, 0) && k < SLOTS
    ensures Leads(first, s) && DepthSlots.Inv(s) && Backlog(s, k)
  {
    if k == 0 {
      LeadsSelf(first);
      s := first;
    } else {
      s := BacklogGrows(first, k - 1);
      hide DepthSlots.Inv;
      hide Leads;
      ghost var before := s;
      s := DrawRuns(first, s);
      s := FetchRuns(first, s, k - 1);
      s := SendRuns(first, s);
      assert k > 1 ==> s.queue[0] == s.queue[..k - 1][0] == before.queue[0];
    }
  }

  // Every slot is out: one with the stream thread, the others in events, one of which is being released
  lemma AllOut(first: Handoff<int>) returns (s: Handoff<int>)
    requires DepthSlots.Inv(first) && Backlog(first, 0)
    ensures Leads(first, s) && DepthSlots.Inv(s) && s.dec.DecFill? && |s.queue| < SLOTS
    ensures s.ring.r == SLOTS && s.ring.w == SLOTS + 1 && PcOf(s.ring, BOOK).EnqWait? && PcOf(s.ring, BOOK).t == SLOTS
  {
    s := BacklogGrows(first, SLOTS - 1);
    hide DepthSlots.Inv;
    hide Leads;
    s := DrawRuns(first, s);
    s := FetchRuns(first, s, SLOTS - 1);
    s := BookBegins(first, s);
  }

  lemma HeldIsUnpublished<C>(s: Handoff<C>, t: int)
    requires DepthSlots.Inv(s) && HoldsWrite(PcOf(s.ring, BOOK), t)
    ensures Shape(s.ring) && !WriteDone(s.ring, t)
  {
    assert PcOk(s.ring, BOOK);
  }

  /** The wait happens: a reachable state in which an acquire has passed the count test and the item of
      the read ticket it is about to draw is the one the book thread is still releasing. Once drawn,
      the ticket's poll finds nothing and changes nothing. */
  lemma AcquireCanWait() returns (s: Handoff<int>)
    ensures DepthSlotsRuns.Reachable(s) && s.dec.DecDraw? && HoldsWrite(PcOf(s.ring, BOOK), s.ring.r)
    ensures Shape(s.ring) && !WriteDone(s.ring, s.ring.r)
    ensures var drawn := Next(s, OfDecoder(Undecodable));
            PcOf(drawn.ring, DECODER) == DeqWait(s.ring.r) && Next(drawn, OfDecoder(Undecodable)) == drawn
  {
    var zeros := seq(SLOTS, _ => 0);
    var first := Start(SLOTS, zeros, zeros);
    StartInv(SLOTS, zeros, zeros);
    FilledLinks(SLOTS, zeros, SLOTS);
    s := AllOut(first);
    s := DiscardRuns(first, s);
    assert s.count >= 0;
    s := RecountRuns(first, s);
    s := ClaimRuns(first, s);
    HeldIsUnpublished(s, s.ring.r);
    var run :| Exec(first, run) == s;
    WaitsThere(s);
  }

  lemma WaitsThere<C>(s: Handoff<C>)
    requires DepthSlots.Inv(s) && s.dec.DecDraw? && Shape(s.ring) && !WriteDone(s.ring, s.ring.r)
    ensures var drawn := Next(s, OfDecoder(Undecodable));
            PcOf(drawn.ring, DECODER) == DeqWait(s.ring.r) && Next(drawn, OfDecoder(Undecodable)) == drawn
  {
    DecoderIdle(s);
    hide DepthSlots.Inv;
    hide Slot;
  }
}
