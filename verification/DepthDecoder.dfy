/** The decoder of the stream thread: a slot is acquired, the message read into its arrays, and either
    the event keeps the slot or the slot goes back. The book thread may hold events or a slot
    meanwhile, but has no release under way. */
module DepthDecoders {
  import opened BookSide
  import opened DecodeEntries
  import opened DepthSlots
  import opened DepthSlotsRuns
  import opened ArrayHolders

  // The contents of one slot, as far as its counts reach
  datatype Levels = Levels(bids: seq<Entry>, asks: seq<Entry>)

  datatype Decoded =
    | NoEvent
    | DepthEvent(slot: int, bidCount: nat, askCount: nat, u: int, U: int, pu: int)

  /** A message becomes an event exactly when a slot was free and the message can be read; the event's
      slot then holds exactly its levels. Otherwise no event leaves, and no slot is kept. */
  method DecodeMessage(holder: OrderbookArrayHolder<Levels>, doc: Document) returns (r: Decoded)
    requires holder.Valid() && holder.dec == DecNext && holder.book != BookEnqueue
    modifies holder.Repr()
    ensures holder.Valid() && holder.book == old(holder.book) && holder.queue == old(holder.queue)
    ensures r.NoEvent? <==> old(holder.freeCount) == 0 || !Decodable(doc)
    ensures r.NoEvent? ==> holder.dec == DecSend(Dropped) && holder.freeCount == old(holder.freeCount)
    ensures r.DepthEvent? ==>
              && holder.freeCount == old(holder.freeCount) - 1
              && r.bidCount == |doc.bids| && r.askCount == |doc.asks|
              && doc.u == Number(r.u) && doc.U == Number(r.U) && doc.pu == Number(r.pu)
              && 0 <= r.slot < holder.arrays.Length
              && holder.dec == DecSend(Event(r.slot, holder.arrays[r.slot]))
    ensures r.DepthEvent? ==>
              var levels := holder.arrays[r.slot];
              && |levels.bids| == |doc.bids| <= 1024 && |levels.asks| == |doc.asks| <= 1024
              && (forall i :: 0 <= i < |doc.bids| ==>
                    && doc.bids[i].Fields? && |doc.bids[i].fields| >= 2
                    && doc.bids[i].fields[0] == Number(levels.bids[i].price)
                    && doc.bids[i].fields[1] == Number(levels.bids[i].volume))
              && (forall i :: 0 <= i < |doc.asks| ==>
                    && doc.asks[i].Fields? && |doc.asks[i].fields| >= 2
                    && doc.asks[i].fields[0] == Number(levels.asks[i].price)
                    && doc.asks[i].fields[1] == Number(levels.asks[i].volume))
  {
    hide OrderbookArrayHolder.Valid;
    hide Next;
    hide Exec;
    ghost var run;
    var slot;
    slot, run := holder.Acquire();
    if slot < 0 {
      return NoEvent;
    }
    var bids := new Entry[DEPTH_EVENT_CAPACITY](_ => Entry(0, 0));
    var asks := new Entry[DEPTH_EVENT_CAPACITY](_ => Entry(0, 0));
    var ok, bidCount, askCount := Decode(doc, bids, asks);
    holder.WriteLevels(slot, Levels(bids[..bidCount], asks[..askCount]));
    holder.FinishDecoding(slot, ok);
    if !ok {
      run := holder.Release(DECODER, slot);
      return NoEvent;
    }
    r := DepthEvent(slot, bidCount, askCount, doc.u.value, doc.U.value, doc.pu.value);
  }
}
