/** The buffer a fetched snapshot is parsed into and drained from. */
module SnapshotBuffers {
  import opened BookSide

  const CAPACITY := 8192

  class OrderbookSnapshotIncoming {
    const bidArray: array<Entry>
    const askArray: array<Entry>
    var bidCount: nat
    var askCount: nat
    var lastBidGiven: nat
    var lastAskGiven: nat
    var updateId: int

    ghost function Repr(): set<object>
    {
      {this, bidArray, askArray}
    }

    ghost predicate Valid()
      reads this
    {
      && bidArray != askArray && bidArray.Length == CAPACITY && askArray.Length == CAPACITY
      && lastBidGiven <= bidCount <= CAPACITY && lastAskGiven <= askCount <= CAPACITY
    }

    // What was registered on each side, and the part not handed out yet
    ghost function Bids(): seq<Entry>
      reads this, bidArray
      requires Valid()
    {
      bidArray[..bidCount]
    }

    ghost function Asks(): seq<Entry>
      reads this, askArray
      requires Valid()
    {
      askArray[..askCount]
    }

    ghost function BidsLeft(): seq<Entry>
      reads this, bidArray
      requires Valid()
    {
      bidArray[lastBidGiven..bidCount]
    }

    ghost function AsksLeft(): seq<Entry>
      reads this, askArray
      requires Valid()
    {
      askArray[lastAskGiven..askCount]
    }

    constructor ()
      ensures Valid() && fresh(Repr()) && Bids() == [] && Asks() == []
    {
      bidArray := new Entry[CAPACITY](_ => Entry(0, 0));
      askArray := new Entry[CAPACITY](_ => Entry(0, 0));
      bidCount, askCount, lastBidGiven, lastAskGiven, updateId := 0, 0, 0, 0, 0;
    }

    // Entries past the capacity are dropped
    method RegisterEntry(price: int, volume: int, isBid: bool)
      requires Valid()
      modifies this`bidCount, this`askCount, bidArray, askArray
      ensures Valid()
      ensures Bids() == if isBid && |old(Bids())| < 8192 then old(Bids()) + [Entry(price, volume)] else old(Bids())
      ensures Asks() == if !isBid && |old(Asks())| < 8192 then old(Asks()) + [Entry(price, volume)] else old(Asks())
    {
      if isBid {
        if bidCount >= CAPACITY { return; }
        bidArray[bidCount] := Entry(price, volume);
        bidCount := bidCount + 1;
      } else {
        if askCount >= CAPACITY { return; }
        askArray[askCount] := Entry(price, volume);
        askCount := askCount + 1;
      }
    }

    // The next bid in the order of registration, and Entry(0, 0) for ever after the last
    method GetBid() returns (e: Entry)
      requires Valid()
      modifies this`lastBidGiven
      ensures Valid()
      ensures old(BidsLeft()) == [] ==> e == Entry(0, 0) && BidsLeft() == []
      ensures old(BidsLeft()) != [] ==> e == old(BidsLeft())[0] && BidsLeft() == old(BidsLeft())[1..]
    {
      if lastBidGiven >= bidCount { return Entry(0, 0); }
      e := bidArray[lastBidGiven];
      lastBidGiven := lastBidGiven + 1;
    }

    method GetAsk() returns (e: Entry)
      requires Valid()
      modifies this`lastAskGiven
      ensures Valid()
      ensures old(AsksLeft()) == [] ==> e == Entry(0, 0) && AsksLeft() == []
      ensures old(AsksLeft()) != [] ==> e == old(AsksLeft())[0] && AsksLeft() == old(AsksLeft())[1..]
    {
      if lastAskGiven >= askCount { return Entry(0, 0); }
      e := askArray[lastAskGiven];
      lastAskGiven := lastAskGiven + 1;
    }

    // Clears the buffer and rewinds both cursors
    method Reset()
      requires Valid()
      modifies this`bidCount, this`askCount, this`lastBidGiven, this`lastAskGiven
      ensures Valid() && Bids() == [] && Asks() == [] && lastBidGiven == 0 && lastAskGiven == 0
    {
      bidCount, askCount, lastBidGiven, lastAskGiven := 0, 0, 0, 0;
    }
  }
}
