/** The book thread: what it does to both sides of the book, from its start to its stop, and how the
    outcome agrees with the exchange. The stream and the snapshot requests are outside the model:
    `polls` holds what each look at the stream will find and `fetches` what each request will return,
    and any sequences are allowed. */
module Orderbooks {
  import opened BookSide
  import opened Exchange
  import opened SyncLog
  import opened Standings
  import opened BestFirst
  import opened SortedBooks
  import opened SnapshotBuffers

  const SNAPSHOT_ATTEMPTS := 3
  const MAX_FAILED_SYNCS := 5

  // The exchange information lookup
  datatype TickInfo = TickSize(size: int) | NoInfo

  ghost predicate FaithfulPolls(x: Market, polls: seq<Poll>, tickSize: int)
    requires tickSize > 0
  {
    forall i :: 0 <= i < |polls| && polls[i].Ready? ==> FaithfulEvent(x, polls[i].event, tickSize)
  }

  ghost predicate FaithfulFetches(x: Market, fetches: seq<FetchResult>, tickSize: int)
    requires tickSize > 0
  {
    forall i :: 0 <= i < |fetches| && fetches[i].Fetched? ==> FaithfulSnapshot(x, fetches[i].snap, tickSize)
  }

  lemma FewerAnswers(all: seq<FetchResult>, made: nat, left: seq<FetchResult>)
    requires Asked(all, made, left) && made >= 1
    ensures Answer(all, made - 1).Fetched? ==> |left| < |all|
  {
  }

  // The last n rounds each looked at an event that did not align; none was without a snapshot
  ghost predicate Failing(rounds: seq<Round>, n: int)
  {
    && 0 <= n <= |rounds| && (forall i :: 0 <= i < |rounds| ==> !rounds[i].NoSnapshot?)
    && forall i :: |rounds| - n <= i < |rounds| ==> rounds[i].NotAligned? && rounds[i].judged != []
  }

  lemma NoneFailing()
    ensures Failing([], 0)
  {
  }

  lemma OneMoreFails(rounds: seq<Round>, n: int, r: Round)
    requires Failing(rounds, n)
    ensures r.NotAligned? && r.judged != [] ==> Failing(rounds + [r], n + 1)
    ensures !r.NoSnapshot? ==> Failing(rounds + [r], 0)
  {
  }

  /** Why a run ends. The owner asked, in a look or during a request, or the looks ran out; the stream
      gave up; a round made three requests for nothing, or was stopped while asking; or five rounds in
      a row looked at an event and did not align, with nobody asking to stop. Only the last round can
      be without a snapshot, and only a book that was following the stream is still flagged synced. */
  ghost predicate StopsFor(a: Standing, b: Standing, rounds: seq<Round>)
  {
    && Later(a, b) && !b.running
    && (b.stopAsked ==> Asks(a, b) || b.polls == [])
    && (forall i :: 0 <= i < |rounds| - 1 ==> !rounds[i].NoSnapshot?)
    && (b.synced ==> b.lastError == NoFailure && rounds != [] && rounds[|rounds| - 1].Followed?)
    && match b.lastError
       case NoFailure => b.stopAsked && (rounds != [] ==> !rounds[|rounds| - 1].NoSnapshot?)
       case Disconnected => GaveUp(a, b) && (rounds != [] ==> !rounds[|rounds| - 1].NoSnapshot?)
       case SnapshotFailed =>
         && rounds != [] && rounds[|rounds| - 1].NoSnapshot?
         && (rounds[|rounds| - 1].made == 3 || b.stopAsked)
       case Outdated => !b.stopAsked && Failing(rounds, 5)
       case NoTickSize => false
       case BadTickSize => false
  }

  // How the thread stands when it starts
  predicate Starting(a: Standing)
  {
    a.running && !a.stopAsked && a.lastError == NoFailure
  }

  lemma SteadyStop(a: Standing, b: Standing, rounds: seq<Round>, n: int)
    requires Starting(a) && Steady(a, b) && Proper(b) && !b.running && Failing(rounds, n)
    requires b.synced ==> rounds != [] && rounds[|rounds| - 1].Followed?
    ensures StopsFor(a, b, rounds)
  {
    hide Later;
  }

  // A reason found from a later standing on is one from the earlier standing on
  lemma StopsLater(a: Standing, b: Standing, c: Standing, rounds: seq<Round>)
    requires Steady(a, b) && !b.stopAsked && StopsFor(b, c, rounds)
    ensures StopsFor(a, c, rounds)
  {
    hide Asks;
    hide GaveUp;
    LaterOn(a, b, c);
    AsksOn(a, b, c);
    GaveUpOn(a, b, c);
  }

  lemma SnapshotStop(a: Standing, b: Standing, rounds: seq<Round>, n: int, r: Round)
    requires Starting(a) && Steady(a, b) && Failing(rounds, n) && r.NoSnapshot? && (r.made == 3 || b.stopAsked)
    ensures StopsFor(a, b.(lastError := SnapshotFailed, running := false, synced := false), rounds + [r])
  {
  }

  lemma OutdatedStop(a: Standing, b: Standing, rounds: seq<Round>)
    requires Starting(a) && Steady(a, b) && Proper(b) && b.running && Failing(rounds, 5)
    ensures StopsFor(a, b.(lastError := Outdated, running := false, synced := false), rounds)
  {
  }

  // Requests are answered in order, and every answer but the last was a failure, with nobody asking
  // to stop meanwhile
  ghost predicate Asked(all: seq<FetchResult>, made: nat, left: seq<FetchResult>)
  {
    && left == (if made <= |all| then all[made..] else [])
    && forall i :: 0 <= i < made - 1 ==> Answer(all, i) == FetchFailed(false)
  }

  lemma AskFirst(all: seq<FetchResult>)
    ensures Asked(all, 1, if |all| == 0 then [] else all[1..])
    ensures Requests(1) == [Fetch]
  {
  }

  lemma AskAgain(all: seq<FetchResult>, made: nat, left: seq<FetchResult>)
    requires made >= 1 && Asked(all, made, left) && Answer(all, made - 1) == FetchFailed(false)
    ensures Asked(all, made + 1, if |left| == 0 then [] else left[1..])
    ensures Answer(left, 0) == Answer(all, made)
    ensures Requests(made + 1) == Requests(made) + [Fetch]
  {
  }

  lemma SkipNone(id: int, all: seq<Event>)
    ensures Skipped(id, all, [], all)
  {
  }

  lemma SkipOne(id: int, all: seq<Event>, skipped: seq<Event>, e: Event, left: seq<Event>)
    requires Skipped(id, all, skipped, [e] + left) && e.Depth? && e.u < id
    ensures Skipped(id, all, skipped + [e], left)
  {
    assert skipped + ([e] + left) == (skipped + [e]) + left;
  }

  lemma LaterPolls(x: Market, polls: seq<Poll>, k: nat, tickSize: int)
    requires tickSize > 0 && FaithfulPolls(x, polls, tickSize) && k <= |polls|
    ensures FaithfulPolls(x, polls[k..], tickSize)
    ensures k < |polls| && polls[k].Ready? ==> FaithfulEvent(x, polls[k].event, tickSize)
  {
  }

  lemma LaterFetches(x: Market, fetches: seq<FetchResult>, k: nat, tickSize: int)
    requires tickSize > 0 && FaithfulFetches(x, fetches, tickSize) && k <= |fetches|
    ensures FaithfulFetches(x, fetches[k..], tickSize)
    ensures k < |fetches| && fetches[k].Fetched? ==> FaithfulSnapshot(x, fetches[k].snap, tickSize)
  {
  }

  lemma StillFaithful(x: Market, a: Standing, b: Standing, ready: bool, tickSize: int)
    requires tickSize > 0 && FaithfulPolls(x, a.polls, tickSize) && Waited(a, b, ready)
    ensures FaithfulPolls(x, b.polls, tickSize)
    ensures ready ==> b.polls != [] && b.polls[0].Ready?
  {
    hide EventsOf;
    LaterPolls(x, a.polls, |a.polls| - |b.polls|, tickSize);
  }

  // One step of the map; the answer is whether it was accepted
  method ProcessEntry(book: SortedBook, entry: Entry) returns (ok: bool)
    requires book.Valid() && book.tickSize > 0 && book.Filed()
    modifies book.Repr()
    ensures book.Valid() && book.tickSize == old(book.tickSize) && book.Filed()
    ensures book.levels == Step(old(book.levels), Update(entry.price, entry.volume), book.tickSize)
    ensures ok == Accepts(old(book.levels), Update(entry.price, entry.volume), book.tickSize)
  {
    hide SortedBook.Valid;
    hide Sound;
    UpdatedSound(book.levels, entry.price, entry.volume, book.tickSize);
    ok := book.Update(entry.price, entry.volume);
  }

  // Levels in order, up to the first that is refused, which leaves the side as it finds it
  method ApplyLevels(book: SortedBook, entries: seq<Entry>) returns (ok: bool, ghost taken: nat)
    requires book.Valid() && book.tickSize > 0 && book.Filed()
    modifies book.Repr()
    ensures book.Valid() && book.tickSize == old(book.tickSize) && book.Filed()
    ensures ok <==> AllAccepted(old(book.levels), Updates(entries), book.tickSize)
    ensures taken <= |entries| && (ok <==> taken == |entries|)
    ensures book.levels == After(old(book.levels), Updates(entries)[..taken], book.tickSize)
    ensures !ok ==> !Accepts(book.levels, Updates(entries)[taken], book.tickSize)
    ensures ok ==> book.levels == After(old(book.levels), Updates(entries), book.tickSize)
  {
    hide SortedBook.Valid;
    hide Sound;
    hide Accepts;
    hide Step;
    hide After;
    NoUpdates(book.levels, book.tickSize);
    ghost var start, ops := book.levels, Updates(entries);
    for i := 0 to |entries|
      invariant book.Valid() && book.tickSize == old(book.tickSize) && book.Filed()
      invariant book.levels == After(start, ops[..i], book.tickSize)
      invariant forall k :: 0 <= k < i ==> Accepts(After(start, ops[..k], book.tickSize), ops[k], book.tickSize)
    {
      ok := ProcessEntry(book, entries[i]);
      assert ops[i] == Update(entries[i].price, entries[i].volume);
      AfterNext(start, ops, i, old(book.tickSize));
      if !ok {
        RefusedStep(After(start, ops[..i], book.tickSize), ops[i], book.tickSize);
        return ok, i;
      }
    }
    assert ops[..|entries|] == ops;
    return true, |entries|;
  }

  // Part way through draining: the first k entries are applied, `entry` is the next, `left` what follows it
  ghost predicate Drained(m: Levels, entries: seq<Entry>, k: int, entry: Entry, left: seq<Entry>, tickSize: int)
    requires tickSize > 0
  {
    && 0 <= k <= |entries| && m == After(map[], Updates(entries[..k]), tickSize)
    && (forall i :: 0 <= i < k ==> entries[i].price != 0)
    && (if k < |entries| then entry == entries[k] && left == entries[k + 1..] else entry.price == 0 && left == [])
  }

  // What is handed out next, and what is left then
  predicate HandsOut(left: seq<Entry>, entry: Entry, left': seq<Entry>)
  {
    if left == [] then entry == Entry(0, 0) && left' == [] else entry == left[0] && left' == left[1..]
  }

  lemma DrainStarts(entries: seq<Entry>, entry: Entry, left: seq<Entry>, tickSize: int)
    requires tickSize > 0 && HandsOut(entries, entry, left)
    ensures Drained(map[], entries, 0, entry, left, tickSize)
  {
    NoEntries(map[], entries, tickSize);
  }

  lemma DrainOn(m: Levels, entries: seq<Entry>, k: int, e: Entry, left: seq<Entry>, e': Entry, left': seq<Entry>,
                tickSize: int)
    requires tickSize > 0 && Drained(m, entries, k, e, left, tickSize) && e.price != 0 && HandsOut(left, e', left')
    ensures k < |entries|
    ensures Drained(Step(m, Update(e.price, e.volume), tickSize), entries, k + 1, e', left', tickSize)
  {
    hide Updates;
    hide After;
    hide Step;
    OneMoreEntry(map[], entries, k, tickSize);
    assert entries[k + 1..] != [] ==> entries[k + 1..][1..] == entries[k + 2..];
  }

  lemma DrainEnds(m: Levels, entries: seq<Entry>, k: int, e: Entry, left: seq<Entry>, tickSize: int)
    requires tickSize > 0 && Drained(m, entries, k, e, left, tickSize) && e.price == 0
    ensures m == After(map[], Updates(BeforeZero(entries)), tickSize)
  {
    ZeroEnds(entries, k);
  }

  // The buffered bids up to the first zero price, applied to an empty side
  method DrainBids(book: SortedBook, buffer: OrderbookSnapshotIncoming, ghost bids: seq<Entry>)
    requires book.Valid() && book.tickSize > 0 && book.levels == map[]
    requires buffer.Valid() && buffer.Repr() !! book.Repr() && buffer.BidsLeft() == bids
    modifies book.Repr(), buffer`lastBidGiven
    ensures book.Valid() && book.tickSize == old(book.tickSize) && buffer.Valid() && book.Filed()
    ensures book.levels == After(map[], Updates(BeforeZero(bids)), book.tickSize)
  {
    hide SortedBook.Valid;
    hide SortedBook.Filed;
    hide Step;
    hide After;
    hide BeforeZero;
    hide Updates;
    hide Drained;
    book.EmptyIsFiled();
    ghost var k := 0;
    var entry := buffer.GetBid();
    DrainStarts(bids, entry, buffer.BidsLeft(), book.tickSize);
    while entry.price != 0
      invariant book.Valid() && book.tickSize == old(book.tickSize) && buffer.Valid() && book.Filed()
      invariant Drained(book.levels, bids, k, entry, buffer.BidsLeft(), book.tickSize)
      decreases |bids| - k
    {
      ghost var m, e, left := book.levels, entry, buffer.BidsLeft();
      var accepted := ProcessEntry(book, entry);
      entry := buffer.GetBid();
      DrainOn(m, bids, k, e, left, entry, buffer.BidsLeft(), book.tickSize);
      k := k + 1;
    }
    DrainEnds(book.levels, bids, k, entry, buffer.BidsLeft(), book.tickSize);
  }

  // The buffered asks up to the first zero price, applied to an empty side
  method DrainAsks(book: SortedBook, buffer: OrderbookSnapshotIncoming, ghost asks: seq<Entry>)
    requires book.Valid() && book.tickSize > 0 && book.levels == map[]
    requires buffer.Valid() && buffer.Repr() !! book.Repr() && buffer.AsksLeft() == asks
    modifies book.Repr(), buffer`lastAskGiven
    ensures book.Valid() && book.tickSize == old(book.tickSize) && buffer.Valid() && book.Filed()
    ensures book.levels == After(map[], Updates(BeforeZero(asks)), book.tickSize)
  {
    hide SortedBook.Valid;
    hide SortedBook.Filed;
    hide Step;
    hide After;
    hide BeforeZero;
    hide Updates;
    hide Drained;
    book.EmptyIsFiled();
    ghost var k := 0;
    var entry := buffer.GetAsk();
    DrainStarts(asks, entry, buffer.AsksLeft(), book.tickSize);
    while entry.price != 0
      invariant book.Valid() && book.tickSize == old(book.tickSize) && buffer.Valid() && book.Filed()
      invariant Drained(book.levels, asks, k, entry, buffer.AsksLeft(), book.tickSize)
      decreases |asks| - k
    {
      ghost var m, e, left := book.levels, entry, buffer.AsksLeft();
      var accepted := ProcessEntry(book, entry);
      entry := buffer.GetAsk();
      DrainOn(m, asks, k, e, left, entry, buffer.AsksLeft(), book.tickSize);
      k := k + 1;
    }
    DrainEnds(book.levels, asks, k, entry, buffer.AsksLeft(), book.tickSize);
  }

  class Orderbook {
    const bidBook: SortedBook
    const askBook: SortedBook
    const snapshot: OrderbookSnapshotIncoming

    var updateID: int
    var running: bool
    var synced: bool
    var lastError: Failure
    var held: int                  // slot of the event in hand, -1 for none

    var polls: seq<Poll>
    var fetches: seq<FetchResult>
    ghost var stopAsked: bool      // the owner asked to stop
    ghost var log: Log
    ghost const market: Market

    ghost predicate Separate()
    {
      && bidBook.Repr() !! askBook.Repr()
      && snapshot.Repr() !! bidBook.Repr() + askBook.Repr()
      && this !in bidBook.Repr() + askBook.Repr() + snapshot.Repr()
      && bidBook.isBid && !askBook.isBid
    }

    ghost predicate BooksValid()
      reads bidBook.Repr(), askBook.Repr()
    {
      && Separate()
      && bidBook.Valid() && askBook.Valid() && bidBook.Filed() && askBook.Filed()
      && bidBook.tickSize == askBook.tickSize
    }

    // Everything the stream and the snapshot requests will deliver is true of the exchange
    ghost predicate WorldFaithful(tickSize: int)
      requires tickSize > 0
      reads this`polls, this`fetches
    {
      FaithfulPolls(market, polls, tickSize) && FaithfulFetches(market, fetches, tickSize)
    }

    constructor (ghost market: Market, polls: seq<Poll>, fetches: seq<FetchResult>)
      ensures BooksValid() && snapshot.Valid() && running && !synced && lastError == NoFailure
      ensures held == -1 && log == [] && !stopAsked && bidBook.levels == map[] && askBook.levels == map[]
      ensures this.market == market && this.polls == polls && this.fetches == fetches
    {
      hide SortedBook.Valid;
      bidBook := new SortedBook(true);
      askBook := new SortedBook(false);
      snapshot := new OrderbookSnapshotIncoming();
      updateID, running, synced, lastError, held := 0, true, false, NoFailure, -1;
      this.polls, this.fetches := polls, fetches;
      stopAsked, log, this.market := false, [], market;
      new;
      hide FaithfulPolls;
      hide FaithfulFetches;
      hide GoodLog;
      assert Separate();
    }

    // ----- stopping

    method Stop(err: Failure)
      modifies this`lastError, this`synced, this`running
      ensures lastError == err && !synced && !running
      ensures err != NoFailure && old(Loaded()) ==> Loaded()
    {
      hide SortedBook.Valid;
      hide SortedBook.Filed;
      hide GoodLog;
      hide FaithfulPolls;
      hide FaithfulFetches;
      lastError := err;
      synced := false;
      running := false;
    }

    ghost function Now(): Standing
      reads this`polls, this`fetches, this`running, this`synced, this`stopAsked, this`lastError
    {
      Standing(polls, fetches, running, synced, stopAsked, lastError)
    }

    // ----- the stream

    // Ends at an event, or at the first look without one once the thread is to stop
    method WaitForUpdate() returns (ready: bool)
      modifies this`polls, this`running, this`synced, this`lastError, this`stopAsked
      ensures Waited(old(Now()), Now(), ready)
      ensures ready ==> polls != [] && polls[0].Ready? && synced == old(synced) && lastError == old(lastError)
      ensures !ready ==> !running && (lastError != old(lastError) ==> lastError == Disconnected && !synced)
    {
      hide Waiting;
      hide Waited;
      ghost var start := Now();
      WaitStarts(start);
      while |polls| > 0 && !polls[0].Ready?
        invariant Waiting(start, Now()) && synced == old(synced) && lastError == old(lastError)
        decreases |polls|
      {
        if polls[0].Shutdown? {
          WaitOn(start, Now());
          running, stopAsked := false, true;
        } else {
          WaitStops(start, Now());
          if !running {
            return false;
          }
          if !polls[0].streamRunning {
            Stop(Disconnected);
            return false;
          }
          WaitOn(start, Now());
        }
        polls := polls[1..];
      }
      if |polls| == 0 {
        // The run under study ends with the owner asking to stop
        WaitOver(start, Now());
        running, stopAsked := false, true;
        return false;
      }
      WaitReady(start, Now());
      return true;
    }

    // Gives the slot in hand back
    method Release()
      requires Loaded()
      modifies this`held
      ensures Loaded() && held == -1
    {
      hide SortedBook.Valid;
      hide GoodLog;
      hide FaithfulPolls;
      hide FaithfulFetches;
      held := -1;
    }

    // ----- the snapshot

    // One REST request: fills the buffer from scratch, or leaves it empty
    method FetchSnapshot() returns (ok: bool, ghost snap: Snapshot)
      requires snapshot.Valid() && Separate()
      modifies this`fetches, this`running, this`stopAsked, snapshot.Repr()
      ensures snapshot.Valid()
      ensures fetches == if |old(fetches)| == 0 then [] else old(fetches)[1..]
      ensures ok == Answer(old(fetches), 0).Fetched?
      ensures ok ==> snap == Answer(old(fetches), 0).snap
      ensures !ok ==> snapshot.BidsLeft() == [] && snapshot.AsksLeft() == []
      ensures ok && |snap.bids| <= CAPACITY && |snap.asks| <= CAPACITY ==>
                snapshot.BidsLeft() == snap.bids && snapshot.AsksLeft() == snap.asks && snapshot.updateId == snap.id
      ensures running == (old(running) && !Answer(old(fetches), 0).stopping)
      ensures stopAsked == (old(stopAsked) || Answer(old(fetches), 0).stopping)
    {
      snapshot.Reset();
      snap := Snapshot([], [], 0);
      if |fetches| == 0 {
        return false, snap;
      }
      var result := fetches[0];
      fetches := fetches[1..];
      if result.stopping {
        running, stopAsked := false, true;
      }
      if result.FetchFailed? {
        return false, snap;
      }
      snap := result.snap;
      FillSnapshot(result.snap);
      return true, snap;
    }

    method FillSnapshot(snap: Snapshot)
      requires snapshot.Valid() && snapshot.Bids() == [] && snapshot.Asks() == []
      requires snapshot.lastBidGiven == 0 && snapshot.lastAskGiven == 0
      modifies snapshot.Repr()
      ensures snapshot.Valid()
      ensures |snap.bids| <= CAPACITY && |snap.asks| <= CAPACITY ==>
                snapshot.BidsLeft() == snap.bids && snapshot.AsksLeft() == snap.asks && snapshot.updateId == snap.id
    {
      snapshot.updateId := snap.id;
      for i := 0 to |snap.bids|
        invariant snapshot.Valid() && snapshot.updateId == snap.id
        invariant snapshot.lastBidGiven == 0 && snapshot.lastAskGiven == 0 && snapshot.Asks() == []
        invariant i <= CAPACITY ==> snapshot.Bids() == snap.bids[..i]
      {
        snapshot.RegisterEntry(snap.bids[i].price, snap.bids[i].volume, true);
      }
      for i := 0 to |snap.asks|
        invariant snapshot.Valid() && snapshot.updateId == snap.id
        invariant snapshot.lastBidGiven == 0 && snapshot.lastAskGiven == 0
        invariant |snap.bids| <= CAPACITY ==> snapshot.Bids() == snap.bids
        invariant i <= CAPACITY ==> snapshot.Asks() == snap.asks[..i]
      {
        snapshot.RegisterEntry(snap.asks[i].price, snap.asks[i].volume, false);
      }
      assert snap.asks[..|snap.asks|] == snap.asks;
    }

    // Each side becomes what the buffered levels before the first zero price make of an empty one
    method ApplySnapshot(ghost snap: Snapshot)
      requires BooksValid() && bidBook.tickSize > 0 && snapshot.Valid()
      requires snapshot.BidsLeft() == snap.bids && snapshot.AsksLeft() == snap.asks && snapshot.updateId == snap.id
      modifies this`updateID, bidBook.Repr(), askBook.Repr(), snapshot.Repr()
      ensures BooksValid() && bidBook.tickSize == old(bidBook.tickSize) && snapshot.Valid()
      ensures bidBook.levels == After(map[], Updates(BeforeZero(snap.bids)), bidBook.tickSize)
      ensures askBook.levels == After(map[], Updates(BeforeZero(snap.asks)), askBook.tickSize)
      ensures updateID == snap.id
    {
      hide SortedBook.Valid;
      hide SortedBook.Filed;
      hide BeforeZero;
      hide After;
      ClearBook(bidBook);
      ClearBook(askBook);
      DrainBids(bidBook, snapshot, snap.bids);
      DrainAsks(askBook, snapshot, snap.asks);
      updateID := snapshot.updateId;
    }

    method ClearBook(book: SortedBook)
      requires book.Valid()
      modifies book.Repr()
      ensures book.Valid() && book.levels == map[] && book.tickSize == old(book.tickSize) && book.Filed()
    {
      book.BlocksSized();
      book.Clear();
      book.EmptyIsFiled();
    }

    // Bids, then asks, in order, up to the first level that is refused; the id moves if none is
    method ApplyUpdate(e: Event) returns (ok: bool, ghost bids: nat, ghost asks: nat)
      requires BooksValid() && bidBook.tickSize > 0 && e.Depth?
      modifies this`updateID, bidBook.Repr(), askBook.Repr()
      ensures BooksValid() && bidBook.tickSize == old(bidBook.tickSize)
      ensures ok ==> AllAccepted(old(bidBook.levels), Updates(e.bids), bidBook.tickSize)
      ensures ok ==> AllAccepted(old(askBook.levels), Updates(e.asks), askBook.tickSize)
      ensures ok ==> bidBook.levels == After(old(bidBook.levels), Updates(e.bids), bidBook.tickSize)
      ensures ok ==> askBook.levels == After(old(askBook.levels), Updates(e.asks), askBook.tickSize)
      ensures updateID == if ok then e.u else old(updateID)
      ensures !ok ==> !(AllAccepted(old(bidBook.levels), Updates(e.bids), bidBook.tickSize)
                        && AllAccepted(old(askBook.levels), Updates(e.asks), askBook.tickSize))
      ensures bids <= |e.bids| && asks <= |e.asks|
      ensures bidBook.levels == After(old(bidBook.levels), Updates(e.bids)[..bids], bidBook.tickSize)
      ensures askBook.levels == After(old(askBook.levels), Updates(e.asks)[..asks], askBook.tickSize)
      ensures bids < |e.bids| ==>
                !ok && asks == 0 && !Accepts(bidBook.levels, Updates(e.bids)[bids], bidBook.tickSize)
      ensures bids == |e.bids| && asks < |e.asks| ==>
                !ok && !Accepts(askBook.levels, Updates(e.asks)[asks], askBook.tickSize)
    {
      hide SortedBook.Valid;
      hide SortedBook.Filed;
      hide AllAccepted;
      hide Accepts;
      hide After;
      NoUpdates(askBook.levels, askBook.tickSize);
      ok, bids := ApplyLevels(bidBook, e.bids);
      asks := 0;
      if !ok {
        return;
      }
      ok, asks := ApplyLevels(askBook, e.asks);
      if ok {
        updateID := e.u;
      }
    }

    // ----- synchronisation

    ghost predicate Loaded()
      reads this`polls, this`fetches, this`running, this`synced, this`stopAsked, this`lastError, this`log
      reads bidBook.Repr(), askBook.Repr(), snapshot
      ensures Loaded() ==> bidBook.tickSize > 0 && Proper(Now())
    {
      && BooksValid() && snapshot.Valid() && bidBook.tickSize > 0 && Proper(Now())
      && WorldFaithful(bidBook.tickSize)
      && GoodLog(market, log, bidBook.tickSize)
    }

    ghost predicate InStepNow()
      requires bidBook.tickSize > 0
      reads this`log, this`updateID, bidBook, askBook
    {
      InStep(market, log, updateID, bidBook.levels, askBook.levels, bidBook.tickSize)
    }

    // One request of a resynchronisation, and its mark
    method Request() returns (ok: bool, ghost snap: Snapshot)
      requires Loaded() && Fetches(log) < 15
      modifies this`fetches, this`running, this`stopAsked, this`log, snapshot.Repr()
      ensures Loaded() && log == old(log) + [Fetch]
      ensures Resyncs(log) == Resyncs(old(log)) && Fetches(log) == Fetches(old(log)) + 1
      ensures fetches == if |old(fetches)| == 0 then [] else old(fetches)[1..]
      ensures ok == Answer(old(fetches), 0).Fetched?
      ensures ok ==> snap == Answer(old(fetches), 0).snap
      ensures ok ==> FaithfulSnapshot(market, snap, bidBook.tickSize)
      ensures ok ==>
                snapshot.BidsLeft() == snap.bids && snapshot.AsksLeft() == snap.asks && snapshot.updateId == snap.id
      ensures Steady(old(Now()), Now()) && (running ==> old(running) && !Answer(old(fetches), 0).stopping)
    {
      hide SortedBook.Valid;
      hide GoodLog;
      hide Steady;
      hide Resyncs;
      hide Fetches;
      hide FaithfulPolls;
      hide FaithfulFetches;
      Append(market, log, Fetch, bidBook.tickSize);
      log := log + [Fetch];
      ghost var before, start := fetches, Now();
      if |before| > 0 {
        LaterFetches(market, before, 1, bidBook.tickSize);
        LaterFetches(market, before, 0, bidBook.tickSize);
      }
      ok, snap := FetchSnapshot();
      SteadyFetch(start, Now());
    }

    // Asks for a snapshot up to three times; stops asking once stopping
    method FetchWithRetries() returns (ok: bool, ghost made: nat, ghost snap: Snapshot)
      requires Loaded() && Fetches(log) <= 12
      modifies this`fetches, this`running, this`stopAsked, this`log, snapshot.Repr()
      ensures Loaded() && bidBook.tickSize == old(bidBook.tickSize)
      ensures Resyncs(log) == Resyncs(old(log)) && Fetches(log) == Fetches(old(log)) + made
      ensures 1 <= made <= SNAPSHOT_ATTEMPTS && log == old(log) + Requests(made)
      ensures Asked(old(fetches), made, fetches)
      ensures ok == Answer(old(fetches), made - 1).Fetched?
      ensures ok ==> snap == Answer(old(fetches), made - 1).snap && FaithfulSnapshot(market, snap, bidBook.tickSize)
      ensures ok ==>
                snapshot.BidsLeft() == snap.bids && snapshot.AsksLeft() == snap.asks && snapshot.updateId == snap.id
      ensures !ok ==> made == 3 || !running
      ensures made <= 3 && (made > 1 ==> old(running))
      ensures forall i :: 0 <= i < made - 1 ==> Answer(old(fetches), i) == FetchFailed(false)
      ensures Steady(old(Now()), Now())
    {
      hide FaithfulPolls;
      hide FaithfulFetches;
      hide SortedBook.Valid;
      hide GoodLog;
      hide Resyncs;
      hide Fetches;
      hide FaithfulSnapshot;
      hide Steady;
      hide Asked;
      ghost var all, start := fetches, Now();
      AskFirst(all);
      ok, snap := Request();
      var attempt := 1;
      made := 1;
      while !ok && attempt < SNAPSHOT_ATTEMPTS
        invariant Loaded() && 1 <= attempt == made <= SNAPSHOT_ATTEMPTS && log == old(log) + Requests(made)
        invariant Resyncs(log) == Resyncs(old(log)) && Fetches(log) == Fetches(old(log)) + made
        invariant bidBook.tickSize == old(bidBook.tickSize)
        invariant Asked(all, made, fetches)
        invariant ok == Answer(all, made - 1).Fetched?
        invariant ok ==> snap == Answer(all, made - 1).snap && FaithfulSnapshot(market, snap, bidBook.tickSize)
        invariant ok ==>
                    snapshot.BidsLeft() == snap.bids && snapshot.AsksLeft() == snap.asks && snapshot.updateId == snap.id
        invariant Steady(start, Now()) && (running ==> old(running) && !Answer(all, made - 1).stopping)
        invariant forall i :: 0 <= i < made - 1 ==> Answer(all, i) == FetchFailed(false)
        invariant made > 1 ==> old(running)
      {
        if !running {
          return;
        }
        AskAgain(all, made, fetches);
        ghost var before := Now();
        ok, snap := Request();
        SteadyOn(start, before, Now());
        attempt := attempt + 1;
        made := made + 1;
      }
    }

    ghost method MarkResync()
      requires Loaded() && Resyncs(log) < 5 && Fetches(log) <= 3 * Resyncs(log)
      modifies this`log
      ensures Loaded() && log == old(log) + [Resync(polls != [] && polls[0].Ready?)]
      ensures Resyncs(log) == Resyncs(old(log)) + 1 && Fetches(log) == Fetches(old(log))
    {
      hide FaithfulPolls;
      hide FaithfulFetches;
      hide SortedBook.Valid;
      hide GoodLog;
      hide Resyncs;
      hide Fetches;
      var mark := Resync(polls != [] && polls[0].Ready?);
      Append(market, log, mark, bidBook.tickSize);
      log := log + [mark];
    }

    // Replaces the book by the buffered snapshot, and marks it
    method LoadSnapshot(ghost snap: Snapshot)
      requires Loaded() && FaithfulSnapshot(market, snap, bidBook.tickSize)
      requires snapshot.BidsLeft() == snap.bids && snapshot.AsksLeft() == snap.asks && snapshot.updateId == snap.id
      modifies this`updateID, this`log, bidBook.Repr(), askBook.Repr(), snapshot.Repr()
      ensures Loaded() && bidBook.tickSize == old(bidBook.tickSize)
      ensures log == old(log) + [Snap(snap)]
      ensures Resyncs(log) == Resyncs(old(log)) && Fetches(log) == Fetches(old(log))
      ensures InStepNow() && BookNow() == SnapshotBook(snap, bidBook.tickSize) && updateID == snap.id
    {
      hide FaithfulPolls;
      hide FaithfulFetches;
      hide SortedBook.Valid;
      hide GoodLog;
      hide Resyncs;
      hide Fetches;
      hide FaithfulSnapshot;
      hide InStep;
      hide After;
      hide SortedBook.Filed;
      hide BeforeZero;
      NothingCutOff(market, snap, bidBook.tickSize);
      ApplySnapshot(snap);
      Append(market, log, Snap(snap), bidBook.tickSize);
      SnapInStep(market, log, snap, bidBook.tickSize);
      log := log + [Snap(snap)];
    }

    /** Clears `synced`, asks for a snapshot up to three times, and replaces the book by the first
        that arrives. */
    method Resynchronise() returns (error: Failure, ghost made: nat, ghost snap: Snapshot)
      requires Loaded() && Resyncs(log) < 5 && Fetches(log) <= 3 * Resyncs(log)
      modifies this`fetches, this`running, this`stopAsked, this`log, this`synced, this`updateID
      modifies bidBook.Repr(), askBook.Repr(), snapshot.Repr()
      ensures Loaded() && bidBook.tickSize == old(bidBook.tickSize)
      ensures Resyncs(log) == Resyncs(old(log)) + 1 && Fetches(log) <= 3 * Resyncs(log)
      ensures 1 <= made <= SNAPSHOT_ATTEMPTS && Asked(old(fetches), made, fetches)
      ensures log == old(log) + [Resync(polls != [] && polls[0].Ready?)] + Requests(made)
                     + (if error == NoFailure then [Snap(snap)] else [])
      ensures error == if Answer(old(fetches), made - 1).Fetched? then NoFailure else SnapshotFailed
      ensures error == NoFailure ==> InStepNow() && snap == Answer(old(fetches), made - 1).snap
      ensures error == NoFailure ==> BookNow() == SnapshotBook(snap, bidBook.tickSize) && updateID == snap.id
      ensures error != NoFailure ==> made == 3 || !running
      ensures !synced && Steady(old(Now()), Now())
    {
      hide FaithfulPolls;
      hide FaithfulFetches;
      hide SortedBook.Valid;
      hide GoodLog;
      hide Resyncs;
      hide Fetches;
      hide FaithfulSnapshot;
      hide InStep;
      hide SnapshotBook;
      hide Asked;
      hide Steady;
      hide Requests;
      ghost var start := Now();
      SteadySelf(start);
      SteadyFlag(start, start, false);
      synced := false;
      ghost var before := Now();
      MarkResync();
      var ok;
      ok, made, snap := FetchWithRetries();
      SteadyOn(start, before, Now());
      if !ok {
        return SnapshotFailed, made, snap;
      }
      LoadSnapshot(snap);
      error := NoFailure;
    }

    ghost function BookNow(): Book
      reads this`updateID, bidBook`levels, askBook`levels
    {
      Book(updateID, bidBook.levels, askBook.levels)
    }

    // Applies an event that reaches back to the book's id, and marks it
    method ApplyInStep(e: Event) returns (ok: bool)
      requires Loaded() && InStepNow() && e.Depth? && FaithfulEvent(market, e, bidBook.tickSize)
      requires e.pu <= updateID <= e.u
      modifies this`updateID, this`log, bidBook.Repr(), askBook.Repr()
      ensures Loaded() && bidBook.tickSize == old(bidBook.tickSize)
      ensures Resyncs(log) == Resyncs(old(log)) && Fetches(log) == Fetches(old(log))
      ensures ok == Fits(old(BookNow()), e, bidBook.tickSize)
      ensures !ok ==> updateID == old(updateID)
      ensures log == if ok then old(log) + [Applied(e)] else old(log)
      ensures ok ==> InStepNow() && BookNow() == NextBook(old(BookNow()), e, bidBook.tickSize)
    {
      hide FaithfulPolls;
      hide FaithfulFetches;
      hide SortedBook.Valid;
      hide GoodLog;
      hide Resyncs;
      hide Fetches;
      hide FaithfulEvent;
      hide InStep;
      hide After;
      hide AllAccepted;
      ghost var bids, asks;
      ok, bids, asks := ApplyUpdate(e);
      if ok {
        Append(market, log, Applied(e), bidBook.tickSize);
        AppliedInStep(market, log, e, old(updateID), old(bidBook.levels), old(askBook.levels), bidBook.tickSize);
        log := log + [Applied(e)];
      }
    }

    // Takes the buffered event, and with it its slot
    method TakeFront() returns (e: Event)
      requires Loaded() && held == -1 && polls != [] && polls[0].Ready?
      modifies this`polls, this`held
      ensures Loaded() && polls == old(polls)[1..] && e == old(polls)[0].event
      ensures FaithfulEvent(market, e, bidBook.tickSize) && held == if e.Depth? then e.slot else -1
    {
      hide SortedBook.Valid;
      hide Resyncs;
      hide Fetches;
      hide GoodLog;
      hide FaithfulEvent;
      hide FaithfulPolls;
      hide FaithfulFetches;
      LaterPolls(market, polls, 1, bidBook.tickSize);
      LaterPolls(market, polls, 0, bidBook.tickSize);
      e := polls[0].event;
      polls := polls[1..];
      held := if e.Depth? then e.slot else -1;
    }

    // As WaitForUpdate, with everything the book thread relies on
    method WaitLoaded() returns (ready: bool)
      requires Loaded()
      modifies this`polls, this`running, this`synced, this`lastError, this`stopAsked
      ensures Loaded() && Waited(old(Now()), Now(), ready)
      ensures ready ==> polls != [] && polls[0].Ready?
    {
      hide SortedBook.Valid;
      hide GoodLog;
      hide FaithfulPolls;
      hide FaithfulFetches;
      hide Waited;
      hide Steady;
      hide Proper;
      ghost var start := Now();
      ready := WaitForUpdate();
      StillFaithful(market, start, Now(), ready, bidBook.tickSize);
      WaitSteady(start, Now(), ready);
    }

    // Takes the next event; the one in hand must have been released
    method NextUpdate() returns (ok: bool, e: Event)
      requires Loaded() && held == -1
      modifies this`polls, this`running, this`synced, this`lastError, this`stopAsked, this`held
      ensures Loaded() && Took(old(Now()), Now(), ok, e)
      ensures ok ==> FaithfulEvent(market, e, bidBook.tickSize)
      ensures held == if ok && e.Depth? then e.slot else -1
    {
      hide SortedBook.Valid;
      hide GoodLog;
      hide FaithfulEvent;
      hide FaithfulPolls;
      hide FaithfulFetches;
      hide Waited;
      hide Took;
      hide Proper;
      e := Dropped;
      ghost var start := Now();
      ok := WaitLoaded();
      if ok {
        TakesOne(start, Now());
        e := TakeFront();
      } else {
        TakesNone(start, Now(), e);
      }
    }

    // Applies an event the snapshot does not cover yet, if it begins no later than the snapshot's id
    method ApplyStraddling(e: Event) returns (applied: bool)
      requires Loaded() && InStepNow() && e.Depth? && FaithfulEvent(market, e, bidBook.tickSize) && updateID <= e.u
      modifies this`updateID, this`log, bidBook.Repr(), askBook.Repr()
      ensures Loaded() && bidBook.tickSize == old(bidBook.tickSize)
      ensures Resyncs(log) == Resyncs(old(log)) && Fetches(log) == Fetches(old(log))
      ensures applied == Straddles(old(BookNow()), e, bidBook.tickSize)
      ensures log == if applied then old(log) + [Applied(e)] else old(log)
      ensures applied ==> InStepNow() && BookNow() == NextBook(old(BookNow()), e, bidBook.tickSize)
    {
      hide FaithfulPolls;
      hide FaithfulFetches;
      hide SortedBook.Valid;
      hide GoodLog;
      hide Resyncs;
      hide Fetches;
      hide FaithfulEvent;
      hide InStep;
      hide Fits;
      hide NextBook;
      applied := e.U <= updateID;
      if applied {
        FaithfulOrder(market, e, bidBook.tickSize);
        applied := ApplyInStep(e);
      }
    }

    /** Passes over the events with u below the snapshot's id; the next one is applied if and only if
        it straddles that id and fits. The events taken are exactly the skipped ones and the one judged. */
    method ApplyFirstUpdate() returns (applied: bool, ghost skipped: seq<Event>, ghost judged: seq<Event>)
      requires Loaded() && InStepNow() && held == -1
      modifies this`polls, this`running, this`synced, this`lastError, this`stopAsked, this`held, this`updateID, this`log
      modifies bidBook.Repr(), askBook.Repr()
      ensures Loaded() && bidBook.tickSize == old(bidBook.tickSize) && held == -1
      ensures Resyncs(log) == Resyncs(old(log)) && Fetches(log) == Fetches(old(log))
      ensures Steady(old(Now()), Now()) && fetches == old(fetches)
      ensures |judged| <= 1 && Skipped(old(updateID), EventsOf(old(polls)), skipped, judged + EventsOf(polls))
      ensures judged == [] ==> !applied && !running
      ensures (synced ==> old(synced)) && (judged != [] ==> lastError == old(lastError))
      ensures judged != [] ==> !(judged[0].Depth? && judged[0].u < old(updateID))
      ensures judged != [] ==> applied == Straddles(old(BookNow()), judged[0], bidBook.tickSize)
      ensures judged != [] ==>
                (applied <==> var e, b := judged[0], old(BookNow());
                              && e.Depth? && e.U <= b.id <= e.u
                              && AllAccepted(b.bids, Updates(e.bids), bidBook.tickSize)
                              && AllAccepted(b.asks, Updates(e.asks), bidBook.tickSize))
      ensures applied ==> InStepNow() && BookNow() == NextBook(old(BookNow()), judged[0], bidBook.tickSize)
      ensures log == if applied then old(log) + [Applied(judged[0])] else old(log)
    {
      hide Loaded;
      hide FaithfulPolls;
      hide FaithfulFetches;
      hide SortedBook.Valid;
      hide GoodLog;
      hide Resyncs;
      hide Fetches;
      hide FaithfulEvent;
      hide FaithfulSnapshot;
      hide InStep;
      hide Steady;
      hide Proper;
      hide Straddles;
      hide AllAccepted;
      hide EventsOf;
      hide Skipped;
      hide NextBook;
      skipped, judged := [], [];
      ghost var all := EventsOf(polls);
      SkipNone(updateID, all);
      hide Took;
      ghost var start := Now();
      var ok, e := NextUpdate();
      TookFacts(start, Now(), ok, e);
      while ok
        invariant Loaded() && InStepNow() && bidBook.tickSize == old(bidBook.tickSize) && log == old(log)
        invariant ok ==> FaithfulEvent(market, e, bidBook.tickSize)
        invariant e.Dropped? || !ok ==> held == -1
        invariant Steady(start, Now()) && (!ok ==> !running) && fetches == old(fetches)
        invariant (synced ==> old(synced)) && (ok ==> lastError == old(lastError))
        invariant BookNow() == old(BookNow())
        invariant Skipped(updateID, all, skipped, (if ok then [e] else []) + EventsOf(polls))
        decreases |polls|, ok
      {
        if e.Dropped? {
          judged := [e];
          StraddlesIff(BookNow(), e, bidBook.tickSize);
          return false, skipped, judged;
        }
        if e.u < updateID {
          Release();
          SkipOne(updateID, all, skipped, e, EventsOf(polls));
          skipped := skipped + [e];
          ghost var before := Now();
          ok, e := NextUpdate();
          TookFacts(before, Now(), ok, e);
          SteadyOn(start, before, Now());
          continue;
        }
        judged := [e];
        StraddlesIff(BookNow(), e, bidBook.tickSize);
        applied := ApplyStraddling(e);
        Release();
        return;
      }
      applied := false;
    }

    // Applies an event that continues exactly where the book is
    method ApplyContinuing(e: Event) returns (went: bool)
      requires Loaded() && InStepNow() && FaithfulEvent(market, e, bidBook.tickSize)
      modifies this`updateID, this`log, bidBook.Repr(), askBook.Repr()
      ensures Loaded() && bidBook.tickSize == old(bidBook.tickSize)
      ensures Resyncs(log) == Resyncs(old(log)) && Fetches(log) == Fetches(old(log))
      ensures went == Continues(old(BookNow()), e, bidBook.tickSize)
      ensures !went ==> updateID == old(updateID)
      ensures log == if went then old(log) + [Applied(e)] else old(log)
      ensures went ==> InStepNow() && BookNow() == NextBook(old(BookNow()), e, bidBook.tickSize)
    {
      hide FaithfulPolls;
      hide FaithfulFetches;
      hide SortedBook.Valid;
      hide GoodLog;
      hide Resyncs;
      hide Fetches;
      hide FaithfulEvent;
      hide InStep;
      hide Fits;
      hide NextBook;
      went := e.Depth? && e.pu == updateID;
      if went {
        FaithfulOrder(market, e, bidBook.tickSize);
        went := ApplyInStep(e);
      }
    }

    /** One round of the update loop: the next event is applied if and only if it continues exactly
        where the book is and both sides have room. */
    method Advance() returns (ok: bool, e: Event, went: bool)
      requires Loaded() && InStepNow() && synced && held == -1
      modifies this`polls, this`running, this`synced, this`lastError, this`stopAsked, this`held, this`updateID, this`log
      modifies bidBook.Repr(), askBook.Repr()
      ensures Loaded() && bidBook.tickSize == old(bidBook.tickSize) && held == -1
      ensures Resyncs(log) == Resyncs(old(log)) && Fetches(log) == Fetches(old(log))
      ensures Steady(old(Now()), Now()) && fetches == old(fetches)
      ensures EventsOf(old(polls)) == (if ok then [e] else []) + EventsOf(polls)
      ensures !ok ==> !running && !went
      ensures ok ==> went == Continues(old(BookNow()), e, bidBook.tickSize)
      ensures ok ==> (went <==> && e.Depth? && e.pu == old(updateID)
                                && AllAccepted(old(bidBook.levels), Updates(e.bids), bidBook.tickSize)
                                && AllAccepted(old(askBook.levels), Updates(e.asks), bidBook.tickSize))
      ensures !went ==> updateID == old(updateID)
      ensures synced ==> old(synced)
      ensures ok ==> lastError == old(lastError)
      ensures log == old(log) + [HeadOf(old(BookNow()))] + (if went then [Applied(e)] else [])
      ensures went ==> InStepNow() && synced && BookNow() == NextBook(old(BookNow()), e, bidBook.tickSize)
      ensures went ==> |polls| < |old(polls)|
    {
      hide Loaded;
      hide FaithfulPolls;
      hide FaithfulFetches;
      hide SortedBook.Valid;
      hide GoodLog;
      hide Resyncs;
      hide Fetches;
      hide FaithfulEvent;
      hide FaithfulSnapshot;
      hide InStep;
      hide Steady;
      hide Proper;
      hide EventsOf;
      hide Fits;
      hide NextBook;
      hide Continues;
      hide AllAccepted;
      hide Took;
      ghost var start := Now();
      MarkHead();
      ok, e := NextUpdate();
      TookFacts(start, Now(), ok, e);
      if !ok {
        return ok, e, false;
      }
      went := ApplyContinuing(e);
      Release();
      ContinuesIff(old(BookNow()), e, bidBook.tickSize);
    }

    /** Of the events it takes, all but the last were applied, each continuing the book the ones before
        it left; the last, `broke`, does not continue it. Without one, the thread is stopping. */
    method UpdateLoop() returns (ghost applied: seq<Event>, ghost broke: seq<Event>)
      requires Loaded() && InStepNow() && synced && held == -1
      modifies this`polls, this`running, this`synced, this`lastError, this`stopAsked, this`held, this`updateID, this`log
      modifies bidBook.Repr(), askBook.Repr()
      ensures Loaded() && bidBook.tickSize == old(bidBook.tickSize) && held == -1
      ensures Resyncs(log) == Resyncs(old(log)) && Fetches(log) == Fetches(old(log))
      ensures Steady(old(Now()), Now()) && fetches == old(fetches)
      ensures |broke| <= 1 && (broke == [] ==> !running)
      ensures var last := BookAfter(old(BookNow()), applied, bidBook.tickSize);
              && updateID == last.id
              && (broke != [] && broke[0].Depth? ==>
                    || broke[0].pu != last.id
                    || !AllAccepted(last.bids, Updates(broke[0].bids), bidBook.tickSize)
                    || !AllAccepted(last.asks, Updates(broke[0].asks), bidBook.tickSize))
      ensures FollowedBy(old(BookNow()), old(log), EventsOf(old(polls)), applied, broke, log, EventsOf(polls),
                bidBook.tickSize)
    {
      hide FaithfulPolls;
      hide FaithfulFetches;
      hide SortedBook.Valid;
      hide GoodLog;
      hide Resyncs;
      hide Fetches;
      hide InStep;
      hide Steady;
      hide Proper;
      hide EventsOf;
      hide Continues;
      hide AllAccepted;
      hide BookAfter;
      hide NextBook;
      hide OnTrack;
      hide FollowedBy;
      applied, broke := [], [];
      ghost var start, from, all := BookNow(), log, EventsOf(polls);
      TrackStarts(start, from, all, bidBook.tickSize);
      SteadySelf(Now());
      while true
        invariant Loaded() && InStepNow() && synced && held == -1 && bidBook.tickSize == old(bidBook.tickSize)
        invariant Resyncs(log) == Resyncs(old(log)) && Fetches(log) == Fetches(old(log))
        invariant Steady(old(Now()), Now()) && fetches == old(fetches)
        invariant OnTrack(start, from, all, applied, BookNow(), log, EventsOf(polls), bidBook.tickSize)
        decreases |polls|
      {
        ghost var b, trail, left, before := BookNow(), log, EventsOf(polls), Now();
        var ok, e, went := Advance();
        SteadyOn(old(Now()), before, Now());
        if !went {
          broke := if ok then [e] else [];
          assert log == trail + [HeadOf(b)];
          TrackBook(start, from, all, applied, b, trail, left, bidBook.tickSize);
          TrackEnds(start, from, all, applied, broke, b, trail, EventsOf(polls), bidBook.tickSize);
          return;
        }
        TrackOn(start, from, all, applied, b, trail, left, bidBook.tickSize);
        applied := applied + [e];
      }
    }

    // Records the book as it stands at the head of the update loop
    ghost method MarkHead()
      requires Loaded() && InStepNow() && synced
      modifies this`log
      ensures Loaded() && InStepNow()
      ensures log == old(log) + [Head(updateID, bidBook.levels, askBook.levels, synced)]
      ensures Resyncs(log) == Resyncs(old(log)) && Fetches(log) == Fetches(old(log))
    {
      hide FaithfulPolls;
      hide FaithfulFetches;
      hide SortedBook.Valid;
      hide GoodLog;
      hide Resyncs;
      hide Fetches;
      hide Agrees;
      var mark := Head(updateID, bidBook.levels, askBook.levels, synced);
      Append(market, log, mark, bidBook.tickSize);
      SameCover(market, log, mark, bidBook.tickSize);
      log := log + [mark];
    }

    // A book just aligned follows the stream until the first break
    method Follow() returns (ghost applied: seq<Event>, ghost broke: seq<Event>)
      requires Loaded() && InStepNow() && held == -1 && lastError == NoFailure
      modifies this`polls, this`running, this`synced, this`lastError, this`stopAsked, this`held, this`updateID, this`log
      modifies bidBook.Repr(), askBook.Repr()
      ensures Loaded() && bidBook.tickSize == old(bidBook.tickSize) && held == -1
      ensures Resyncs(log) == 0 && Fetches(log) == 0
      ensures Steady(old(Now()), Now()) && fetches == old(fetches)
      ensures |broke| <= 1 && (broke == [] ==> !running)
      ensures FollowedBy(old(BookNow()), old(log) + [Aligned], EventsOf(old(polls)), applied, broke, log,
                EventsOf(polls), bidBook.tickSize)
    {
      hide SortedBook.Valid;
      hide GoodLog;
      hide Resyncs;
      hide Fetches;
      hide FaithfulPolls;
      hide FaithfulFetches;
      hide InStep;
      hide Steady;
      hide Proper;
      hide FollowedBy;
      hide EventsOf;
      ghost var start := Now();
      SteadySelf(start);
      SteadyFlag(start, start, true);
      ProperFlag(start, true);
      synced := true;
      ghost var now := Now();
      MarkAligned();
      applied, broke := UpdateLoop();
      SteadyOn(start, now, Now());
    }

    method LoadTickSize(info: TickInfo) returns (error: Failure)
      requires BooksValid() && bidBook.levels == map[] && askBook.levels == map[]
      modifies bidBook`tickSize, askBook`tickSize
      ensures BooksValid()
      ensures error == if info.NoInfo? then NoTickSize else if info.size <= 0 then BadTickSize else NoFailure
      ensures error == NoFailure ==> bidBook.tickSize == askBook.tickSize == info.size
      ensures error != NoFailure ==>
                bidBook.tickSize == old(bidBook.tickSize) && askBook.tickSize == old(askBook.tickSize)
    {
      hide SortedBook.Valid;
      hide Sound;
      if info.NoInfo? {
        return NoTickSize;
      }
      if info.size <= 0 {
        return BadTickSize;
      }
      EmptySound(info.size);
      bidBook.SetTickSize(info.size);
      askBook.SetTickSize(info.size);
      error := NoFailure;
    }

    // The part of a round after its snapshot
    method AlignAndFollow(ghost buffered: bool, ghost made: nat, ghost snap: Snapshot)
      returns (first: bool, ghost round: Round)
      requires Loaded() && InStepNow() && held == -1 && 1 <= made <= 3 && !synced && lastError == NoFailure
      requires BookNow() == SnapshotBook(snap, bidBook.tickSize) && updateID == snap.id
      modifies this`polls, this`running, this`synced, this`lastError, this`stopAsked, this`held, this`updateID, this`log
      modifies bidBook.Repr(), askBook.Repr()
      ensures Loaded() && bidBook.tickSize == old(bidBook.tickSize) && held == -1
      ensures Steady(old(Now()), Now()) && fetches == old(fetches)
      ensures (if first then round.Followed? else round.NotAligned?) && round.snap == snap
      ensures round.buffered == buffered && round.made == made
      ensures !first ==> !synced && (running ==> round.judged != [])
      ensures RoundOk(round, bidBook.tickSize) && EventsOf(old(polls)) == RoundEvents(round) + EventsOf(polls)
      ensures log == old(log) + RoundTail(round, bidBook.tickSize)
      ensures if first then Resyncs(log) == 0 && Fetches(log) == 0
              else Resyncs(log) == Resyncs(old(log)) && Fetches(log) == Fetches(old(log))
    {
      hide SortedBook.Valid;
      hide GoodLog;
      hide Resyncs;
      hide Fetches;
      hide FaithfulPolls;
      hide FaithfulFetches;
      hide InStep;
      hide Steady;
      hide Proper;
      hide EventsOf;
      hide Skipped;
      hide Straddles;
      hide FollowedBy;
      hide RoundOk;
      hide RoundEvents;
      hide Walk;
      hide BookAfter;
      hide NextBook;
      hide SnapshotBook;
      ghost var tick, left, start, history := bidBook.tickSize, EventsOf(polls), Now(), log;
      ghost var skipped, judged, applied, broke;
      first, skipped, judged := ApplyFirstUpdate();
      if !first {
        round := NotAligned(buffered, made, snap, skipped, judged);
        NotAlignedRound(round, left, EventsOf(polls), tick);
        return;
      }
      ghost var now, middle, from := Now(), EventsOf(polls), log + [Aligned];
      assert judged == [judged[0]];
      applied, broke := Follow();
      SteadyOn(start, now, Now());
      round := Round.Followed(buffered, made, snap, skipped, judged[0], applied, broke);
      FollowedRound(round, from, left, middle, log, EventsOf(polls), tick);
      assert from == history + [Applied(judged[0])] + [Aligned];
    }

    /** One round: a snapshot, the first event it does not cover, and the stream from there on. */
    method SyncOnce() returns (error: Failure, first: bool, ghost round: Round)
      requires Loaded() && held == -1 && running && Resyncs(log) < 5 && Fetches(log) <= 3 * Resyncs(log)
      modifies this, bidBook.Repr(), askBook.Repr(), snapshot.Repr()
      ensures Loaded() && bidBook.tickSize == old(bidBook.tickSize) && held == -1
      ensures RoundOk(round, bidBook.tickSize) && EventsOf(old(polls)) == RoundEvents(round) + EventsOf(polls)
      ensures log == old(log) + RoundLog(round, bidBook.tickSize)
      ensures Steady(old(Now()), Now()) && round.buffered == (old(polls) != [] && old(polls)[0].Ready?)
      ensures error != NoFailure ==>
                round.NoSnapshot? && (round.made == 3 || stopAsked) && error == SnapshotFailed && !first
      ensures !first ==> !synced
      ensures error == NoFailure && !first && running ==> round.NotAligned? && round.judged != []
      ensures error == NoFailure ==>
                |fetches| < |old(fetches)| && (if first then round.Followed? else round.NotAligned?)
      ensures if error == NoFailure && first then Resyncs(log) == 0 && Fetches(log) == 0
              else Resyncs(log) == Resyncs(old(log)) + 1 && Fetches(log) <= 3 * Resyncs(log)
    {
      hide SortedBook.Valid;
      hide GoodLog;
      hide Resyncs;
      hide Fetches;
      hide FaithfulPolls;
      hide FaithfulFetches;
      hide InStep;
      hide Steady;
      hide EventsOf;
      hide RoundOk;
      hide RoundTail;
      hide Requests;
      hide Asked;
      hide SnapshotBook;
      ghost var tick, answers, start := bidBook.tickSize, fetches, Now();
      ghost var buffered := polls != [] && polls[0].Ready?;
      ghost var made, snap;
      first := false;
      error, made, snap := Resynchronise();
      FewerAnswers(answers, made, fetches);
      if error != NoFailure {
        round := NoSnapshot(buffered, made);
        NoSnapshotRound(buffered, made, tick);
        return;
      }
      ghost var now := Now();
      first, round := AlignAndFollow(buffered, made, snap);
      SteadyOn(start, now, Now());
    }

    /** Round after round until stopped. Everything the thread did is a sequence of legal rounds, and
        it stopped for a reason. */
    method SyncLoop() returns (ghost rounds: seq<Round>)
      requires Loaded() && held == -1 && log == [] && !synced && (running ==> Starting(Now()))
      modifies this, bidBook.Repr(), askBook.Repr(), snapshot.Repr()
      ensures Loaded() && bidBook.tickSize == old(bidBook.tickSize) && held == -1 && !running
      ensures old(running) <==> rounds != []
      ensures old(running) ==> rounds[0].buffered == (old(polls) != [] && old(polls)[0].Ready?)
      ensures old(running) ==> StopsFor(old(Now()), Now(), rounds)
      ensures !old(running) ==> Now() == old(Now()) && log == [] && updateID == old(updateID)
      ensures Run(rounds, log, EventsOf(old(polls)), EventsOf(polls), bidBook.tickSize)
    {
      hide Starting;
      hide Loaded;
      hide SortedBook.Valid;
      hide GoodLog;
      hide Resyncs;
      hide StopsFor;
      hide Fetches;
      hide FaithfulPolls;
      hide FaithfulFetches;
      hide Steady;
      hide Failing;
      hide EventsOf;
      hide Run;
      hide RoundOk;
      hide RoundEvents;
      hide RoundLog;
      ghost var start, tick, all := Now(), bidBook.tickSize, EventsOf(polls);
      rounds := [];
      EmptyLog(market, tick);
      RunStarts(all, tick);
      SteadySelf(start);
      NoneFailing();
      var failedSyncs := 0;
      while running
        invariant Loaded() && bidBook.tickSize == tick && held == -1
        invariant 0 <= failedSyncs < MAX_FAILED_SYNCS
        invariant Resyncs(log) == failedSyncs && Fetches(log) <= 3 * Resyncs(log)
        invariant Run(rounds, log, all, EventsOf(polls), tick)
        invariant Steady(start, Now()) && Failing(rounds, failedSyncs)
        invariant synced ==> rounds != [] && rounds[|rounds| - 1].Followed?
        invariant rounds == [] ==> Now() == start && log == [] && updateID == old(updateID)
        invariant rounds != [] ==> start.running && rounds[0].buffered == (start.polls != [] && start.polls[0].Ready?)
        decreases |fetches|
      {
        ghost var history, left, earlier, before := log, EventsOf(polls), rounds, Now();
        ghost var round;
        var error, first;
        error, first, round := SyncOnce();
        SteadyOn(start, before, Now());
        RunOn(rounds, history, all, left, round, EventsOf(polls), tick);
        OneMoreFails(rounds, failedSyncs, round);
        rounds := rounds + [round];
        if error != NoFailure {
          SnapshotStop(start, Now(), earlier, failedSyncs, round);
          Stop(error);
          return;
        }
        if !first {
          if !running {
            SteadyStop(start, Now(), rounds, 0);
            return;
          }
          failedSyncs := failedSyncs + 1;
          if failedSyncs == MAX_FAILED_SYNCS {
            OutdatedStop(start, Now(), rounds);
            Stop(Outdated);
            return;
          }
          continue;
        }
        failedSyncs := 0;
      }
      if rounds != [] { SteadyStop(start, Now(), rounds, failedSyncs); }
    }

    ghost method MarkAligned()
      requires Loaded() && InStepNow()
      modifies this`log
      ensures Loaded() && InStepNow()
      ensures log == old(log) + [Aligned] && Resyncs(log) == 0 && Fetches(log) == 0
    {
      hide SortedBook.Valid;
      hide GoodLog;
      hide Resyncs;
      hide Fetches;
      hide FaithfulPolls;
      hide FaithfulFetches;
      hide Agrees;
      Append(market, log, Aligned, bidBook.tickSize);
      SameCover(market, log, Aligned, bidBook.tickSize);
      log := log + [Aligned];
    }

    // ----- readers

    /** The best levels of one side, as the source hands them out whenever the book thread is not
        writing: the best-first prefix of the map, strictly ordered by stored price. */
    method GetTop(isBid: bool, out: array<Entry>) returns (written: nat, ghost c: seq<int>)
      requires BooksValid() && out !in bidBook.Repr() && out !in askBook.Repr()
      modifies out
      ensures var m := if isBid then bidBook.levels else askBook.levels;
              && written == (if out.Length <= |m| then out.Length else |m|)
              && |c| == written && BestPrefix(isBid, m.Keys, c)
              && forall i :: 0 <= i < written ==> c[i] in m && out[i] == m[c[i]]
      ensures forall i, j :: 0 <= i < j < written ==>
                if isBid then out[i].price > out[j].price else out[i].price < out[j].price
    {
      hide SortedBook.Valid;
      hide SortedBook.Filed;
      hide BestPrefix;
      if isBid {
        written, c := bidBook.Top(out, out.Length);
      } else {
        written, c := askBook.Top(out, out.Length);
      }
    }

    // One level by its price
    method GetEntryWithPrice(price: int, isBid: bool) returns (found: bool, out: Entry)
      requires BooksValid() && bidBook.tickSize > 0
      ensures var m := if isBid then bidBook.levels else askBook.levels;
              found == (ToTick(price, bidBook.tickSize) in m) && (found ==> out == m[ToTick(price, bidBook.tickSize)])
    {
      hide SortedBook.Valid;
      hide SortedBook.Filed;
      if isBid {
        found, out := bidBook.Find(price);
      } else {
        found, out := askBook.Find(price);
      }
    }

    /** The whole life of the book thread, from start to stop. Without a usable tick size it stops
        at once and says why. Otherwise its history is a sequence of legal rounds over the stream's
        events in order; at every head of the update loop the book agrees with the exchange at its
        own update id; it is never more than 5 resynchronisations and 15 snapshot requests away from
        its last alignment; and it stops only for a reason it records, or because its owner asked. */
    method ExecutionLoop(info: TickInfo) returns (ghost rounds: seq<Round>)
      requires BooksValid() && snapshot.Valid() && running && held == -1 && log == []
      requires !synced && lastError == NoFailure && !stopAsked
      requires bidBook.levels == map[] && askBook.levels == map[]
      requires info.TickSize? && info.size > 0 ==> WorldFaithful(info.size)
      modifies this, bidBook.Repr(), askBook.Repr(), snapshot.Repr()
      ensures !running && held == -1
      ensures lastError != NoFailure ==> !synced
      ensures info.NoInfo? ==> lastError == NoTickSize && rounds == []
      ensures info.TickSize? && info.size <= 0 ==> lastError == BadTickSize && rounds == []
      ensures info.TickSize? && info.size > 0 ==>
                && GoodLog(market, log, info.size)
                && Run(rounds, log, EventsOf(old(polls)), EventsOf(polls), info.size)
                && StopsFor(old(Now()), Now(), rounds)
                && (rounds != [] <==> Delivers(old(polls)))
                && (rounds != [] ==> rounds[0].buffered)
      ensures !(info.TickSize? && info.size > 0) ==> polls == old(polls)
      ensures rounds == [] ==> log == [] && fetches == old(fetches) && updateID == old(updateID) && !synced
    {
      hide SortedBook.Valid;
      hide SortedBook.Filed;
      hide Resyncs;
      hide Fetches;
      hide GoodLog;
      hide FaithfulPolls;
      hide FaithfulFetches;
      hide EventsOf;
      hide StopsFor;
      hide Steady;
      hide Run;
      hide Waited;
      hide Delivers;
      rounds := [];
      var error := LoadTickSize(info);
      if error != NoFailure {
        Stop(error);
        return;
      }
      EmptyLog(market, info.size);
      ghost var start := Now();
      var ready := WaitLoaded();
      WaitSteady(start, Now(), ready);
      DeliversWaited(start, Now(), ready);
      if !ready {
        RunStarts(EventsOf(polls), info.size);
        NoneFailing();
        SteadyStop(start, Now(), [], 0);
        return;
      }
      ghost var now := Now();
      rounds := SyncLoop();
      if rounds == [] {
        NoneFailing();
        SteadyStop(start, Now(), [], 0);
      } else {
        StopsLater(start, now, Now(), rounds);
      }
    }
  }
}
