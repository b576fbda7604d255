/** What the book thread does, in order, and what its whole history must satisfy. */
module SyncLog {
  import opened BookSide
  import opened Exchange

  datatype Mark =
    | Resync(buffered: bool)     // a resynchronisation begins, with or without an event buffered
    | Fetch                      // one snapshot request
    | Snap(snap: Snapshot)       // a snapshot replaces the book
    | Applied(event: Event)      // an event was applied in full
    | Aligned                    // snapshot and stream line up
    | Head(id: int, bids: Levels, asks: Levels, synced: bool)  // the head of the update loop

  type Log = seq<Mark>

  /** The ticks the book vouches for: what the last snapshot settled and every event since listed. */
  ghost function Cover(x: Market, log: Log, isBid: bool, tickSize: int): iset<int>
    requires tickSize > 0
  {
    if log == [] then iset{}
    else
      var before := Cover(x, log[..|log| - 1], isBid, tickSize);
      match log[|log| - 1]
      case Snap(snap) => Settled(x, snap.id, isBid, if isBid then snap.bids else snap.asks, tickSize)
      case Applied(e) => if e.Depth? then before + iset t | t in Listed(e, isBid, tickSize) else before
      case _ => before
  }

  ghost predicate InStep(x: Market, log: Log, id: int, bids: Levels, asks: Levels, tickSize: int)
    requires tickSize > 0
  {
    && Agrees(x, id, true, bids, Cover(x, log, true, tickSize))
    && Agrees(x, id, false, asks, Cover(x, log, false, tickSize))
  }

  /** At every head of the update loop the book is flagged synced and holds the exchange's volume
      of its own id on every tick it vouches for. */
  ghost predicate HeadsAgree(x: Market, log: Log, tickSize: int)
    requires tickSize > 0
  {
    forall k :: 0 <= k < |log| && log[k].Head? ==>
      log[k].synced && InStep(x, log[..k], log[k].id, log[k].bids, log[k].asks, tickSize)
  }

  // ----- following the stream, event by event

  datatype Book = Book(id: int, bids: Levels, asks: Levels)

  ghost function NextBook(b: Book, e: Event, tickSize: int): Book
    requires tickSize > 0
  {
    if e.Dropped? then b
    else Book(e.u, After(b.bids, Updates(e.bids), tickSize), After(b.asks, Updates(e.asks), tickSize))
  }

  ghost function SnapshotBook(snap: Snapshot, tickSize: int): Book
    requires tickSize > 0
  {
    Book(snap.id, After(map[], Updates(snap.bids), tickSize), After(map[], Updates(snap.asks), tickSize))
  }

  ghost function BookAfter(start: Book, events: seq<Event>, tickSize: int): Book
    requires tickSize > 0
  {
    if events == [] then start
    else NextBook(BookAfter(start, events[..|events| - 1], tickSize), events[|events| - 1], tickSize)
  }

  ghost predicate Fits(b: Book, e: Event, tickSize: int)
    requires tickSize > 0
  {
    e.Depth? && AllAccepted(b.bids, Updates(e.bids), tickSize) && AllAccepted(b.asks, Updates(e.asks), tickSize)
  }

  // Starts exactly where the book is, and has room
  ghost predicate Continues(b: Book, e: Event, tickSize: int)
    requires tickSize > 0
  {
    e.Depth? && e.pu == b.id && Fits(b, e, tickSize)
  }

  /** An event continues the book exactly when it was not dropped, its pu is the book's id, whatever
      its U, and no level of it is refused. */
  lemma ContinuesIff(b: Book, e: Event, tickSize: int)
    requires tickSize > 0
    ensures Continues(b, e, tickSize) <==>
              && e.Depth? && e.pu == b.id
              && AllAccepted(b.bids, Updates(e.bids), tickSize) && AllAccepted(b.asks, Updates(e.asks), tickSize)
  {
  }

  // Events that each continue what the ones before them left
  ghost predicate Chain(start: Book, events: seq<Event>, tickSize: int)
    requires tickSize > 0
  {
    forall i :: 0 <= i < |events| ==> Continues(BookAfter(start, events[..i], tickSize), events[i], tickSize)
  }

  // The marks of the update loop over these events: its head before each, then the event
  ghost function Walk(start: Book, events: seq<Event>, tickSize: int): Log
    requires tickSize > 0
  {
    if events == [] then []
    else
      var front := events[..|events| - 1];
      Walk(start, front, tickSize) + [HeadOf(BookAfter(start, front, tickSize)), Applied(events[|events| - 1])]
  }

  ghost function HeadOf(b: Book): Mark
  {
    Head(b.id, b.bids, b.asks, true)
  }

  /** So far the loop has applied exactly the events it took, each of which continued the book the
      ones before it left, and its marks are those of that walk. */
  ghost predicate OnTrack(start: Book, from: Log, all: seq<Event>, applied: seq<Event>, b: Book, log: Log,
      left: seq<Event>, tickSize: int)
    requires tickSize > 0
  {
    && all == applied + left
    && b == BookAfter(start, applied, tickSize)
    && log == from + Walk(start, applied, tickSize)
    && Chain(start, applied, tickSize)
  }

  lemma TrackStarts(start: Book, log: Log, all: seq<Event>, tickSize: int)
    requires tickSize > 0
    ensures OnTrack(start, log, all, [], start, log, all, tickSize)
  {
  }

  lemma TrackOn(start: Book, from: Log, all: seq<Event>, applied: seq<Event>, b: Book, log: Log, left: seq<Event>,
      tickSize: int)
    requires tickSize > 0 && left != [] && OnTrack(start, from, all, applied, b, log, left, tickSize)
    requires Continues(b, left[0], tickSize)
    ensures OnTrack(start, from, all, applied + [left[0]], NextBook(b, left[0], tickSize),
                    log + [HeadOf(b)] + [Applied(left[0])], left[1..], tickSize)
  {
    hide Continues;
    hide NextBook;
    var more := applied + [left[0]];
    assert more[..|applied|] == applied;
    assert log + [HeadOf(b)] + [Applied(left[0])] == from + Walk(start, more, tickSize);
    forall i | 0 <= i < |more|
      ensures Continues(BookAfter(start, more[..i], tickSize), more[i], tickSize)
    {
      if i < |applied| {
        assert more[..i] == applied[..i] && more[i] == applied[i];
        assert Continues(BookAfter(start, applied[..i], tickSize), applied[i], tickSize);
      }
    }
  }

  lemma TrackBook(start: Book, from: Log, all: seq<Event>, applied: seq<Event>, b: Book, log: Log, left: seq<Event>,
                  tickSize: int)
    requires tickSize > 0 && OnTrack(start, from, all, applied, b, log, left, tickSize)
    ensures b == BookAfter(start, applied, tickSize)
  {
  }

  /** A finished walk: besides, the head was marked once more, and the event that ended the walk,
      if one did, does not continue the book. */
  ghost predicate FollowedBy(start: Book, from: Log, all: seq<Event>, applied: seq<Event>, broke: seq<Event>, log: Log,
                           left: seq<Event>, tickSize: int)
    requires tickSize > 0
  {
    var b := BookAfter(start, applied, tickSize);
    && log != [] && log[|log| - 1] == HeadOf(b)
    && OnTrack(start, from, all, applied, b, log[..|log| - 1], broke + left, tickSize)
    && (broke != [] ==> !Continues(b, broke[0], tickSize))
  }

  lemma TrackEnds(start: Book, from: Log, all: seq<Event>, applied: seq<Event>, broke: seq<Event>, b: Book, log: Log,
                  left: seq<Event>, tickSize: int)
    requires tickSize > 0 && OnTrack(start, from, all, applied, b, log, broke + left, tickSize)
    requires broke != [] ==> !Continues(b, broke[0], tickSize)
    ensures FollowedBy(start, from, all, applied, broke, log + [HeadOf(b)], left, tickSize)
  {
    assert (log + [HeadOf(b)])[..|log|] == log;
  }

  // Events skipped so far because the snapshot already covers them
  ghost predicate Skipped(id: int, all: seq<Event>, skipped: seq<Event>, left: seq<Event>)
  {
    all == skipped + left && forall e :: e in skipped ==> e.Depth? && e.u < id
  }

  // Straddles the snapshot's id, and has room
  ghost predicate Straddles(b: Book, e: Event, tickSize: int)
    requires tickSize > 0
  {
    e.Depth? && e.U <= b.id <= e.u && Fits(b, e, tickSize)
  }

  /** It straddles exactly when it was not dropped, the book's id is in [U, u], both ends included,
      and no level of it is refused. */
  lemma StraddlesIff(b: Book, e: Event, tickSize: int)
    requires tickSize > 0
    ensures Straddles(b, e, tickSize) <==>
              && e.Depth? && e.U <= b.id <= e.u
              && AllAccepted(b.bids, Updates(e.bids), tickSize) && AllAccepted(b.asks, Updates(e.asks), tickSize)
  {
  }

  // ----- whole runs, as rounds of resynchronisation

  function Requests(made: nat): Log
  {
    seq(made, _ => Fetch)
  }

  /** A round begins with a resynchronisation. No snapshot comes; or one comes and the first event it
      does not cover fails to straddle it, or the thread stops first; or one does, and the stream is
      followed until an event breaks it. */
  datatype Round =
    | NoSnapshot(buffered: bool, made: nat)
    | NotAligned(buffered: bool, made: nat, snap: Snapshot, skipped: seq<Event>, judged: seq<Event>)
    | Followed(buffered: bool, made: nat, snap: Snapshot, skipped: seq<Event>, first: Event, applied: seq<Event>,
               broke: seq<Event>)

  ghost function FirstBook(r: Round, tickSize: int): Book
    requires tickSize > 0 && r.Followed?
  {
    NextBook(SnapshotBook(r.snap, tickSize), r.first, tickSize)
  }

  ghost function LastBook(r: Round, tickSize: int): Book
    requires tickSize > 0 && r.Followed?
  {
    BookAfter(FirstBook(r, tickSize), r.applied, tickSize)
  }

  ghost predicate Covered(id: int, events: seq<Event>)
  {
    forall e :: e in events ==> e.Depth? && e.u < id
  }

  ghost predicate RoundOk(r: Round, tickSize: int)
    requires tickSize > 0
  {
    1 <= r.made <= 3 &&
    match r
    case NoSnapshot(buffered, made) => true
    case NotAligned(buffered, made, snap, skipped, judged) =>
      && Covered(snap.id, skipped) && |judged| <= 1
      && (judged != [] ==> !Covered(snap.id, judged) && !Straddles(SnapshotBook(snap, tickSize), judged[0], tickSize))
    case Followed(buffered, made, snap, skipped, first, applied, broke) =>
      && Covered(snap.id, skipped) && Straddles(SnapshotBook(snap, tickSize), first, tickSize)
      && Chain(FirstBook(r, tickSize), applied, tickSize)
      && |broke| <= 1 && (broke != [] ==> !Continues(LastBook(r, tickSize), broke[0], tickSize))
  }

  ghost function RoundEvents(r: Round): seq<Event>
  {
    match r
    case NoSnapshot(buffered, made) => []
    case NotAligned(buffered, made, snap, skipped, judged) => skipped + judged
    case Followed(buffered, made, snap, skipped, first, applied, broke) => skipped + [first] + applied + broke
  }

  // The marks of a round after its snapshot
  ghost function RoundTail(r: Round, tickSize: int): Log
    requires tickSize > 0
  {
    if !r.Followed? then []
    else
      [Applied(r.first)] + [Aligned] + Walk(FirstBook(r, tickSize), r.applied, tickSize)
      + [HeadOf(LastBook(r, tickSize))]
  }

  ghost function RoundLog(r: Round, tickSize: int): Log
    requires tickSize > 0
  {
    [Resync(r.buffered)] + Requests(r.made) + (if r.NoSnapshot? then [] else [Snap(r.snap)] + RoundTail(r, tickSize))
  }

  ghost function EventsIn(rounds: seq<Round>): seq<Event>
  {
    if rounds == [] then [] else EventsIn(rounds[..|rounds| - 1]) + RoundEvents(rounds[|rounds| - 1])
  }

  ghost function LogOf(rounds: seq<Round>, tickSize: int): Log
    requires tickSize > 0
  {
    if rounds == [] then [] else LogOf(rounds[..|rounds| - 1], tickSize) + RoundLog(rounds[|rounds| - 1], tickSize)
  }

  /** The whole history so far is legal rounds and nothing else, and they took the stream's events
      in order, leaving none out. */
  ghost predicate Run(rounds: seq<Round>, log: Log, all: seq<Event>, left: seq<Event>, tickSize: int)
    requires tickSize > 0
  {
    && log == LogOf(rounds, tickSize) && all == EventsIn(rounds) + left
    && forall i :: 0 <= i < |rounds| ==> RoundOk(rounds[i], tickSize)
  }

  lemma RunStarts(all: seq<Event>, tickSize: int)
    requires tickSize > 0
    ensures Run([], [], all, all, tickSize)
  {
  }

  lemma RunOn(rounds: seq<Round>, log: Log, all: seq<Event>, left: seq<Event>, r: Round, left': seq<Event>,
      tickSize: int)
    requires tickSize > 0 && Run(rounds, log, all, left, tickSize)
    requires RoundOk(r, tickSize) && left == RoundEvents(r) + left'
    ensures Run(rounds + [r], log + RoundLog(r, tickSize), all, left', tickSize)
  {
    hide RoundOk;
    hide RoundLog;
    hide RoundEvents;
    var more := rounds + [r];
    assert more[..|rounds|] == rounds;
    assert EventsIn(rounds) + (RoundEvents(r) + left') == EventsIn(rounds) + RoundEvents(r) + left';
  }

  lemma NoSnapshotRound(buffered: bool, made: nat, tickSize: int)
    requires tickSize > 0 && 1 <= made <= 3
    ensures RoundOk(NoSnapshot(buffered, made), tickSize)
  {
  }

  lemma NotAlignedRound(r: Round, left: seq<Event>, left': seq<Event>, tickSize: int)
    requires tickSize > 0 && r.NotAligned? && 1 <= r.made <= 3 && |r.judged| <= 1
    requires Skipped(r.snap.id, left, r.skipped, r.judged + left')
    requires r.judged != [] ==> !(r.judged[0].Depth? && r.judged[0].u < r.snap.id)
    requires r.judged != [] ==> !Straddles(SnapshotBook(r.snap, tickSize), r.judged[0], tickSize)
    ensures RoundOk(r, tickSize) && left == RoundEvents(r) + left'
  {
    if r.judged != [] { assert r.judged[0] in r.judged; }
  }

  lemma FollowedRound(r: Round, from: Log, left: seq<Event>, middle: seq<Event>, log: Log, left': seq<Event>,
      tickSize: int)
    requires tickSize > 0 && r.Followed? && 1 <= r.made <= 3 && |r.broke| <= 1
    requires Skipped(r.snap.id, left, r.skipped, [r.first] + middle)
    requires Straddles(SnapshotBook(r.snap, tickSize), r.first, tickSize)
    requires FollowedBy(FirstBook(r, tickSize), from, middle, r.applied, r.broke, log, left', tickSize)
    ensures RoundOk(r, tickSize) && left == RoundEvents(r) + left'
    ensures forall before :: from == before + [Applied(r.first)] + [Aligned] ==> log == before + RoundTail(r, tickSize)
  {
    hide Straddles;
    hide Continues;
    hide Walk;
    hide BookAfter;
    hide FirstBook;
    assert log == log[..|log| - 1] + [log[|log| - 1]];
  }

  // Their ids join up
  ghost predicate Joined(id: int, events: seq<Event>)
  {
    forall i :: 0 <= i < |events| ==>
      && events[i].Depth?
      && (i == 0 ==> events[i].pu == id)
      && (i > 0 ==> events[i - 1].Depth? && events[i].pu == events[i - 1].u)
  }

  lemma ShorterChain(start: Book, events: seq<Event>, n: nat, tickSize: int)
    requires tickSize > 0 && n < |events| && Chain(start, events, tickSize)
    ensures Chain(start, events[..n], tickSize)
    ensures Continues(BookAfter(start, events[..n], tickSize), events[n], tickSize)
  {
    hide Continues;
    hide BookAfter;
    forall i | 0 <= i < n
      ensures Continues(BookAfter(start, events[..n][..i], tickSize), events[..n][i], tickSize)
    {
      assert events[..n][..i] == events[..i];
    }
  }

  lemma JoinedOn(id: int, events: seq<Event>, e: Event)
    requires Joined(id, events) && e.Depth? && e.pu == (if events == [] then id else LastId(events))
    ensures Joined(id, events + [e])
  {
  }

  function LastId(events: seq<Event>): int
    requires events != []
  {
    if events[|events| - 1].Depth? then events[|events| - 1].u else 0
  }

  lemma {:induction false} ChainById(start: Book, events: seq<Event>, tickSize: int)
    requires tickSize > 0 && Chain(start, events, tickSize)
    ensures Joined(start.id, events)
    ensures BookAfter(start, events, tickSize).id == if events == [] then start.id else LastId(events)
  {
    hide Chain;
    hide After;
    hide Continues;
    hide Joined;
    if events == [] {
      NoneJoined(start.id);
    } else {
      var n := |events| - 1;
      var front, e := events[..n], events[n];
      ShorterChain(start, events, n, tickSize);
      ChainById(start, front, tickSize);
      ContinuesIff(BookAfter(start, front, tickSize), e, tickSize);
      JoinedOn(start.id, front, e);
      assert front + [e] == events;
    }
  }

  lemma NoneJoined(id: int)
    ensures Joined(id, [])
  {
  }

  /** What a round did, by the events' own ids. Before alignment: events that end below the snapshot's
      id are passed over; the first other one is the last looked at, and it fails only because it was
      dropped, begins above that id, or is refused. After it: each event begins where the one before
      it ended, and the round breaks only at one that was dropped, does not, or is refused. */
  lemma RoundById(r: Round, tickSize: int)
    requires tickSize > 0 && RoundOk(r, tickSize)
    ensures 1 <= r.made <= 3
    ensures !r.NoSnapshot? ==> forall e :: e in r.skipped ==> e.Depth? && e.u < r.snap.id
    ensures r.NotAligned? && r.judged != [] ==>
              var e, b := r.judged[0], SnapshotBook(r.snap, tickSize);
              && |r.judged| == 1
              && (e.Depth? ==>
                    && e.u >= r.snap.id
                    && (e.U > r.snap.id || !AllAccepted(b.bids, Updates(e.bids), tickSize)
                                        || !AllAccepted(b.asks, Updates(e.asks), tickSize)))
    ensures r.Followed? ==>
              && r.first.Depth? && r.first.U <= r.snap.id <= r.first.u
              && (forall i :: 0 <= i < |r.applied| ==>
                    && r.applied[i].Depth?
                    && (i == 0 ==> r.applied[i].pu == r.first.u)
                    && (i > 0 ==> r.applied[i - 1].Depth? && r.applied[i].pu == r.applied[i - 1].u))
    ensures r.Followed? && r.broke != [] ==>
              var e, b := r.broke[0], LastBook(r, tickSize);
              var last := if r.applied == [] then r.first else r.applied[|r.applied| - 1];
              && |r.broke| == 1 && last.Depth?
              && (e.Depth? ==> e.pu != last.u || !AllAccepted(b.bids, Updates(e.bids), tickSize)
                                              || !AllAccepted(b.asks, Updates(e.asks), tickSize))
  {
    hide After;
    hide AllAccepted;
    hide BookAfter;
    hide Continues;
    hide Straddles;
    match r
    case NoSnapshot(buffered, made) =>
    case NotAligned(buffered, made, snap, skipped, judged) =>
      if judged != [] {
        assert judged[0] in judged;
        StraddlesIff(SnapshotBook(snap, tickSize), judged[0], tickSize);
      }
    case Followed(buffered, made, snap, skipped, first, applied, broke) =>
      StraddlesIff(SnapshotBook(snap, tickSize), first, tickSize);
      ChainById(FirstBook(r, tickSize), applied, tickSize);
      if broke != [] { ContinuesIff(LastBook(r, tickSize), broke[0], tickSize); }
  }

  // Resynchronisations and snapshot requests since the last alignment
  function Resyncs(log: Log): nat
  {
    if log == [] then 0
    else
      match log[|log| - 1]
      case Resync(buffered) => Resyncs(log[..|log| - 1]) + 1
      case Aligned => 0
      case _ => Resyncs(log[..|log| - 1])
  }

  function Fetches(log: Log): nat
  {
    if log == [] then 0
    else
      match log[|log| - 1]
      case Fetch => Fetches(log[..|log| - 1]) + 1
      case Aligned => 0
      case _ => Fetches(log[..|log| - 1])
  }

  /** Between alignments there are never more than 5 resynchronisations and 15 snapshot requests. */
  ghost predicate Patient(log: Log)
  {
    forall k :: 0 <= k <= |log| ==> Resyncs(log[..k]) <= 5 && Fetches(log[..k]) <= 15
  }

  ghost predicate GoodLog(x: Market, log: Log, tickSize: int)
    requires tickSize > 0
  {
    HeadsAgree(x, log, tickSize) && Patient(log)
  }

  lemma EmptyLog(x: Market, tickSize: int)
    requires tickSize > 0
    ensures GoodLog(x, [], tickSize) && Resyncs([]) == 0 && Fetches([]) == 0
  {
  }

  lemma Append(x: Market, log: Log, mark: Mark, tickSize: int)
    requires tickSize > 0 && GoodLog(x, log, tickSize)
    requires mark.Head? ==> mark.synced && InStep(x, log, mark.id, mark.bids, mark.asks, tickSize)
    requires mark.Resync? ==> Resyncs(log) < 5
    requires mark.Fetch? ==> Fetches(log) < 15
    ensures GoodLog(x, log + [mark], tickSize)
    ensures Resyncs(log + [mark]) ==
              if mark.Resync? then Resyncs(log) + 1 else if mark.Aligned? then 0 else Resyncs(log)
    ensures Fetches(log + [mark]) == if mark.Fetch? then Fetches(log) + 1 else if mark.Aligned? then 0 else Fetches(log)
  {
    hide InStep;
    var log' := log + [mark];
    assert log'[..|log|] == log;
    assert log[..|log|] == log;
    forall k | 0 <= k <= |log'|
      ensures Resyncs(log'[..k]) <= 5 && Fetches(log'[..k]) <= 15
    {
      if k <= |log| { assert log'[..k] == log[..k]; } else { assert log'[..k] == log'; }
    }
    forall k | 0 <= k < |log'| && log'[k].Head?
      ensures log'[k].synced && InStep(x, log'[..k], log'[k].id, log'[k].bids, log'[k].asks, tickSize)
    {
      assert log'[..k] == log[..k];
    }
  }

  /** Counted mark by mark: between two alignments at most 5 resynchronisations and 15 requests. */
  lemma PatientBetween(x: Market, log: Log, i: int, k: int, tickSize: int)
    requires tickSize > 0 && GoodLog(x, log, tickSize) && 0 <= i <= k <= |log|
    requires forall j :: i <= j < k ==> !log[j].Aligned?
    ensures |set j | i <= j < k && log[j].Resync?| <= 5
    ensures |set j | i <= j < k && log[j].Fetch?| <= 15
  {
    hide HeadsAgree;
    CountsFrom(log, i, k);
    assert Places(log, i, k, true) == set j | i <= j < k && log[j].Resync?;
    assert Places(log, i, k, false) == set j | i <= j < k && log[j].Fetch?;
    assert Resyncs(log[..k]) <= 5 && Fetches(log[..k]) <= 15;
  }

  function Places(log: Log, i: int, k: int, resyncs: bool): set<int>
    requires 0 <= i && k <= |log|
  {
    set j | i <= j < k && (if resyncs then log[j].Resync? else log[j].Fetch?)
  }

  lemma OneMorePlace(log: Log, i: int, k: int, resyncs: bool)
    requires 0 <= i < k <= |log|
    ensures |Places(log, i, k, resyncs)| == |Places(log, i, k - 1, resyncs)| +
            if (if resyncs then log[k - 1].Resync? else log[k - 1].Fetch?) then 1 else 0
  {
    var before, after := Places(log, i, k - 1, resyncs), Places(log, i, k, resyncs);
    assert k - 1 !in before;
    if if resyncs then log[k - 1].Resync? else log[k - 1].Fetch? {
      assert after == before + {k - 1};
    } else {
      assert after == before;
    }
  }

  lemma {:induction false} CountsFrom(log: Log, i: int, k: int)
    requires 0 <= i <= k <= |log| && forall j :: i <= j < k ==> !log[j].Aligned?
    ensures |Places(log, i, k, true)| <= Resyncs(log[..k]) && |Places(log, i, k, false)| <= Fetches(log[..k])
  {
    if i < k {
      CountsFrom(log, i, k - 1);
      OneMorePlace(log, i, k, true);
      OneMorePlace(log, i, k, false);
      assert log[..k][..k - 1] == log[..k - 1];
    }
  }

  // Marks other than a snapshot or an event leave the cover alone
  lemma SameCover(x: Market, log: Log, mark: Mark, tickSize: int)
    requires tickSize > 0 && !mark.Snap? && !mark.Applied?
    ensures forall isBid :: Cover(x, log + [mark], isBid, tickSize) == Cover(x, log, isBid, tickSize)
  {
    assert (log + [mark])[..|log|] == log;
  }

  lemma CoverAfterEvent(x: Market, log: Log, e: Event, isBid: bool, tickSize: int)
    requires tickSize > 0 && e.Depth?
    ensures Cover(x, log + [Applied(e)], isBid, tickSize) ==
            Cover(x, log, isBid, tickSize) + iset t | t in Listed(e, isBid, tickSize)
  {
    hide Listed;
    hide Settled;
    assert (log + [Applied(e)])[..|log|] == log;
  }

  lemma SnapInStep(x: Market, log: Log, snap: Snapshot, tickSize: int)
    requires tickSize > 0 && FaithfulSnapshot(x, snap, tickSize)
    ensures InStep(x, log + [Snap(snap)], snap.id,
                   After(map[], Updates(snap.bids), tickSize), After(map[], Updates(snap.asks), tickSize), tickSize)
  {
    SnapshotAgrees(x, snap.id, true, snap.bids, tickSize);
    SnapshotAgrees(x, snap.id, false, snap.asks, tickSize);
  }

  lemma AppliedInStep(x: Market, log: Log, e: Event, id: int, bids: Levels, asks: Levels, tickSize: int)
    requires tickSize > 0 && e.Depth? && FaithfulEvent(x, e, tickSize) && e.pu <= id <= e.u
    requires InStep(x, log, id, bids, asks, tickSize)
    requires AllAccepted(bids, Updates(e.bids), tickSize) && AllAccepted(asks, Updates(e.asks), tickSize)
    ensures InStep(x, log + [Applied(e)], e.u,
                   After(bids, Updates(e.bids), tickSize), After(asks, Updates(e.asks), tickSize), tickSize)
  {
    hide FaithfulEvent;
    hide AllAccepted;
    hide Agrees;
    hide After;
    hide Listed;
    CoverAfterEvent(x, log, e, true, tickSize);
    CoverAfterEvent(x, log, e, false, tickSize);
    EventCarriesAgreement(x, e, true, bids, id, Cover(x, log, true, tickSize), tickSize);
    EventCarriesAgreement(x, e, false, asks, id, Cover(x, log, false, tickSize), tickSize);
  }

  // ----- what a head of the update loop vouches for, tick by tick

  // The snapshot lists the tick or rightly leaves it out; or the event lists it
  ghost predicate Settles(x: Market, m: Mark, isBid: bool, t: int, tickSize: int)
    requires tickSize > 0
  {
    match m
    case Snap(snap) =>
      || x(snap.id, isBid, t) == 0
      || exists e :: e in (if isBid then snap.bids else snap.asks) && ToTick(e.price, tickSize) == t
    case Applied(e) =>
      e.Depth? && exists l :: l in (if isBid then e.bids else e.asks) && ToTick(l.price, tickSize) == t
    case _ => false
  }

  lemma {:induction false} SettledIsCovered(x: Market, log: Log, j: int, k: int, isBid: bool, t: int, tickSize: int)
    requires tickSize > 0 && 0 <= j < k <= |log| && Settles(x, log[j], isBid, t, tickSize)
    requires forall i :: j < i < k ==> !log[i].Snap?
    ensures t in Cover(x, log[..k], isBid, tickSize)
    decreases k
  {
    assert log[..k][..k - 1] == log[..k - 1] && log[..k][k - 1] == log[k - 1];
    if j < k - 1 {
      SettledIsCovered(x, log, j, k - 1, isBid, t, tickSize);
    } else {
      hide ToTick;
      match log[j]
      case Snap(snap) =>
        var entries := if isBid then snap.bids else snap.asks;
        if e :| e in entries && ToTick(e.price, tickSize) == t {
          var i :| 0 <= i < |entries| && entries[i] == e;
          assert t in Ticks(entries, tickSize);
        }
      case Applied(e) =>
        var entries := if isBid then e.bids else e.asks;
        var l :| l in entries && ToTick(l.price, tickSize) == t;
        var i :| 0 <= i < |entries| && entries[i] == l;
        assert t in Ticks(entries, tickSize);
      case _ =>
    }
  }

  /** At every head of the update loop, a tick that the last snapshot settled, or that any event
      applied since lists, holds exactly the exchange's volume of the book's own id. */
  lemma HeadHolds(x: Market, log: Log, j: int, k: int, isBid: bool, t: int, tickSize: int)
    requires tickSize > 0 && GoodLog(x, log, tickSize) && 0 <= j < k < |log| && log[k].Head?
    requires Settles(x, log[j], isBid, t, tickSize) && forall i :: j < i < k ==> !log[i].Snap?
    ensures log[k].synced
    ensures VolumeAt(if isBid then log[k].bids else log[k].asks, t) == x(log[k].id, isBid, t)
  {
    SettledIsCovered(x, log, j, k, isBid, t, tickSize);
    hide Cover;
    hide Settles;
    assert InStep(x, log[..k], log[k].id, log[k].bids, log[k].asks, tickSize);
  }

  /** After a snapshot that lists every level the exchange has, the book is the exchange's at every
      head: no level is missing, none is left over, and every volume is right. */
  lemma HeadIsTheExchange(x: Market, log: Log, j: int, k: int, isBid: bool, t: int, tickSize: int)
    requires tickSize > 0 && GoodLog(x, log, tickSize) && 0 <= j < k < |log| && log[k].Head?
    requires log[j].Snap? && forall i :: j < i < k ==> !log[i].Snap?
    requires forall side: bool, u ::
               x(log[j].snap.id, side, u) != 0 ==>
               exists e :: e in (if side then log[j].snap.bids else log[j].snap.asks) && ToTick(e.price, tickSize) == u
    ensures VolumeAt(if isBid then log[k].bids else log[k].asks, t) == x(log[k].id, isBid, t)
  {
    assert Settles(x, log[j], isBid, t, tickSize);
    HeadHolds(x, log, j, k, isBid, t, tickSize);
  }
}
