/** The exchange's side of order book synchronisation: a history of level volumes by update id,
    what a depth event or a snapshot truthfully says about it, and what applying one does to a
    local copy. */
module Exchange {
  import opened BookSide

  // The volume the exchange holds at an update id, on a side, at a tick; 0 where there is no level
  type Market = (int, bool, int) -> int

  // A depth event as the book thread takes it; a dropped one carries nothing, not even a slot
  datatype Event =
    | Dropped
    | Depth(slot: int, bids: seq<Entry>, asks: seq<Entry>, U: int, u: int, pu: int)

  datatype Snapshot = Snapshot(bids: seq<Entry>, asks: seq<Entry>, id: int)

  function Ticks(entries: seq<Entry>, tickSize: int): set<int>
    requires tickSize > 0
  {
    set i | 0 <= i < |entries| :: ToTick(entries[i].price, tickSize)
  }

  // Every listed level carries the volume of the given id
  ghost predicate Quotes(x: Market, id: int, isBid: bool, entries: seq<Entry>, tickSize: int)
    requires tickSize > 0
  {
    forall i :: 0 <= i < |entries| ==> entries[i].volume == x(id, isBid, ToTick(entries[i].price, tickSize))
  }

  function Listed(e: Event, isBid: bool, tickSize: int): set<int>
    requires e.Depth? && tickSize > 0
  {
    Ticks(if isBid then e.bids else e.asks, tickSize)
  }

  /** An event (U, u, pu) gives the volume at u of every level changed in [U, u]; the previous
      event ended at pu and nothing changed in between. */
  ghost predicate FaithfulEvent(x: Market, e: Event, tickSize: int)
    requires tickSize > 0
  {
    e.Depth? ==>
      && e.pu < e.U <= e.u
      && Quotes(x, e.u, true, e.bids, tickSize)
      && Quotes(x, e.u, false, e.asks, tickSize)
      && (forall id, isBid, t :: e.U <= id <= e.u && x(id, isBid, t) != x(id - 1, isBid, t) ==>
           t in Listed(e, isBid, tickSize))
      && (forall id, isBid, t :: e.pu < id < e.U ==> x(id, isBid, t) == x(id - 1, isBid, t))
  }

  /** A snapshot gives true volumes at its id, never a zero price, and at most 1000 levels a side. */
  ghost predicate FaithfulSnapshot(x: Market, snap: Snapshot, tickSize: int)
    requires tickSize > 0
  {
    && |snap.bids| <= 1000 && |snap.asks| <= 1000
    && (forall i :: 0 <= i < |snap.bids| ==> snap.bids[i].price != 0)
    && (forall i :: 0 <= i < |snap.asks| ==> snap.asks[i].price != 0)
    && Quotes(x, snap.id, true, snap.bids, tickSize)
    && Quotes(x, snap.id, false, snap.asks, tickSize)
  }

  // The entries before the first with price zero
  function BeforeZero(entries: seq<Entry>): seq<Entry>
  {
    if entries == [] || entries[0].price == 0 then [] else [entries[0]] + BeforeZero(entries[1..])
  }

  lemma {:induction false} ZeroEnds(entries: seq<Entry>, k: nat)
    requires k <= |entries| && forall i :: 0 <= i < k ==> entries[i].price != 0
    requires k == |entries| || entries[k].price == 0
    ensures BeforeZero(entries) == entries[..k]
  {
    if k > 0 {
      ZeroEnds(entries[1..], k - 1);
      assert entries[..k] == [entries[0]] + entries[1..][..k - 1];
    }
  }

  lemma NothingCutOff(x: Market, snap: Snapshot, tickSize: int)
    requires tickSize > 0 && FaithfulSnapshot(x, snap, tickSize)
    ensures BeforeZero(snap.bids) == snap.bids && BeforeZero(snap.asks) == snap.asks
  {
    ZeroEnds(snap.bids, |snap.bids|);
    ZeroEnds(snap.asks, |snap.asks|);
  }

  // The ticks a snapshot settles on one side: those it lists, and those it rightly leaves out
  ghost function Settled(x: Market, id: int, isBid: bool, entries: seq<Entry>, tickSize: int): iset<int>
    requires tickSize > 0
  {
    iset t | t in Ticks(entries, tickSize) || x(id, isBid, t) == 0
  }

  /** The local side holds the exchange's volume of the given id on every tick of a set. */
  ghost predicate Agrees(x: Market, id: int, isBid: bool, m: Levels, cover: iset<int>)
  {
    forall t :: t in cover ==> VolumeAt(m, t) == x(id, isBid, t)
  }

  // ----- runs of updates as overlays

  function Updates(entries: seq<Entry>): seq<Op>
  {
    seq(|entries|, i requires 0 <= i < |entries| => Update(entries[i].price, entries[i].volume))
  }

  ghost predicate AllAccepted(m: Levels, ops: seq<Op>, tickSize: int)
    requires tickSize > 0
  {
    forall k :: 0 <= k < |ops| ==> Accepts(After(m, ops[..k], tickSize), ops[k], tickSize)
  }

  lemma NoEntries(m: Levels, entries: seq<Entry>, tickSize: int)
    requires tickSize > 0
    ensures After(m, Updates(entries[..0]), tickSize) == m
  {
    NoUpdates(m, tickSize);
  }

  lemma OneMoreEntry(m: Levels, entries: seq<Entry>, k: nat, tickSize: int)
    requires tickSize > 0 && k < |entries|
    ensures After(m, Updates(entries[..k + 1]), tickSize)
            == Step(After(m, Updates(entries[..k]), tickSize), Update(entries[k].price, entries[k].volume), tickSize)
  {
    AfterNext(m, Updates(entries), k, tickSize);
    UpdatesPrefix(entries, k);
    UpdatesPrefix(entries, k + 1);
  }

  lemma UpdatesPrefix(entries: seq<Entry>, k: nat)
    requires k <= |entries|
    ensures Updates(entries)[..k] == Updates(entries[..k])
  {
  }

  /** Entry by entry and in numbers: all are accepted exactly when none of them is a new level met by
      8192 levels, or one that would open a block met by 1024 blocks in use. */
  lemma AcceptedInNumbers(m: Levels, entries: seq<Entry>, tickSize: int)
    requires tickSize > 0 && WithinLimits(m)
    ensures AllAccepted(m, Updates(entries), tickSize) <==>
              forall k :: 0 <= k < |entries| ==>
                var mk, t := After(m, Updates(entries[..k]), tickSize), ToTick(entries[k].price, tickSize);
                var blocks := set u | u in mk :: u / 128;
                entries[k].volume == 0 || t in mk || (|mk| < 8192 && (t / 128 in blocks || |blocks| < 1024))
  {
    hide Accepts;
    hide After;
    hide ToTick;
    hide WithinLimits;
    forall k | 0 <= k < |entries|
      ensures var mk, t := After(m, Updates(entries[..k]), tickSize), ToTick(entries[k].price, tickSize);
              var blocks := set u | u in mk :: u / 128;
              Accepts(After(m, Updates(entries)[..k], tickSize), Updates(entries)[k], tickSize) <==>
                entries[k].volume == 0 || t in mk || (|mk| < 8192 && (t / 128 in blocks || |blocks| < 1024))
    {
      UpdatesPrefix(entries, k);
      RunWithinLimits(m, Updates(entries[..k]), tickSize);
      StepCases(After(m, Updates(entries[..k]), tickSize), entries[k].price, entries[k].volume, tickSize);
    }
  }

  lemma VolumeAfterUpdate(m: Levels, tick: int, e: Entry, t: int)
    requires !Refused(m, tick, e.volume)
    ensures VolumeAt(Updated(m, tick, e), t) == if t == tick then e.volume else VolumeAt(m, t)
  {
    hide BlocksOf;
  }

  lemma TicksOfLonger(entries: seq<Entry>, tickSize: int)
    requires tickSize > 0 && entries != []
    ensures Ticks(entries, tickSize) ==
            Ticks(entries[..|entries| - 1], tickSize) + {ToTick(entries[|entries| - 1].price, tickSize)}
  {
    hide ToTick;
  }

  lemma ShorterAccepted(m: Levels, ops: seq<Op>, n: nat, tickSize: int)
    requires tickSize > 0 && n <= |ops| && AllAccepted(m, ops, tickSize)
    ensures AllAccepted(m, ops[..n], tickSize)
  {
    hide Accepts;
    hide After;
    forall k | 0 <= k < n
      ensures Accepts(After(m, ops[..n][..k], tickSize), ops[..n][k], tickSize)
    {
      assert ops[..n][..k] == ops[..k];
    }
  }

  /** Accepted in full, a list of true volumes replaces exactly the listed ticks. */
  lemma {:induction false} Overlay(x: Market, id: int, isBid: bool, m: Levels, entries: seq<Entry>, tickSize: int,
      t: int)
    requires tickSize > 0 && Quotes(x, id, isBid, entries, tickSize)
    requires AllAccepted(m, Updates(entries), tickSize)
    ensures VolumeAt(After(m, Updates(entries), tickSize), t) ==
            if t in Ticks(entries, tickSize) then x(id, isBid, t) else VolumeAt(m, t)
  {
    hide Updated;
    hide Refused;
    hide ToTick;
    if entries != [] {
      var n := |entries| - 1;
      var init, ops, e := entries[..n], Updates(entries), entries[n];
      UpdatesPrefix(entries, n);
      ShorterAccepted(m, ops, n, tickSize);
      Overlay(x, id, isBid, m, init, tickSize, t);
      TicksOfLonger(entries, tickSize);
      assert Accepts(After(m, ops[..n], tickSize), ops[n], tickSize);
      VolumeAfterUpdate(After(m, ops[..n], tickSize), ToTick(e.price, tickSize), e, t);
    }
  }

  // ----- what one event does to the agreement

  lemma FaithfulOrder(x: Market, e: Event, tickSize: int)
    requires tickSize > 0 && e.Depth? && FaithfulEvent(x, e, tickSize)
    ensures e.pu < e.U <= e.u
  {
  }

  // A level the event does not list has not changed since any id from pu on
  lemma {:induction false} UnlistedUnchanged(x: Market, e: Event, isBid: bool, t: int, from: int, tickSize: int)
    requires tickSize > 0 && e.Depth? && FaithfulEvent(x, e, tickSize)
    requires t !in Listed(e, isBid, tickSize) && e.pu <= from <= e.u
    ensures x(from, isBid, t) == x(e.u, isBid, t)
    decreases e.u - from
  {
    if from < e.u {
      UnlistedUnchanged(x, e, isBid, t, from + 1, tickSize);
      assert x(from + 1, isBid, t) == x(from + 1 - 1, isBid, t);
    }
  }

  /** Applying an event that reaches back to the book's id carries the agreement to the event's
      end and adds the listed ticks to it. */
  lemma EventCarriesAgreement(x: Market, e: Event, isBid: bool, m: Levels, n: int, cover: iset<int>, tickSize: int)
    requires tickSize > 0 && e.Depth? && FaithfulEvent(x, e, tickSize) && e.pu <= n <= e.u
    requires Agrees(x, n, isBid, m, cover)
    requires AllAccepted(m, Updates(if isBid then e.bids else e.asks), tickSize)
    ensures Agrees(x, e.u, isBid, After(m, Updates(if isBid then e.bids else e.asks), tickSize),
                   cover + iset t | t in Listed(e, isBid, tickSize))
  {
    var entries := if isBid then e.bids else e.asks;
    forall t | t in cover || t in Listed(e, isBid, tickSize)
      ensures VolumeAt(After(m, Updates(entries), tickSize), t) == x(e.u, isBid, t)
    {
      Overlay(x, e.u, isBid, m, entries, tickSize, t);
      if t !in Listed(e, isBid, tickSize) { UnlistedUnchanged(x, e, isBid, t, n, tickSize); }
    }
  }

  lemma SnapshotAccepted(entries: seq<Entry>, tickSize: int)
    requires tickSize > 0 && |entries| <= 1000
    ensures AllAccepted(map[], Updates(entries), tickSize)
  {
    forall k | 0 <= k < |entries|
      ensures Accepts(After(map[], Updates(entries)[..k], tickSize), Updates(entries)[k], tickSize)
    {
      SnapshotNeverRefused(Updates(entries), tickSize, k);
    }
  }

  lemma SnapshotAgrees(x: Market, id: int, isBid: bool, entries: seq<Entry>, tickSize: int)
    requires tickSize > 0 && |entries| <= 1000 && Quotes(x, id, isBid, entries, tickSize)
    ensures Agrees(x, id, isBid, After(map[], Updates(entries), tickSize), Settled(x, id, isBid, entries, tickSize))
  {
    SnapshotAccepted(entries, tickSize);
    forall t | t in Settled(x, id, isBid, entries, tickSize)
      ensures VolumeAt(After(map[], Updates(entries), tickSize), t) == x(id, isBid, t)
    {
      Overlay(x, id, isBid, map[], entries, tickSize, t);
    }
  }
}
