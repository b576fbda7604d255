/** How the book thread stands between two steps: what the stream and the snapshot requests have
    still to deliver, and what decides whether it goes on. */
module Standings {
  import opened Exchange

  datatype Failure = NoFailure | NoTickSize | BadTickSize | SnapshotFailed | Disconnected | Outdated

  // One look at the stream: an event is buffered, or none is, or the owner has asked to stop
  datatype Poll = Ready(event: Event) | Quiet(streamRunning: bool) | Shutdown

  // One snapshot request, during which the owner may have asked to stop
  datatype FetchResult = Fetched(snap: Snapshot, stopping: bool) | FetchFailed(stopping: bool)

  datatype Standing = Standing(
    polls: seq<Poll>,
    fetches: seq<FetchResult>,
    running: bool,
    synced: bool,
    stopAsked: bool,         // the owner has asked to stop
    lastError: Failure)

  /** Running exactly while the owner has not asked to stop and nothing has failed; and no book that
      failed is flagged synced. */
  ghost predicate Proper(a: Standing)
  {
    && (a.running <==> !a.stopAsked && a.lastError == NoFailure)
    && (a.lastError != NoFailure ==> !a.synced)
  }

  // The events the stream still holds, in order
  function EventsOf(polls: seq<Poll>): seq<Event>
  {
    if polls == [] then []
    else if polls[0].Ready? then [polls[0].event] + EventsOf(polls[1..])
    else EventsOf(polls[1..])
  }

  // The answer to the i-th request from now; none is left once the run is over
  function Answer(fetches: seq<FetchResult>, i: int): FetchResult
  {
    if 0 <= i < |fetches| then fetches[i] else FetchFailed(false)
  }

  // ----- from one standing to a later one

  ghost predicate Later(a: Standing, b: Standing)
  {
    && |b.polls| <= |a.polls| && b.polls == a.polls[|a.polls| - |b.polls|..]
    && |b.fetches| <= |a.fetches| && b.fetches == a.fetches[|a.fetches| - |b.fetches|..]
  }

  // The owner asked between the two: in a look at the stream, or during a request
  ghost predicate Asks(a: Standing, b: Standing)
    requires Later(a, b)
  {
    || Shutdown in a.polls[..|a.polls| - |b.polls|]
    || exists f :: f in a.fetches[..|a.fetches| - |b.fetches|] && f.stopping
  }

  // A look up to now found that the stream had given up
  ghost predicate GaveUp(a: Standing, b: Standing)
    requires Later(a, b)
  {
    Quiet(false) in a.polls[..|a.polls| - |b.polls|] || (b.polls != [] && b.polls[0] == Quiet(false))
  }

  /** What was delivered is taken in order. The owner's request is noticed when it comes and never
      made up, except that the run under study ends with one; and a failure is the stream's. */
  ghost predicate Steady(a: Standing, b: Standing)
  {
    && Later(a, b)
    && (a.stopAsked || Asks(a, b) ==> b.stopAsked)
    && (b.stopAsked ==> a.stopAsked || Asks(a, b) || b.polls == [])
    && (b.lastError == a.lastError || (b.lastError == Disconnected && GaveUp(a, b)))
  }

  lemma SteadySelf(a: Standing)
    ensures Steady(a, a)
  {
  }

  lemma SteadyOn(a: Standing, b: Standing, c: Standing)
    requires Steady(a, b) && Steady(b, c)
    ensures Steady(a, c)
  {
    hide Asks;
    hide GaveUp;
    LaterOn(a, b, c);
    AsksOn(a, b, c);
    GaveUpOn(a, b, c);
  }

  lemma LaterOn(a: Standing, b: Standing, c: Standing)
    requires Later(a, b) && Later(b, c)
    ensures Later(a, c)
  {
    Parts(a.polls, |a.polls| - |b.polls|, |a.polls| - |c.polls|);
    Parts(a.fetches, |a.fetches| - |b.fetches|, |a.fetches| - |c.fetches|);
  }

  lemma AsksOn(a: Standing, b: Standing, c: Standing)
    requires Later(a, b) && Later(b, c) && Later(a, c)
    ensures Asks(a, c) <==> Asks(a, b) || Asks(b, c)
  {
    Parts(a.polls, |a.polls| - |b.polls|, |a.polls| - |c.polls|);
    Parts(a.fetches, |a.fetches| - |b.fetches|, |a.fetches| - |c.fetches|);
    hide Later;
  }

  lemma GaveUpOn(a: Standing, b: Standing, c: Standing)
    requires Later(a, b) && Later(b, c) && Later(a, c)
    ensures GaveUp(a, b) || GaveUp(b, c) ==> GaveUp(a, c)
  {
    Parts(a.polls, |a.polls| - |b.polls|, |a.polls| - |c.polls|);
    if b.polls != [] && b.polls[0] == Quiet(false) && |c.polls| < |b.polls| {
      assert b.polls[..|b.polls| - |c.polls|][0] == Quiet(false);
    }
  }

  lemma Parts<T>(s: seq<T>, i: int, k: int)
    requires 0 <= i <= k <= |s|
    ensures s[i..][k - i..] == s[k..] && s[..k] == s[..i] + s[i..][..k - i]
  {
  }

  // Nothing but the flag changes
  lemma SteadyFlag(a: Standing, b: Standing, synced: bool)
    requires Steady(a, b)
    ensures Steady(a, b.(synced := synced))
  {
  }

  lemma ProperFlag(a: Standing, synced: bool)
    requires Proper(a) && (synced ==> a.lastError == NoFailure)
    ensures Proper(a.(synced := synced))
  {
  }

  // One request, answered or not
  lemma SteadyFetch(a: Standing, b: Standing)
    requires b == a.(fetches := b.fetches, running := b.running, stopAsked := b.stopAsked)
    requires b.fetches == if a.fetches == [] then [] else a.fetches[1..]
    requires b.stopAsked == (a.stopAsked || Answer(a.fetches, 0).stopping)
    requires b.running == (a.running && !Answer(a.fetches, 0).stopping)
    ensures Steady(a, b) && (Proper(a) ==> Proper(b))
  {
    if a.fetches != [] { assert a.fetches[..1] == [a.fetches[0]]; }
  }

  // ----- waiting for the stream

  /** The first k looks, none of which found an event: an empty one is passed over only while the
      stream is alive and the thread is not stopping. */
  ghost predicate PassedOver(all: seq<Poll>, k: int, running: bool)
  {
    && 0 <= k <= |all|
    && forall i :: 0 <= i < k ==> all[i].Shutdown? || (all[i] == Quiet(true) && running && Shutdown !in all[..i])
  }

  lemma PassOn(all: seq<Poll>, k: int, running: bool)
    requires PassedOver(all, k, running) && k < |all|
    requires all[k].Shutdown? || (all[k] == Quiet(true) && running && Shutdown !in all[..k])
    ensures PassedOver(all, k + 1, running)
    ensures Shutdown in all[..k + 1] <==> Shutdown in all[..k] || all[k].Shutdown?
  {
    assert all[..k + 1] == all[..k] + [all[k]];
  }

  // A wait that passed over k looks, up to the one that ends it
  ghost predicate Waiting(a: Standing, b: Standing)
  {
    var k := |a.polls| - |b.polls|;
    && PassedOver(a.polls, k, a.running) && b.polls == a.polls[k..] && EventsOf(b.polls) == EventsOf(a.polls)
    && b == a.(polls := b.polls,
               running := a.running && Shutdown !in a.polls[..k],
               stopAsked := a.stopAsked || Shutdown in a.polls[..k])
  }

  /** What a wait leaves. It ends at the first look that finds an event; at the first that finds none
      once the thread is stopping; at one that finds the stream dead, which is a failure and clears
      the synced flag; or with the run under study. No event is lost. */
  ghost predicate Waited(a: Standing, b: Standing, ready: bool)
  {
    var k := |a.polls| - |b.polls|;
    && PassedOver(a.polls, k, a.running) && b.polls == a.polls[k..] && EventsOf(b.polls) == EventsOf(a.polls)
    && (ready <==> b.polls != [] && b.polls[0].Ready?)
    && var seen := Shutdown in a.polls[..k];
       var stopping := !a.running || seen;
       if ready then b == a.(polls := b.polls, running := !stopping, stopAsked := a.stopAsked || seen)
       else if b.polls == [] then b == a.(polls := [], running := false, stopAsked := true)
       else if stopping then
         b.polls[0].Quiet? && b == a.(polls := b.polls, running := false, stopAsked := a.stopAsked || seen)
       else
         b.polls[0] == Quiet(false)
         && b == a.(polls := b.polls, running := false, synced := false, lastError := Disconnected)
  }

  /** Look by look: only the owner's request, or an empty look while running with the stream alive, is
      passed over; the wait succeeds exactly at an event, in which case neither flag nor reason is
      touched; and it fails with a reason of its own exactly when a running thread that nobody has
      asked to stop finds the stream dead, which also clears the flag. */
  lemma WaitByLooks(a: Standing, b: Standing, ready: bool)
    requires Waited(a, b, ready)
    ensures var k := |a.polls| - |b.polls|;
            && 0 <= k <= |a.polls| && b.polls == a.polls[k..] && EventsOf(b.polls) == EventsOf(a.polls)
            && (forall i :: 0 <= i < k ==>
                  a.polls[i] == Shutdown || (a.polls[i] == Quiet(true) && a.running && Shutdown !in a.polls[..i]))
            && (ready <==> b.polls != [] && b.polls[0].Ready?)
            && (ready ==> b.synced == a.synced && b.lastError == a.lastError)
            && (ready ==> (b.running <==> a.running && Shutdown !in a.polls[..k]))
            && (!ready ==> !b.running)
            && (!ready && b.polls != [] && b.polls[0] == Quiet(false) && a.running && Shutdown !in a.polls[..k] ==>
                  b.lastError == Disconnected && !b.synced && b.stopAsked == a.stopAsked)
            && (!ready && (b.polls == [] || !a.running || Shutdown in a.polls[..k]) ==>
                  b.lastError == a.lastError && b.synced == a.synced)
            && (!ready && b.polls != [] ==>
                  b.polls[0].Quiet? && (b.polls[0] == Quiet(true) ==> !a.running || Shutdown in a.polls[..k]))
  {
    hide EventsOf;
  }

  lemma WaitStarts(a: Standing)
    ensures Waiting(a, a)
  {
  }

  lemma WaitOn(a: Standing, b: Standing)
    requires Waiting(a, b) && b.polls != []
    requires b.polls[0].Shutdown? || (b.polls[0] == Quiet(true) && b.running)
    ensures var stop := b.polls[0].Shutdown?;
            Waiting(a, b.(polls := b.polls[1..], running := b.running && !stop, stopAsked := b.stopAsked || stop))
  {
    var k := |a.polls| - |b.polls|;
    assert a.polls[k] == b.polls[0] && a.polls[k..][1..] == a.polls[k + 1..];
    PassOn(a.polls, k, a.running);
    hide PassedOver;
  }

  lemma WaitReady(a: Standing, b: Standing)
    requires Waiting(a, b) && b.polls != [] && b.polls[0].Ready?
    ensures Waited(a, b, true)
  {
  }

  lemma WaitOver(a: Standing, b: Standing)
    requires Waiting(a, b) && b.polls == []
    ensures Waited(a, b.(running := false, stopAsked := true), false)
  {
  }

  lemma WaitStops(a: Standing, b: Standing)
    requires Waiting(a, b) && b.polls != [] && b.polls[0].Quiet?
    ensures !b.running ==> Waited(a, b, false)
    ensures b.running && b.polls[0] == Quiet(false) ==>
              Waited(a, b.(running := false, synced := false, lastError := Disconnected), false)
  {
  }

  lemma WaitSteady(a: Standing, b: Standing, ready: bool)
    requires Waited(a, b, ready)
    ensures Steady(a, b) && (Proper(a) ==> Proper(b)) && b.fetches == a.fetches
    ensures EventsOf(b.polls) == EventsOf(a.polls)
    ensures !ready ==> !b.running && (b.synced ==> a.synced)
    ensures ready ==> b.synced == a.synced && b.lastError == a.lastError
  {
    hide EventsOf;
    hide PassedOver;
    Bounds(a.polls, |a.polls| - |b.polls|, a.running);
    NoRequests(a, b);
  }

  lemma Bounds(all: seq<Poll>, k: int, running: bool)
    requires PassedOver(all, k, running)
    ensures 0 <= k <= |all|
  {
  }

  lemma NoRequests(a: Standing, b: Standing)
    requires 0 <= |a.polls| - |b.polls| && b.polls == a.polls[|a.polls| - |b.polls|..] && b.fetches == a.fetches
    ensures Later(a, b) && (Asks(a, b) <==> Shutdown in a.polls[..|a.polls| - |b.polls|])
  {
  }

  // ----- taking the next event

  // A wait that ended at an event, which was then taken; or a wait that ended without one
  ghost predicate Took(a: Standing, b: Standing, ok: bool, e: Event)
  {
    if ok then Waited(a, b.(polls := [Ready(e)] + b.polls), true) else Waited(a, b, false)
  }

  lemma TakesOne(a: Standing, b: Standing)
    requires Waited(a, b, true)
    ensures Took(a, b.(polls := b.polls[1..]), true, b.polls[0].event)
  {
    assert [Ready(b.polls[0].event)] + b.polls[1..] == b.polls;
    hide Waited;
    assert b.(polls := b.polls[1..]).(polls := b.polls) == b;
  }

  lemma TakesNone(a: Standing, b: Standing, e: Event)
    requires Waited(a, b, false)
    ensures Took(a, b, false, e)
  {
  }

  lemma TookFacts(a: Standing, b: Standing, ok: bool, e: Event)
    requires Took(a, b, ok, e)
    ensures Steady(a, b) && (Proper(a) ==> Proper(b)) && b.fetches == a.fetches
    ensures EventsOf(a.polls) == (if ok then [e] else []) + EventsOf(b.polls)
    ensures if ok then |b.polls| < |a.polls| else !b.running && |b.polls| <= |a.polls|
    ensures ok ==> b.synced == a.synced && b.lastError == a.lastError
    ensures b.synced ==> a.synced
  {
    if ok {
      var mid := b.(polls := [Ready(e)] + b.polls);
      WaitSteady(a, mid, true);
      assert mid.polls[1..] == b.polls && mid.polls[..1] == [Ready(e)];
      SteadyTake(mid, b, e);
      SteadyOn(a, mid, b);
      hide Steady;
    } else {
      WaitSteady(a, b, false);
    }
  }

  lemma SteadyTake(a: Standing, b: Standing, e: Event)
    requires a == b.(polls := [Ready(e)] + b.polls)
    ensures Steady(a, b)
  {
    assert a.polls[1..] == b.polls && a.polls[..1] == [Ready(e)];
  }

  // ----- the wait before the first snapshot

  /** The stream delivers an event before it gives up and before the owner asks to stop. */
  predicate Delivers(polls: seq<Poll>)
  {
    polls != [] && (polls[0].Ready? || (polls[0] == Quiet(true) && Delivers(polls[1..])))
  }

  /** Look by look: it does exactly when every look before the first that finds an event finds the
      stream alive, and there is one that finds an event. */
  lemma {:induction false} DeliversIff(polls: seq<Poll>, k: nat)
    requires k <= |polls| && forall i :: 0 <= i < k ==> !polls[i].Ready?
    requires k == |polls| || polls[k].Ready?
    ensures Delivers(polls) <==> k < |polls| && forall i :: 0 <= i < k ==> polls[i] == Quiet(true)
  {
    if k > 0 {
      assert forall i :: 0 <= i < k - 1 ==> polls[1..][i] == polls[i + 1];
      DeliversIff(polls[1..], k - 1);
      assert forall i :: 1 <= i < k ==> polls[i] == polls[1..][i - 1];
    }
  }

  lemma DeliversWaited(a: Standing, b: Standing, ready: bool)
    requires a.running && Waited(a, b, ready)
    ensures Delivers(a.polls) <==> ready && b.running
  {
    var k := |a.polls| - |b.polls|;
    if ready || b.polls == [] {
      DeliversIff(a.polls, k);
      if b.running { assert forall i :: 0 <= i < k ==> a.polls[i] in a.polls[..k]; }
      if forall i :: 0 <= i < k ==> a.polls[i] == Quiet(true) {
        assert forall p :: p in a.polls[..k] ==> p == Quiet(true);
      }
    } else {
      NeverDelivers(a.polls, k, Shutdown in a.polls[..k]);
    }
  }

  lemma {:induction false} NeverDelivers(polls: seq<Poll>, k: nat, stopped: bool)
    requires k < |polls| && forall i :: 0 <= i < k ==> !polls[i].Ready?
    requires if stopped then Shutdown in polls[..k] else polls[k] == Quiet(false)
    ensures !Delivers(polls)
  {
    if k > 0 && polls[0] == Quiet(true) {
      assert polls[..k] == [polls[0]] + polls[1..][..k - 1];
      NeverDelivers(polls[1..], k - 1, stopped);
    }
  }
}
