/** Retrying on an exponential schedule. What `keepGoing` and `attempt` answer, and what other threads
    do to the interrupt, are oracles indexed by the call; clocks are not modelled, only the waiting
    that is requested. */
module Backoff {
  import opened Arithmetic

  datatype ConnectionStatus = SUCCESS | FAIL | CLOSED

  function Pow(f: int, k: nat): int
  {
    if k == 0 then 1 else f * Pow(f, k - 1)
  }

  // The k-th wait of the schedule
  function Delay(delay: int, f: int, k: nat): int
  {
    delay * Pow(f, k)
  }

  // The first k waits together
  function Total(delay: int, f: int, k: nat): int
  {
    if k == 0 then 0 else Total(delay, f, k - 1) + Delay(delay, f, k - 1)
  }

  lemma TotalNone(delay: int, f: int)
    ensures Total(delay, f, 0) == 0
  {
  }

  lemma TotalNext(delay: int, f: int, k: nat)
    ensures Total(delay, f, k + 1) == Total(delay, f, k) + Delay(delay, f, k)
  {
  }

  datatype BackoffPolicy = BackoffPolicy(delay: int, increasePerTry: int, maxTryCount: nat) {
    function MaxDelay(): int
    {
      delay * Pow(increasePerTry, maxTryCount)
    }

    // The attempt after which the schedule is exhausted
    ghost predicate ExhaustedAt(k: nat)
    {
      k >= 1 && Delay(delay, increasePerTry, k) >= MaxDelay()
      && forall i :: 1 <= i < k ==> Delay(delay, increasePerTry, i) < MaxDelay()
    }
  }

  lemma NextDelay(delay: int, f: int, k: nat)
    ensures Delay(delay, f, k) * f == Delay(delay, f, k + 1)
  {
    var p := Pow(f, k);
    assert delay * p * f == delay * (f * p);
  }

  lemma {:induction false} DelayPositive(delay: int, f: int, k: nat)
    requires delay >= 1 && f >= 2
    ensures Delay(delay, f, k) >= 1 && Delay(delay, f, k) < Delay(delay, f, k + 1)
  {
    if k == 0 {
      assert Delay(delay, f, 0) == delay;
    } else {
      DelayPositive(delay, f, k - 1);
    }
    NextDelay(delay, f, k);
    MulMonotone(2, f, Delay(delay, f, k));
  }

  lemma {:induction false} DelaysGrow(delay: int, f: int, i: nat, j: nat)
    requires delay >= 1 && f >= 2 && i < j
    ensures 1 <= Delay(delay, f, i) < Delay(delay, f, j)
  {
    hide *;
    DelayPositive(delay, f, j - 1);
    DelayPositive(delay, f, i);
    if i < j - 1 { DelaysGrow(delay, f, i, j - 1); }
  }

  lemma ScheduleEnds(policy: BackoffPolicy)
    ensures Delay(policy.delay, policy.increasePerTry, 0) == policy.delay
    ensures Delay(policy.delay, policy.increasePerTry, 1) == policy.delay * policy.increasePerTry
    ensures Delay(policy.delay, policy.increasePerTry, policy.maxTryCount) == policy.MaxDelay()
  {
    assert Pow(policy.increasePerTry, 1) == policy.increasePerTry * Pow(policy.increasePerTry, 0);
  }

  /** A growing schedule is exhausted after exactly maxTryCount attempts. */
  lemma ExhaustedExactly(policy: BackoffPolicy, k: nat)
    requires policy.delay >= 1 && policy.increasePerTry >= 2 && policy.maxTryCount >= 1
    ensures policy.ExhaustedAt(k) <==> k == policy.maxTryCount
  {
    var d, f, n := policy.delay, policy.increasePerTry, policy.maxTryCount;
    forall i: nat | i < n
      ensures Delay(d, f, i) < policy.MaxDelay()
    {
      DelaysGrow(d, f, i, n);
    }
    assert Delay(d, f, n) == policy.MaxDelay();
  }

  lemma Distribute(t: int, x: int, f: int)
    ensures (t + x) * (f - 1) == t * (f - 1) + (x * f - x)
  {
  }

  lemma {:induction false} GeometricSum(delay: int, f: int, k: nat)
    ensures Total(delay, f, k) * (f - 1) == Delay(delay, f, k) - delay
  {
    if k == 0 {
      assert Delay(delay, f, 0) == delay;
    } else {
      GeometricSum(delay, f, k - 1);
      NextDelay(delay, f, k - 1);
      hide Delay;
      hide Pow;
      Distribute(Total(delay, f, k - 1), Delay(delay, f, k - 1), f);
    }
  }

  lemma ScaledPower(delay: int, f: int, k: nat)
    ensures delay * (Pow(f, k) - 1) == Delay(delay, f, k) - delay
  {
  }

  // t is the quotient of a by a positive b that it multiplies to
  lemma ExactQuotient(a: int, b: int, t: int)
    requires b >= 1 && t * b == a >= 0
    ensures a / b == t && 0 <= t <= a
  {
    UniqueRemainder(a, b, t, 0);
    if t < 0 { MulMonotone(t, -1, b); }
    MulMonotone(1, b, if t < 0 then 0 else t);
    assert b * t == t * b;
  }

  /** A run to exhaustion requests delay * (f^n - 1) / (f - 1) of waiting, less than maxDelay. */
  lemma TotalWait(policy: BackoffPolicy)
    requires policy.delay >= 1 && policy.increasePerTry >= 2
    ensures var f := policy.increasePerTry;
            Total(policy.delay, f, policy.maxTryCount) == policy.delay * (Pow(f, policy.maxTryCount) - 1) / (f - 1)
    ensures 0 <= Total(policy.delay, policy.increasePerTry, policy.maxTryCount) < policy.MaxDelay()
  {
    var d, f, n := policy.delay, policy.increasePerTry, policy.maxTryCount;
    GeometricSum(d, f, n);
    ScaledPower(d, f, n);
    ScheduleEnds(policy);
    if n > 0 { DelaysGrow(d, f, 0, n); }
    hide *;
    ExactQuotient(Delay(d, f, n) - d, f - 1, Total(d, f, n));
  }

  /** The default schedule, 500 ms doubling at most seven times: the seventh failure ends it, at a
      ceiling of 64 s, after 63.5 s of waiting. */
  lemma DefaultSchedule(k: nat)
    ensures var policy := BackoffPolicy(500, 2, 7);
            && (policy.ExhaustedAt(k) <==> k == 7)
            && policy.MaxDelay() == 64000 && Total(500, 2, 7) == 63500
  {
    assert Pow(2, 3) == 8 && Pow(2, 5) == 32 && Pow(2, 7) == 128;
    ExhaustedExactly(BackoffPolicy(500, 2, 7), k);
    GeometricSum(500, 2, 7);
  }

  // ----- which schedules end

  lemma {:induction false} LeastExhausted(policy: BackoffPolicy, i: nat, k: nat) returns (least: nat)
    requires 1 <= i <= k && Delay(policy.delay, policy.increasePerTry, k) >= policy.MaxDelay()
    requires forall j :: 1 <= j < i ==> Delay(policy.delay, policy.increasePerTry, j) < policy.MaxDelay()
    ensures policy.ExhaustedAt(least)
    decreases k - i
  {
    if Delay(policy.delay, policy.increasePerTry, i) >= policy.MaxDelay() {
      least := i;
    } else {
      least := LeastExhausted(policy, i + 1, k);
    }
  }

  // No number of failures exhausts the schedule
  predicate Endless(policy: BackoffPolicy)
  {
    && policy.maxTryCount == 0
    && ((policy.delay > 0 && policy.increasePerTry == 0) || (policy.delay < 0 && policy.increasePerTry >= 2))
  }

  lemma {:induction false} EndlessDelays(policy: BackoffPolicy, k: nat)
    requires Endless(policy) && k >= 1
    ensures Delay(policy.delay, policy.increasePerTry, k) < policy.MaxDelay()
  {
    var d, f := policy.delay, policy.increasePerTry;
    ScheduleEnds(policy);
    NextDelay(d, f, k - 1);
    if f >= 2 {
      if k > 1 { EndlessDelays(policy, k - 1); }
      var x := Delay(d, f, k - 1);
      assert x < 0 && (-x) * 2 <= (-x) * f by { MulMonotone(2, f, -x); Swapped(-x, f); }
      assert x * f == -((-x) * f);
    } else {
      assert Delay(d, f, k - 1) * 0 == 0;
    }
  }

  lemma Swapped(a: int, b: int)
    ensures a * b == b * a && 2 * a == a * 2
  {
  }

  // A count after which a schedule that is not endless has reached its ceiling
  lemma CeilingReached(policy: BackoffPolicy) returns (k: nat)
    requires !Endless(policy)
    ensures k >= 1 && Delay(policy.delay, policy.increasePerTry, k) >= policy.MaxDelay()
  {
    var d, f, n := policy.delay, policy.increasePerTry, policy.maxTryCount;
    ScheduleEnds(policy);
    if n >= 1 {
      k := n;
    } else if d >= 0 && f < 0 {
      k := 2;
      NextDelay(d, f, 1);
      TwiceScaled(d, f);
    } else {
      k := 1;
      OnceScaled(d, f);
    }
  }

  lemma TwiceScaled(d: int, f: int)
    requires d >= 0 && f < 0
    ensures d * f * f >= d
  {
    MulMonotone(1, -f, d);
    assert (-f) * d == -(d * f);
    MulMonotone(1, -f, -(d * f));
    assert (-f) * -(d * f) == d * f * f;
  }

  lemma OnceScaled(d: int, f: int)
    requires (d >= 0 && f >= 1) || (d == 0 && f == 0) || (d < 0 && f <= 1)
    ensures d * f >= d
  {
    if d >= 0 && f >= 1 {
      MulMonotone(1, f, d);
      Swapped(d, f);
    } else if d < 0 {
      MulMonotone(f, 1, -d);
      assert f * -d == -(d * f);
    }
  }

  /** Failures alone end a schedule for every policy but these: no tries allowed, and a delay that
      shrinks to nothing or a negative one that grows. */
  lemma EndsIff(policy: BackoffPolicy)
    ensures (exists k: nat :: policy.ExhaustedAt(k)) <==> !Endless(policy)
  {
    if Endless(policy) {
      forall k: nat
        ensures !policy.ExhaustedAt(k)
      {
        if k >= 1 { EndlessDelays(policy, k); }
      }
    } else {
      var k := CeilingReached(policy);
      var least := LeastExhausted(policy, 1, k);
    }
  }

  // ----- the interrupt

  // What another thread does to the interrupt, under its mutex
  datatype Access = SignalCall | ResetCall

  function FlagAfter(flag: bool, accesses: seq<Access>): bool
  {
    if accesses == [] then flag else accesses[|accesses| - 1] == SignalCall
  }

  /** A wait tests the flag under the mutex. Each of `wakes` is what other threads do while the waiter
      sleeps without the mutex, up to a wake, called for or spurious, after which it tests again; when
      they are used up the time is over. */
  function WaitResult(flag: bool, wakes: seq<seq<Access>>): bool
    decreases |wakes|
  {
    if flag then true
    else if wakes == [] then false
    else WaitResult(FlagAfter(flag, wakes[0]), wakes[1..])
  }

  predicate NoReset(accesses: seq<Access>)
  {
    ResetCall !in accesses
  }

  /** Where nobody resets, a wait is cut short exactly when a signal came before it or during it. */
  lemma {:induction false} SignalIsSeen(flag: bool, wakes: seq<seq<Access>>)
    requires forall i :: 0 <= i < |wakes| ==> NoReset(wakes[i])
    ensures WaitResult(flag, wakes) <==> flag || exists i :: 0 <= i < |wakes| && SignalCall in wakes[i]
    decreases |wakes|
  {
    if !flag && wakes != [] {
      var first, rest := FlagAfter(flag, wakes[0]), wakes[1..];
      SignalIsSeen(first, rest);
      SignalledBy(flag, wakes[0]);
      assert forall i :: 0 <= i < |rest| ==> rest[i] == wakes[i + 1];
      if i :| 0 <= i < |wakes| && SignalCall in wakes[i] {
        if i > 0 { assert SignalCall in rest[i - 1]; }
      }
      if i :| 0 <= i < |rest| && SignalCall in rest[i] {
        assert SignalCall in wakes[i + 1];
      }
    }
  }

  lemma SignalledBy(flag: bool, accesses: seq<Access>)
    requires NoReset(accesses)
    ensures FlagAfter(flag, accesses) <==> flag || SignalCall in accesses
  {
    if accesses != [] { assert accesses[|accesses| - 1] in accesses; }
  }

  class BackoffInterrupt {
    var signalled: bool

    constructor ()
      ensures !signalled
    {
      signalled := false;
    }

    method Signal()
      modifies this
      ensures signalled
    {
      signalled := true;
    }

    method Reset()
      modifies this
      ensures !signalled
    {
      signalled := false;
    }

    // The other threads' turn
    method Yield(accesses: seq<Access>)
      modifies this
      ensures signalled == FlagAfter(old(signalled), accesses)
    {
      for i := 0 to |accesses|
        invariant signalled == FlagAfter(old(signalled), accesses[..i])
      {
        if accesses[i].SignalCall? { Signal(); } else { Reset(); }
      }
      assert accesses[..|accesses|] == accesses;
    }

    // True if the flag was set at one of the tests, false if the time ran out first
    method WaitFor(timeout: int, wakes: seq<seq<Access>>) returns (woken: bool)
      modifies this
      ensures woken == signalled == WaitResult(old(signalled), wakes)
    {
      var i := 0;
      while !signalled && i < |wakes|
        invariant 0 <= i <= |wakes|
        invariant WaitResult(signalled, wakes[i..]) == WaitResult(old(signalled), wakes)
        decreases |wakes| - i
      {
        assert wakes[i..][1..] == wakes[i + 1..];
        Yield(wakes[i]);
        i := i + 1;
      }
      woken := signalled;
    }
  }

  // The flag after k waits: before each, what other threads do while the caller is busy elsewhere
  function FlagAt(flag: bool, before: nat -> seq<Access>, during: nat -> seq<seq<Access>>, k: nat): bool
  {
    if k == 0 then flag
    else WaitResult(FlagAfter(FlagAt(flag, before, during, k - 1), before(k - 1)), during(k - 1))
  }

  lemma FlagStart(flag: bool, before: nat -> seq<Access>, during: nat -> seq<seq<Access>>)
    ensures FlagAt(flag, before, during, 0) == flag
  {
  }

  lemma FlagNext(flag: bool, before: nat -> seq<Access>, during: nat -> seq<seq<Access>>, k: nat)
    ensures FlagAt(flag, before, during, k + 1) ==
            WaitResult(FlagAfter(FlagAt(flag, before, during, k), before(k)), during(k))
  {
  }

  predicate Untouched(before: nat -> seq<Access>, during: nat -> seq<seq<Access>>, k: nat)
  {
    forall i: nat :: i < k ==> NoReset(before(i)) && forall j :: 0 <= j < |during(i)| ==> NoReset(during(i)[j])
  }

  predicate SignalIn(before: nat -> seq<Access>, during: nat -> seq<seq<Access>>, i: nat)
  {
    SignalCall in before(i) || exists j :: 0 <= j < |during(i)| && SignalCall in during(i)[j]
  }

  /** No signal is lost between the waits either: where nobody resets, the flag is set exactly when it
      was at the start or a signal has come since. */
  lemma {:induction false} SignalsStick(flag: bool, before: nat -> seq<Access>, during: nat -> seq<seq<Access>>, k: nat)
    requires Untouched(before, during, k)
    ensures FlagAt(flag, before, during, k) <==> flag || exists i: nat :: i < k && SignalIn(before, during, i)
  {
    if k > 0 {
      SignalsStick(flag, before, during, k - 1);
      SignalledBy(FlagAt(flag, before, during, k - 1), before(k - 1));
      SignalIsSeen(FlagAfter(FlagAt(flag, before, during, k - 1), before(k - 1)), during(k - 1));
      assert FlagAt(flag, before, during, k) <==>
          FlagAt(flag, before, during, k - 1) || SignalIn(before, during, k - 1);
    }
  }

  // ----- the loop

  predicate AllTrue(answers: nat -> bool, k: nat)
  {
    forall i: nat :: i < k ==> answers(i)
  }

  predicate AllFalse(answers: nat -> bool, k: nat)
  {
    forall i: nat :: i < k ==> !answers(i)
  }

  lemma NoneYet(answers: nat -> bool)
    ensures AllTrue(answers, 0) && AllFalse(answers, 0)
  {
  }

  lemma OneMore(answers: nat -> bool, k: nat)
    ensures AllTrue(answers, k) && answers(k) ==> AllTrue(answers, k + 1)
    ensures AllFalse(answers, k) && !answers(k) ==> AllFalse(answers, k + 1)
  {
  }

  // What a loop has come to after a number of rounds
  datatype Outcome = Ended(status: ConnectionStatus) | StillTrying

  /** The first `rounds` rounds of the source's loop, for any number of them. Each round asks
      `keepGoing`, waits, asks again and tries once. CLOSED follows a refusal at once, with no attempt
      after it; SUCCESS follows the first attempt that works; FAIL follows the attempt that exhausts
      the schedule, all having failed; otherwise every round has failed and none exhausted it. */
  method ExponentialBackOff(attempt: nat -> bool, keepGoing: nat -> bool, policy: BackoffPolicy,
                            wakeup: BackoffInterrupt?, before: nat -> seq<Access>, during: nat -> seq<seq<Access>>,
                            rounds: nat)
    returns (outcome: Outcome, asked: nat, attempts: nat, waits: nat, requested: int)
    modifies wakeup
    ensures requested == Total(policy.delay, policy.increasePerTry, waits) && attempts <= rounds
    ensures outcome == Ended(CLOSED) ==>
              asked >= 1 && !keepGoing(asked - 1) && AllTrue(keepGoing, asked - 1) && AllFalse(attempt, attempts)
              && asked == attempts + waits + 1 && attempts <= waits <= attempts + 1
    ensures outcome != Ended(CLOSED) ==> AllTrue(keepGoing, asked) && asked == 2 * attempts && waits == attempts
    ensures outcome == Ended(SUCCESS) ==> attempts >= 1 && attempt(attempts - 1) && AllFalse(attempt, attempts - 1)
    ensures outcome == Ended(FAIL) ==> AllFalse(attempt, attempts) && policy.ExhaustedAt(attempts)
    ensures outcome == StillTrying ==>
              attempts == rounds && AllFalse(attempt, rounds) && forall k :: 0 <= k <= rounds ==> !policy.ExhaustedAt(k)
    ensures wakeup != null ==> wakeup.signalled == FlagAt(old(wakeup.signalled), before, during, waits)
  {
    hide Delay;
    hide Pow;
    hide WaitResult;
    hide FlagAfter;
    hide FlagAt;
    hide Total;
    hide AllTrue;
    hide AllFalse;
    hide BackoffPolicy.MaxDelay;
    asked, attempts, waits, requested := 0, 0, 0, 0;
    var backoff := policy.delay;
    var maxDelay := policy.MaxDelay();
    ScheduleEnds(policy);
    TotalNone(policy.delay, policy.increasePerTry);
    ghost var flag := wakeup != null && wakeup.signalled;
    FlagStart(flag, before, during);
    NoneYet(keepGoing);
    NoneYet(attempt);
    while attempts < rounds
      invariant waits == attempts <= rounds && asked == 2 * attempts
      invariant requested == Total(policy.delay, policy.increasePerTry, waits)
      invariant backoff == Delay(policy.delay, policy.increasePerTry, attempts)
      invariant forall i :: 1 <= i <= attempts ==> Delay(policy.delay, policy.increasePerTry, i) < maxDelay
      invariant AllTrue(keepGoing, asked) && AllFalse(attempt, attempts)
      invariant wakeup != null ==> wakeup.signalled == FlagAt(flag, before, during, waits)
    {
      asked := asked + 1;
      if !keepGoing(asked - 1) {
        return Ended(CLOSED), asked, attempts, waits, requested;
      }
      OneMore(keepGoing, asked - 1);
      FlagNext(flag, before, during, waits);
      if wakeup != null {
        wakeup.Yield(before(waits));
        var woken := wakeup.WaitFor(backoff, during(waits));
      }
      TotalNext(policy.delay, policy.increasePerTry, waits);
      requested := requested + backoff;
      waits := waits + 1;
      asked := asked + 1;
      if !keepGoing(asked - 1) {
        return Ended(CLOSED), asked, attempts, waits, requested;
      }
      OneMore(keepGoing, asked - 1);
      attempts := attempts + 1;
      if attempt(attempts - 1) {
        return Ended(SUCCESS), asked, attempts, waits, requested;
      }
      OneMore(attempt, attempts - 1);
      NextDelay(policy.delay, policy.increasePerTry, attempts - 1);
      backoff := backoff * policy.increasePerTry;
      if backoff >= maxDelay {
        return Ended(FAIL), asked, attempts, waits, requested;
      }
    }
    outcome := StillTrying;
  }

  // The schedule when nothing can call it off
  method ExponentialBackOffAlways(attempt: nat -> bool, policy: BackoffPolicy, rounds: nat)
    returns (outcome: Outcome, attempts: nat, requested: int)
    ensures outcome != Ended(CLOSED) && attempts <= rounds
    ensures outcome == Ended(SUCCESS) ==> attempts >= 1 && attempt(attempts - 1) && AllFalse(attempt, attempts - 1)
    ensures outcome == Ended(FAIL) ==> AllFalse(attempt, attempts) && policy.ExhaustedAt(attempts)
    ensures outcome == StillTrying ==>
              attempts == rounds && AllFalse(attempt, rounds) && forall k :: 0 <= k <= rounds ==> !policy.ExhaustedAt(k)
    ensures requested == Total(policy.delay, policy.increasePerTry, attempts)
  {
    var asked, waits;
    outcome, asked, attempts, waits, requested :=
      ExponentialBackOff(attempt, _ => true, policy, null, _ => [], _ => [], rounds);
  }
}
