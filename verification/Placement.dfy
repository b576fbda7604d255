/** Where placed blocks are reached from: a sliding window indexed by block id, and an overflow
    vector sorted by block id for the ids outside the window. */
module Placement {

  const WINDOW := 128

  predicate InWindow(base: int, id: int)
  {
    base <= id < base + WINDOW
  }

  ghost predicate StrictlySorted(s: seq<int>)
  {
    forall i, j :: 0 <= i < j < |s| ==> s[i] < s[j]
  }

  function CountPlaced(window: seq<int>): (n: nat)
    ensures n <= |window|
  {
    if window == [] then 0
    else CountPlaced(window[..|window| - 1]) + (if window[|window| - 1] >= 0 then 1 else 0)
  }

  ghost predicate WindowShows(dir: map<int, int>, base: int, window: seq<int>, windowBlocks: int)
  {
    && |window| == WINDOW
    && (forall i :: 0 <= i < WINDOW ==> window[i] == if base + i in dir then dir[base + i] else -1)
    && windowBlocks == CountPlaced(window)
  }

  // Position j of the overflow vector holds the block placed for keys[j], an id outside the window
  ghost predicate FallbackCell(dir: map<int, int>, base: int, b: int, key: int)
  {
    key in dir && dir[key] == b && !InWindow(base, key)
  }

  ghost predicate FallbackShows(dir: map<int, int>, base: int, fallback: seq<int>, keys: seq<int>)
  {
    && |keys| == |fallback|
    && StrictlySorted(keys)
    && (forall j :: 0 <= j < |keys| ==> FallbackCell(dir, base, fallback[j], keys[j]))
    && (forall id :: id in dir && !InWindow(base, id) ==> id in keys)
  }

  /** Every placed block is reached from exactly one container: its window cell when its id is in
      the window, and otherwise the overflow vector, which is sorted by id. */
  ghost predicate Placed(dir: map<int, int>, base: int, window: seq<int>, windowBlocks: int,
                         fallback: seq<int>, keys: seq<int>)
  {
    && (forall id :: id in dir ==> dir[id] >= 0)
    && WindowShows(dir, base, window, windowBlocks)
    && FallbackShows(dir, base, fallback, keys)
  }

  lemma {:induction false} CountUpdate(window: seq<int>, i: nat, v: int)
    requires i < |window|
    ensures CountPlaced(window[i := v]) ==
            CountPlaced(window) - (if window[i] >= 0 then 1 else 0) + (if v >= 0 then 1 else 0)
  {
    var n := |window| - 1;
    var init := window[..n];
    if i == n {
      assert window[i := v][..n] == init;
    } else {
      assert window[i := v][..n] == init[i := v];
      CountUpdate(init, i, v);
    }
  }

  lemma {:induction false} CountZero(window: seq<int>)
    ensures CountPlaced(window) == 0 <==> forall i :: 0 <= i < |window| ==> window[i] < 0
  {
    if window != [] {
      var n := |window| - 1;
      CountZero(window[..n]);
      assert forall i :: 0 <= i < n ==> window[..n][i] == window[i];
    }
  }

  // The ids shown by the first n window cells, in order
  ghost function WindowIds(window: seq<int>, base: int, n: nat): seq<int>
    requires n <= |window|
  {
    if n == 0 then []
    else if window[n - 1] >= 0 then WindowIds(window, base, n - 1) + [base + n - 1]
    else WindowIds(window, base, n - 1)
  }

  lemma {:induction false} WindowIdsSorted(window: seq<int>, base: int, n: nat)
    requires n <= |window|
    ensures StrictlySorted(WindowIds(window, base, n))
    ensures forall id :: id in WindowIds(window, base, n) <==> base <= id < base + n && window[id - base] >= 0
  {
    if n > 0 {
      WindowIdsSorted(window, base, n - 1);
      OneHigher(WindowIds(window, base, n - 1), base + n - 1);
      hide StrictlySorted;
    }
  }

  lemma OneHigher(s: seq<int>, x: int)
    requires StrictlySorted(s)
    ensures forall y :: y in s + [x] <==> y in s || y == x
    ensures (forall y :: y in s ==> y < x) ==> StrictlySorted(s + [x])
  {
    assert forall j :: 0 <= j < |s| ==> s[j] in s;
  }

  lemma PlaceInWindow(dir: map<int, int>, base: int, window: seq<int>, windowBlocks: int,
                      fallback: seq<int>, keys: seq<int>, id: int, b: int)
    requires Placed(dir, base, window, windowBlocks, fallback, keys)
    requires id !in dir && b >= 0 && InWindow(base, id)
    ensures Placed(dir[id := b], base, window[id - base := b], windowBlocks + 1, fallback, keys)
  {
    assert window[id - base] == -1;
    CountUpdate(window, id - base, b);
  }

  lemma RemoveFromWindow(dir: map<int, int>, base: int, window: seq<int>, windowBlocks: int,
                         fallback: seq<int>, keys: seq<int>, id: int)
    requires Placed(dir, base, window, windowBlocks, fallback, keys)
    requires id in dir && InWindow(base, id)
    ensures Placed(dir - {id}, base, window[id - base := -1], windowBlocks - 1, fallback, keys)
  {
    assert window[id - base] == dir[base + (id - base)];
    CountUpdate(window, id - base, -1);
  }

  lemma PlaceInFallback(dir: map<int, int>, base: int, window: seq<int>, windowBlocks: int,
                        fallback: seq<int>, keys: seq<int>, id: int, b: int, at: int)
    requires Placed(dir, base, window, windowBlocks, fallback, keys)
    requires id !in dir && b >= 0 && !InWindow(base, id)
    requires 0 <= at <= |keys|
    requires forall j :: 0 <= j < at ==> keys[j] < id
    requires forall j :: at <= j < |keys| ==> id <= keys[j]
    ensures Placed(dir[id := b], base, window, windowBlocks,
                   fallback[..at] + [b] + fallback[at..], keys[..at] + [id] + keys[at..])
  {
    assert WindowShows(dir[id := b], base, window, windowBlocks);
    InsertKey(dir, base, fallback, keys, id, b, at);
  }

  lemma InsertKey(dir: map<int, int>, base: int, fallback: seq<int>, keys: seq<int>, id: int, b: int, at: int)
    requires FallbackShows(dir, base, fallback, keys)
    requires id !in dir && !InWindow(base, id) && 0 <= at <= |keys|
    requires forall j :: 0 <= j < at ==> keys[j] < id
    requires forall j :: at <= j < |keys| ==> id <= keys[j]
    ensures FallbackShows(dir[id := b], base, fallback[..at] + [b] + fallback[at..], keys[..at] + [id] + keys[at..])
  {
    var keys' := keys[..at] + [id] + keys[at..];
    assert id !in keys;
    InsertSorted(keys, at, id);
    var fallback' := fallback[..at] + [b] + fallback[at..];
    forall j | 0 <= j < |keys'|
      ensures FallbackCell(dir[id := b], base, fallback'[j], keys'[j])
    {
      if j != at {
        var was := if j < at then j else j - 1;
        assert keys'[j] == keys[was] && fallback'[j] == fallback[was];
        assert FallbackCell(dir, base, fallback[was], keys[was]);
      }
    }
    InsertMembers(keys, at, id);
  }

  lemma InsertSorted(keys: seq<int>, at: int, id: int)
    requires StrictlySorted(keys) && 0 <= at <= |keys| && id !in keys
    requires forall j :: 0 <= j < at ==> keys[j] < id
    requires forall j :: at <= j < |keys| ==> id <= keys[j]
    ensures StrictlySorted(keys[..at] + [id] + keys[at..])
  {
  }

  // Searching for a key that is there ends at its position
  lemma KeyAt(dir: map<int, int>, base: int, fallback: seq<int>, keys: seq<int>, id: int, at: int)
    requires FallbackShows(dir, base, fallback, keys) && id in dir && !InWindow(base, id)
    requires 0 <= at <= |keys|
    requires forall j :: 0 <= j < at ==> keys[j] < id
    requires forall j :: at <= j < |keys| ==> id <= keys[j]
    ensures at < |keys| && keys[at] == id
  {
    var j :| 0 <= j < |keys| && keys[j] == id;
    assert at <= j;
  }

  lemma InsertMembers(keys: seq<int>, at: int, id: int)
    requires 0 <= at <= |keys|
    ensures forall i :: i in keys[..at] + [id] + keys[at..] <==> i in keys || i == id
  {
    var keys' := keys[..at] + [id] + keys[at..];
    assert keys == keys[..at] + keys[at..];
    assert keys'[at] == id;
  }

  lemma RemoveMembers(keys: seq<int>, at: int)
    requires 0 <= at < |keys|
    ensures forall i :: i in keys && i != keys[at] ==> i in keys[..at] + keys[at + 1..]
  {
    assert keys == keys[..at] + [keys[at]] + keys[at + 1..];
  }

  lemma RemoveFromFallback(dir: map<int, int>, base: int, window: seq<int>, windowBlocks: int,
                           fallback: seq<int>, keys: seq<int>, at: int)
    requires Placed(dir, base, window, windowBlocks, fallback, keys)
    requires 0 <= at < |keys|
    ensures Placed(dir - {keys[at]}, base, window, windowBlocks,
                   fallback[..at] + fallback[at + 1..], keys[..at] + keys[at + 1..])
  {
    assert WindowShows(dir - {keys[at]}, base, window, windowBlocks);
    RemoveKey(dir, base, fallback, keys, at);
  }

  lemma RemoveKey(dir: map<int, int>, base: int, fallback: seq<int>, keys: seq<int>, at: int)
    requires FallbackShows(dir, base, fallback, keys) && 0 <= at < |keys|
    ensures FallbackShows(dir - {keys[at]}, base, fallback[..at] + fallback[at + 1..], keys[..at] + keys[at + 1..])
  {
    var keys' := keys[..at] + keys[at + 1..];
    var fallback' := fallback[..at] + fallback[at + 1..];
    RemoveSorted(keys, at);
    forall j | 0 <= j < |keys'|
      ensures FallbackCell(dir - {keys[at]}, base, fallback'[j], keys'[j])
    {
      var was := if j < at then j else j + 1;
      assert keys'[j] == keys[was] && fallback'[j] == fallback[was];
      assert FallbackCell(dir, base, fallback[was], keys[was]);
      assert keys'[j] in keys';
    }
    RemoveMembers(keys, at);
  }

  lemma RemoveSorted(keys: seq<int>, at: int)
    requires StrictlySorted(keys) && 0 <= at < |keys|
    ensures StrictlySorted(keys[..at] + keys[at + 1..])
    ensures keys[at] !in keys[..at] + keys[at + 1..]
  {
  }

  // ----- the overflow vector lies on the worse side of the window

  // Better than anything the window can show
  predicate BeyondBestEdge(isBid: bool, id: int, base: int)
  {
    if isBid then id >= base + WINDOW else id < base
  }

  ghost predicate NoneBeyond(isBid: bool, dir: map<int, int>, base: int)
  {
    forall id :: id in dir ==> !BeyondBestEdge(isBid, id, base)
  }

  predicate BetterOrSame(isBid: bool, id: int, other: int)
  {
    if isBid then id >= other else id <= other
  }

  /** Every bid block in the overflow vector is below the window and every ask block above it. */
  lemma FallbackOneSided(isBid: bool, dir: map<int, int>, base: int, window: seq<int>, windowBlocks: int,
                         fallback: seq<int>, keys: seq<int>, j: int)
    requires Placed(dir, base, window, windowBlocks, fallback, keys) && NoneBeyond(isBid, dir, base)
    requires 0 <= j < |keys|
    ensures if isBid then keys[j] < base else keys[j] >= base + WINDOW
  {
    assert FallbackCell(dir, base, fallback[j], keys[j]);
  }

  /** A window with any block in it holds the best block of the side. */
  lemma WindowHoldsTheBest(isBid: bool, dir: map<int, int>, base: int, window: seq<int>, windowBlocks: int,
                           fallback: seq<int>, keys: seq<int>) returns (best: int)
    requires Placed(dir, base, window, windowBlocks, fallback, keys) && NoneBeyond(isBid, dir, base)
    requires windowBlocks > 0
    ensures best in dir && InWindow(base, best)
    ensures forall id :: id in dir ==> BetterOrSame(isBid, best, id)
  {
    CountZero(window);
    var i :| 0 <= i < WINDOW && window[i] >= 0;
    best := BestInWindow(isBid, dir, base, window, i);
    forall id | id in dir && InWindow(base, id)
      ensures BetterOrSame(isBid, best, id)
    {
      assert window[id - base] == dir[base + (id - base)];
    }
  }

  lemma {:induction false} BestInWindow(isBid: bool, dir: map<int, int>, base: int, window: seq<int>, i: int)
    returns (best: int)
    requires |window| == WINDOW && 0 <= i < WINDOW && window[i] >= 0
    requires forall k :: 0 <= k < WINDOW ==> window[k] == if base + k in dir then dir[base + k] else -1
    ensures best in dir && InWindow(base, best)
    ensures forall k :: 0 <= k < WINDOW && window[k] >= 0 ==> BetterOrSame(isBid, best, base + k)
    decreases if isBid then WINDOW - i else i
  {
    best := base + i;
    if k :| 0 <= k < WINDOW && window[k] >= 0 && !BetterOrSame(isBid, best, base + k) {
      best := BestInWindow(isBid, dir, base, window, k);
    }
  }

  // With nothing in the window or the overflow, nothing is placed
  lemma NothingShown(dir: map<int, int>, base: int, window: seq<int>, windowBlocks: int,
                     fallback: seq<int>, keys: seq<int>)
    requires Placed(dir, base, window, windowBlocks, fallback, keys)
    ensures windowBlocks >= 0 && (windowBlocks == 0 && fallback == [] ==> dir == map[])
  {
    if windowBlocks == 0 && fallback == [] {
      forall id
        ensures id !in dir
      {
        if InWindow(base, id) { EmptyWindow(dir, base, window, id); }
      }
    }
  }

  lemma EmptyWindow(dir: map<int, int>, base: int, window: seq<int>, id: int)
    requires WindowShows(dir, base, window, 0) && InWindow(base, id)
    requires forall i :: i in dir ==> dir[i] >= 0
    ensures id !in dir
  {
    CountZero(window);
    assert window[id - base] < 0;
  }

  // With the window empty, the end of the overflow vector nearest the best is the best block
  lemma EdgeOfFallback(isBid: bool, dir: map<int, int>, base: int, window: seq<int>, windowBlocks: int,
                       fallback: seq<int>, keys: seq<int>, id: int)
    requires Placed(dir, base, window, windowBlocks, fallback, keys)
    requires windowBlocks == 0 && |keys| > 0 && id in dir
    ensures BetterOrSame(isBid, if isBid then keys[|keys| - 1] else keys[0], id)
  {
    if InWindow(base, id) {
      EmptyWindow(dir, base, window, id);
    } else {
      assert id in keys;
    }
  }

  // ----- splitting the overflow vector around the window

  // Between consecutive keys there is no placed id outside the window
  lemma NoKeyBetween(dir: map<int, int>, base: int, fallback: seq<int>, keys: seq<int>, j: int, id: int)
    requires FallbackShows(dir, base, fallback, keys) && 0 <= j < |keys|
    requires id in dir && !InWindow(base, id)
    requires id > keys[j]
    ensures j + 1 < |keys| && id >= keys[j + 1]
  {
    var k :| 0 <= k < |keys| && keys[k] == id;
    assert k > j;
  }

  // [0, low) is below the window and [high, end) above it
  ghost predicate SplitAt(base: int, keys: seq<int>, low: int, high: int)
  {
    && 0 <= low <= high <= |keys|
    && (forall j :: 0 <= j < low ==> keys[j] < base)
    && (forall j :: low <= j < |keys| ==> base <= keys[j])
    && (forall j :: 0 <= j < high ==> keys[j] < base + WINDOW)
    && (forall j :: high <= j < |keys| ==> base + WINDOW <= keys[j])
  }

  lemma SplitKeys(dir: map<int, int>, base: int, fallback: seq<int>, keys: seq<int>, low: int, high: int)
    requires FallbackShows(dir, base, fallback, keys) && SplitAt(base, keys, low, high)
    ensures |keys| == |fallback|
    ensures forall id :: id in dir && id >= base + WINDOW ==> high < |keys| && keys[high] <= id <= keys[|keys| - 1]
    ensures forall id :: id in dir && id < base ==> low > 0 && keys[0] <= id <= keys[low - 1]
    ensures low > 0 ==> keys[0] <= keys[low - 1] < base
    ensures high < |keys| ==> base + WINDOW <= keys[high] <= keys[|keys| - 1]
  {
    forall id | id in dir && !InWindow(base, id)
      ensures id >= base + WINDOW ==> high < |keys| && keys[high] <= id <= keys[|keys| - 1]
      ensures id < base ==> low > 0 && keys[0] <= id <= keys[low - 1]
    {
      var k :| 0 <= k < |keys| && keys[k] == id;
    }
  }
}
