/** Best-first listings of a side's ticks, and the bit walks that produce them. A walk is
    described by a frontier: the ticks already listed are exactly those on its better side. */
module BestFirst {
  import opened BookSide
  import opened Collections
  import opened Words

  predicate Better(isBid: bool, a: int, b: int)
  {
    if isBid then a > b else a < b
  }

  ghost predicate BestFirstOrder(isBid: bool, c: seq<int>)
  {
    forall i, j :: 0 <= i < j < |c| ==> Better(isBid, c[i], c[j])
  }

  /** c lists the |c| best ticks, best first. */
  ghost predicate BestPrefix(isBid: bool, ticks: set<int>, c: seq<int>)
  {
    && BestFirstOrder(isBid, c)
    && (forall i :: 0 <= i < |c| ==> c[i] in ticks)
    && (forall i, t :: 0 <= i < |c| && t in ticks && t !in c ==> Better(isBid, c[i], t))
  }

  /** In numbers: bids from the highest tick down, asks from the lowest up, and every tick left out is
      on the far side of all that are listed. */
  lemma PrefixInNumbers(isBid: bool, ticks: set<int>, c: seq<int>)
    ensures BestPrefix(isBid, ticks, c) <==>
              && (forall i, j :: 0 <= i < j < |c| ==> if isBid then c[j] < c[i] else c[i] < c[j])
              && (forall t :: t in c ==> t in ticks)
              && (forall t, u :: t in c && u in ticks && u !in c ==> if isBid then u < t else t < u)
  {
    assert forall i :: 0 <= i < |c| ==> c[i] in c;
    if BestPrefix(isBid, ticks, c) {
      forall t, u | t in c && u in ticks && u !in c
        ensures if isBid then u < t else t < u
      {
        var i :| 0 <= i < |c| && c[i] == t;
        assert Better(isBid, c[i], u);
      }
    }
  }

  predicate Passed(isBid: bool, f: int, t: int)
  {
    if isBid then t >= f else t < f
  }

  ghost predicate Front(isBid: bool, ticks: set<int>, c: seq<int>, f: int)
  {
    && BestFirstOrder(isBid, c)
    && (forall t :: t in c <==> t in ticks && Passed(isBid, f, t))
  }

  lemma FrontIsBestPrefix(isBid: bool, ticks: set<int>, c: seq<int>, f: int)
    requires Front(isBid, ticks, c, f)
    ensures BestPrefix(isBid, ticks, c)
  {
    forall i | 0 <= i < |c|
      ensures c[i] in ticks && Passed(isBid, f, c[i])
    {
      var t := c[i];
      assert t in c;
    }
  }

  lemma Emit(isBid: bool, ticks: set<int>, c: seq<int>, f: int, t: int, f': int)
    requires Front(isBid, ticks, c, f) && t in ticks && !Passed(isBid, f, t)
    requires forall u :: u in ticks ==> (Passed(isBid, f', u) <==> Passed(isBid, f, u) || u == t)
    ensures Front(isBid, ticks, c + [t], f')
  {
    forall i | 0 <= i < |c|
      ensures Better(isBid, c[i], t)
    {
      assert c[i] in c;
    }
    forall u
      ensures u in c + [t] <==> u in ticks && Passed(isBid, f', u)
    {
      assert u in c + [t] <==> u in c || u == t;
    }
  }

  lemma Skip(isBid: bool, ticks: set<int>, c: seq<int>, f: int, f': int)
    requires Front(isBid, ticks, c, f)
    requires forall u :: u in ticks ==> (Passed(isBid, f', u) <==> Passed(isBid, f, u))
    ensures Front(isBid, ticks, c, f')
  {
  }

  /** A best prefix is determined by its length: two of one length list the same ticks. */
  lemma {:induction false} BestPrefixUnique(isBid: bool, ticks: set<int>, c: seq<int>, d: seq<int>)
    requires BestPrefix(isBid, ticks, c) && BestPrefix(isBid, ticks, d) && |c| == |d|
    ensures c == d
  {
    if c != [] {
      var n := |c| - 1;
      ShorterPrefix(isBid, ticks, c);
      ShorterPrefix(isBid, ticks, d);
      BestPrefixUnique(isBid, ticks, c[..n], d[..n]);
      assert c == c[..n] + [c[n]] && d == d[..n] + [d[n]];
      assert d[n] !in c[..n] && c[n] !in d[..n];
      if c[n] != d[n] {
        LastBeats(isBid, ticks, c, d[n]);
        LastBeats(isBid, ticks, d, c[n]);
      }
    }
  }

  lemma LastBeats(isBid: bool, ticks: set<int>, c: seq<int>, t: int)
    requires BestPrefix(isBid, ticks, c) && c != [] && t in ticks && t !in c
    ensures Better(isBid, c[|c| - 1], t)
  {
  }

  lemma ShorterPrefix(isBid: bool, ticks: set<int>, c: seq<int>)
    requires BestPrefix(isBid, ticks, c) && c != []
    ensures BestPrefix(isBid, ticks, c[..|c| - 1])
  {
    var n := |c| - 1;
    assert c == c[..n] + [c[n]];
    forall i, t | 0 <= i < n && t in ticks && t !in c[..n]
      ensures Better(isBid, c[..n][i], t)
    {
      if t != c[n] { assert t !in c; }
    }
  }

  lemma NoneListed(isBid: bool, ticks: set<int>)
    ensures BestPrefix(isBid, ticks, [])
  {
  }

  lemma PrefixLength(isBid: bool, ticks: set<int>, c: seq<int>)
    requires BestPrefix(isBid, ticks, c)
    ensures |c| <= |ticks|
    ensures (forall t :: t in ticks ==> t in c) ==> |c| == |ticks|
  {
    DistinctCount(c);
    var listed := set t | t in c;
    CardinalityMonotone(listed, ticks);
    if forall t :: t in ticks ==> t in c {
      CardinalityMonotone(ticks, listed);
    }
  }

  /** Best first by tick is best first by stored price, even for prices that are not tick multiples. */
  lemma PricesInOrder(isBid: bool, m: Levels, tickSize: int, c: seq<int>, i: int, j: int)
    requires tickSize > 0 && Sound(m, tickSize) && BestPrefix(isBid, m.Keys, c) && 0 <= i < j < |c|
    ensures Better(isBid, m[c[i]].price, m[c[j]].price)
  {
    if isBid {
      TicksOrderPrices(m[c[j]].price, m[c[i]].price, tickSize);
    } else {
      TicksOrderPrices(m[c[i]].price, m[c[j]].price, tickSize);
    }
  }

  // ----- walking one 64-bit word of a block

  ghost predicate WordTicks(ticks: set<int>, start: int, w: nat)
  {
    && w < Pow2(64)
    && (forall i :: 0 <= i < 64 ==> (Bit(w, i) <==> start + i in ticks))
  }

  ghost predicate BitsUnder(w: nat, remaining: nat, hi: nat)
  {
    forall i: nat :: Bit(remaining, i) <==> Bit(w, i) && i < hi
  }

  ghost predicate BitsFrom(w: nat, remaining: nat, lo: nat)
  {
    forall i: nat :: Bit(remaining, i) <==> Bit(w, i) && i >= lo
  }

  lemma WholeWord(w: nat, remaining: nat)
    requires w == remaining < Pow2(64)
    ensures BitsUnder(w, remaining, 64) && BitsFrom(w, remaining, 0)
  {
    forall i: nat
      ensures Bit(w, i) ==> i < 64
    {
      if Bit(w, i) { BitsBelow(w, 64, i); }
    }
  }

  /** One step of the descending walk lists the highest tick left and moves the frontier to it. */
  lemma DownStep(ticks: set<int>, start: int, w: nat, remaining: nat, hi: nat, c: seq<int>)
    requires WordTicks(ticks, start, w) && BitsUnder(w, remaining, hi) && hi <= 64 && remaining != 0
    requires Front(true, ticks, c, start + hi)
    ensures var b := HighestBit(remaining);
            && b < hi && start + b in ticks
            && BitsUnder(w, AndNot(remaining, Pow2(b)), b)
            && Front(true, ticks, c + [start + b], start + b)
  {
    var b := HighestBit(remaining);
    HighestBitIsTop(remaining, b);
    forall i: nat
      ensures Bit(AndNot(remaining, Pow2(b)), i) <==> Bit(w, i) && i < b
    {
      AndNotBit(remaining, Pow2(b), i);
      PowerBit(b, i);
      HighestBitIsTop(remaining, i);
    }
    forall u | start + b < u < start + hi
      ensures u !in ticks
    {
      HighestBitIsTop(remaining, u - start);
      assert start + (u - start) == u;
    }
    Emit(true, ticks, c, start + hi, start + b, start + b);
  }

  lemma DownEnd(ticks: set<int>, start: int, w: nat, hi: nat, c: seq<int>)
    requires WordTicks(ticks, start, w) && BitsUnder(w, 0, hi) && hi <= 64
    requires Front(true, ticks, c, start + hi)
    ensures Front(true, ticks, c, start)
  {
    forall u | start <= u < start + hi
      ensures u !in ticks
    {
      assert start + (u - start) == u;
      ZeroHasNoBits(u - start);
    }
    Skip(true, ticks, c, start + hi, start);
  }

  /** One step of the ascending walk: remaining & (remaining - 1) drops exactly the tick listed. */
  lemma UpStep(ticks: set<int>, start: int, w: nat, remaining: nat, lo: nat, c: seq<int>)
    requires WordTicks(ticks, start, w) && BitsFrom(w, remaining, lo) && remaining != 0
    requires Front(false, ticks, c, start + lo)
    ensures var b := TrailingZeros(remaining);
            && lo <= b < 64 && start + b in ticks
            && BitsFrom(w, And(remaining, remaining - 1), b + 1)
            && Front(false, ticks, c + [start + b], start + b + 1)
  {
    var b := TrailingZeros(remaining);
    LowestBit(remaining, b);
    BitsBelow(w, 64, b);
    forall i: nat
      ensures Bit(And(remaining, remaining - 1), i) <==> Bit(w, i) && i >= b + 1
    {
      LowestBit(remaining, i);
    }
    forall u | start + lo <= u < start + b
      ensures u !in ticks
    {
      LowestBit(remaining, u - start);
      assert start + (u - start) == u;
    }
    Emit(false, ticks, c, start + lo, start + b, start + b + 1);
  }

  lemma UpEnd(ticks: set<int>, start: int, w: nat, lo: nat, c: seq<int>)
    requires WordTicks(ticks, start, w) && BitsFrom(w, 0, lo) && lo <= 64
    requires Front(false, ticks, c, start + lo)
    ensures Front(false, ticks, c, start + 64)
  {
    forall u | start + lo <= u < start + 64
      ensures u !in ticks
    {
      assert start + (u - start) == u;
      ZeroHasNoBits(u - start);
    }
    Skip(false, ticks, c, start + lo, start + 64);
  }

  // ----- moving from block to block

  ghost predicate NoneBetween(ids: set<int>, x: int, y: int)
  {
    forall id :: id in ids ==> (id < x <==> id < y)
  }

  lemma SkipBlocks(isBid: bool, ticks: set<int>, c: seq<int>, x: int, y: int)
    requires Front(isBid, ticks, c, TickAt(x, 0)) && NoneBetween(BlocksOf(ticks), x, y)
    ensures Front(isBid, ticks, c, TickAt(y, 0))
  {
    forall t | t in ticks
      ensures Passed(isBid, TickAt(y, 0), t) <==> Passed(isBid, TickAt(x, 0), t)
    {
      TickParts(t);
      assert BlockOf(t) in BlocksOf(ticks);
    }
    Skip(isBid, ticks, c, TickAt(x, 0), TickAt(y, 0));
  }

  lemma NothingPassed(isBid: bool, ticks: set<int>, x: int)
    requires forall id :: id in BlocksOf(ticks) ==> if isBid then id < x else id >= x
    ensures Front(isBid, ticks, [], TickAt(x, 0))
  {
    forall t | t in ticks
      ensures !Passed(isBid, TickAt(x, 0), t)
    {
      TickParts(t);
      assert BlockOf(t) in BlocksOf(ticks);
    }
  }

  lemma EverythingPassed(isBid: bool, ticks: set<int>, c: seq<int>, x: int)
    requires Front(isBid, ticks, c, TickAt(x, 0))
    requires forall id :: id in BlocksOf(ticks) ==> if isBid then id >= x else id < x
    ensures BestPrefix(isBid, ticks, c) && |c| == |ticks|
  {
    FrontIsBestPrefix(isBid, ticks, c, TickAt(x, 0));
    forall t | t in ticks
      ensures t in c
    {
      TickParts(t);
      assert BlockOf(t) in BlocksOf(ticks);
    }
    PrefixLength(isBid, ticks, c);
  }
}
