/** What one side of the order book means: a finite map from tick to the price and volume last
    set there. The bitmap structure in SortedBook.dfy is proved against this map. */
module BookSide {
  import opened Arithmetic
  import opened Collections

  datatype Entry = Entry(price: int, volume: int)

  type Levels = map<int, Entry>

  const MAX_LEVELS := 8192
  const MAX_BLOCKS := 1024

  // C++ integer division rounds toward zero
  function TruncDiv(a: int, b: int): int
    requires b > 0
  {
    if a >= 0 then a / b else -((-a) / b)
  }

  function ToTick(price: int, tickSize: int): int
    requires tickSize > 0
  {
    TruncDiv(price + tickSize / 2, tickSize)
  }

  // tick >> 7 and tick & 127 of a two's complement tick
  function BlockOf(tick: int): int { tick / 128 }
  function OffsetOf(tick: int): int { tick % 128 }
  function TickAt(blockId: int, offset: int): int { blockId * 128 + offset }

  ghost function BlocksOf(ticks: set<int>): set<int>
  {
    set t | t in ticks :: BlockOf(t)
  }

  // A new level is refused when every slot is taken, or when it would open a block and every
  // block is taken. Existing levels and removals are never refused.
  ghost predicate Refused(m: Levels, tick: int, volume: int)
  {
    && volume != 0
    && tick !in m
    && (|m| == MAX_LEVELS || (BlockOf(tick) !in BlocksOf(m.Keys) && |BlocksOf(m.Keys)| == MAX_BLOCKS))
  }

  ghost function Updated(m: Levels, tick: int, e: Entry): Levels
  {
    if Refused(m, tick, e.volume) then m
    else if e.volume == 0 then m - {tick}
    else m[tick := e]
  }

  function VolumeAt(m: Levels, tick: int): int
  {
    if tick in m then m[tick].volume else 0
  }

  // ----- facts about ticks

  lemma TickParts(tick: int)
    ensures TickAt(BlockOf(tick), OffsetOf(tick)) == tick
    ensures 0 <= OffsetOf(tick) < 128
  {
  }

  lemma TickOfParts(blockId: int, offset: int)
    requires 0 <= offset < 128
    ensures BlockOf(TickAt(blockId, offset)) == blockId
    ensures OffsetOf(TickAt(blockId, offset)) == offset
  {
  }

  function Abs(x: int): int
  {
    if x < 0 then -x else x
  }

  lemma FloorOfNegative(a: int, d: int)
    requires d > 0 && a < 0
    ensures -((-a) / d) == if a % d == 0 then a / d else a / d + 1
  {
    SameRemainder(a, d);
    var q, r := a / d, a % d;
    if r == 0 {
      assert -a == (-q) * d;
      assert (-q + 1) * d == (-q) * d + d;
      DivideBetween(-a, d, -q);
    } else {
      assert -a == (-q - 1) * d + (d - r);
      assert (-q - 1 + 1) * d == (-q - 1) * d + d;
      DivideBetween(-a, d, -q - 1);
    }
  }

  /** The tick, by its defining bounds: the quotient of price + tickSize / 2, cut toward zero. */
  lemma TickBounds(price: int, tickSize: int)
    requires tickSize > 0
    ensures var t, s := ToTick(price, tickSize), price + tickSize / 2;
            if s >= 0 then t * tickSize <= s < (t + 1) * tickSize else (t - 1) * tickSize < s <= t * tickSize
  {
    var t, s := ToTick(price, tickSize), price + tickSize / 2;
    SameRemainder(if s >= 0 then s else -s, tickSize);
    assert (t + 1) * tickSize == t * tickSize + tickSize && (t - 1) * tickSize == t * tickSize - tickSize;
    assert (-t) * tickSize == -(t * tickSize);
  }

  /** Off-tick prices round to the nearest tick exactly when the division's operand is not
      negative or divides evenly; every price an exchange sends is on the good side. */
  lemma RoundsToNearestIff(price: int, tickSize: int)
    requires tickSize > 0
    ensures 2 * Abs(ToTick(price, tickSize) * tickSize - price) <= tickSize <==>
            price + tickSize / 2 >= 0 || (price + tickSize / 2) % tickSize == 0
  {
    var s := price + tickSize / 2;
    SameRemainder(s, tickSize);
    if s < 0 {
      FloorOfNegative(s, tickSize);
      assert (s / tickSize + 1) * tickSize == (s / tickSize) * tickSize + tickSize;
    }
  }

  // A negative price that misses its nearest tick: -6 with ticks of 10 goes to 0, not to -10
  lemma NegativeMisround()
    ensures ToTick(-6, 10) == 0 && Abs(0 - (-6)) > Abs(-10 - (-6))
  {
  }

  lemma MultiplesAreExact(n: int, tickSize: int)
    requires tickSize > 0 && n >= 0
    ensures ToTick(n * tickSize, tickSize) == n
  {
    MulMonotone(0, n, tickSize);
    assert (n + 1) * tickSize == n * tickSize + tickSize;
    DivideBetween(n * tickSize + tickSize / 2, tickSize, n);
  }

  /** A better tick means a better stored price, even for prices that are not tick multiples. */
  lemma TicksOrderPrices(p: int, q: int, tickSize: int)
    requires tickSize > 0
    requires ToTick(p, tickSize) < ToTick(q, tickSize)
    ensures p < q
  {
    if q <= p {
      TruncDivMonotone(q + tickSize / 2, p + tickSize / 2, tickSize);
    }
  }

  lemma TruncDivMonotone(a: int, b: int, d: int)
    requires d > 0 && a <= b
    ensures TruncDiv(a, d) <= TruncDiv(b, d)
  {
    if a >= 0 {
      FloorMonotone(a, b, d);
    } else if b < 0 {
      FloorMonotone(-b, -a, d);
    } else {
      FloorMonotone(0, -a, d);
      FloorMonotone(0, b, d);
      DivideBetween(0, d, 0);
    }
  }

  // ----- facts about the block count

  lemma BlocksAfterInsert(ticks: set<int>, tick: int)
    ensures BlocksOf(ticks + {tick}) == BlocksOf(ticks) + {BlockOf(tick)}
  {
  }

  lemma {:induction false} FewerBlocksThanTicks(ticks: set<int>)
    ensures |BlocksOf(ticks)| <= |ticks|
  {
    if t: int :| t in ticks {
      FewerBlocksThanTicks(ticks - {t});
      BlocksAfterInsert(ticks - {t}, t);
      assert ticks - {t} + {t} == ticks;
    } else {
      assert BlocksOf(ticks) == {};
    }
  }

  // No more than a side can hold
  ghost predicate WithinLimits(m: Levels)
  {
    |m| <= 8192 && |set t | t in m :: t / 128| <= 1024
  }

  /** What an update does to a side within its limits, in numbers: 8192 levels, and 1024 blocks of
      128 ticks. Only a level the side does not have can be refused. */
  lemma UpdateCases(m: Levels, tick: int, e: Entry)
    requires WithinLimits(m)
    ensures e.volume == 0 ==> !Refused(m, tick, e.volume) && Updated(m, tick, e) == m - {tick}
    ensures e.volume != 0 && tick in m ==> !Refused(m, tick, e.volume) && Updated(m, tick, e) == m[tick := e]
    ensures e.volume != 0 && tick !in m ==>
              var blocks := set t | t in m :: t / 128;
              var room := |m| < 8192 && (tick / 128 in blocks || |blocks| < 1024);
              && (Refused(m, tick, e.volume) <==> !room)
              && Updated(m, tick, e) == if room then m[tick := e] else m
  {
    assert BlocksOf(m.Keys) == set t | t in m :: t / 128;
  }

  /** The same of a step of a run, and whether it is accepted. */
  lemma StepCases(m: Levels, price: int, volume: int, tickSize: int)
    requires tickSize > 0 && WithinLimits(m)
    ensures Step(m, Clear, tickSize) == map[] && Accepts(m, Clear, tickSize)
    ensures var op, t, e := Update(price, volume), ToTick(price, tickSize), Entry(price, volume);
            && (volume == 0 ==> Accepts(m, op, tickSize) && Step(m, op, tickSize) == m - {t})
            && (volume != 0 && t in m ==> Accepts(m, op, tickSize) && Step(m, op, tickSize) == m[t := e])
            && (volume != 0 && t !in m ==>
                  var blocks := set u | u in m :: u / 128;
                  var room := |m| < 8192 && (t / 128 in blocks || |blocks| < 1024);
                  && (Accepts(m, op, tickSize) <==> room)
                  && Step(m, op, tickSize) == if room then m[t := e] else m)
  {
    hide Refused;
    hide Updated;
    hide ToTick;
    UpdateCases(m, ToTick(price, tickSize), Entry(price, volume));
  }

  // ----- what every update keeps

  /** Stored prices round to the tick they are filed under, and no stored volume is zero. */
  ghost predicate Sound(m: Levels, tickSize: int)
    requires tickSize > 0
  {
    forall t :: t in m ==> ToTick(m[t].price, tickSize) == t && m[t].volume != 0
  }

  lemma EmptySound(tickSize: int)
    requires tickSize > 0
    ensures Sound(map[], tickSize)
  {
  }

  lemma UpdatedSound(m: Levels, price: int, volume: int, tickSize: int)
    requires tickSize > 0 && Sound(m, tickSize)
    ensures Sound(Updated(m, ToTick(price, tickSize), Entry(price, volume)), tickSize)
  {
  }

  // ----- whole runs of updates

  datatype Op = Clear | Update(price: int, volume: int)

  ghost function Step(m: Levels, op: Op, tickSize: int): Levels
    requires tickSize > 0
  {
    match op
    case Clear => map[]
    case Update(price, volume) => Updated(m, ToTick(price, tickSize), Entry(price, volume))
  }

  ghost function After(m: Levels, ops: seq<Op>, tickSize: int): Levels
    requires tickSize > 0
  {
    if ops == [] then m else Step(After(m, ops[..|ops| - 1], tickSize), ops[|ops| - 1], tickSize)
  }

  lemma NoUpdates(m: Levels, tickSize: int)
    requires tickSize > 0
    ensures After(m, [], tickSize) == m
  {
  }

  lemma AfterNext(m: Levels, ops: seq<Op>, k: nat, tickSize: int)
    requires tickSize > 0 && k < |ops|
    ensures After(m, ops[..k + 1], tickSize) == Step(After(m, ops[..k], tickSize), ops[k], tickSize)
  {
    assert ops[..k + 1][..k] == ops[..k];
  }

  ghost predicate Accepts(m: Levels, op: Op, tickSize: int)
    requires tickSize > 0
  {
    op.Update? ==> !Refused(m, ToTick(op.price, tickSize), op.volume)
  }

  lemma RefusedStep(m: Levels, op: Op, tickSize: int)
    requires tickSize > 0 && !Accepts(m, op, tickSize)
    ensures Step(m, op, tickSize) == m
  {
  }

  /** Every run keeps the prices filed under their ticks. */
  lemma {:induction false} RunSound(m: Levels, ops: seq<Op>, tickSize: int)
    requires tickSize > 0 && Sound(m, tickSize)
    ensures Sound(After(m, ops, tickSize), tickSize)
  {
    if ops != [] {
      RunSound(m, ops[..|ops| - 1], tickSize);
      var op := ops[|ops| - 1];
      if op.Update? { UpdatedSound(After(m, ops[..|ops| - 1], tickSize), op.price, op.volume, tickSize); }
    }
  }

  lemma FewerWithinLimits(m: Levels, tick: int)
    requires WithinLimits(m)
    ensures WithinLimits(m - {tick})
  {
    var m' := m - {tick};
    CardinalityMonotone(m'.Keys, m.Keys);
    var blocks, blocks' := set t | t in m :: t / 128, set t | t in m' :: t / 128;
    assert blocks' <= blocks;
    CardinalityMonotone(blocks', blocks);
    assert |m'| == |m'.Keys| && |m| == |m.Keys|;
  }

  lemma MoreWithinLimits(m: Levels, tick: int, e: Entry)
    requires WithinLimits(m)
    requires var blocks := set t | t in m :: t / 128;
             tick in m || (|m| < 8192 && (tick / 128 in blocks || |blocks| < 1024))
    ensures WithinLimits(m[tick := e])
  {
    var m' := m[tick := e];
    assert m'.Keys == m.Keys + {tick};
    var blocks, blocks' := set t | t in m :: t / 128, set t | t in m' :: t / 128;
    assert blocks' == blocks + {tick / 128};
    assert |m'| == |m'.Keys| && |m| == |m.Keys|;
  }

  lemma UpdateWithinLimits(m: Levels, tick: int, e: Entry)
    requires WithinLimits(m)
    ensures WithinLimits(Updated(m, tick, e))
  {
    hide WithinLimits;
    hide Updated;
    hide Refused;
    UpdateCases(m, tick, e);
    if e.volume == 0 {
      FewerWithinLimits(m, tick);
    } else if Updated(m, tick, e) != m {
      MoreWithinLimits(m, tick, e);
    }
  }

  /** No run takes a side beyond its limits, so StepCases applies at every step of one. */
  lemma {:induction false} RunWithinLimits(m: Levels, ops: seq<Op>, tickSize: int)
    requires tickSize > 0 && WithinLimits(m)
    ensures WithinLimits(After(m, ops, tickSize))
  {
    hide WithinLimits;
    hide Updated;
    if ops == [] { return; }
    RunWithinLimits(m, ops[..|ops| - 1], tickSize);
    var op, before := ops[|ops| - 1], After(m, ops[..|ops| - 1], tickSize);
    match op {
      case Clear => NothingWithinLimits();
      case Update(price, volume) => UpdateWithinLimits(before, ToTick(price, tickSize), Entry(price, volume));
    }
  }

  lemma NothingWithinLimits()
    ensures WithinLimits(map[])
  {
    var none: Levels := map[];
    assert (set t | t in none :: t / 128) == {};
  }

  lemma UpdatedGrowth(m: Levels, tick: int, e: Entry)
    ensures |Updated(m, tick, e)| <= |m| + 1
  {
    if e.volume == 0 {
      assert (m - {tick}).Keys <= m.Keys;
      CardinalityMonotone((m - {tick}).Keys, m.Keys);
    }
  }

  lemma {:induction false} RunGrowth(ops: seq<Op>, tickSize: int)
    requires tickSize > 0
    ensures |After(map[], ops, tickSize)| <= |ops|
  {
    if ops != [] {
      RunGrowth(ops[..|ops| - 1], tickSize);
      var op := ops[|ops| - 1];
      if op.Update? {
        UpdatedGrowth(After(map[], ops[..|ops| - 1], tickSize), ToTick(op.price, tickSize), Entry(op.price, op.volume));
      }
    }
  }

  /** A snapshot of at most 1000 levels, applied to a cleared side, is never refused anywhere. */
  lemma SnapshotNeverRefused(ops: seq<Op>, tickSize: int, k: nat)
    requires tickSize > 0 && |ops| <= 1000 && k < |ops|
    ensures Accepts(After(map[], ops[..k], tickSize), ops[k], tickSize)
  {
    RunGrowth(ops[..k], tickSize);
    FewerBlocksThanTicks(After(map[], ops[..k], tickSize).Keys);
  }
}
