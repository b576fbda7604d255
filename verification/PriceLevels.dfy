/** A block of a side: a finite map from offsets to entry slots, held as a bitmap of two words and an
    array of slots. Marks relates the two views; setting and resetting a bit adds or removes a key. */
module PriceLevels {
  import opened Words

  const TICKS := 128

  // A block lives by value in the book's block array; `bits` are its two 64-bit words.
  datatype PriceLevel = PriceLevel(bits: seq<nat>, slots: seq<int>, blockId: int)
  {
    ghost predicate WellFormed()
    {
      |bits| == 2 && bits[0] < Pow2(64) && bits[1] < Pow2(64) && |slots| == TICKS
    }

    predicate Test(offset: int)
      requires |bits| == 2 && 0 <= offset < TICKS
    {
      Bit(bits[offset / 64], offset % 64)
    }

    function Set(offset: int): PriceLevel
      requires |bits| == 2 && 0 <= offset < TICKS
    {
      this.(bits := bits[offset / 64 := Or(bits[offset / 64], Pow2(offset % 64))])
    }

    function Reset(offset: int): PriceLevel
      requires |bits| == 2 && 0 <= offset < TICKS
    {
      this.(bits := bits[offset / 64 := AndNot(bits[offset / 64], Pow2(offset % 64))])
    }

    predicate Empty()
      requires |bits| == 2
    {
      Or(bits[0], bits[1]) == 0
    }
  }

  // What a block records: offset to slot, for the offsets whose bit is set
  ghost predicate Marks(level: PriceLevel, m: map<int, int>)
  {
    && level.WellFormed()
    && (forall o :: o in m ==> 0 <= o < TICKS)
    && (forall o :: 0 <= o < TICKS ==> (o in m <==> level.Test(o)))
    && (forall o :: o in m ==> m[o] == level.slots[o])
  }

  lemma SetTests(level: PriceLevel, o: int, p: int)
    requires level.WellFormed() && 0 <= o < TICKS && 0 <= p < TICKS
    ensures level.Set(o).WellFormed()
    ensures level.Set(o).Test(p) <==> p == o || level.Test(p)
  {
    var w := level.bits[o / 64];
    OrBit(w, Pow2(o % 64), p % 64);
    PowerBit(o % 64, p % 64);
    PowerFits(o % 64, 64);
    OrFits(w, Pow2(o % 64), 64);
  }

  lemma ResetTests(level: PriceLevel, o: int, p: int)
    requires level.WellFormed() && 0 <= o < TICKS && 0 <= p < TICKS
    ensures level.Reset(o).WellFormed()
    ensures level.Reset(o).Test(p) <==> p != o && level.Test(p)
  {
    var w := level.bits[o / 64];
    AndNotBit(w, Pow2(o % 64), p % 64);
    PowerBit(o % 64, p % 64);
    AndNotShrinks(w, Pow2(o % 64));
  }

  /** Writing a slot number and setting its bit adds exactly that mark. */
  lemma SetMarks(level: PriceLevel, m: map<int, int>, o: int, slot: int)
    requires Marks(level, m) && 0 <= o < TICKS
    ensures Marks(level.(slots := level.slots[o := slot]).Set(o), m[o := slot])
  {
    var written := level.(slots := level.slots[o := slot]);
    SetTests(written, o, o);
    forall p | 0 <= p < TICKS
      ensures written.Set(o).Test(p) <==> p in m[o := slot]
    {
      SetTests(written, o, p);
    }
  }

  lemma ResetMarks(level: PriceLevel, m: map<int, int>, o: int)
    requires Marks(level, m) && 0 <= o < TICKS
    ensures Marks(level.Reset(o), m - {o})
  {
    ResetTests(level, o, o);
    forall p | 0 <= p < TICKS
      ensures level.Reset(o).Test(p) <==> p in m - {o}
    {
      ResetTests(level, o, p);
    }
  }

  // Marks do not depend on which block id the block stands for
  lemma RenamedMarks(level: PriceLevel, m: map<int, int>, id: int)
    requires Marks(level, m)
    ensures Marks(level.(blockId := id), m)
  {
    var renamed := level.(blockId := id);
    assert forall o :: 0 <= o < TICKS ==> renamed.Test(o) == level.Test(o);
  }

  lemma EmptyMarks(level: PriceLevel, m: map<int, int>)
    requires Marks(level, m)
    ensures level.Empty() <==> m == map[]
  {
    if level.Empty() {
      forall o | o in m
        ensures false
      {
        OrBit(level.bits[0], level.bits[1], o % 64);
        ZeroHasNoBits(o % 64);
      }
      assert m == map[];
    } else {
      var word := if level.bits[0] != 0 then 0 else 1;
      var k := TopOffset(level, word);
      assert k in m;
    }
  }

  lemma TopOffset(level: PriceLevel, word: int) returns (o: int)
    requires level.WellFormed() && 0 <= word <= 1 && level.bits[word] != 0
    ensures 0 <= o < TICKS && level.Test(o)
  {
    var w := level.bits[word];
    var k := HighestBit(w);
    HighestBitIsTop(w, k);
    BitsBelow(w, 64, k);
    o := word * 64 + k;
  }

  lemma ClearedMarks(level: PriceLevel)
    requires level.WellFormed()
    ensures Marks(level.(bits := [0, 0]), map[])
  {
    var cleared := level.(bits := [0, 0]);
    forall o | 0 <= o < TICKS
      ensures !cleared.Test(o)
    {
      ZeroHasNoBits(o % 64);
    }
  }
}
