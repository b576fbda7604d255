/** The relations that tie one book side's storage to the map of levels it stands for, and how
    each kind of step keeps them. Three ghost indexes link the two:
      slotOf - tick to the entry slot that holds its level,
      dir    - block id to the position of the block placed for it,
      keys   - the block ids of the overflow vector, in its order. */
module BookIndex {
  import opened BookSide
  import opened Collections
  import opened PriceLevels
  import opened Words

  // ----- entry slots

  /** Every level has an entry slot of its own, and the slots not on the free stack are exactly
      as many as the levels. */
  ghost predicate SlotIndex(levels: Levels, slotOf: map<int, int>, entries: seq<Entry>, free: seq<int>)
  {
    && slotOf.Keys == levels.Keys
    && (forall t :: t in slotOf ==> 0 <= slotOf[t] < |entries| && entries[slotOf[t]] == levels[t])
    && Injective(slotOf)
    && (forall s :: s in free ==> 0 <= s < |entries|)
    && Distinct(free)
    && (forall t :: t in slotOf ==> slotOf[t] !in free)
    && |slotOf| + |free| == |entries|
  }

  lemma TakeSlot(levels: Levels, slotOf: map<int, int>, entries: seq<Entry>, free: seq<int>, tick: int, e: Entry)
    requires SlotIndex(levels, slotOf, entries, free) && tick !in levels && |free| > 0
    ensures 0 <= free[|free| - 1] < |entries|
    ensures var s := free[|free| - 1];
            SlotIndex(levels[tick := e], slotOf[tick := s], entries[s := e], free[..|free| - 1])
  {
    var s, rest := free[|free| - 1], free[..|free| - 1];
    assert s in free;
    assert forall f :: f in rest ==> f in free;
    assert s !in rest;
  }

  lemma SameTicks(levels: Levels, slotOf: map<int, int>, entries: seq<Entry>, free: seq<int>)
    requires SlotIndex(levels, slotOf, entries, free)
    ensures slotOf.Keys == levels.Keys && |slotOf| + |free| == |entries|
  {
  }

  lemma OverwriteSlot(levels: Levels, slotOf: map<int, int>, entries: seq<Entry>, free: seq<int>, tick: int, e: Entry)
    requires SlotIndex(levels, slotOf, entries, free) && tick in levels
    ensures tick in slotOf && 0 <= slotOf[tick] < |entries|
    ensures SlotIndex(levels[tick := e], slotOf, entries[slotOf[tick] := e], free)
  {
  }

  lemma GiveSlotBack(levels: Levels, slotOf: map<int, int>, entries: seq<Entry>, free: seq<int>, tick: int)
    requires SlotIndex(levels, slotOf, entries, free) && tick in levels
    ensures tick in slotOf
    ensures SlotIndex(levels - {tick}, slotOf - {tick}, entries, free + [slotOf[tick]])
  {
    RemoveKeyCount(slotOf, tick);
  }

  // ----- block storage

  ghost function BlockMarks(slotOf: map<int, int>, id: int): map<int, int>
  {
    map o | 0 <= o < TICKS && TickAt(id, o) in slotOf :: slotOf[TickAt(id, o)]
  }

  ghost predicate Holds(slotOf: map<int, int>, dir: map<int, int>, blocks: seq<PriceLevel>, id: int)
    requires id in dir
  {
    && 0 <= dir[id] < |blocks|
    && blocks[dir[id]].blockId == id
    && Marks(blocks[dir[id]], BlockMarks(slotOf, id))
  }

  ghost predicate FreeBlock(dir: map<int, int>, blocks: seq<PriceLevel>, b: int)
  {
    && 0 <= b < |blocks|
    && Marks(blocks[b], map[])
    && (forall id :: id in dir ==> dir[id] != b)
  }

  /** Every level's tick is marked in the block placed for its id and nowhere else; blocks on the
      free stack are unmarked and unplaced; no block is lost. */
  ghost predicate BlockStore(slotOf: map<int, int>, dir: map<int, int>, blocks: seq<PriceLevel>, free: seq<int>)
  {
    && (forall id :: id in dir ==> Holds(slotOf, dir, blocks, id))
    && (forall t :: t in slotOf ==> BlockOf(t) in dir)
    && (forall b :: b in free ==> FreeBlock(dir, blocks, b))
    && Distinct(free)
    && |dir| + |free| == |blocks|
  }

  lemma MarkOfTick(slotOf: map<int, int>, tick: int)
    ensures OffsetOf(tick) in BlockMarks(slotOf, BlockOf(tick)) <==> tick in slotOf
    ensures tick in slotOf ==> BlockMarks(slotOf, BlockOf(tick))[OffsetOf(tick)] == slotOf[tick]
  {
    TickParts(tick);
  }

  // Testing a tick's bit in its block tells whether the side has a level there
  lemma TestOfTick(slotOf: map<int, int>, dir: map<int, int>, blocks: seq<PriceLevel>, free: seq<int>, tick: int)
    requires BlockStore(slotOf, dir, blocks, free) && BlockOf(tick) in dir
    ensures Holds(slotOf, dir, blocks, BlockOf(tick))
    ensures 0 <= dir[BlockOf(tick)] < |blocks| && blocks[dir[BlockOf(tick)]].blockId == BlockOf(tick)
    ensures var level := blocks[dir[BlockOf(tick)]];
            && level.WellFormed()
            && (level.Test(OffsetOf(tick)) <==> tick in slotOf)
            && (tick in slotOf ==> level.slots[OffsetOf(tick)] == slotOf[tick])
  {
    MarkOfTick(slotOf, tick);
  }

  lemma BitOfTick(slotOf: map<int, int>, dir: map<int, int>, blocks: seq<PriceLevel>, free: seq<int>,
                  id: int, word: int, i: nat)
    requires BlockStore(slotOf, dir, blocks, free) && id in dir && 0 <= word <= 1 && i < 64
    ensures 0 <= dir[id] < |blocks| && blocks[dir[id]].WellFormed()
    ensures Bit(blocks[dir[id]].bits[word], i) <==> TickAt(id, word * 64) + i in slotOf
  {
    hide BlockStore;
    hide Holds;
    var o := word * 64 + i;
    TickOfParts(id, o);
    TestOfTick(slotOf, dir, blocks, free, TickAt(id, o));
  }

  // After the last level of a block goes, its marks are empty, and otherwise they are not
  lemma BlocksAfterRemove(slotOf: map<int, int>, ticks: set<int>, tick: int)
    requires slotOf.Keys == ticks - {tick} && tick in ticks
    ensures BlocksOf(ticks - {tick}) ==
            if BlockMarks(slotOf, BlockOf(tick)) == map[] then BlocksOf(ticks) - {BlockOf(tick)} else BlocksOf(ticks)
  {
    forall t | t in slotOf
      ensures OffsetOf(t) in BlockMarks(slotOf, BlockOf(t))
    {
      MarkOfTick(slotOf, t);
    }
    if BlockMarks(slotOf, BlockOf(tick)) != map[] {
      var o := MarkedOffset(slotOf, BlockOf(tick));
      TickOfParts(BlockOf(tick), o);
      assert TickAt(BlockOf(tick), o) in ticks - {tick};
    }
  }

  lemma MarkedOffset(slotOf: map<int, int>, id: int) returns (o: int)
    requires BlockMarks(slotOf, id) != map[]
    ensures 0 <= o < TICKS && TickAt(id, o) in slotOf
  {
    o := Member(BlockMarks(slotOf, id).Keys);
  }

  lemma MarksAfterInsert(slotOf: map<int, int>, tick: int, slot: int, id: int)
    ensures BlockMarks(slotOf[tick := slot], id) ==
            if id == BlockOf(tick) then BlockMarks(slotOf, id)[OffsetOf(tick) := slot] else BlockMarks(slotOf, id)
  {
    TickParts(tick);
    forall o | 0 <= o < TICKS
      ensures TickAt(id, o) == tick <==> id == BlockOf(tick) && o == OffsetOf(tick)
    {
      TickOfParts(id, o);
    }
  }

  lemma MarksAfterRemove(slotOf: map<int, int>, tick: int, id: int)
    ensures BlockMarks(slotOf - {tick}, id) ==
            if id == BlockOf(tick) then BlockMarks(slotOf, id) - {OffsetOf(tick)} else BlockMarks(slotOf, id)
  {
    TickParts(tick);
    forall o | 0 <= o < TICKS
      ensures TickAt(id, o) == tick <==> id == BlockOf(tick) && o == OffsetOf(tick)
    {
      TickOfParts(id, o);
    }
  }

  // Rewriting the block placed for one id keeps the store, when the other ids' marks stay
  lemma RewriteBlock(slotOf: map<int, int>, slotOf': map<int, int>, dir: map<int, int>, blocks: seq<PriceLevel>,
                     free: seq<int>, id: int, level: PriceLevel)
    requires BlockStore(slotOf, dir, blocks, free) && id in dir && 0 <= dir[id] < |blocks|
    requires level.blockId == id && Marks(level, BlockMarks(slotOf', id))
    requires forall t :: t in slotOf' ==> BlockOf(t) in dir
    requires forall i :: i in dir && i != id ==> BlockMarks(slotOf', i) == BlockMarks(slotOf, i)
    ensures BlockStore(slotOf', dir, blocks[dir[id] := level], free)
  {
    var blocks' := blocks[dir[id] := level];
    assert Holds(slotOf, dir, blocks, id);
    forall i | i in dir
      ensures Holds(slotOf', dir, blocks', i)
    {
      assert Holds(slotOf, dir, blocks, i);
    }
    forall f | f in free
      ensures FreeBlock(dir, blocks', f)
    {
      assert FreeBlock(dir, blocks, f);
    }
  }

  lemma SetMark(slotOf: map<int, int>, dir: map<int, int>, blocks: seq<PriceLevel>, free: seq<int>, tick: int,
      slot: int)
    requires BlockStore(slotOf, dir, blocks, free) && BlockOf(tick) in dir && Holds(slotOf, dir, blocks, BlockOf(tick))
    ensures var b := dir[BlockOf(tick)];
            var o := OffsetOf(tick);
            BlockStore(slotOf[tick := slot], dir,
                       blocks[b := blocks[b].(slots := blocks[b].slots[o := slot]).Set(o)], free)
  {
    var id, o := BlockOf(tick), OffsetOf(tick);
    var level := blocks[dir[id]];
    SetMarks(level, BlockMarks(slotOf, id), o, slot);
    forall i
      ensures BlockMarks(slotOf[tick := slot], i) ==
              if i == id then BlockMarks(slotOf, i)[o := slot] else BlockMarks(slotOf, i)
    {
      MarksAfterInsert(slotOf, tick, slot, i);
    }
    RewriteBlock(slotOf, slotOf[tick := slot], dir, blocks, free, id, level.(slots := level.slots[o := slot]).Set(o));
  }

  lemma ResetMark(slotOf: map<int, int>, dir: map<int, int>, blocks: seq<PriceLevel>, free: seq<int>, tick: int)
    requires BlockStore(slotOf, dir, blocks, free) && BlockOf(tick) in dir && Holds(slotOf, dir, blocks, BlockOf(tick))
    ensures var b := dir[BlockOf(tick)];
            BlockStore(slotOf - {tick}, dir, blocks[b := blocks[b].Reset(OffsetOf(tick))], free)
  {
    var id, o := BlockOf(tick), OffsetOf(tick);
    ResetMarks(blocks[dir[id]], BlockMarks(slotOf, id), o);
    forall i
      ensures BlockMarks(slotOf - {tick}, i) ==
              if i == id then BlockMarks(slotOf, i) - {o} else BlockMarks(slotOf, i)
    {
      MarksAfterRemove(slotOf, tick, i);
    }
    RewriteBlock(slotOf, slotOf - {tick}, dir, blocks, free, id, blocks[dir[id]].Reset(o));
  }

  lemma UnplacedHasNoMarks(slotOf: map<int, int>, dir: map<int, int>, id: int)
    requires forall t :: t in slotOf ==> BlockOf(t) in dir
    requires id !in dir
    ensures BlockMarks(slotOf, id) == map[]
  {
    forall o | 0 <= o < TICKS
      ensures TickAt(id, o) !in slotOf
    {
      TickOfParts(id, o);
    }
  }

  // Reusing a free block disturbs no placed block and no other free one
  lemma OthersKept(slotOf: map<int, int>, dir: map<int, int>, blocks: seq<PriceLevel>, id: int, b: int,
      level: PriceLevel)
    requires id !in dir && FreeBlock(dir, blocks, b)
    ensures forall i :: i in dir && Holds(slotOf, dir, blocks, i) ==> Holds(slotOf, dir[id := b], blocks[b := level], i)
    ensures forall f :: f != b && FreeBlock(dir, blocks, f) ==> FreeBlock(dir[id := b], blocks[b := level], f)
  {
    hide Marks;
    hide BlockMarks;
  }

  lemma BlockTaken(slotOf: map<int, int>, dir: map<int, int>, blocks: seq<PriceLevel>, b: int, id: int)
    requires FreeBlock(dir, blocks, b) && BlockMarks(slotOf, id) == map[]
    ensures Holds(slotOf, dir[id := b], blocks[b := blocks[b].(blockId := id)], id)
  {
    hide Marks;
    hide BlockMarks;
    RenamedMarks(blocks[b], map[], id);
  }

  lemma TakeBlock(slotOf: map<int, int>, dir: map<int, int>, blocks: seq<PriceLevel>, free: seq<int>, id: int)
    requires BlockStore(slotOf, dir, blocks, free) && id !in dir && |free| > 0
    ensures 0 <= free[|free| - 1] < |blocks|
    ensures var b := free[|free| - 1];
            BlockStore(slotOf, dir[id := b], blocks[b := blocks[b].(blockId := id)], free[..|free| - 1])
  {
    var b, rest := free[|free| - 1], free[..|free| - 1];
    assert b in free && FreeBlock(dir, blocks, b);
    assert forall f :: f in rest ==> f in free && f != b;
    UnplacedHasNoMarks(slotOf, dir, id);
    var level := blocks[b].(blockId := id);
    BlockTaken(slotOf, dir, blocks, b, id);
    OthersKept(slotOf, dir, blocks, id, b, level);
    hide Holds;
    hide FreeBlock;
    hide BlockMarks;
  }

  lemma GiveBlockBack(slotOf: map<int, int>, dir: map<int, int>, blocks: seq<PriceLevel>, free: seq<int>, id: int)
    requires BlockStore(slotOf, dir, blocks, free) && id in dir
    requires BlockMarks(slotOf, id) == map[]
    ensures BlockStore(slotOf, dir - {id}, blocks, free + [dir[id]])
  {
    var dir', b := dir - {id}, dir[id];
    assert Holds(slotOf, dir, blocks, id);
    forall i | i in dir'
      ensures Holds(slotOf, dir', blocks, i) && dir'[i] != b
    {
      assert Holds(slotOf, dir, blocks, i);
    }
    forall t | t in slotOf
      ensures BlockOf(t) in dir'
    {
      MarkOfTick(slotOf, t);
    }
    forall f | f in free
      ensures FreeBlock(dir', blocks, f) && f != b
    {
      assert FreeBlock(dir, blocks, f);
    }
    assert FreeBlock(dir', blocks, b);
    RemoveKeyCount(dir, id);
  }

  lemma EmptyBlock(slotOf: map<int, int>, dir: map<int, int>, blocks: seq<PriceLevel>, free: seq<int>, id: int)
    requires BlockStore(slotOf, dir, blocks, free) && id in dir
    ensures Holds(slotOf, dir, blocks, id)
    ensures blocks[dir[id]].WellFormed()
    ensures blocks[dir[id]].Empty() <==> BlockMarks(slotOf, id) == map[]
  {
    EmptyMarks(blocks[dir[id]], BlockMarks(slotOf, id));
  }

  lemma RoomForSlot(levels: Levels, slotOf: map<int, int>, entries: seq<Entry>, free: seq<int>, tick: int)
    requires SlotIndex(levels, slotOf, entries, free) && tick in levels
    ensures |free| < |entries|
  {
    RemoveKeyCount(slotOf, tick);
  }

  lemma RoomToPush(slotOf: map<int, int>, dir: map<int, int>, blocks: seq<PriceLevel>, free: seq<int>, id: int)
    requires BlockStore(slotOf, dir, blocks, free) && id in dir
    ensures |free| < |blocks|
  {
    RemoveKeyCount(dir, id);
  }

  // ----- conservation: nothing is lost, nothing is used twice

  /** Of the entry slots, each is either on the free stack or named by exactly one level. */
  lemma SlotConservation(levels: Levels, slotOf: map<int, int>, entries: seq<Entry>, free: seq<int>, s: int)
    requires SlotIndex(levels, slotOf, entries, free) && 0 <= s < |entries|
    ensures s in free <==> forall t :: t in slotOf ==> slotOf[t] != s
    ensures s !in free ==>
              exists t :: t in slotOf && slotOf[t] == s && forall u :: u in slotOf && slotOf[u] == s ==> u == t
  {
    EverythingUsedOnce(slotOf, free, |entries|, s);
  }

  /** Of the blocks, each is either free or placed for exactly one block id, its own. */
  lemma BlockConservation(slotOf: map<int, int>, dir: map<int, int>, blocks: seq<PriceLevel>, free: seq<int>, b: int)
    requires BlockStore(slotOf, dir, blocks, free) && 0 <= b < |blocks|
    ensures b !in free <==> blocks[b].blockId in dir && dir[blocks[b].blockId] == b
    ensures forall id :: id in dir && dir[id] == b ==> id == blocks[b].blockId
  {
    forall id | id in dir
      ensures 0 <= dir[id] < |blocks| && blocks[dir[id]].blockId == id
    {
      assert Holds(slotOf, dir, blocks, id);
    }
    forall f | f in free
      ensures 0 <= f < |blocks| && forall id :: id in dir ==> dir[id] != f
    {
      assert FreeBlock(dir, blocks, f);
    }
    EverythingUsedOnce(dir, free, |blocks|, b);
  }

  // Conservation makes every block well formed, so a cleared side can reuse all of them
  lemma AllWellFormed(slotOf: map<int, int>, dir: map<int, int>, blocks: seq<PriceLevel>, free: seq<int>, b: int)
    requires BlockStore(slotOf, dir, blocks, free) && 0 <= b < |blocks|
    ensures blocks[b].WellFormed()
  {
    hide Marks;
    BlockConservation(slotOf, dir, blocks, free, b);
    if b in free {
      assert FreeBlock(dir, blocks, b);
      MarksWellFormed(blocks[b], map[]);
    } else {
      assert Holds(slotOf, dir, blocks, blocks[b].blockId);
      MarksWellFormed(blocks[b], BlockMarks(slotOf, blocks[b].blockId));
    }
  }

  lemma MarksWellFormed(level: PriceLevel, m: map<int, int>)
    requires Marks(level, m)
    ensures level.WellFormed()
  {
  }

  // The stacks as clear() leaves them: every number once, the lowest on top
  ghost predicate FullStack(stack: seq<int>)
  {
    forall i :: 0 <= i < |stack| ==> stack[i] == |stack| - 1 - i
  }

  lemma ClearedSlots(entries: seq<Entry>, stack: seq<int>)
    requires FullStack(stack) && |stack| == |entries|
    ensures SlotIndex(map[], map[], entries, stack)
  {
  }

  lemma ClearedBlocks(blocks: seq<PriceLevel>, stack: seq<int>)
    requires FullStack(stack) && |stack| == |blocks|
    requires forall b :: 0 <= b < |blocks| ==> blocks[b].bits == [0, 0] && |blocks[b].slots| == TICKS
    ensures BlockStore(map[], map[], blocks, stack)
  {
    forall b | b in stack
      ensures FreeBlock(map[], blocks, b)
    {
      assert blocks[b].WellFormed();
      PriceLevels.ClearedMarks(blocks[b]);
      assert blocks[b].(bits := [0, 0]) == blocks[b];
    }
  }
}
