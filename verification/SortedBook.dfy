/** The order book's two sides as one class: a plain map from tick to entry, `levels`, refined by
    bitmaps in blocks that a sliding window or a sorted overflow vector leads to.
    A pointer to a block is its index in `blocks`; -1 is the null pointer. */
module SortedBooks {
  import opened BookSide
  import opened PriceLevels
  import opened Placement
  import opened BookIndex
  import opened BlockLists
  import opened BestFirst
  import opened Words
  import opened Collections

  class SortedBook {
    const isBid: bool
    var tickSize: int
    var windowBase: int
    var centred: bool
    var windowBlocks: int

    const window: array<int>
    var fallback: seq<int>
    var scratch: seq<int>

    const blocks: array<PriceLevel>
    const freeBlocks: array<int>
    var freeBlockCount: nat

    const entries: array<Entry>
    const freeSlots: array<int>
    var freeSlotCount: nat

    // The map this side stands for, and the ghost indexes described in BookIndex
    ghost var levels: Levels
    ghost var slotOf: map<int, int>
    ghost var dir: map<int, int>
    ghost var keys: seq<int>

    ghost function Repr(): set<object>
    {
      {this, window, blocks, freeBlocks, entries, freeSlots}
    }

    ghost predicate Shape()
      reads this`freeBlockCount, this`freeSlotCount
    {
      && window.Length == WINDOW && blocks.Length == MAX_BLOCKS && freeBlocks.Length == MAX_BLOCKS
      && entries.Length == MAX_LEVELS && freeSlots.Length == MAX_LEVELS
      && window != freeBlocks && window != freeSlots && freeBlocks != freeSlots
      && freeBlockCount <= MAX_BLOCKS && freeSlotCount <= MAX_LEVELS
    }

    ghost predicate KeysMatch()
      reads this`keys, this`fallback, blocks
    {
      && |keys| == |fallback|
      && StrictlySorted(keys)
      && (forall j :: 0 <= j < |fallback| ==>
           0 <= fallback[j] < blocks.Length && blocks[fallback[j]].blockId == keys[j])
    }

    ghost predicate PlacedFor(shown: map<int, int>)
      reads this`windowBase, this`windowBlocks, this`fallback, this`keys, window
    {
      Placed(shown, windowBase, window[..], windowBlocks, fallback, keys)
    }

    ghost predicate Stored()
      reads this`levels, this`slotOf, this`dir, this`freeBlockCount, this`freeSlotCount
      reads blocks, freeBlocks, entries, freeSlots
    {
      && Shape()
      && SlotIndex(levels, slotOf, entries[..], freeSlots[..freeSlotCount])
      && BlockStore(slotOf, dir, blocks[..], freeBlocks[..freeBlockCount])
    }

    ghost predicate Valid()
      reads Repr()
    {
      && Stored()
      && PlacedFor(dir)
      && NoneBeyond(isBid, dir, windowBase)
      && dir.Keys == BlocksOf(levels.Keys)
      && (!centred ==> dir == map[])
    }

    ghost predicate Directory()
      reads this`dir, blocks
    {
      DirectoryOf(dir, blocks[..])
    }

    lemma StoredDirectory()
      requires Stored()
      ensures Directory()
    {
      forall id | id in dir
        ensures 0 <= dir[id] < blocks.Length && blocks[..][dir[id]].blockId == id
      {
        assert Holds(slotOf, dir, blocks[..], id);
      }
    }

    lemma DirectoryKeysMatch(shown: map<int, int>)
      requires Directory() && PlacedFor(shown)
      requires forall id :: id in shown ==> id in dir && dir[id] == shown[id]
      ensures KeysMatch()
    {
      forall j | 0 <= j < |fallback|
        ensures 0 <= fallback[j] < blocks.Length && blocks[fallback[j]].blockId == keys[j]
      {
        assert FallbackCell(shown, windowBase, fallback[j], keys[j]);
        assert blocks[..][dir[keys[j]]].blockId == keys[j];
      }
    }

    // std::lower_bound over the overflow vector by block id
    method FallbackFind(blockId: int) returns (at: int)
      requires KeysMatch()
      ensures 0 <= at <= |keys|
      ensures forall j :: 0 <= j < at ==> keys[j] < blockId
      ensures forall j :: at <= j < |keys| ==> blockId <= keys[j]
    {
      at := 0;
      var count := |fallback|;
      while count > 0
        invariant 0 <= at && 0 <= count && at + count <= |fallback|
        invariant forall j :: 0 <= j < at ==> keys[j] < blockId
        invariant forall j :: at + count <= j < |keys| ==> blockId <= keys[j]
      {
        var step := count / 2;
        if blocks[fallback[at + step]].blockId < blockId {
          at := at + step + 1;
          count := count - (step + 1);
        } else {
          count := step;
        }
      }
    }

    method FindBlock(blockId: int) returns (b: int)
      requires window.Length == WINDOW && KeysMatch() && PlacedFor(dir)
      ensures b == if blockId in dir then dir[blockId] else -1
    {
      var offset := blockId - windowBase;
      if 0 <= offset < WINDOW {
        assert window[..][offset] == window[offset];
        return window[offset];
      }
      var it := FallbackFind(blockId);
      if it != |fallback| && blocks[fallback[it]].blockId == blockId {
        assert FallbackCell(dir, windowBase, fallback[it], keys[it]);
        return fallback[it];
      }
      assert blockId !in keys;
      return -1;
    }

    method Place(level: int, ghost shown: map<int, int>)
      requires window.Length == WINDOW && KeysMatch() && PlacedFor(shown)
      requires 0 <= level < blocks.Length && blocks[level].blockId !in shown
      modifies window, this`fallback, this`keys, this`windowBlocks
      ensures PlacedFor(shown[blocks[level].blockId := level])
      ensures KeysMatch()
    {
      hide Placed;
      hide StrictlySorted;
      KeysStaySorted(shown);
      ghost var id := blocks[level].blockId;
      ghost var cells := window[..];
      var offset := blocks[level].blockId - windowBase;
      if 0 <= offset < WINDOW {
        PlaceInWindow(shown, windowBase, cells, windowBlocks, fallback, keys, id, level);
        window[offset] := level;
        windowBlocks := windowBlocks + 1;
        assert window[..] == cells[offset := level];
      } else {
        var at := FallbackFind(blocks[level].blockId);
        PlaceInFallback(shown, windowBase, cells, windowBlocks, fallback, keys, id, level, at);
        fallback := fallback[..at] + [level] + fallback[at..];
        keys := keys[..at] + [id] + keys[at..];
        KeysStaySorted(shown[id := level]);
      }
    }

    lemma KeysStaySorted(shown: map<int, int>)
      requires PlacedFor(shown)
      ensures StrictlySorted(keys)
    {
    }

    // Empties the window into scratch
    method DrainWindow() returns (ghost ids: seq<int>)
      requires window.Length == WINDOW
      modifies this`scratch, window
      ensures ids == WindowIds(old(window[..]), windowBase, WINDOW) && |ids| == |scratch|
      ensures forall k :: 0 <= k < |ids| ==>
                InWindow(windowBase, ids[k]) && scratch[k] == old(window[..])[ids[k] - windowBase]
      ensures forall i :: 0 <= i < WINDOW ==> window[i] == -1
    {
      ghost var cells := window[..];
      ids := [];
      scratch := [];
      for i := 0 to WINDOW
        invariant ids == WindowIds(cells, windowBase, i) && |ids| == |scratch|
        invariant forall k :: 0 <= k < |ids| ==>
                    InWindow(windowBase, ids[k]) && scratch[k] == cells[ids[k] - windowBase]
        invariant forall k :: 0 <= k < i ==> window[k] == -1
        invariant forall k :: i <= k < WINDOW ==> window[k] == cells[k]
      {
        if window[i] >= 0 {
          scratch := scratch + [window[i]];
          ids := ids + [windowBase + i];
        }
        window[i] := -1;
      }
    }

    // Takes every placed block out of its container, window first
    method GatherBlocks()
      requires window.Length == WINDOW && Directory() && PlacedFor(dir)
      modifies this`scratch, window, this`fallback, this`keys
      ensures fallback == [] && keys == []
      ensures forall i :: 0 <= i < WINDOW ==> window[i] == -1
      ensures ListsPlaced(dir, blocks[..], scratch)
    {
      ghost var cells := window[..];
      ghost var ids := DrainWindow();
      WindowIdsSorted(cells, windowBase, WINDOW);
      scratch := scratch + fallback;
      GatheredAll(dir, blocks[..], windowBase, cells, windowBlocks, fallback, keys, ids, scratch);
      fallback := [];
      keys := [];
    }

    // Afterwards the same blocks are shown, under the same ids, by a window around the given block
    method Recentre(centreBlock: int)
      requires window.Length == WINDOW && Directory() && PlacedFor(dir)
      modifies this`scratch, this`fallback, this`keys, this`windowBlocks, this`windowBase, this`centred, window
      ensures PlacedFor(dir)
      ensures windowBase == centreBlock - 64 && centred
    {
      hide Placed;
      hide ListsPlaced;
      hide DirectoryOf;
      GatherBlocks();
      PlacedInBounds(dir, blocks[..], scratch);
      windowBlocks := 0;
      windowBase := centreBlock - WINDOW / 2;
      centred := true;
      ghost var gathered := scratch;
      scratch := SortById(blocks[..], scratch);
      PermutedList(dir, blocks[..], gathered, scratch);
      NothingPlaced();
      PlaceScratch();
    }

    lemma NothingPlaced()
      requires window.Length == WINDOW && fallback == [] && keys == [] && windowBlocks == 0
      requires forall i :: 0 <= i < WINDOW ==> window[i] == -1
      ensures PlacedFor(map[])
    {
      CountZero(window[..]);
    }

    method PlaceScratch()
      requires window.Length == WINDOW && Directory() && PlacedFor(map[]) && keys == []
      requires ListsPlaced(dir, blocks[..], scratch)
      modifies this`fallback, this`keys, this`windowBlocks, window
      ensures PlacedFor(dir)
    {
      ghost var shown: map<int, int> := map[];
      PlacedInBounds(dir, blocks[..], scratch);
      for k := 0 to |scratch|
        invariant KeysMatch() && PlacedFor(shown)
        invariant ShownSoFar(dir, blocks[..], scratch, shown, k)
      {
        ShowNext(dir, blocks[..], scratch, shown, k);
        Place(scratch[k], shown);
        shown := shown[blocks[scratch[k]].blockId := scratch[k]];
      }
      ShownEverything(dir, blocks[..], scratch, shown);
    }

    method AcquireBlock(blockId: int) returns (level: int)
      requires Valid() && blockId !in dir
      modifies this`freeBlockCount, this`dir, this`scratch, this`fallback, this`keys
      modifies this`windowBlocks, this`windowBase, this`centred, window, blocks
      ensures Stored() && PlacedFor(dir) && NoneBeyond(isBid, dir, windowBase)
      ensures (level == -1) == (old(freeBlockCount) == 0)
      ensures level == -1 ==> dir == old(dir) && unchanged(this, window, blocks)
      ensures level != -1 ==> level >= 0 && centred && dir == old(dir)[blockId := level]
      ensures level != -1 ==>
                var inReach := if isBid then blockId < old(windowBase) + 128 else blockId >= old(windowBase);
                windowBase == if old(centred) && inReach then old(windowBase) else blockId - 64
    {
      hide SlotIndex;
      hide BlockStore;
      hide Placed;
      if freeBlockCount == 0 {
        return -1;
      }
      ghost var before := dir;
      level := PopBlock(blockId);
      if !centred || BeyondBestEdge(isBid, blockId, windowBase) {
        Place(level, before);
        Recentre(blockId);
      } else {
        Place(level, before);
      }
    }

    // Takes the top of the block stack for a block id that has no block yet
    method PopBlock(blockId: int) returns (level: int)
      requires Stored() && PlacedFor(dir) && blockId !in dir && freeBlockCount > 0
      modifies this`freeBlockCount, this`dir, blocks
      ensures Stored() && Directory() && KeysMatch() && PlacedFor(old(dir))
      ensures 0 <= level < blocks.Length && blocks[level].blockId == blockId
      ensures dir == old(dir)[blockId := level]
    {
      hide SlotIndex;
      hide BlockStore;
      hide Placed;
      ghost var stored, free := blocks[..], freeBlocks[..freeBlockCount];
      freeBlockCount := freeBlockCount - 1;
      level := freeBlocks[freeBlockCount];
      assert level == free[|free| - 1];
      TakeBlock(slotOf, dir, stored, free, blockId);
      blocks[level] := blocks[level].(blockId := blockId);
      assert blocks[..] == stored[level := stored[level].(blockId := blockId)];
      assert freeBlocks[..freeBlockCount] == free[..|free| - 1];
      ghost var before := dir;
      dir := dir[blockId := level];
      StoredDirectory();
      DirectoryKeysMatch(before);
    }

    // Takes the block placed for one id out of its container
    method Unplace(level: int)
      requires Shape() && KeysMatch() && PlacedFor(dir)
      requires 0 <= level < blocks.Length && blocks[level].blockId in dir
      modifies this`fallback, this`keys, this`windowBlocks, window
      ensures PlacedFor(dir - {blocks[level].blockId})
    {
      ghost var id, cells := blocks[level].blockId, window[..];
      var offset := blocks[level].blockId - windowBase;
      if 0 <= offset < WINDOW {
        RemoveFromWindow(dir, windowBase, cells, windowBlocks, fallback, keys, id);
        window[offset] := -1;
        windowBlocks := windowBlocks - 1;
        assert window[..] == cells[offset := -1];
      } else {
        var at := FallbackFind(blocks[level].blockId);
        KeyAt(dir, windowBase, fallback, keys, id, at);
        RemoveFromFallback(dir, windowBase, cells, windowBlocks, fallback, keys, at);
        fallback := fallback[..at] + fallback[at + 1..];
        keys := keys[..at] + keys[at + 1..];
      }
    }

    // The window is centred on the best block in use
    ghost predicate AroundTheBest()
      reads this`windowBase, this`dir
    {
      windowBase + 64 in dir
      && forall id :: id in dir ==> if isBid then id <= windowBase + 64 else id >= windowBase + 64
    }

    method ReleaseBlock(level: int)
      requires Stored() && PlacedFor(dir) && NoneBeyond(isBid, dir, windowBase)
      requires 0 <= level < blocks.Length && blocks[level].blockId in dir && dir[blocks[level].blockId] == level
      requires BlockMarks(slotOf, blocks[level].blockId) == map[]
      modifies this`freeBlockCount, this`dir, this`scratch, this`fallback, this`keys
      modifies this`windowBlocks, this`windowBase, this`centred, window, freeBlocks
      ensures Stored() && PlacedFor(dir) && NoneBeyond(isBid, dir, windowBase)
      ensures dir == old(dir) - {blocks[level].blockId}
      ensures old(centred) ==> centred
      ensures windowBase == old(windowBase) || AroundTheBest()
      ensures windowBlocks > 0 || dir == map[]
    {
      hide SlotIndex;
      hide BlockStore;
      hide Placed;
      StoredDirectory();
      DirectoryKeysMatch(dir);
      Unplace(level);
      PushBlock(level);
      NothingShown(dir, windowBase, window[..], windowBlocks, fallback, keys);
      if windowBlocks == 0 && |fallback| > 0 {
        FollowBest();
      }
    }

    method PushBlock(level: int)
      requires Stored()
      requires 0 <= level < blocks.Length && blocks[level].blockId in dir && dir[blocks[level].blockId] == level
      requires BlockMarks(slotOf, blocks[level].blockId) == map[]
      modifies this`freeBlockCount, this`dir, freeBlocks
      ensures Stored() && dir == old(dir) - {blocks[level].blockId}
    {
      hide SlotIndex;
      ghost var id, free := blocks[level].blockId, freeBlocks[..freeBlockCount];
      GiveBlockBack(slotOf, dir, blocks[..], free, id);
      RoomToPush(slotOf, dir, blocks[..], free, id);
      freeBlocks[freeBlockCount] := level;
      freeBlockCount := freeBlockCount + 1;
      assert freeBlocks[..freeBlockCount] == free + [level];
      dir := dir - {id};
    }

    // From an empty window to one that shows the best block again
    method FollowBest()
      requires Stored() && PlacedFor(dir) && windowBlocks == 0 && |fallback| > 0
      modifies this`scratch, this`fallback, this`keys, this`windowBlocks, this`windowBase, this`centred, window
      ensures PlacedFor(dir) && NoneBeyond(isBid, dir, windowBase) && centred && AroundTheBest()
      ensures windowBlocks > 0
    {
      hide SlotIndex;
      hide BlockStore;
      StoredDirectory();
      DirectoryKeysMatch(dir);
      var edge := if isBid then blocks[fallback[|fallback| - 1]].blockId else blocks[fallback[0]].blockId;
      forall id | id in dir
        ensures BetterOrSame(isBid, edge, id)
      {
        EdgeOfFallback(isBid, dir, windowBase, window[..], windowBlocks, fallback, keys, id);
      }
      Recentre(edge);
      if windowBlocks <= 0 { EmptyWindow(dir, windowBase, window[..], edge); }
    }

    // The map after an update is Updated; a refusal leaves even the arrays as they were
    method Update(price: int, volume: int) returns (ok: bool)
      requires Valid() && tickSize > 0
      modifies Repr()
      ensures Valid() && tickSize == old(tickSize)
      ensures ok <==> !Refused(old(levels), ToTick(price, tickSize), volume)
      ensures levels == Updated(old(levels), ToTick(price, tickSize), Entry(price, volume))
      ensures !ok ==> unchanged(this, window, blocks, freeBlocks, entries, freeSlots)
      ensures var m, t, e := old(levels), ToTick(price, tickSize), Entry(price, volume);
              && (volume == 0 ==> ok && levels == m - {t})
              && (volume != 0 && t in m ==> ok && levels == m[t := e])
              && (volume != 0 && t !in m ==>
                    var used := set u | u in m :: u / 128;
                    && (ok <==> |m| < 8192 && (t / 128 in used || |used| < 1024))
                    && levels == if ok then m[t := e] else m)
    {
      hide SlotIndex;
      hide BlockStore;
      hide Placed;
      HoldsNoMore();
      UpdateCases(levels, ToTick(price, tickSize), Entry(price, volume));
      var tick := ToTick(price, tickSize);
      var blockId := BlockOf(tick);
      var offset := OffsetOf(tick);
      StoredDirectory();
      DirectoryKeysMatch(dir);
      var level := FindBlock(blockId);
      KnownTick(tick);
      var exists_ := level != -1 && blocks[level].Test(offset);
      if volume == 0 {
        if exists_ {
          RemoveLevel(tick, level);
        }
        return true;
      }
      if exists_ {
        OverwriteLevel(tick, level, Entry(price, volume));
        return true;
      }
      ok := InsertLevel(tick, level, Entry(price, volume));
    }

    // Adds a level the side does not have, unless it does not fit
    method InsertLevel(tick: int, found: int, e: Entry) returns (ok: bool)
      requires Valid() && tick !in levels && e.volume != 0
      requires found == -1 <==> BlockOf(tick) !in dir
      requires found != -1 ==> found == dir[BlockOf(tick)]
      modifies Repr()
      ensures Valid() && tickSize == old(tickSize)
      ensures ok <==> !Refused(old(levels), tick, e.volume)
      ensures levels == if ok then old(levels)[tick := e] else old(levels)
      ensures !ok ==> unchanged(this, window, blocks, freeBlocks, entries, freeSlots)
    {
      hide SlotIndex;
      hide BlockStore;
      hide Placed;
      hide BlocksOf;
      StackHeights();
      if freeSlotCount == 0 {
        return false;
      }
      var level := found;
      if level == -1 {
        level := AcquireBlock(BlockOf(tick));
        if level == -1 {
          return false;
        }
      }
      WriteLevel(tick, level, e);
      return true;
    }

    // The bit of a tick in its block, if the block is placed, tells whether there is a level
    lemma KnownTick(tick: int)
      requires Valid()
      ensures BlockOf(tick) !in dir ==> tick !in levels
      ensures BlockOf(tick) in dir ==>
                var b := dir[BlockOf(tick)];
                && 0 <= b < blocks.Length && blocks[b].WellFormed() && blocks[b].blockId == BlockOf(tick)
                && (blocks[b].Test(OffsetOf(tick)) <==> tick in levels)
    {
      hide Placed;
      if BlockOf(tick) in dir {
        TestOfTick(slotOf, dir, blocks[..], freeBlocks[..freeBlockCount], tick);
      }
    }

    // A side never holds more
    lemma HoldsNoMore()
      requires Valid()
      ensures WithinLimits(levels)
    {
      hide SlotIndex;
      hide BlockStore;
      hide Placed;
      StackHeights();
      assert BlocksOf(levels.Keys) == set t | t in levels :: t / 128;
    }

    // The stacks are empty exactly when the side is at its limits
    lemma StackHeights()
      requires Valid()
      ensures |levels| + freeSlotCount == 8192
      ensures |BlocksOf(levels.Keys)| + freeBlockCount == 1024
    {
      hide Placed;
      assert |levels.Keys| == |slotOf.Keys|;
      assert |dir.Keys| == |dir|;
    }

    method RemoveLevel(tick: int, level: int)
      requires Valid() && tick in levels && BlockOf(tick) in dir && level == dir[BlockOf(tick)]
      modifies Repr()
      ensures Valid() && tickSize == old(tickSize) && levels == old(levels) - {tick}
    {
      hide SlotIndex;
      hide BlockStore;
      hide Placed;
      hide BlockMarks;
      hide BlockOf;
      hide BlocksOf;
      ghost var ticks := levels.Keys;
      var empty := ClearMark(tick, level);
      SameTicks(levels, slotOf, entries[..], freeSlots[..freeSlotCount]);
      BlocksAfterRemove(slotOf, ticks, tick);
      assert levels.Keys == ticks - {tick};
      if empty {
        ReleaseBlock(level);
      }
    }

    // Clears the bit and gives the slot back; tells whether the block is now empty
    method ClearMark(tick: int, level: int) returns (empty: bool)
      requires Stored() && tick in levels && BlockOf(tick) in dir && level == dir[BlockOf(tick)]
      modifies this`levels, this`slotOf, this`freeSlotCount, blocks, freeSlots
      ensures Stored() && levels == old(levels) - {tick}
      ensures 0 <= level < blocks.Length && blocks[level].blockId == BlockOf(tick)
      ensures empty <==> BlockMarks(slotOf, BlockOf(tick)) == map[]
    {
      hide SlotIndex;
      hide BlockStore;
      hide Placed;
      hide Holds;
      hide BlockMarks;
      ghost var stored, freeB := blocks[..], freeBlocks[..freeBlockCount];
      ghost var items, freeS := entries[..], freeSlots[..freeSlotCount];
      SameTicks(levels, slotOf, items, freeS);
      TestOfTick(slotOf, dir, stored, freeB, tick);
      ResetMark(slotOf, dir, stored, freeB, tick);
      GiveSlotBack(levels, slotOf, items, freeS, tick);
      RoomForSlot(levels, slotOf, items, freeS, tick);
      var offset := OffsetOf(tick);
      blocks[level] := blocks[level].Reset(offset);
      freeSlots[freeSlotCount] := blocks[level].slots[offset];
      freeSlotCount := freeSlotCount + 1;
      assert blocks[..] == stored[level := stored[level].Reset(offset)];
      assert freeSlots[..freeSlotCount] == freeS + [slotOf[tick]];
      levels, slotOf := levels - {tick}, slotOf - {tick};
      EmptyBlock(slotOf, dir, blocks[..], freeB, BlockOf(tick));
      empty := blocks[level].Empty();
    }

    method OverwriteLevel(tick: int, level: int, e: Entry)
      requires Valid() && tick in levels && BlockOf(tick) in dir && level == dir[BlockOf(tick)]
      modifies this`levels, entries
      ensures Valid() && levels == old(levels)[tick := e]
    {
      hide SlotIndex;
      hide BlockStore;
      hide Placed;
      hide Holds;
      hide BlockMarks;
      ghost var items := entries[..];
      SameTicks(levels, slotOf, items, freeSlots[..freeSlotCount]);
      TestOfTick(slotOf, dir, blocks[..], freeBlocks[..freeBlockCount], tick);
      OverwriteSlot(levels, slotOf, items, freeSlots[..freeSlotCount], tick, e);
      entries[blocks[level].slots[OffsetOf(tick)]] := e;
      assert entries[..] == items[slotOf[tick] := e];
      levels := levels[tick := e];
      assert levels.Keys == old(levels.Keys);
    }

    // Takes the top of the slot stack for a tick whose block is placed
    method WriteLevel(tick: int, level: int, e: Entry)
      requires Stored() && PlacedFor(dir) && NoneBeyond(isBid, dir, windowBase)
      requires tick !in levels && freeSlotCount > 0
      requires BlockOf(tick) in dir && level == dir[BlockOf(tick)]
      requires dir.Keys == BlocksOf(levels.Keys) + {BlockOf(tick)}
      requires !centred ==> dir == map[]
      modifies this`levels, this`slotOf, this`freeSlotCount, blocks, entries
      ensures Valid() && levels == old(levels)[tick := e]
    {
      hide SlotIndex;
      hide BlockStore;
      hide Placed;
      hide Holds;
      hide BlockMarks;
      ghost var items, freeS := entries[..], freeSlots[..freeSlotCount];
      TakeSlot(levels, slotOf, items, freeS, tick, e);
      freeSlotCount := freeSlotCount - 1;
      var slot := freeSlots[freeSlotCount];
      MarkSlot(tick, level, slot);
      entries[slot] := e;
      assert freeSlots[..freeSlotCount] == freeS[..|freeS| - 1];
      assert entries[..] == items[slot := e];
      BlocksAfterInsert(levels.Keys, tick);
      levels, slotOf := levels[tick := e], slotOf[tick := slot];
      assert levels.Keys == old(levels.Keys) + {tick};
    }

    // Names a slot in the block and sets its bit
    method MarkSlot(tick: int, level: int, slot: int)
      requires Shape() && BlockStore(slotOf, dir, blocks[..], freeBlocks[..freeBlockCount])
      requires BlockOf(tick) in dir && level == dir[BlockOf(tick)]
      modifies blocks
      ensures BlockStore(slotOf[tick := slot], dir, blocks[..], freeBlocks[..freeBlockCount])
    {
      hide BlockStore;
      hide Holds;
      hide BlockMarks;
      ghost var stored, free := blocks[..], freeBlocks[..freeBlockCount];
      TestOfTick(slotOf, dir, stored, free, tick);
      SetMark(slotOf, dir, stored, free, tick, slot);
      var offset := OffsetOf(tick);
      blocks[level] := blocks[level].(slots := blocks[level].slots[offset := slot]);
      blocks[level] := blocks[level].Set(offset);
      assert blocks[..] == stored[level := stored[level].(slots := stored[level].slots[offset := slot]).Set(offset)];
    }

    // Every block's bits reset
    method ClearBits()
      requires forall b :: 0 <= b < blocks.Length ==> |blocks[b].slots| == TICKS
      modifies blocks
      ensures forall b :: 0 <= b < blocks.Length ==> blocks[b].bits == [0, 0] && |blocks[b].slots| == TICKS
    {
      for i := 0 to blocks.Length
        invariant forall b :: 0 <= b < blocks.Length ==> |blocks[b].slots| == TICKS
        invariant forall b :: 0 <= b < i ==> blocks[b].bits == [0, 0]
      {
        blocks[i] := blocks[i].(bits := [0, 0]);
      }
    }

    method FillStack(stack: array<int>)
      modifies stack
      ensures FullStack(stack[..])
    {
      for i := 0 to stack.Length
        invariant forall k :: 0 <= k < i ==> stack[k] == stack.Length - 1 - k
      {
        stack[i] := stack.Length - 1 - i;
      }
    }

    method FillWindow()
      modifies window
      ensures forall i :: 0 <= i < window.Length ==> window[i] == -1
    {
      for i := 0 to window.Length
        invariant forall k :: 0 <= k < i ==> window[k] == -1
      {
        window[i] := -1;
      }
    }

    ghost predicate Sized()
    {
      && window.Length == WINDOW && blocks.Length == MAX_BLOCKS && freeBlocks.Length == MAX_BLOCKS
      && entries.Length == MAX_LEVELS && freeSlots.Length == MAX_LEVELS
      && window != freeBlocks && window != freeSlots && freeBlocks != freeSlots
    }

    lemma BlocksSized()
      requires Valid()
      ensures forall b :: 0 <= b < blocks.Length ==> |blocks[b].slots| == TICKS
    {
      hide SlotIndex;
      hide BlockStore;
      hide Placed;
      forall b | 0 <= b < blocks.Length
        ensures |blocks[b].slots| == TICKS
      {
        AllWellFormed(slotOf, dir, blocks[..], freeBlocks[..freeBlockCount], b);
      }
    }

    // Valid and empty whatever the arrays held, as long as they have their sizes
    method Clear()
      requires Sized()
      requires forall b :: 0 <= b < blocks.Length ==> |blocks[b].slots| == TICKS
      modifies Repr()
      ensures Valid() && levels == map[] && tickSize == old(tickSize)
    {
      hide BlockStore;
      hide SlotIndex;
      ClearBits();
      FillWindow();
      fallback := [];
      windowBlocks := 0;
      centred := false;
      freeBlockCount := MAX_BLOCKS;
      FillStack(freeBlocks);
      freeSlotCount := MAX_LEVELS;
      FillStack(freeSlots);
      levels, slotOf, dir, keys := map[], map[], map[], [];
      assert freeBlocks[..freeBlockCount] == freeBlocks[..];
      assert freeSlots[..freeSlotCount] == freeSlots[..];
      ClearedSlots(entries[..], freeSlots[..]);
      ClearedBlocks(blocks[..], freeBlocks[..]);
      NothingPlaced();
    }

    constructor (isBid: bool)
      ensures Valid() && levels == map[] && this.isBid == isBid && tickSize == 0
      ensures fresh(Repr()) && window.Length == 128
    {
      this.isBid := isBid;
      tickSize, windowBase, centred, windowBlocks := 0, 0, false, 0;
      window := new int[WINDOW];
      fallback, scratch := [], [];
      blocks := new PriceLevel[MAX_BLOCKS](_ => PriceLevel([0, 0], seq(TICKS, _ => 0), 0));
      freeBlocks := new int[MAX_BLOCKS];
      freeBlockCount := 0;
      entries := new Entry[MAX_LEVELS](_ => Entry(0, 0));
      freeSlots := new int[MAX_LEVELS];
      freeSlotCount := 0;
      new;
      Clear();
    }

    method SetTickSize(tickSize: int)
      requires Valid()
      modifies this`tickSize
      ensures Valid() && this.tickSize == tickSize
    {
      this.tickSize := tickSize;
    }

    // The map's entry for the price's tick
    method Find(price: int) returns (found: bool, out: Entry)
      requires Valid() && tickSize > 0
      ensures found <==> ToTick(price, tickSize) in levels
      ensures found ==> out == levels[ToTick(price, tickSize)]
    {
      hide SlotIndex;
      hide BlockStore;
      hide Placed;
      var tick := ToTick(price, tickSize);
      StoredDirectory();
      DirectoryKeysMatch(dir);
      var level := FindBlock(BlockOf(tick));
      KnownTick(tick);
      var offset := OffsetOf(tick);
      if level == -1 || !blocks[level].Test(offset) {
        return false, Entry(0, 0);
      }
      KnownEntry(tick);
      return true, entries[blocks[level].slots[offset]];
    }

    lemma KnownEntry(tick: int)
      requires Valid() && tick in levels
      ensures BlockOf(tick) in dir && 0 <= dir[BlockOf(tick)] < blocks.Length
      ensures var level := blocks[dir[BlockOf(tick)]];
              && level.WellFormed() && 0 <= level.slots[OffsetOf(tick)] < entries.Length
              && entries[level.slots[OffsetOf(tick)]] == levels[tick]
    {
      TestOfTick(slotOf, dir, blocks[..], freeBlocks[..freeBlockCount], tick);
    }

    method LevelCount() returns (n: int)
      requires Valid()
      ensures n == |levels|
    {
      StackHeights();
      return MAX_LEVELS - freeSlotCount;
    }

    // ----- best-first walks: `c` lists the ticks whose entries have been copied so far

    ghost predicate Copied(out: array<Entry>, count: nat, written: nat, c: seq<int>)
      reads this`levels, out
    {
      && |c| == written <= count <= out.Length
      && BestPrefix(isBid, levels.Keys, c)
      && (forall i :: 0 <= i < written ==> c[i] in levels && out[i] == levels[c[i]])
    }

    ghost predicate Walked(c: seq<int>, f: int)
      reads this`levels
    {
      Front(isBid, levels.Keys, c, f)
    }

    // The callback of top(): writes one entry, and stops the walk at the requested count
    method Visit(slot: int, out: array<Entry>, count: nat, written: nat, ghost c: seq<int>, ghost tick: int)
      returns (written': nat, go: bool)
      requires Valid() && out !in Repr() && tick in levels && slot == slotOf[tick]
      requires Copied(out, count, written, c) && written < count
      requires BestPrefix(isBid, levels.Keys, c + [tick])
      modifies out
      ensures Copied(out, count, written', c + [tick])
      ensures go <==> written' < count
    {
      hide BlockStore;
      hide Placed;
      hide BestPrefix;
      out[written] := entries[slot];
      written' := written + 1;
      go := written' < count;
    }

    lemma WordOfBlock(id: int, word: int)
      requires Valid() && id in dir && 0 <= word <= 1
      ensures 0 <= dir[id] < blocks.Length && blocks[dir[id]].WellFormed()
      ensures WordTicks(levels.Keys, TickAt(id, word * 64), blocks[dir[id]].bits[word])
    {
      hide Placed;
      hide BlockStore;
      hide SlotIndex;
      SameTicks(levels, slotOf, entries[..], freeSlots[..freeSlotCount]);
      forall i: nat | i < 64
        ensures 0 <= dir[id] < blocks.Length && blocks[dir[id]].WellFormed()
        ensures Bit(blocks[dir[id]].bits[word], i) <==> TickAt(id, word * 64) + i in levels
      {
        BitOfTick(slotOf, dir, blocks[..], freeBlocks[..freeBlockCount], id, word, i);
      }
      BitOfTick(slotOf, dir, blocks[..], freeBlocks[..freeBlockCount], id, word, 0);
    }

    lemma SlotOfBit(id: int, offset: int)
      requires Valid() && id in dir && 0 <= offset < TICKS && TickAt(id, offset) in levels
      ensures 0 <= dir[id] < blocks.Length && blocks[dir[id]].WellFormed()
      ensures TickAt(id, offset) in slotOf && blocks[dir[id]].slots[offset] == slotOf[TickAt(id, offset)]
    {
      hide Placed;
      TickOfParts(id, offset);
      SameTicks(levels, slotOf, entries[..], freeSlots[..freeSlotCount]);
      TestOfTick(slotOf, dir, blocks[..], freeBlocks[..freeBlockCount], TickAt(id, offset));
    }

    // PriceLevel::forEach<true>, one word: highest bit first
    method WalkWordDown(level: int, word: int, out: array<Entry>, count: nat, written: nat, ghost c: seq<int>,
        ghost id: int)
      returns (written': nat, go: bool, ghost c': seq<int>)
      requires Valid() && isBid && out !in Repr() && id in dir && level == dir[id] && 0 <= word <= 1
      requires Copied(out, count, written, c) && written < count
      requires Walked(c, TickAt(id, word * 64) + 64)
      modifies out
      ensures Copied(out, count, written', c')
      ensures go <==> written' < count
      ensures go ==> Walked(c', TickAt(id, word * 64))
    {
      hide BlockStore;
      hide SlotIndex;
      hide Placed;
      hide BestPrefix;
      hide Front;
      hide WordTicks;
      hide BitsUnder;
      hide HighestBit;
      hide AndNot;
      hide Pow2;
      ghost var start, hi := TickAt(id, word * 64), 64;
      WordOfBlock(id, word);
      var remaining := blocks[level].bits[word];
      WholeWord(remaining, remaining);
      written', go, c' := written, true, c;
      while remaining != 0
        invariant Copied(out, count, written', c') && go && written' < count
        invariant 0 <= hi <= 64 && Walked(c', start + hi)
        invariant BitsUnder(blocks[level].bits[word], remaining, hi)
        decreases hi
      {
        DownStep(levels.Keys, start, blocks[level].bits[word], remaining, hi, c');
        var bit := HighestBit(remaining);
        remaining := AndNot(remaining, Pow2(bit));
        FrontIsBestPrefix(isBid, levels.Keys, c' + [start + bit], start + bit);
        SlotOfBit(id, word * 64 + bit);
        assert TickAt(id, word * 64 + bit) == start + bit;
        written', go := Visit(blocks[level].slots[word * 64 + bit], out, count, written', c', start + bit);
        c', hi := c' + [start + bit], bit;
        if !go {
          return;
        }
      }
      DownEnd(levels.Keys, start, blocks[level].bits[word], hi, c');
    }

    // PriceLevel::forEach<false>, one word: lowest bit first
    method WalkWordUp(level: int, word: int, out: array<Entry>, count: nat, written: nat, ghost c: seq<int>,
        ghost id: int)
      returns (written': nat, go: bool, ghost c': seq<int>)
      requires Valid() && !isBid && out !in Repr() && id in dir && level == dir[id] && 0 <= word <= 1
      requires Copied(out, count, written, c) && written < count
      requires Walked(c, TickAt(id, word * 64))
      modifies out
      ensures Copied(out, count, written', c')
      ensures go <==> written' < count
      ensures go ==> Walked(c', TickAt(id, word * 64) + 64)
    {
      hide BlockStore;
      hide SlotIndex;
      hide Placed;
      hide BestPrefix;
      hide Front;
      hide WordTicks;
      hide BitsFrom;
      hide TrailingZeros;
      hide And;
      ghost var start, lo := TickAt(id, word * 64), 0;
      WordOfBlock(id, word);
      var remaining := blocks[level].bits[word];
      WholeWord(remaining, remaining);
      written', go, c' := written, true, c;
      while remaining != 0
        invariant Copied(out, count, written', c') && go && written' < count
        invariant 0 <= lo <= 64 && Walked(c', start + lo)
        invariant BitsFrom(blocks[level].bits[word], remaining, lo)
        decreases 64 - lo
      {
        UpStep(levels.Keys, start, blocks[level].bits[word], remaining, lo, c');
        var bit := TrailingZeros(remaining);
        remaining := And(remaining, remaining - 1);
        FrontIsBestPrefix(isBid, levels.Keys, c' + [start + bit], start + bit + 1);
        SlotOfBit(id, word * 64 + bit);
        assert TickAt(id, word * 64 + bit) == start + bit;
        written', go := Visit(blocks[level].slots[word * 64 + bit], out, count, written', c', start + bit);
        c', lo := c' + [start + bit], bit + 1;
        if !go {
          return;
        }
      }
      UpEnd(levels.Keys, start, blocks[level].bits[word], lo, c');
    }

    // Every level of one block, best first
    method WalkBlock(level: int, out: array<Entry>, count: nat, written: nat, ghost c: seq<int>, ghost id: int,
        ghost x: int)
      returns (written': nat, go: bool, ghost c': seq<int>)
      requires Valid() && out !in Repr() && id in dir && level == dir[id]
      requires Copied(out, count, written, c) && written < count
      requires Walked(c, TickAt(x, 0)) && NoneBetween(dir.Keys, if isBid then id + 1 else id, x)
      modifies out
      ensures Copied(out, count, written', c')
      ensures go <==> written' < count
      ensures go ==> Walked(c', TickAt(if isBid then id else id + 1, 0))
    {
      hide BlockStore;
      hide SlotIndex;
      hide Placed;
      hide BestPrefix;
      hide Front;
      SkipBlocks(isBid, levels.Keys, c, x, if isBid then id + 1 else id);
      if isBid {
        written', go, c' := WalkWordDown(level, 1, out, count, written, c, id);
        if go {
          written', go, c' := WalkWordDown(level, 0, out, count, written', c', id);
        }
      } else {
        written', go, c' := WalkWordUp(level, 0, out, count, written, c, id);
        if go {
          written', go, c' := WalkWordUp(level, 1, out, count, written', c', id);
        }
      }
    }

    method WalkWindowDown(out: array<Entry>, count: nat, written: nat, ghost c: seq<int>)
      returns (written': nat, go: bool, ghost c': seq<int>)
      requires Valid() && isBid && out !in Repr()
      requires Copied(out, count, written, c) && written < count
      requires Walked(c, TickAt(windowBase + WINDOW, 0))
      modifies out
      ensures Copied(out, count, written', c')
      ensures go <==> written' < count
      ensures go ==> Walked(c', TickAt(windowBase, 0))
    {
      hide BlockStore;
      hide SlotIndex;
      hide BestPrefix;
      hide Front;
      written', go, c' := written, true, c;
      for i := WINDOW downto 0
        invariant Copied(out, count, written', c') && go && written' < count
        invariant Walked(c', TickAt(windowBase + i, 0))
      {
        assert window[..][i] == window[i];
        if window[i] >= 0 {
          written', go, c' := WalkBlock(window[i], out, count, written', c', windowBase + i, windowBase + i + 1);
          if !go {
            return;
          }
        } else {
          SkipBlocks(isBid, levels.Keys, c', windowBase + i + 1, windowBase + i);
        }
      }
    }

    method WalkWindowUp(out: array<Entry>, count: nat, written: nat, ghost c: seq<int>)
      returns (written': nat, go: bool, ghost c': seq<int>)
      requires Valid() && !isBid && out !in Repr()
      requires Copied(out, count, written, c) && written < count
      requires Walked(c, TickAt(windowBase, 0))
      modifies out
      ensures Copied(out, count, written', c')
      ensures go <==> written' < count
      ensures go ==> Walked(c', TickAt(windowBase + WINDOW, 0))
    {
      hide BlockStore;
      hide SlotIndex;
      hide BestPrefix;
      hide Front;
      written', go, c' := written, true, c;
      for i := 0 to WINDOW
        invariant Copied(out, count, written', c') && go && written' < count
        invariant Walked(c', TickAt(windowBase + i, 0))
      {
        assert window[..][i] == window[i];
        if window[i] >= 0 {
          written', go, c' := WalkBlock(window[i], out, count, written', c', windowBase + i, windowBase + i);
          if !go {
            return;
          }
        } else {
          SkipBlocks(isBid, levels.Keys, c', windowBase + i, windowBase + i + 1);
        }
      }
    }

    // The overflow blocks in [lo, hi), highest first
    method WalkFallbackDown(lo: int, hi: int, out: array<Entry>, count: nat, written: nat, ghost c: seq<int>,
        ghost x: int)
      returns (written': nat, go: bool, ghost c': seq<int>)
      requires Valid() && isBid && out !in Repr() && 0 <= lo <= hi <= |keys|
      requires Copied(out, count, written, c) && written < count
      requires Walked(c, TickAt(x, 0))
      requires lo < hi ==> NoneBetween(dir.Keys, keys[hi - 1] + 1, x)
      requires forall id :: id in dir && lo < hi && keys[lo] <= id <= keys[hi - 1] ==> !InWindow(windowBase, id)
      modifies out
      ensures Copied(out, count, written', c')
      ensures go <==> written' < count
      ensures go ==> Walked(c', TickAt(if lo < hi then keys[lo] else x, 0))
    {
      hide BlockStore;
      hide SlotIndex;
      hide BestPrefix;
      hide Front;
      written', go, c' := written, true, c;
      ghost var xx := x;
      for it := hi downto lo
        invariant Copied(out, count, written', c') && go && written' < count
        invariant xx == if it < hi then keys[it] else x
        invariant Walked(c', TickAt(xx, 0))
      {
        assert FallbackCell(dir, windowBase, fallback[it], keys[it]);
        forall id | id in dir
          ensures id < keys[it] + 1 <==> id < xx
        {
          if it < hi - 1 && keys[it] < id < xx {
            NoKeyBetween(dir, windowBase, fallback, keys, it, id);
          }
        }
        written', go, c' := WalkBlock(fallback[it], out, count, written', c', keys[it], xx);
        if !go {
          return;
        }
        xx := keys[it];
      }
    }

    // The overflow blocks in [lo, hi), lowest first
    method WalkFallbackUp(lo: int, hi: int, out: array<Entry>, count: nat, written: nat, ghost c: seq<int>,
        ghost x: int)
      returns (written': nat, go: bool, ghost c': seq<int>)
      requires Valid() && !isBid && out !in Repr() && 0 <= lo <= hi <= |keys|
      requires Copied(out, count, written, c) && written < count
      requires Walked(c, TickAt(x, 0))
      requires lo < hi ==> NoneBetween(dir.Keys, keys[lo], x)
      requires forall id :: id in dir && lo < hi && keys[lo] <= id <= keys[hi - 1] ==> !InWindow(windowBase, id)
      modifies out
      ensures Copied(out, count, written', c')
      ensures go <==> written' < count
      ensures go ==> Walked(c', TickAt(if lo < hi then keys[hi - 1] + 1 else x, 0))
    {
      hide BlockStore;
      hide SlotIndex;
      hide BestPrefix;
      hide Front;
      written', go, c' := written, true, c;
      ghost var xx := x;
      for it := lo to hi
        invariant Copied(out, count, written', c') && go && written' < count
        invariant xx == if lo < it then keys[it - 1] + 1 else x
        invariant Walked(c', TickAt(xx, 0))
      {
        assert FallbackCell(dir, windowBase, fallback[it], keys[it]);
        forall id | id in dir
          ensures id < keys[it] <==> id < xx
        {
          if lo < it && keys[it - 1] < id < keys[it] {
            NoKeyBetween(dir, windowBase, fallback, keys, it - 1, id);
          }
        }
        written', go, c' := WalkBlock(fallback[it], out, count, written', c', keys[it], xx);
        if !go {
          return;
        }
        xx := keys[it] + 1;
      }
    }

    method ForEachBid(low: int, high: int, out: array<Entry>, count: nat) returns (written: nat, ghost c: seq<int>)
      requires Valid() && isBid && out !in Repr() && 0 < count <= out.Length
      requires SplitAt(windowBase, keys, low, high)
      modifies out
      ensures Copied(out, count, written, c)
      ensures written < count ==> |c| == |levels|
    {
      hide BlockStore;
      hide SlotIndex;
      hide WindowShows;
      hide FallbackShows;
      hide NoneBeyond;
      hide BestPrefix;
      hide Front;
      ghost var top := if high < |keys| then keys[|keys| - 1] + 1 else windowBase + WINDOW;
      SplitKeys(dir, windowBase, fallback, keys, low, high);
      written, c := 0, [];
      NothingPassed(isBid, levels.Keys, top);
      FrontIsBestPrefix(isBid, levels.Keys, c, TickAt(top, 0));
      var go;
      written, go, c := WalkFallbackDown(high, |fallback|, out, count, written, c, top);
      if !go {
        return;
      }
      SkipBlocks(isBid, levels.Keys, c, if high < |keys| then keys[high] else top, windowBase + WINDOW);
      written, go, c := WalkWindowDown(out, count, written, c);
      if !go {
        return;
      }
      written, go, c := WalkFallbackDown(0, low, out, count, written, c, windowBase);
      if !go {
        return;
      }
      EverythingPassed(isBid, levels.Keys, c, if 0 < low then keys[0] else windowBase);
      assert |levels.Keys| == |levels|;
    }

    method ForEachAsk(low: int, high: int, out: array<Entry>, count: nat) returns (written: nat, ghost c: seq<int>)
      requires Valid() && !isBid && out !in Repr() && 0 < count <= out.Length
      requires SplitAt(windowBase, keys, low, high)
      modifies out
      ensures Copied(out, count, written, c)
      ensures written < count ==> |c| == |levels|
    {
      hide BlockStore;
      hide SlotIndex;
      hide WindowShows;
      hide FallbackShows;
      hide NoneBeyond;
      hide BestPrefix;
      hide Front;
      ghost var bottom := if 0 < low then keys[0] else windowBase;
      SplitKeys(dir, windowBase, fallback, keys, low, high);
      written, c := 0, [];
      NothingPassed(isBid, levels.Keys, bottom);
      FrontIsBestPrefix(isBid, levels.Keys, c, TickAt(bottom, 0));
      var go;
      written, go, c := WalkFallbackUp(0, low, out, count, written, c, bottom);
      if !go {
        return;
      }
      SkipBlocks(isBid, levels.Keys, c, if 0 < low then keys[low - 1] + 1 else bottom, windowBase);
      written, go, c := WalkWindowUp(out, count, written, c);
      if !go {
        return;
      }
      written, go, c := WalkFallbackUp(high, |fallback|, out, count, written, c, windowBase + WINDOW);
      if !go {
        return;
      }
      EverythingPassed(isBid, levels.Keys, c, if high < |keys| then keys[|keys| - 1] + 1 else windowBase + WINDOW);
      assert |levels.Keys| == |levels|;
    }

    // Every level best first, until `count` entries are written
    method ForEachBest(out: array<Entry>, count: nat) returns (written: nat, ghost c: seq<int>)
      requires Valid() && out !in Repr() && 0 < count <= out.Length
      modifies out
      ensures Copied(out, count, written, c)
      ensures written < count ==> |c| == |levels|
    {
      hide BlockStore;
      hide SlotIndex;
      hide WindowShows;
      hide FallbackShows;
      hide NoneBeyond;
      StoredDirectory();
      DirectoryKeysMatch(dir);
      var low := FallbackFind(windowBase);
      var high := FallbackFind(windowBase + WINDOW);
      assert high < |keys| ==> windowBase + WINDOW <= keys[high];
      if isBid {
        written, c := ForEachBid(low, high, out, count);
      } else {
        written, c := ForEachAsk(low, high, out, count);
      }
    }

    /** Every stored price rounds to the tick it is filed under; a side without a tick size is empty. */
    ghost predicate Filed()
      reads this`levels, this`tickSize
    {
      if tickSize > 0 then Sound(levels, tickSize) else levels == map[]
    }

    lemma EmptyIsFiled()
      requires levels == map[]
      ensures Filed()
    {
      if tickSize > 0 { EmptySound(tickSize); }
    }

    // The best-first prefix of the map, as long as `count` and the map allow
    method Top(out: array<Entry>, count: nat) returns (written: nat, ghost c: seq<int>)
      requires Valid() && out !in Repr() && count <= out.Length
      modifies out
      ensures written == if count <= |levels| then count else |levels|
      ensures |c| == written && BestPrefix(isBid, levels.Keys, c)
      ensures forall i :: 0 <= i < written ==> c[i] in levels && out[i] == levels[c[i]]
      ensures Filed() ==> forall i, j :: 0 <= i < j < written ==>
                if isBid then out[i].price > out[j].price else out[i].price < out[j].price
    {
      hide BlockStore;
      hide SlotIndex;
      hide Placed;
      hide BestPrefix;
      hide Sound;
      written, c := 0, [];
      NoneListed(isBid, levels.Keys);
      if count == 0 {
        return;
      }
      written, c := ForEachBest(out, count);
      PrefixLength(isBid, levels.Keys, c);
      assert |levels.Keys| == |levels|;
      if tickSize > 0 && Sound(levels, tickSize) {
        forall i, j | 0 <= i < j < written
          ensures Better(isBid, out[i].price, out[j].price)
        {
          PricesInOrder(isBid, levels, tickSize, c, i, j);
        }
      }
    }

    method Apply(op: Op) returns (ok: bool)
      requires Valid() && tickSize > 0
      modifies Repr()
      ensures Valid() && tickSize == old(tickSize)
      ensures levels == Step(old(levels), op, tickSize)
      ensures ok == Accepts(old(levels), op, tickSize)
    {
      hide BlockStore;
      hide SlotIndex;
      hide Placed;
      match op {
        case Clear =>
          BlocksSized();
          Clear();
          ok := true;
        case Update(price, volume) =>
          ok := Update(price, volume);
      }
    }

    /** Any run of clears and updates, with every recentring along the way, is the same run on
        the map: each update is exactly a put, an overwrite, a removal or a refusal there. */
    method Run(ops: seq<Op>) returns (accepted: seq<bool>)
      requires Valid() && tickSize > 0
      modifies Repr()
      ensures Valid() && tickSize == old(tickSize)
      ensures levels == After(old(levels), ops, tickSize)
      ensures |accepted| == |ops|
      ensures forall k :: 0 <= k < |ops| ==>
                accepted[k] == Accepts(After(old(levels), ops[..k], tickSize), ops[k], tickSize)
    {
      hide BlockStore;
      hide SlotIndex;
      hide Placed;
      hide Step;
      hide Accepts;
      hide Valid;
      accepted := [];
      for k := 0 to |ops|
        invariant Valid() && tickSize == old(tickSize) && |accepted| == k
        invariant levels == After(old(levels), ops[..k], tickSize)
        invariant forall j :: 0 <= j < k ==>
                    accepted[j] == Accepts(After(old(levels), ops[..j], tickSize), ops[j], tickSize)
      {
        assert ops[..k + 1][..k] == ops[..k];
        var ok := Apply(ops[k]);
        accepted := accepted + [ok];
      }
      assert ops[..|ops|] == ops;
    }

    /** Whatever clears and updates an empty side has been through, its best levels come out strictly
        ordered by stored price. */
    method RunThenTop(ops: seq<Op>, out: array<Entry>, count: nat) returns (written: nat, ghost c: seq<int>)
      requires Valid() && tickSize > 0 && levels == map[]
      requires out !in Repr() && count <= out.Length
      modifies Repr(), out
      ensures Valid() && tickSize == old(tickSize) && levels == After(map[], ops, tickSize)
      ensures written == if count <= |levels| then count else |levels|
      ensures |c| == written && BestPrefix(isBid, levels.Keys, c)
      ensures forall i :: 0 <= i < written ==> c[i] in levels && out[i] == levels[c[i]]
      ensures forall i, j :: 0 <= i < j < written ==>
                if isBid then out[i].price > out[j].price else out[i].price < out[j].price
    {
      hide BlockStore;
      hide SlotIndex;
      hide Placed;
      hide Sound;
      hide After;
      hide BestPrefix;
      EmptySound(tickSize);
      RunSound(map[], ops, tickSize);
      var accepted := Run(ops);
      written, c := Top(out, count);
    }

    /** The overflow vector never outgrows its reservation of one entry per block. */
    lemma FallbackFits()
      requires Valid()
      ensures |fallback| <= 1024
    {
      DistinctCount(keys);
      var listed := set id | id in keys;
      forall id | id in listed
        ensures id in dir.Keys
      {
        var j :| 0 <= j < |keys| && keys[j] == id;
        assert FallbackCell(dir, windowBase, fallback[j], keys[j]);
      }
      CardinalityMonotone(listed, dir.Keys);
      StackHeights();
    }
  }
}
