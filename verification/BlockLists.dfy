/** Lists of placed blocks: what recentring gathers, sorts by block id, and places again. */
module BlockLists {
  import opened Collections
  import opened Placement
  import opened PriceLevels

  ghost predicate IsPlaced(dir: map<int, int>, blocks: seq<PriceLevel>, b: int)
  {
    0 <= b < |blocks| && blocks[b].blockId in dir && dir[blocks[b].blockId] == b
  }

  // Every placed block, each once
  ghost predicate ListsPlaced(dir: map<int, int>, blocks: seq<PriceLevel>, list: seq<int>)
  {
    && Distinct(list)
    && (forall b :: b in list ==> IsPlaced(dir, blocks, b))
    && (forall id :: id in dir ==> dir[id] in list)
  }

  predicate InBounds(blocks: seq<PriceLevel>, list: seq<int>)
  {
    forall k :: 0 <= k < |list| ==> 0 <= list[k] < |blocks|
  }

  lemma PlacedInBounds(dir: map<int, int>, blocks: seq<PriceLevel>, list: seq<int>)
    requires ListsPlaced(dir, blocks, list)
    ensures InBounds(blocks, list)
  {
    forall k | 0 <= k < |list|
      ensures 0 <= list[k] < |blocks|
    {
      assert IsPlaced(dir, blocks, list[k]);
    }
  }

  ghost predicate SortedById(blocks: seq<PriceLevel>, list: seq<int>)
    requires InBounds(blocks, list)
  {
    forall i, j :: 0 <= i < j < |list| ==> blocks[list[i]].blockId <= blocks[list[j]].blockId
  }

  // std::sort by block id
  function SortById(blocks: seq<PriceLevel>, list: seq<int>): (r: seq<int>)
    requires InBounds(blocks, list)
    ensures InBounds(blocks, r) && SortedById(blocks, r)
    ensures multiset(r) == multiset(list)
  {
    if list == [] then []
    else
      assert list == list[..|list| - 1] + [list[|list| - 1]];
      InsertById(blocks, SortById(blocks, list[..|list| - 1]), list[|list| - 1])
  }

  function InsertById(blocks: seq<PriceLevel>, list: seq<int>, b: int): (r: seq<int>)
    requires InBounds(blocks, list) && SortedById(blocks, list) && 0 <= b < |blocks|
    ensures InBounds(blocks, r) && SortedById(blocks, r)
    ensures multiset(r) == multiset(list) + multiset{b}
  {
    if list == [] then [b]
    else
      var n := |list| - 1;
      assert list == list[..n] + [list[n]];
      if blocks[list[n]].blockId <= blocks[b].blockId then
        AppendSorted(blocks, list, b);
        list + [b]
      else
        var init := InsertById(blocks, list[..n], b);
        AllBelow(blocks, list, init, b);
        AppendSorted(blocks, init, list[n]);
        init + [list[n]]
  }

  lemma AppendSorted(blocks: seq<PriceLevel>, list: seq<int>, b: int)
    requires InBounds(blocks, list) && SortedById(blocks, list) && 0 <= b < |blocks|
    requires forall k :: 0 <= k < |list| ==> blocks[list[k]].blockId <= blocks[b].blockId
    ensures InBounds(blocks, list + [b]) && SortedById(blocks, list + [b])
    ensures multiset(list + [b]) == multiset(list) + multiset{b}
  {
  }

  lemma AllBelow(blocks: seq<PriceLevel>, list: seq<int>, init: seq<int>, b: int)
    requires InBounds(blocks, list) && SortedById(blocks, list) && 0 <= b < |blocks| && |list| > 0
    requires InBounds(blocks, init) && multiset(init) == multiset(list[..|list| - 1]) + multiset{b}
    requires blocks[b].blockId < blocks[list[|list| - 1]].blockId
    ensures forall k :: 0 <= k < |init| ==> blocks[init[k]].blockId <= blocks[list[|list| - 1]].blockId
  {
    forall k | 0 <= k < |init|
      ensures blocks[init[k]].blockId <= blocks[list[|list| - 1]].blockId
    {
      assert init[k] in multiset(init);
      if init[k] != b { assert init[k] in list[..|list| - 1]; }
    }
  }

  lemma {:induction false} DistinctOccurOnce(s: seq<int>)
    ensures Distinct(s) <==> forall x :: x in s ==> multiset(s)[x] == 1
  {
    if s != [] {
      var n := |s| - 1;
      assert s == s[..n] + [s[n]];
      DistinctOccurOnce(s[..n]);
      if Distinct(s) {
        assert s[n] !in s[..n];
        assert Distinct(s[..n]);
      } else if forall x :: x in s ==> multiset(s)[x] == 1 {
        assert multiset(s)[s[n]] == 1;
        assert s[n] !in s[..n];
        forall x | x in s[..n]
          ensures multiset(s[..n])[x] == 1
        {
          assert x in s;
        }
      }
    }
  }

  lemma PermutedList(dir: map<int, int>, blocks: seq<PriceLevel>, list: seq<int>, list': seq<int>)
    requires ListsPlaced(dir, blocks, list) && multiset(list') == multiset(list)
    ensures ListsPlaced(dir, blocks, list')
  {
    DistinctOccurOnce(list);
    DistinctOccurOnce(list');
    forall b
      ensures b in list' <==> b in list
    {
      assert b in list' <==> b in multiset(list');
      assert b in list <==> b in multiset(list);
    }
  }

  ghost predicate DirectoryOf(dir: map<int, int>, blocks: seq<PriceLevel>)
  {
    forall id :: id in dir ==> 0 <= dir[id] < |blocks| && blocks[dir[id]].blockId == id
  }

  /** The window's blocks followed by the overflow vector's are every placed block, each once. */
  lemma GatheredAll(dir: map<int, int>, blocks: seq<PriceLevel>, base: int, cells: seq<int>, windowBlocks: int,
                    fallback: seq<int>, keys: seq<int>, ids: seq<int>, list: seq<int>)
    requires DirectoryOf(dir, blocks) && Placed(dir, base, cells, windowBlocks, fallback, keys)
    requires ids == WindowIds(cells, base, WINDOW) && StrictlySorted(ids)
    requires forall id :: id in ids <==> InWindow(base, id) && cells[id - base] >= 0
    requires |list| == |ids| + |fallback| && list[|ids|..] == fallback
    requires forall k :: 0 <= k < |ids| ==> InWindow(base, ids[k]) && list[k] == cells[ids[k] - base]
    ensures ListsPlaced(dir, blocks, list)
  {
    var all := ids + keys;
    forall k | 0 <= k < |all|
      ensures all[k] in dir && list[k] == dir[all[k]] && IsPlaced(dir, blocks, list[k])
    {
      if k < |ids| {
        assert ids[k] in ids && cells[ids[k] - base] == if ids[k] in dir then dir[ids[k]] else -1;
      } else {
        assert FallbackCell(dir, base, fallback[k - |ids|], keys[k - |ids|]);
      }
    }
    forall i, j | 0 <= i < j < |all|
      ensures list[i] != list[j]
    {
      if i < |ids| <= j {
        assert ids[i] in ids && FallbackCell(dir, base, fallback[j - |ids|], keys[j - |ids|]);
      }
      assert all[i] != all[j];
    }
    forall id | id in dir
      ensures dir[id] in list
    {
      assert id in all by {
        if InWindow(base, id) { assert cells[id - base] == dir[base + (id - base)]; }
      }
      var k :| 0 <= k < |all| && all[k] == id;
      assert list[k] == dir[id];
    }
  }

  // Progress of placing a list again: the ids of its first k blocks are shown
  ghost predicate ShownSoFar(dir: map<int, int>, blocks: seq<PriceLevel>, list: seq<int>, shown: map<int, int>, k: int)
  {
    && 0 <= k <= |list|
    && InBounds(blocks, list)
    && (forall id :: id in shown ==> id in dir && shown[id] == dir[id] && dir[id] in list[..k])
    && (forall j :: 0 <= j < k ==> blocks[list[j]].blockId in shown)
  }

  lemma ShowNext(dir: map<int, int>, blocks: seq<PriceLevel>, list: seq<int>, shown: map<int, int>, k: int)
    requires ListsPlaced(dir, blocks, list) && ShownSoFar(dir, blocks, list, shown, k) && k < |list|
    ensures blocks[list[k]].blockId !in shown
    ensures ShownSoFar(dir, blocks, list, shown[blocks[list[k]].blockId := list[k]], k + 1)
  {
    var id := blocks[list[k]].blockId;
    assert IsPlaced(dir, blocks, list[k]);
    assert list[k] !in list[..k];
    assert list[..k + 1] == list[..k] + [list[k]];
  }

  lemma ShownEverything(dir: map<int, int>, blocks: seq<PriceLevel>, list: seq<int>, shown: map<int, int>)
    requires DirectoryOf(dir, blocks) && ListsPlaced(dir, blocks, list)
    requires ShownSoFar(dir, blocks, list, shown, |list|)
    ensures shown == dir
  {
    forall id | id in dir
      ensures id in shown
    {
      assert dir[id] in list;
      var j :| 0 <= j < |list| && list[j] == dir[id];
      assert blocks[list[j]].blockId == id;
    }
    SameMap(shown, dir);
  }
}
