/**
 The free-list pool under the XML nodes: fixed-size items, taken from blocks that are
 threaded into a linked free list.
 */
module MemPool {

  /** While an item is free, its first bytes are the link to the next free one. */
  class Item {
    var next: Item?

    constructor ()
      ensures next == null
    {
      next := null;
    }
  }

  ghost predicate Distinct(items: seq<Item>) { forall i, j :: 0 <= i < j < |items| ==> items[i] != items[j] }

  /** `items` are linked in this order, the last one to `end`. */
  ghost predicate Linked(items: seq<Item>, end: Item?)
    reads items
  {
    forall i :: 0 <= i < |items| ==> items[i].next == At(items, i + 1, end)
  }

  ghost function At(items: seq<Item>, i: nat, end: Item?): Item? { if i < |items| then items[i] else end }

  /** A new block: its items are linked in order. */
  method NewBlock(n: nat) returns (items: seq<Item>)
    ensures |items| == n && Distinct(items) && Linked(items, null) && forall x <- items :: fresh(x)
  {
    items := [];
    while |items| < n
      invariant |items| <= n && Distinct(items) && forall x <- items :: fresh(x) && x.next == null
    {
      var x := new Item();
      items := items + [x];
    }
    var i := 0;
    while i < n - 1
      invariant 0 <= i <= n
      invariant forall x <- items :: fresh(x)
      invariant forall k :: 0 <= k < i ==> items[k].next == At(items, k + 1, null)
      invariant forall k :: i <= k < n ==> items[k].next == null
    {
      assert items[i] in items;
      items[i].next := items[i + 1];
      i := i + 1;
    }
  }

  /** Link an item in front of a free list. */
  method Push(item: Item, root: Item?, ghost free: seq<Item>)
    requires Linked(free, null) && Distinct(free) && item !in free && root == At(free, 0, null)
    modifies item
    ensures Linked([item] + free, null) && Distinct([item] + free)
  {
    assert forall i :: 0 <= i < |free| ==> free[i] in free;
    item.next := root;
    assert forall i :: 1 <= i < |[item] + free| ==> ([item] + free)[i] == free[i - 1];
  }

  /** Without its first item, a free list is still one. */
  lemma RestLinked(items: seq<Item>)
    requires items != [] && Linked(items, null) && Distinct(items)
    ensures Linked(items[1..], null) && Distinct(items[1..]) && items[0] !in items[1..]
    ensures items[0].next == At(items[1..], 0, null)
  {
    assert items[0].next == At(items, 1, null);
    var rest := items[1..];
    forall i | 0 <= i < |rest|
      ensures rest[i].next == At(rest, i + 1, null)
      ensures rest[i] != items[0]
    {
      assert rest[i] == items[i + 1] && items[i + 1].next == At(items, i + 2, null);
    }
    forall i, j | 0 <= i < j < |rest|
      ensures rest[i] != rest[j]
    {
      assert rest[i] == items[i + 1] && rest[j] == items[j + 1];
    }
  }

  ghost predicate InBlock(blocks: seq<seq<Item>>, x: Item) { exists b <- blocks :: x in b }

  /** Live and free items come from the blocks, and together they are all their items. */
  ghost predicate FromBlocks(live: set<Item>, free: seq<Item>, blocks: seq<seq<Item>>, itemsPerBlock: nat,
                             current: int, max: int, n: int)
  {
    && |live| + |free| == |blocks| * itemsPerBlock && current == |live| && current <= max <= n
    && (forall x <- live :: InBlock(blocks, x)) && forall x <- free :: InBlock(blocks, x)
  }

  lemma BlocksTake(live: set<Item>, free: seq<Item>, blocks: seq<seq<Item>>, itemsPerBlock: nat, current: int, max: int, n: int)
    requires FromBlocks(live, free, blocks, itemsPerBlock, current, max, n) && free != [] && free[0] !in live
    ensures FromBlocks(live + {free[0]}, free[1..], blocks, itemsPerBlock,
                   current + 1, if current + 1 > max then current + 1 else max, n + 1)
  {
  }

  lemma BlocksFree(live: set<Item>, free: seq<Item>, item: Item, blocks: seq<seq<Item>>, itemsPerBlock: nat,
                   current: int, max: int, n: int)
    requires FromBlocks(live, free, blocks, itemsPerBlock, current, max, n) && item in live
    ensures FromBlocks(live - {item}, [item] + free, blocks, itemsPerBlock, current - 1, max, n)
  {
  }

  lemma BlocksAdd(live: set<Item>, block: seq<Item>, blocks: seq<seq<Item>>, itemsPerBlock: nat, current: int, max: int, n: int)
    requires FromBlocks(live, [], blocks, itemsPerBlock, current, max, n) && |block| == itemsPerBlock
    ensures FromBlocks(live, block, blocks + [block], itemsPerBlock, current, max, n)
  {
    assert (|blocks| + 1) * itemsPerBlock == |blocks| * itemsPerBlock + itemsPerBlock;
    assert block in blocks + [block] && forall b <- blocks :: b in blocks + [block];
    forall x <- live
      ensures InBlock(blocks + [block], x)
    {
      assert InBlock(blocks, x);
    }
  }

  class Pool {
    const itemsPerBlock: nat
    var blocks: seq<seq<Item>>
    var root: Item?
    var currentAllocs: int
    var nAllocs: int
    var maxAllocs: int
    var nUntracked: int

    ghost var free: seq<Item>
    ghost var live: set<Item>

    ghost predicate Valid()
      reads this, free
    {
      && itemsPerBlock > 0
      && root == At(free, 0, null)
      && Linked(free, null) && Distinct(free)
      && (forall x :: x in free ==> x !in live)
      && FromBlocks(live, free, blocks, itemsPerBlock, currentAllocs, maxAllocs, nAllocs)
    }

    constructor (itemSize: nat)
      requires 0 < itemSize <= 4 * 1024
      ensures Valid() && live == {} && free == [] && blocks == [] && itemsPerBlock == 4 * 1024 / itemSize
    {
      itemsPerBlock := 4 * 1024 / itemSize;
      blocks, root, free, live := [], null, [], {};
      currentAllocs, nAllocs, maxAllocs, nUntracked := 0, 0, 0, 0;
    }

    method AddBlock()
      requires Valid() && free == []
      modifies this
      ensures Valid() && free != [] && |free| == itemsPerBlock && (forall x <- free :: fresh(x))
      ensures live == old(live) && |blocks| == |old(blocks)| + 1
      ensures currentAllocs == old(currentAllocs) && nUntracked == old(nUntracked)
    {
      hide FromBlocks;
      var block := NewBlock(itemsPerBlock);
      BlocksAdd(live, block, blocks, itemsPerBlock, currentAllocs, maxAllocs, nAllocs);
      blocks := blocks + [block];
      free, root := block, block[0];
    }

    /** An item that was not live becomes live; every other live item stays untouched. */
    method Alloc() returns (item: Item)
      requires Valid()
      modifies this
      ensures Valid()
      ensures item !in old(live) && live == old(live) + {item}
      ensures if old(free) != [] then item == old(free)[0] && free == old(free)[1..] && blocks == old(blocks)
              else fresh(item) && (forall x <- free :: fresh(x)) && |blocks| == |old(blocks)| + 1
                   && |free| == itemsPerBlock - 1
      ensures nUntracked == old(nUntracked) + 1
    {
      hide FromBlocks, Linked, Distinct;
      if root == null {
        AddBlock();
        assert forall x <- free :: fresh(x);
      }
      ghost var rest := free[1..];
      assert free[0] in free && forall x <- rest :: x in free;
      item := Take();
    }

    method Take() returns (item: Item)
      requires Valid() && free != []
      modifies this
      ensures Valid()
      ensures item == old(free)[0] && free == old(free)[1..] && blocks == old(blocks)
      ensures item !in old(live) && live == old(live) + {item} && nUntracked == old(nUntracked) + 1
    {
      hide FromBlocks, Linked, Distinct;
      item := root;
      RestLinked(free);
      ghost var rest := free[1..];
      assert item in free && (forall x <- rest :: x in free) && item !in rest;
      BlocksTake(live, free, blocks, itemsPerBlock, currentAllocs, maxAllocs, nAllocs);
      root, free, live := item.next, rest, live + {item};
      currentAllocs, nAllocs, nUntracked := currentAllocs + 1, nAllocs + 1, nUntracked + 1;
      if currentAllocs > maxAllocs {
        maxAllocs := currentAllocs;
      }
    }

    /** A live item goes to the front of the free list. */
    method Free(item: Item?)
      requires Valid() && (item != null ==> item in live)
      modifies this, item
      ensures Valid()
      ensures item == null ==> live == old(live) && free == old(free)
      ensures item != null ==> live == old(live) - {item} && free == [item] + old(free)
      ensures blocks == old(blocks) && nUntracked == old(nUntracked)
    {
      hide FromBlocks, Linked, Distinct;
      if item == null {
        return;
      }
      BlocksFree(live, free, item, blocks, itemsPerBlock, currentAllocs, maxAllocs, nAllocs);
      Push(item, root, free);
      currentAllocs := currentAllocs - 1;
      root := item;
      free, live := [item] + free, live - {item};
    }

    method SetTracked()
      requires Valid()
      modifies this`nUntracked
      ensures Valid() && nUntracked == old(nUntracked) - 1
    {
      nUntracked := nUntracked - 1;
    }

    method Clear()
      requires Valid()
      modifies this
      ensures Valid() && blocks == [] && live == {} && free == [] && nUntracked == 0
    {
      while |blocks| > 0
        invariant unchanged(this`live) && unchanged(this`free)
        decreases |blocks|
      {
        blocks := blocks[..|blocks| - 1];
      }
      root, currentAllocs, nAllocs, maxAllocs, nUntracked := null, 0, 0, 0, 0;
      free, live := [], {};
    }
  }
}
