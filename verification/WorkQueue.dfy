/**
 The linked work queue under the pool: head, tail and item_count are updated in place.
 */
module WorkQueue {

  type Job = int

  class Item {
    const data: Job
    var next: Item?

    constructor (data: Job)
      ensures this.data == data && next == null
    {
      this.data := data;
      next := null;
    }
  }

  ghost function Data(items: seq<Item>): seq<Job>
  {
    seq(|items|, i requires 0 <= i < |items| => items[i].data)
  }

  class Queue {
    var head: Item?
    var tail: Item?
    var itemCount: int
    ghost var items: seq<Item>

    ghost predicate Valid()
      reads this, items
    {
      && itemCount == |items|
      && (forall i, j :: 0 <= i < j < |items| ==> items[i] != items[j])
      && (forall i :: 0 <= i < |items| ==> items[i].next == ItemAt(i + 1))
      && head == ItemAt(0)
      && tail == ItemAt(|items| - 1)
    }

    ghost function ItemAt(i: int): Item?
      reads this
    {
      if 0 <= i < |items| then items[i] else null
    }

    /** The queued jobs, oldest first. */
    ghost function Contents(): seq<Job>
      reads this
    {
      Data(items)
    }

    constructor ()
      ensures Valid() && Contents() == []
    {
      head, tail, itemCount, items := null, null, 0, [];
    }

    /** `memory` says whether malloc gave memory for the new item. */
    method Add(data: Job, memory: bool) returns (ok: bool)
      requires Valid()
      modifies this, items
      ensures Valid() && ok == memory
      ensures fresh(set x | x in items && x !in old(items))
      ensures Contents() == if ok then old(Contents()) + [data] else old(Contents())
    {
      if !memory {
        return false;
      }
      var item := new Item(data);
      if head == null {
        head, tail, itemCount := item, item, 1;
      } else {
        tail.next := item;
        tail, itemCount := item, itemCount + 1;
      }
      items := items + [item];
      assert Data(items) == Data(old(items)) + [data];
      return true;
    }

    method Pop() returns (ok: bool, data: Job)
      requires Valid()
      modifies this
      ensures Valid() && ok == (old(Contents()) != [])
      ensures ok ==> [data] + Contents() == old(Contents()) && items == old(items)[1..]
      ensures !ok ==> Contents() == old(Contents()) && items == old(items)
    {
      if head == null {
        return false, 0;
      }
      data := head.data;
      head, itemCount := head.next, itemCount - 1;
      if head == null {
        tail := null;
      }
      items := items[1..];
      assert forall i :: 0 <= i < |items| ==> items[i] == old(items)[i + 1];
      assert [data] + Data(items) == Data(old(items));
      ok := true;
    }

    /** The loop of `work_queue_free` ends: it stops on item_count, which is the length. */
    method Free()
      requires Valid()
      modifies this
      ensures Valid() && Contents() == [] && head == null && tail == null
    {
      while itemCount != 0
        invariant Valid()
        invariant items == old(items)[|old(items)| - |items|..] && |items| <= |old(items)|
        decreases |items|
      {
        var ok, data := Pop();
      }
    }
  }
}
