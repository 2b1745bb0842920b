/** The queue of jobs in front of the worker pool: work_queue_new, work_queue_add and work_queue_pop of
    thrmgr.c. */
module WorkQueue {
  class WorkItem {
    const data: nat
    var next: WorkItem?

    constructor (data: nat)
      ensures this.data == data && next == null
    {
      this.data, next := data, null;
    }
  }

  ghost predicate NextAt(items: seq<WorkItem>, i: nat)
    requires i < |items|
    reads items[i]
  {
    items[i].next == if i + 1 < |items| then items[i + 1] else null
  }

  class Queue {
    var head: WorkItem?
    var tail: WorkItem?
    var itemCount: int
    ghost var items: seq<WorkItem>

    ghost predicate Valid()
      reads this, items
    {
      && head == (if items == [] then null else items[0])
      && tail == (if items == [] then null else items[|items| - 1])
      && (forall i, j :: 0 <= i < j < |items| ==> items[i] != items[j])
      && forall i {:trigger NextAt(items, i)} :: 0 <= i < |items| ==> NextAt(items, i)
    }

    ghost function Jobs(): (jobs: seq<nat>)
      reads this
      ensures |jobs| == |items|
    {
      seq(|items|, i requires 0 <= i < |items| reads this => items[i].data)
    }

    constructor ()
      ensures Valid() && Jobs() == [] && itemCount == 0
    {
      head, tail, itemCount, items := null, null, 0, [];
    }

    /** work_queue_add.  The counter is set to 1 by the first job after an empty queue. */
    method Add(data: nat)
      requires Valid()
      modifies this, items
      ensures Valid() && Jobs() == old(Jobs()) + [data]
      ensures forall n :: n in items ==> n in old(items) || fresh(n)
      ensures itemCount == if old(Jobs()) == [] then 1 else old(itemCount) + 1
    {
      ghost var was := items;
      var item := new WorkItem(data);
      if head == null {
        head, tail := item, item;
        itemCount := 1;
      } else {
        assert NextAt(was, |was| - 1);
        tail.next := item;
        tail := item;
        itemCount := itemCount + 1;
      }
      items := was + [item];
      forall i: nat | i < |items| ensures NextAt(items, i) {
        assert i < |was| ==> old(NextAt(was, i));
      }
    }

    /** work_queue_pop: the oldest job, if any.  The counter is left as it is. */
    method Pop() returns (ok: bool, data: nat)
      requires Valid()
      modifies this
      ensures Valid() && ok == (old(Jobs()) != []) && itemCount == old(itemCount)
      ensures if ok then old(Jobs()) == [data] + Jobs() else Jobs() == old(Jobs())
    {
      if head == null {
        return false, 0;
      }
      assert NextAt(items, 0);
      ghost var was := items;
      data := head.data;
      head := head.next;
      if head == null {
        tail := null;
      }
      items := was[1..];
      forall i: nat | i < |items| ensures NextAt(items, i) {
        assert old(NextAt(was, i + 1));
      }
      return true, data;
    }
  }
}
