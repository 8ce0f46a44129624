/**
 The task structure of sched/task.h and the LIST macros of sys/queue.h that thread it: a head holds only the first
 link, and an element's back reference is the address of the link that reaches it.
 */
module TaskList {
  import opened Links
  import opened Words

  class Task {
    var eip: uint32
    var esp: uint32
    var ebp: uint32
    var stackStart: uint32
    var id: uint32
    var ticks: uint32
    var next: Task?
    var prev: Link

    /** task_new: every field zero. */
    constructor ()
      ensures eip == esp == ebp == stackStart == id == ticks == 0 && next == null && prev == NoLink
    {
      eip, esp, ebp, stackStart, id, ticks := 0, 0, 0, 0, 0, 0;
      next := null;
      prev := NoLink;
    }
  }

  ghost function Fields(s: seq<Task>): (m: map<Task, Cell>)
    reads s`next, s`prev
    ensures forall e :: e in s ==> e in m && m[e] == Cell(e.next, e.prev)
  {
    map e | e in s :: Cell(e.next, e.prev)
  }

  class TaskQueue {
    var first: Task?
    /** The tasks, front to back. */
    ghost var elems: seq<Task>

    ghost predicate Valid()
      reads this, elems`next, elems`prev
    {
      Listed(this, elems, Fields(elems), first)
    }

    /** LIST_INIT. */
    constructor ()
      ensures Valid() && elems == []
    {
      first := null;
      elems := [];
    }

    lemma Front()
      requires Valid()
      ensures first == Nth(elems, 0)
    {
    }

    lemma ValidIs()
      ensures Valid() <==> Listed(this, elems, Fields(elems), first)
    {
    }

    /** Two queues share no element. */
    lemma Apart(head2: TaskQueue)
      requires Valid() && head2.Valid() && this != head2
      ensures forall e :: e in elems ==> e !in head2.elems
    {
      hide Chained, NoDup;
      ListsApart(this, head2, elems, head2.elems, Fields(elems), Fields(head2.elems));
    }

    /** What the fields around position i hold. */
    lemma At(i: nat)
      requires Valid() && i < |elems|
      ensures elems[i].next == Nth(elems, i + 1) && elems[i].prev == LinkTo(this, elems, i)
      ensures forall j :: 0 <= j < |elems| && j != i ==> elems[j] != elems[i]
    {
      assert Fields(elems)[elems[i]] == Cell(elems[i].next, elems[i].prev);
    }

    /** LIST_INSERT_HEAD. */
    method InsertHead(elm: Task)
      requires Valid() && elm !in elems
      modifies this, elems`prev, elm`next, elm`prev
      ensures Valid() && elems == Inserted(old(elems), 0, elm)
    {
      hide Listed, Inserted;
      ghost var s, m := elems, Fields(elems);
      Front();
      elm.next := first;
      if elm.next != null {
        first.prev := NextOf(elm);
      }
      first := elm;
      elm.prev := FirstOf(this);
      InsertedHas(s, 0, elm);
      elems := Inserted(s, 0, elm);
      InsertListed(this, s, 0, elm, m, Fields(elems), old(first), first);
    }

    /** LIST_INSERT_AFTER, which does without the head. */
    method InsertAfter(listelm: Task, elm: Task, ghost i: nat)
      requires Valid() && elm !in elems && i < |elems| && elems[i] == listelm
      modifies `elems, elems`next, elems`prev, elm`next, elm`prev
      ensures Valid() && elems == Inserted(old(elems), i + 1, elm)
    {
      hide Listed, Inserted;
      ghost var s, m := elems, Fields(elems);
      Front();
      At(i);
      elm.next := listelm.next;
      if elm.next != null {
        listelm.next.prev := NextOf(elm);
      }
      listelm.next := elm;
      elm.prev := NextOf(listelm);
      InsertedHas(s, i + 1, elm);
      elems := Inserted(s, i + 1, elm);
      InsertListed(this, s, i + 1, elm, m, Fields(elems), old(first), first);
    }

    /** LIST_INSERT_BEFORE, which does without the head. */
    method InsertBefore(listelm: Task, elm: Task, ghost i: nat)
      requires Valid() && elm !in elems && i < |elems| && elems[i] == listelm
      modifies this, elems`next, elems`prev, elm`next, elm`prev
      ensures Valid() && elems == Inserted(old(elems), i, elm)
    {
      hide Listed, Inserted;
      ghost var s, m := elems, Fields(elems);
      Front();
      At(i);
      elm.prev := listelm.prev;
      elm.next := listelm;
      match listelm.prev {
        case FirstOf(h) => (h as TaskQueue).first := elm;
        case NextOf(e) => (e as Task).next := elm;
      }
      listelm.prev := NextOf(elm);
      InsertedHas(s, i, elm);
      elems := Inserted(s, i, elm);
      InsertListed(this, s, i, elm, m, Fields(elems), old(first), first);
    }

    /** LIST_REMOVE, which does without the head. */
    method Remove(elm: Task, ghost i: nat)
      requires Valid() && i < |elems| && elems[i] == elm
      modifies this, elems`next, elems`prev
      ensures Valid() && elems == Removed(old(elems), i)
    {
      hide Listed, Removed;
      ghost var s, m := elems, Fields(elems);
      Front();
      At(i);
      if elm.next != null {
        elm.next.prev := elm.prev;
      }
      match elm.prev {
        case FirstOf(h) => (h as TaskQueue).first := elm.next;
        case NextOf(e) => (e as Task).next := elm.next;
      }
      RemovedHas(s, i);
      elems := Removed(s, i);
      RemoveListed(this, s, i, m, Fields(elems), old(first), first);
    }

    /** The walk of LIST_CONCAT to the last task. */
    method LastTask() returns (curelm: Task)
      requires Valid() && first != null
      ensures elems != [] && curelm == elems[|elems| - 1]
    {
      hide Listed;
      Front();
      curelm := first;
      ghost var i: nat := 0;
      At(i);
      while curelm.next != null
        invariant i < |elems| && elems[i] == curelm && curelm.next == Nth(elems, i + 1)
        decreases |elems| - i
      {
        curelm := curelm.next;
        i := i + 1;
        At(i);
      }
    }

    /** The writes of LIST_CONCAT onto an empty list, before it empties head2. */
    method GraftFirst(head2: TaskQueue)
      requires Valid() && head2.Valid() && this != head2 && forall e :: e in elems ==> e !in head2.elems
      requires head2.first != null && first == null
      modifies this, elems`next, head2.elems`prev
      ensures head2.elems == old(head2.elems) != [] && elems == Joined(old(elems), head2.elems)
      ensures first == head2.first
      ensures ConcatWrites(old(elems), LinkTo(this, old(elems), |old(elems)|), head2.elems,
                           old(Fields(elems)), old(Fields(head2.elems)), Fields(elems))
    {
      hide Listed, Joined;
      ghost var s, u := elems, head2.elems;
      Front();
      head2.Front();
      assert u != [] && u[0] == head2.first && u[0] !in s;
      first := head2.first;
      head2.first.prev := FirstOf(this);
      JoinedHas(s, u);
      elems := Joined(s, u);
    }

    /** The writes of LIST_CONCAT behind the last task, before it empties head2. */
    method GraftBehind(head2: TaskQueue, curelm: Task)
      requires Valid() && head2.Valid() && this != head2 && forall e :: e in elems ==> e !in head2.elems
      requires head2.first != null && elems != [] && curelm == elems[|elems| - 1]
      modifies `elems, curelm`next, head2.elems`prev
      ensures head2.elems == old(head2.elems) != [] && elems == Joined(old(elems), head2.elems)
      ensures ConcatWrites(old(elems), LinkTo(this, old(elems), |old(elems)|), head2.elems,
                           old(Fields(elems)), old(Fields(head2.elems)), Fields(elems))
    {
      hide Listed, Joined;
      ghost var s, u := elems, head2.elems;
      Front();
      head2.Front();
      assert u != [] && u[0] == head2.first && u[0] !in s;
      curelm.next := head2.first;
      head2.first.prev := NextOf(curelm);
      JoinedHas(s, u);
      elems := Joined(s, u);
    }

    /** LIST_CONCAT, which walks to the end of the first list. */
    method Concat(head2: TaskQueue)
      requires Valid() && head2.Valid() && this != head2
      modifies this, elems`next, head2, head2.elems`prev
      ensures Valid() && head2.Valid() && elems == Joined(old(elems), old(head2.elems)) && head2.elems == []
    {
      hide Listed, Joined, ConcatWrites;
      ghost var s, u, m, n := elems, head2.elems, Fields(elems), Fields(head2.elems);
      Apart(head2);
      Front();
      head2.Front();
      if head2.first != null {
        if first == null {
          GraftFirst(head2);
        } else {
          var curelm := LastTask();
          GraftBehind(head2, curelm);
        }
        ConcatListed(this, head2, s, u, m, n, Fields(elems), old(first), old(head2.first), first);
        head2.Clear();
      } else {
        JoinedEmpty(s);
      }
    }

    /** LIST_INIT on an existing head. */
    method Clear()
      modifies this
      ensures Valid() && elems == []
    {
      first := null;
      elems := [];
    }

    /** Repairs what LIST_SWAP has just copied from the head h. */
    method Repair(ghost h: TaskQueue)
      requires Listed(h, elems, Fields(elems), first)
      modifies elems`prev
      ensures Valid()
    {
      hide Listed;
      ghost var m := Fields(elems);
      ListFront(h, elems, m, first);
      if first != null {
        first.prev := FirstOf(this);
      }
      MovedListed(h, this, elems, m, Fields(elems), first);
    }

    /** LIST_SWAP. */
    method Swap(head2: TaskQueue)
      requires Valid() && head2.Valid() && this != head2
      modifies this, elems`prev, head2, head2.elems`prev
      ensures Valid() && head2.Valid() && elems == old(head2.elems) && head2.elems == old(elems)
    {
      hide Valid, Listed;
      ValidIs();
      head2.ValidIs();
      Apart(head2);
      ghost var s, u := elems, head2.elems;
      first, head2.first := head2.first, first;
      elems, head2.elems := u, s;
      Repair(head2);
      head2.Repair(this);
    }

    /** LIST_PREV. */
    method Prev(elm: Task, ghost i: nat) returns (e: Task?)
      requires Valid() && i < |elems| && elems[i] == elm
      ensures e == if i == 0 then null else elems[i - 1]
    {
      At(i);
      if elm.prev == FirstOf(this) {
        e := null;
      } else {
        e := elm.prev.e as Task;
      }
    }
  }
}
