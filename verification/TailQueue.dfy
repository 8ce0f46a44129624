/**
 The TAILQ macros of sys/queue.h. A back reference is not a pointer to the previous element but the address of the
 field that points here; TAILQ_PREV and TAILQ_LAST exploit that an element's two link fields are laid out like a head.
 */
module TailQueue {
  import opened Links

  class Elem {
    var next: Elem?
    var prev: Link

    constructor ()
      ensures next == null && prev == NoLink
    {
      next := null;
      prev := NoLink;
    }
  }

  /** The address of a tqh_first or of a tqe_next. */
  predicate IsAddress(l: Link) {
    match l
    case NoLink => false
    case FirstOf(h) => h is Head
    case NextOf(e) => e is Elem
  }

  /** *l */
  function Deref(l: Link): Elem?
    requires IsAddress(l)
    reads Holder(l)
  {
    match l
    case FirstOf(h) => (h as Head).first
    case NextOf(e) => (e as Elem).next
  }

  /** ((struct headname *) l)->tqh_last: the second field of the structure whose first field is at l. */
  function LastField(l: Link): Link
    requires IsAddress(l)
    reads Holder(l)
  {
    match l
    case FirstOf(h) => (h as Head).last
    case NextOf(e) => (e as Elem).prev
  }

  ghost function Fields(s: seq<Elem>): (m: map<Elem, Cell>)
    reads s
    ensures forall e :: e in s ==> e in m && m[e] == Cell(e.next, e.prev)
  {
    map e | e in s :: Cell(e.next, e.prev)
  }

  class Head {
    var first: Elem?
    var last: Link
    /** The elements of the queue, front to back. */
    ghost var elems: seq<Elem>

    ghost predicate Valid()
      reads this, elems
    {
      Linked(this, elems, Fields(elems), first, last)
    }

    /** TAILQ_INIT. */
    constructor ()
      ensures Valid() && elems == []
    {
      first := null;
      last := FirstOf(this);
      elems := [];
    }

    /** What the head's fields hold, seen from either end. */
    lemma Ends()
      requires Valid()
      ensures first == Nth(elems, 0) && last == LinkTo(this, elems, |elems|)
    {
    }

    lemma ValidIs()
      ensures Valid() <==> Linked(this, elems, Fields(elems), first, last)
    {
    }

    /** Two queues share no element. */
    lemma Apart(head2: Head)
      requires Valid() && head2.Valid() && this != head2
      ensures forall e :: e in elems ==> e !in head2.elems
    {
      hide Chained, NoDup;
      ListsApart(this, head2, elems, head2.elems, Fields(elems), Fields(head2.elems));
    }

    /** What the fields around position i hold. */
    lemma At(i: nat)
      requires Valid() && i < |elems|
      ensures elems[i].next == Nth(elems, i + 1) && elems[i].prev == LinkTo(this, elems, i)
      ensures i + 1 < |elems| ==> elems[i + 1] != elems[i] && elems[i + 1].prev == NextOf(elems[i])
      ensures i > 0 ==> elems[i - 1] != elems[i] && elems[i - 1].next == elems[i] && elems[i - 1].prev == LinkTo(this, elems, i - 1)
    {
      var m := Fields(elems);
      assert m[elems[i]] == Cell(elems[i].next, elems[i].prev);
      assert i + 1 < |elems| ==> m[elems[i + 1]] == Cell(elems[i + 1].next, elems[i + 1].prev);
      assert i > 0 ==> m[elems[i - 1]] == Cell(elems[i - 1].next, elems[i - 1].prev);
    }

    /** TAILQ_INSERT_HEAD. */
    method InsertHead(elm: Elem)
      requires Valid() && elm !in elems
      modifies this, elems, elm
      ensures Valid() && elems == Inserted(old(elems), 0, elm)
    {
      hide Linked, Inserted, Removed;
      ghost var s, m := elems, Fields(elems);
      Ends();
      elm.next := first;
      if first != null {
        first.prev := NextOf(elm);
      } else {
        last := NextOf(elm);
      }
      first := elm;
      elm.prev := FirstOf(this);
      InsertedHas(s, 0, elm);
      elems := Inserted(s, 0, elm);
      InsertLinked(this, s, 0, elm, m, Fields(elems), old(first), old(last), first, last);
    }

    /** TAILQ_INSERT_TAIL. */
    method InsertTail(elm: Elem)
      requires Valid() && elm !in elems
      modifies this, elems, elm
      ensures Valid() && elems == Inserted(old(elems), |old(elems)|, elm)
    {
      hide Linked, Inserted, Removed;
      ghost var s, m := elems, Fields(elems);
      Ends();
      elm.next := null;
      elm.prev := last;
      match last {
        case FirstOf(h) => (h as Head).first := elm;
        case NextOf(e) => (e as Elem).next := elm;
      }
      last := NextOf(elm);
      InsertedHas(s, |s|, elm);
      elems := Inserted(s, |s|, elm);
      InsertLinked(this, s, |s|, elm, m, Fields(elems), old(first), old(last), first, last);
    }

    /** TAILQ_INSERT_AFTER. */
    method InsertAfter(listelm: Elem, elm: Elem, ghost i: nat)
      requires Valid() && elm !in elems && i < |elems| && elems[i] == listelm
      modifies this, elems, elm
      ensures Valid() && elems == Inserted(old(elems), i + 1, elm)
    {
      hide Linked, Inserted, Removed, Valid;
      ghost var s, m := elems, Fields(elems);
      ValidIs();
      Ends();
      At(i);
      elm.next := listelm.next;
      if listelm.next != null {
        elm.next.prev := NextOf(elm);
      } else {
        last := NextOf(elm);
      }
      listelm.next := elm;
      elm.prev := NextOf(listelm);
      InsertedHas(s, i + 1, elm);
      elems := Inserted(s, i + 1, elm);
      InsertLinked(this, s, i + 1, elm, m, Fields(elems), old(first), old(last), first, last);
      ValidIs();
    }

    /** TAILQ_INSERT_BEFORE, which does without the head. */
    method InsertBefore(listelm: Elem, elm: Elem, ghost i: nat)
      requires Valid() && elm !in elems && i < |elems| && elems[i] == listelm
      modifies this, elems, elm
      ensures Valid() && elems == Inserted(old(elems), i, elm)
    {
      hide Linked, Inserted, Removed, Valid;
      ghost var s, m := elems, Fields(elems);
      ValidIs();
      Ends();
      At(i);
      elm.prev := listelm.prev;
      elm.next := listelm;
      match listelm.prev {
        case FirstOf(h) => (h as Head).first := elm;
        case NextOf(e) => (e as Elem).next := elm;
      }
      listelm.prev := NextOf(elm);
      InsertedHas(s, i, elm);
      elems := Inserted(s, i, elm);
      InsertLinked(this, s, i, elm, m, Fields(elems), old(first), old(last), first, last);
      ValidIs();
    }

    /** TAILQ_REMOVE. */
    method Remove(elm: Elem, ghost i: nat)
      requires Valid() && i < |elems| && elems[i] == elm
      modifies this, elems
      ensures Valid() && elems == Removed(old(elems), i)
    {
      hide Linked, Inserted, Removed;
      ghost var s, m := elems, Fields(elems);
      Ends();
      At(i);
      if elm.next != null {
        elm.next.prev := elm.prev;
      } else {
        last := elm.prev;
      }
      match elm.prev {
        case FirstOf(h) => (h as Head).first := elm.next;
        case NextOf(e) => (e as Elem).next := elm.next;
      }
      RemovedHas(s, i);
      elems := Removed(s, i);
      RemoveLinked(this, s, i, m, Fields(elems), old(first), old(last), first, last);
    }

    /** *tqh_last = v. */
    method LinkBehind(v: Elem)
      requires Valid()
      modifies `first, elems`next
      ensures first == if last == FirstOf(this) then v else old(first)
      ensures forall x :: x in elems ==> x.next == if last == NextOf(x) then v else old(x.next)
    {
      hide Linked;
      Ends();
      match last {
        case FirstOf(h) => (h as Head).first := v;
        case NextOf(e) => (e as Elem).next := v;
      }
    }

    /** The three writes of TAILQ_CONCAT before it empties head2. */
    method Graft(head2: Head)
      requires Valid() && head2.Valid() && this != head2 && forall e :: e in elems ==> e !in head2.elems
      requires head2.first != null
      modifies `first, `last, elems`next, head2.elems`prev
      ensures last == head2.last && first == if old(last) == FirstOf(this) then head2.first else old(first)
      ensures forall x :: x in elems ==> x.next == if old(last) == NextOf(x) then head2.first else old(x.next)
      ensures forall x :: x in head2.elems ==> x.prev == if x == head2.first then old(last) else old(x.prev)
      ensures forall x :: x in elems ==> x.prev == old(x.prev)
    {
      hide Linked;
      head2.Ends();
      LinkBehind(head2.first);
      head2.first.prev := last;
      last := head2.last;
    }

    /** Those writes, on the fields of both queues. */
    static lemma GraftWrites(s: seq<Elem>, u: seq<Elem>, t: seq<Elem>, l: Link, m: map<Elem, Cell>, n: map<Elem, Cell>)
      requires u != [] && (forall x :: x in s ==> x in m && x in t) && forall x :: x in u ==> x in n && x in t
      requires forall x :: x in s ==> x.next == (if l == NextOf(x) then u[0] else m[x].next) && x.prev == m[x].prev
      requires forall x :: x in u ==> x.prev == (if x == u[0] then l else n[x].prev) && x.next == n[x].next
      ensures ConcatWrites(s, l, u, m, n, Fields(t))
    {
    }

    /** TAILQ_CONCAT. */
    method Concat(head2: Head)
      requires Valid() && head2.Valid() && this != head2
      modifies this, elems, head2, head2.elems
      ensures Valid() && head2.Valid() && elems == Joined(old(elems), old(head2.elems)) && head2.elems == []
    {
      hide Valid, Linked, Joined, ConcatWrites;
      ghost var s, u, m, n := elems, head2.elems, Fields(elems), Fields(head2.elems);
      ValidIs();
      head2.ValidIs();
      Apart(head2);
      Ends();
      head2.Ends();
      if head2.first != null {
        Graft(head2);
        JoinedHas(s, u);
        elems := Joined(s, u);
        GraftWrites(s, u, elems, old(last), m, n);
        ConcatLinked(this, head2, s, u, m, n, Fields(elems), old(first), old(last), old(head2.first), old(head2.last), first);
        ValidIs();
        head2.Clear();
      } else {
        JoinedEmpty(s);
      }
    }

    /** TAILQ_INIT on an existing head. */
    method Clear()
      modifies this
      ensures Valid() && elems == [] && first == null && last == FirstOf(this)
    {
      first := null;
      last := FirstOf(this);
      elems := [];
    }

    /** Repairs what TAILQ_SWAP has just copied from the head h. */
    method Repair(ghost h: Head)
      requires Linked(h, elems, Fields(elems), first, last)
      modifies `last, elems`prev
      ensures Valid()
    {
      hide Linked;
      ghost var m := Fields(elems);
      ListEnds(h, elems, m, first, last);
      if first != null {
        first.prev := FirstOf(this);
      } else {
        last := FirstOf(this);
      }
      MovedLinked(h, this, elems, m, Fields(elems), first, old(last));
    }

    /** TAILQ_SWAP. */
    method Swap(head2: Head)
      requires Valid() && head2.Valid() && this != head2
      modifies this, elems, head2, head2.elems
      ensures Valid() && head2.Valid() && elems == old(head2.elems) && head2.elems == old(elems)
    {
      hide Valid, Linked;
      ValidIs();
      head2.ValidIs();
      Apart(head2);
      ghost var s, u := elems, head2.elems;
      var swapFirst, swapLast := first, last;
      first, last := head2.first, head2.last;
      head2.first, head2.last := swapFirst, swapLast;
      elems, head2.elems := u, s;
      Repair(head2);
      head2.Repair(this);
    }

    /** TAILQ_LAST. */
    method Last() returns (e: Elem?)
      requires Valid()
      ensures e == if elems == [] then null else elems[|elems| - 1]
    {
      hide NoDup, Chained;
      if |elems| > 0 { At(|elems| - 1); }
      e := Deref(LastField(last));
    }

    /** TAILQ_PREV, which does without the head: the true predecessor, or NULL for the first element. */
    method Prev(elm: Elem, ghost i: nat) returns (e: Elem?)
      requires Valid() && i < |elems| && elems[i] == elm
      ensures e == if i == 0 then null else elems[i - 1]
    {
      hide NoDup, Chained;
      At(i);
      Ends();
      if i == 0 {
        At(|elems| - 1);
      } else {
        At(i - 1);
      }
      e := Deref(LastField(elm.prev));
    }

    /** TAILQ_FOREACH_REVERSE: TAILQ_LAST, then TAILQ_PREV, visits the queue backwards. */
    method ForeachReverse() returns (visited: seq<Elem>)
      requires Valid()
      ensures |visited| == |elems| && forall k :: 0 <= k < |elems| ==> visited[k] == elems[|elems| - 1 - k]
    {
      hide NoDup, Chained;
      visited := [];
      var x := Last();
      while x != null
        invariant |visited| <= |elems| && x == if |visited| < |elems| then elems[|elems| - 1 - |visited|] else null
        invariant forall k :: 0 <= k < |visited| ==> visited[k] == elems[|elems| - 1 - k]
        decreases |elems| - |visited|
      {
        visited := visited + [x];
        x := Prev(x, |elems| - |visited|);
      }
    }
  }
}
