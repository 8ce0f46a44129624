/**
 Intrusive doubly linked lists as values: what the fields of the head and of the elements must hold for the elements to
 spell a given sequence, and what the writes of each list operation do to that sequence.
 */
module Links {
  /** The address of a forward link: NULL, the first-element field of a head, or the next field of an element. */
  datatype Link = NoLink | FirstOf(h: object) | NextOf(e: object)

  /** The object a link lies in. */
  function Holder(l: Link): set<object> {
    match l
    case NoLink => {}
    case FirstOf(h) => {h}
    case NextOf(e) => {e}
  }

  /** The two link fields of an element. */
  datatype Cell = Cell(next: object?, prev: Link)

  /** Position i of a queue, or NULL past its end. */
  ghost function Nth(s: seq<object>, i: nat): object? {
    if i < |s| then s[i] else null
  }

  /** The link that reaches position i of the queue with head h. */
  ghost function LinkTo(h: object, s: seq<object>, i: nat): Link
    requires i <= |s|
  {
    if i == 0 then FirstOf(h) else NextOf(s[i - 1])
  }

  /** e linked in at position i. */
  ghost function Inserted(s: seq<object>, i: nat, e: object): seq<object>
    requires i <= |s|
  {
    s[..i] + [e] + s[i..]
  }

  lemma InsertedHas(s: seq<object>, i: nat, e: object)
    requires i <= |s|
    ensures e in Inserted(s, i, e) && forall x :: x in s ==> x in Inserted(s, i, e)
    ensures forall k :: 0 <= k < |Inserted(s, i, e)| ==> Inserted(s, i, e)[k] == e || Inserted(s, i, e)[k] in s
  {
    assert s == s[..i] + s[i..];
  }

  /** The queue without position i. */
  ghost function Removed(s: seq<object>, i: nat): seq<object>
    requires i < |s|
  {
    s[..i] + s[i + 1..]
  }

  lemma RemovedHas(s: seq<object>, i: nat)
    requires i < |s|
    ensures forall x :: x in s && x != s[i] ==> x in Removed(s, i)
    ensures forall k :: 0 <= k < |Removed(s, i)| ==> Removed(s, i)[k] in s
  {
    assert s == s[..i] + [s[i]] + s[i + 1..];
  }

  /** Two lists with different heads share no element: their back references would lead to one head. */
  lemma {:induction false} NoSharedElement(h: object, h2: object, s: seq<object>, u: seq<object>, m: map<object, Cell>,
                                           n: map<object, Cell>, i: nat, j: nat)
    requires h != h2 && Chained(h, s, m) && Chained(h2, u, n) && i < |s| && j < |u|
    requires (forall e :: e in s ==> e in m) && (forall e :: e in u ==> e in n)
    requires forall e :: e in m && e in n ==> m[e] == n[e]
    ensures s[i] != u[j]
    decreases i
  {
    assert m[s[i]].prev == LinkTo(h, s, i) && n[u[j]].prev == LinkTo(h2, u, j);
    if i > 0 && j > 0 {
      NoSharedElement(h, h2, s, u, m, n, i - 1, j - 1);
    }
  }

  lemma ListsApart(h: object, h2: object, s: seq<object>, u: seq<object>, m: map<object, Cell>, n: map<object, Cell>)
    requires h != h2 && Chained(h, s, m) && Chained(h2, u, n)
    requires (forall e :: e in s ==> e in m) && (forall e :: e in u ==> e in n)
    requires forall e :: e in m && e in n ==> m[e] == n[e]
    ensures forall e :: e in s ==> e !in u
  {
    hide Chained;
    forall i, j | 0 <= i < |s| && 0 <= j < |u|
      ensures s[i] != u[j]
    {
      NoSharedElement(h, h2, s, u, m, n, i, j);
    }
  }

  /** Insertion and removal at one place undo each other. */
  lemma InsertAndRemove(s: seq<object>, i: nat, e: object)
    ensures i <= |s| ==> Removed(Inserted(s, i, e), i) == s
    ensures i < |s| ==> Inserted(Removed(s, i), i, s[i]) == s
  {
  }

  ghost function Joined(s: seq<object>, u: seq<object>): seq<object> {
    s + u
  }

  lemma JoinedHas(s: seq<object>, u: seq<object>)
    ensures (forall x :: x in s ==> x in Joined(s, u)) && forall x :: x in u ==> x in Joined(s, u)
    ensures forall k :: 0 <= k < |Joined(s, u)| ==> Joined(s, u)[k] in s || Joined(s, u)[k] in u
  {
  }

  lemma JoinedEmpty(s: seq<object>)
    ensures Joined(s, []) == s
  {
  }

  ghost predicate NoDup(s: seq<object>) {
    forall i, j :: 0 <= i < j < |s| ==> s[i] != s[j]
  }

  /** Forward links follow the sequence and back references are the links that reach each element. */
  ghost predicate Chained(h: object, s: seq<object>, m: map<object, Cell>) {
    forall i {:trigger m[s[i]]} :: 0 <= i < |s| ==> s[i] in m && m[s[i]] == Cell(Nth(s, i + 1), LinkTo(h, s, i))
  }

  /** The whole queue: its elements' fields m, and the head's two fields. */
  ghost predicate Linked(h: object, s: seq<object>, m: map<object, Cell>, first: object?, last: Link) {
    NoDup(s) && Chained(h, s, m) && first == Nth(s, 0) && last == LinkTo(h, s, |s|)
  }

  /** The same for a LIST head, which has no second field. */
  ghost predicate Listed(h: object, s: seq<object>, m: map<object, Cell>, first: object?) {
    Linked(h, s, m, first, LinkTo(h, s, |s|))
  }

  lemma ListEnds(h: object, s: seq<object>, m: map<object, Cell>, first: object?, last: Link)
    requires Linked(h, s, m, first, last)
    ensures first == Nth(s, 0) && last == LinkTo(h, s, |s|)
  {
  }

  lemma ListFront(h: object, s: seq<object>, m: map<object, Cell>, first: object?)
    requires Listed(h, s, m, first)
    ensures first == Nth(s, 0)
  {
  }

  lemma InsertNth(h: object, s: seq<object>, i: nat, e: object, k: nat)
    requires i <= |s| && k <= |s| + 1
    ensures var t := Inserted(s, i, e);
      && Nth(t, k) == (if k < i then Nth(s, k) else if k == i then e else Nth(s, k - 1))
      && LinkTo(h, t, k) == (if k <= i then LinkTo(h, s, k) else if k == i + 1 then NextOf(e) else LinkTo(h, s, k - 1))
  {
  }

  /** The writes that link e in at position i: its own fields, the link in front of it, the back reference behind it. */
  ghost predicate InsertWrites(h: object, s: seq<object>, i: nat, e: object, m: map<object, Cell>, m': map<object, Cell>)
    requires i <= |s|
  {
    && e in m' && m'[e] == Cell(Nth(s, i), LinkTo(h, s, i))
    && (forall x :: x in s ==> x in m && x in m')
    && (forall x {:trigger m'[x]} :: x in s ==> m'[x].next == if LinkTo(h, s, i) == NextOf(x) then e else m[x].next)
    && (forall x {:trigger m'[x]} :: x in s ==> m'[x].prev == if Nth(s, i) == x then NextOf(e) else m[x].prev)
  }

  lemma InsertLinked(h: object, s: seq<object>, i: nat, e: object, m: map<object, Cell>, m': map<object, Cell>,
                     first: object?, last: Link, first': object?, last': Link)
    requires Linked(h, s, m, first, last) && i <= |s| && e !in s && InsertWrites(h, s, i, e, m, m')
    requires first' == (if i == 0 then e else first) && last' == if i == |s| then NextOf(e) else last
    ensures Linked(h, Inserted(s, i, e), m', first', last')
  {
    var t := Inserted(s, i, e);
    forall k {:trigger m'[t[k]]} | 0 <= k < |t|
      ensures t[k] in m' && m'[t[k]] == Cell(Nth(t, k + 1), LinkTo(h, t, k))
    {
      InsertNth(h, s, i, e, k);
      InsertNth(h, s, i, e, k + 1);
      if k != i {
        var j := if k < i then k else k - 1;
        assert t[k] == s[j] && s[j] in s;
        Unchanged(h, s, i, e, m, m', j);
      }
    }
  }

  lemma InsertListed(h: object, s: seq<object>, i: nat, e: object, m: map<object, Cell>, m': map<object, Cell>,
                     first: object?, first': object?)
    requires Listed(h, s, m, first) && i <= |s| && e !in s && InsertWrites(h, s, i, e, m, m')
    requires first' == if i == 0 then e else first
    ensures Listed(h, Inserted(s, i, e), m', first')
  {
    var last := LinkTo(h, s, |s|);
    InsertLinked(h, s, i, e, m, m', first, last, first', if i == |s| then NextOf(e) else last);
  }

  /** The fields of an old element after linking e in. */
  lemma Unchanged(h: object, s: seq<object>, i: nat, e: object, m: map<object, Cell>, m': map<object, Cell>, j: nat)
    requires NoDup(s) && Chained(h, s, m) && i <= |s| && e !in s && InsertWrites(h, s, i, e, m, m') && j < |s|
    ensures s[j] in m'
    ensures m'[s[j]] == Cell(if j + 1 == i then e else Nth(s, j + 1), if j == i then NextOf(e) else LinkTo(h, s, j))
  {
    assert s[j] in s && m[s[j]] == Cell(Nth(s, j + 1), LinkTo(h, s, j));
  }

  lemma RemoveNth(h: object, s: seq<object>, i: nat, k: nat)
    requires i < |s| && k < |s|
    ensures var t := Removed(s, i);
      && Nth(t, k) == (if k < i then Nth(s, k) else Nth(s, k + 1))
      && LinkTo(h, t, k) == (if k <= i then LinkTo(h, s, k) else LinkTo(h, s, k + 1))
  {
  }

  /** The writes that unlink x: the link in front of it and the back reference behind it bypass it. */
  ghost predicate RemoveWrites(s: seq<object>, x: object, m: map<object, Cell>, m': map<object, Cell>)
    requires x in m
  {
    && (forall y :: y in s && y != x ==> y in m && y in m')
    && (forall y {:trigger m'[y]} :: y in s && y != x ==> m'[y].next == if m[x].prev == NextOf(y) then m[x].next else m[y].next)
    && (forall y {:trigger m'[y]} :: y in s && y != x ==> m'[y].prev == if m[x].next == y then m[x].prev else m[y].prev)
  }

  lemma RemoveLinked(h: object, s: seq<object>, i: nat, m: map<object, Cell>, m': map<object, Cell>,
                     first: object?, last: Link, first': object?, last': Link)
    requires Linked(h, s, m, first, last) && i < |s| && s[i] in m && RemoveWrites(s, s[i], m, m')
    requires first' == (if m[s[i]].prev == FirstOf(h) then m[s[i]].next else first)
    requires last' == if m[s[i]].next == null then m[s[i]].prev else last
    ensures Linked(h, Removed(s, i), m', first', last')
  {
    var t := Removed(s, i);
    assert NoDup(t);
    assert m[s[i]] == Cell(Nth(s, i + 1), LinkTo(h, s, i));
    RemoveNth(h, s, i, 0);
    forall k {:trigger m'[t[k]]} | 0 <= k < |t|
      ensures t[k] in m' && m'[t[k]] == Cell(Nth(t, k + 1), LinkTo(h, t, k))
    {
      RemoveNth(h, s, i, k);
      RemoveNth(h, s, i, k + 1);
      var j := if k < i then k else k + 1;
      assert t[k] == s[j];
      Kept(h, s, i, m, m', j);
    }
  }

  lemma RemoveListed(h: object, s: seq<object>, i: nat, m: map<object, Cell>, m': map<object, Cell>, first: object?, first': object?)
    requires Listed(h, s, m, first) && i < |s| && s[i] in m && RemoveWrites(s, s[i], m, m')
    requires first' == if m[s[i]].prev == FirstOf(h) then m[s[i]].next else first
    ensures Listed(h, Removed(s, i), m', first')
  {
    var last := LinkTo(h, s, |s|);
    RemoveLinked(h, s, i, m, m', first, last, first', if m[s[i]].next == null then m[s[i]].prev else last);
  }

  /** The fields of another element after unlinking position i. */
  lemma Kept(h: object, s: seq<object>, i: nat, m: map<object, Cell>, m': map<object, Cell>, j: nat)
    requires NoDup(s) && Chained(h, s, m) && i < |s| && s[i] in m && RemoveWrites(s, s[i], m, m') && j < |s| && j != i
    ensures s[j] in m'
    ensures m'[s[j]] == Cell(if j + 1 == i then Nth(s, i + 1) else Nth(s, j + 1), if j == i + 1 then LinkTo(h, s, i) else LinkTo(h, s, j))
  {
    assert s[j] in s && m[s[j]] == Cell(Nth(s, j + 1), LinkTo(h, s, j));
    assert m[s[i]] == Cell(Nth(s, i + 1), LinkTo(h, s, i));
  }

  /** The writes that append u to s: the last link of s reaches u, and u's first back reference is that link. */
  ghost predicate ConcatWrites(s: seq<object>, last: Link, u: seq<object>, m: map<object, Cell>, n: map<object, Cell>,
                               m': map<object, Cell>)
    requires u != []
  {
    && (forall x :: x in s ==> x in m && x in m')
    && (forall x {:trigger m'[x]} :: x in s ==> m'[x] == m[x].(next := if last == NextOf(x) then u[0] else m[x].next))
    && (forall x :: x in u ==> x in n && x in m')
    && (forall x {:trigger m'[x]} :: x in u ==> m'[x] == n[x].(prev := if x == u[0] then last else n[x].prev))
  }

  lemma ConcatLinked(h: object, h2: object, s: seq<object>, u: seq<object>, m: map<object, Cell>, n: map<object, Cell>,
                     m': map<object, Cell>, first: object?, last: Link, first2: object?, last2: Link, first': object?)
    requires Linked(h, s, m, first, last) && Linked(h2, u, n, first2, last2) && u != []
    requires (forall e :: e in s ==> e !in u) && ConcatWrites(s, last, u, m, n, m')
    requires first' == if last == FirstOf(h) then first2 else first
    ensures Linked(h, Joined(s, u), m', first', last2)
  {
    var t := Joined(s, u);
    forall i, j | 0 <= i < j < |t|
      ensures t[i] != t[j]
    {
      if i < |s| <= j {
        assert s[i] in s && u[j - |s|] in u;
      }
    }
    forall k {:trigger m'[t[k]]} | 0 <= k < |t|
      ensures t[k] in m' && m'[t[k]] == Cell(Nth(t, k + 1), LinkTo(h, t, k))
    {
      if k < |s| {
        assert t[k] == s[k] && s[k] in s && m[s[k]] == Cell(Nth(s, k + 1), LinkTo(h, s, k));
        assert k + 1 < |s| ==> s[k] != s[|s| - 1];
      } else {
        var j := k - |s|;
        assert t[k] == u[j] && u[j] in u && n[u[j]] == Cell(Nth(u, j + 1), LinkTo(h2, u, j));
        assert j > 0 ==> u[j] != u[0] && t[k - 1] == u[j - 1];
      }
    }
  }

  lemma ConcatListed(h: object, h2: object, s: seq<object>, u: seq<object>, m: map<object, Cell>, n: map<object, Cell>,
                     m': map<object, Cell>, first: object?, first2: object?, first': object?)
    requires Listed(h, s, m, first) && Listed(h2, u, n, first2) && u != []
    requires (forall e :: e in s ==> e !in u) && ConcatWrites(s, LinkTo(h, s, |s|), u, m, n, m')
    requires first' == if first == null then first2 else first
    ensures Listed(h, Joined(s, u), m', first')
  {
    ConcatLinked(h, h2, s, u, m, n, m', first, LinkTo(h, s, |s|), first2, LinkTo(h2, u, |u|), first');
  }

  /** A queue under a new head: only the first back reference changes. */
  lemma MovedChained(h: object, h': object, s: seq<object>, m: map<object, Cell>, m': map<object, Cell>)
    requires NoDup(s) && Chained(h, s, m)
    requires forall x :: x in s ==> x in m && x in m'
    requires forall x {:trigger m'[x]} :: x in s ==> m'[x] == m[x].(prev := if x == s[0] then FirstOf(h') else m[x].prev)
    ensures Chained(h', s, m')
  {
    forall k {:trigger m'[s[k]]} | 0 <= k < |s|
      ensures s[k] in m' && m'[s[k]] == Cell(Nth(s, k + 1), LinkTo(h', s, k))
    {
      assert s[k] in s && m[s[k]] == Cell(Nth(s, k + 1), LinkTo(h, s, k));
      assert k > 0 ==> s[k] != s[0];
    }
  }

  /** The same for the whole queue: an empty one also needs its tail link to lead to the new head. */
  lemma MovedLinked(h: object, h': object, s: seq<object>, m: map<object, Cell>, m': map<object, Cell>, first: object?, last: Link)
    requires Linked(h, s, m, first, last)
    requires forall x :: x in s ==> x in m && x in m'
    requires forall x {:trigger m'[x]} :: x in s ==> m'[x] == m[x].(prev := if first == x then FirstOf(h') else m[x].prev)
    ensures Linked(h', s, m', first, if first == null then FirstOf(h') else last)
  {
    MovedChained(h, h', s, m, m');
  }

  lemma MovedListed(h: object, h': object, s: seq<object>, m: map<object, Cell>, m': map<object, Cell>, first: object?)
    requires Listed(h, s, m, first)
    requires forall x :: x in s ==> x in m && x in m'
    requires forall x {:trigger m'[x]} :: x in s ==> m'[x] == m[x].(prev := if first == x then FirstOf(h') else m[x].prev)
    ensures Listed(h', s, m', first)
  {
    MovedChained(h, h', s, m, m');
  }
}
