/** Search order: the comparison that the tree macros are given, and sequences of elements ordered by it. */
module SearchOrder {
  import opened Elements

  type Cmp = (int, int) -> int

  /** What the macros demand of cmp: the signs form a total preorder. */
  ghost predicate Lawful(cmp: Cmp) {
    && (forall a, b :: cmp(a, b) < 0 <==> cmp(b, a) > 0)
    && (forall a, b, c :: cmp(a, b) <= 0 && cmp(b, c) <= 0 ==> cmp(a, c) <= 0)
  }

  ghost predicate Ordered(cmp: Cmp, s: seq<Elm>) {
    forall i, j :: 0 <= i < j < |s| ==> cmp(s[i].key, s[j].key) < 0
  }

  ghost predicate AllBelow(cmp: Cmp, s: seq<Elm>, key: int) {
    forall e :: e in s ==> cmp(key, e.key) > 0
  }

  ghost predicate AllAbove(cmp: Cmp, s: seq<Elm>, key: int) {
    forall e :: e in s ==> cmp(key, e.key) < 0
  }

  /** Every element of a sorts before every element of b. */
  ghost predicate Separated(cmp: Cmp, a: seq<Elm>, b: seq<Elm>) {
    forall x, y :: x in a && y in b ==> cmp(x.key, y.key) < 0
  }

  lemma LessTransitive(cmp: Cmp, a: int, b: int, c: int)
    requires Lawful(cmp) && ((cmp(a, b) < 0 && cmp(b, c) <= 0) || (cmp(a, b) <= 0 && cmp(b, c) < 0))
    ensures cmp(a, c) < 0
  {
  }

  lemma SelfEqual(cmp: Cmp, a: int)
    requires Lawful(cmp)
    ensures cmp(a, a) == 0
  {
    assert !(cmp(a, a) < 0);
  }

  lemma OrderedConcat(cmp: Cmp, a: seq<Elm>, b: seq<Elm>)
    ensures Ordered(cmp, a + b) <==> Ordered(cmp, a) && Ordered(cmp, b) && Separated(cmp, a, b)
  {
    var s := a + b;
    if Ordered(cmp, s) {
      assert forall i :: 0 <= i < |a| ==> s[i] == a[i];
      assert forall i :: 0 <= i < |b| ==> s[|a| + i] == b[i];
    }
  }

  lemma OrderedParts(cmp: Cmp, a: seq<Elm>, x: seq<Elm>, b: seq<Elm>)
    ensures Ordered(cmp, a + x + b) <==>
            Ordered(cmp, a) && Ordered(cmp, x) && Ordered(cmp, b)
            && Separated(cmp, a, x) && Separated(cmp, a, b) && Separated(cmp, x, b)
  {
    OrderedConcat(cmp, a + x, b);
    OrderedConcat(cmp, a, x);
    hide Ordered;
  }

  lemma AboveAll(cmp: Cmp, key: int, e: Elm, r: seq<Elm>)
    requires Lawful(cmp) && cmp(key, e.key) < 0 && Separated(cmp, [e], r)
    ensures AllAbove(cmp, [e] + r, key)
  {
    forall x | x in r
      ensures cmp(key, x.key) < 0
    {
      assert cmp(e.key, x.key) < 0;
      LessTransitive(cmp, key, e.key, x.key);
    }
  }

  lemma BelowAll(cmp: Cmp, key: int, e: Elm, l: seq<Elm>)
    requires Lawful(cmp) && cmp(key, e.key) > 0 && Separated(cmp, l, [e])
    ensures AllBelow(cmp, l + [e], key)
  {
    forall x | x in l
      ensures cmp(key, x.key) > 0
    {
      assert cmp(x.key, e.key) < 0;
      LessTransitive(cmp, x.key, e.key, key);
    }
  }

  lemma OrderedSingle(cmp: Cmp, e: Elm)
    ensures Ordered(cmp, [e])
  {
  }

  /** Removing one element keeps the order. */
  lemma RemoveKeepsOrder(cmp: Cmp, a: seq<Elm>, e: Elm, b: seq<Elm>)
    requires Ordered(cmp, a + [e] + b)
    ensures Ordered(cmp, a + b)
  {
    OrderedParts(cmp, a, [e], b);
    OrderedConcat(cmp, a, b);
  }

  /** At most one element compares equal to a key. */
  lemma FoundIsUnique(cmp: Cmp, s: seq<Elm>, key: int, x: Elm, y: Elm)
    requires Lawful(cmp) && Ordered(cmp, s) && x in s && y in s
    requires cmp(key, x.key) == 0 && cmp(key, y.key) == 0
    ensures x == y
  {
    assert cmp(x.key, key) == 0 by { assert !(cmp(x.key, key) < 0) && !(cmp(x.key, key) > 0); }
    assert cmp(y.key, key) == 0 by { assert !(cmp(y.key, key) < 0) && !(cmp(y.key, key) > 0); }
    assert cmp(x.key, y.key) <= 0 && cmp(y.key, x.key) <= 0;
  }

  // ----- positions -----------------------------------------------------------------------------

  ghost function First(s: seq<Elm>): Elm? { if s == [] then null else s[0] }

  lemma WithoutOne(a: seq<Elm>, e: Elm, b: seq<Elm>)
    ensures IsWithout(a + b, a + [e] + b, e)
  {
    var t := a + [e] + b;
    assert t[..|a|] == a && t[|a| + 1..] == b && t[|a|] == e;
  }

  /** s is the sequence t without the one occurrence of e. */
  ghost predicate IsWithout(s: seq<Elm>, t: seq<Elm>, e: Elm) {
    exists i :: 0 <= i < |t| && t[i] == e && s == t[..i] + t[i + 1..]
  }

  lemma WithoutKeepsOrder(cmp: Cmp, s: seq<Elm>, t: seq<Elm>, e: Elm)
    requires Ordered(cmp, t) && IsWithout(s, t, e)
    ensures Ordered(cmp, s)
  {
    var i :| 0 <= i < |t| && t[i] == e && s == t[..i] + t[i + 1..];
    assert t == t[..i] + [e] + t[i + 1..];
    RemoveKeepsOrder(cmp, t[..i], e, t[i + 1..]);
  }
  ghost function Last(s: seq<Elm>): Elm? { if s == [] then null else s[|s| - 1] }

  /** t is the sequence s with e put in at position i. */
  ghost predicate InsertedAt(t: seq<Elm>, s: seq<Elm>, i: nat, e: Elm) {
    i <= |s| && t == s[..i] + [e] + s[i..]
  }

  lemma InsertedOne(a: seq<Elm>, e: Elm, b: seq<Elm>)
    ensures InsertedAt(a + [e] + b, a + b, |a|, e)
  {
    assert (a + b)[..|a|] == a && (a + b)[|a|..] == b;
  }

  /** An ordered sequence has no element twice. */
  lemma OrderedOnce(cmp: Cmp, s: seq<Elm>, i: nat, j: nat)
    requires Lawful(cmp) && Ordered(cmp, s) && i < |s| && j < |s| && s[i] == s[j]
    ensures i == j
  {
    SelfEqual(cmp, s[i].key);
  }

  /** r stands right behind e in s; it is NULL behind the last element. */
  ghost predicate Follows(s: seq<Elm>, e: Elm, r: Elm?) {
    exists i :: 0 <= i < |s| && s[i] == e && r == if i + 1 < |s| then s[i + 1] else null
  }

  /** r stands right in front of e in s; it is NULL in front of the first element. */
  ghost predicate Precedes(s: seq<Elm>, e: Elm, r: Elm?) {
    exists i :: 0 <= i < |s| && s[i] == e && r == if i > 0 then s[i - 1] else null
  }

  lemma At(s: seq<Elm>, i: nat, e: Elm)
    requires i < |s| && s[i] == e
    ensures Follows(s, e, if i + 1 < |s| then s[i + 1] else null)
    ensures Precedes(s, e, if i > 0 then s[i - 1] else null)
  {
  }

  /** Stepping forward and back in an ordered sequence returns to the element. */
  lemma BackAndForth(cmp: Cmp, s: seq<Elm>, e: Elm, r: Elm, p: Elm?)
    requires Lawful(cmp) && Ordered(cmp, s)
    ensures Follows(s, e, r) && Precedes(s, r, p) ==> p == e
    ensures Precedes(s, e, r) && Follows(s, r, p) ==> p == e
  {
    forall i, j | 0 <= i < j < |s|
      ensures s[i] != s[j]
    {
      SelfEqual(cmp, s[i].key);
    }
  }
}
