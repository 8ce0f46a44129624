/**
 What one SPLAY makes of a tree, as a function, and how many rounds of its loop that takes: on average logarithmically
 many. The potential of a tree counts three times the logarithm of the size of every subtree.
 */
module SplayCost {
  import opened Elements
  import opened SearchOrder
  import opened SplayShape
  import opened Logs

  /** A call of one of the operations. */
  datatype Call = FindCall(elm: Elm) | InsertCall(elm: Elm) | RemoveCall(elm: Elm) | MinCall | MaxCall {
    /** What the call may link into the tree. */
    ghost function Operand(): set<Elm> {
      if InsertCall? then {elm} else {}
    }

    function Adds(): nat { if InsertCall? then 1 else 0 }
  }

  /** How many of the calls insert. */
  function Inserts(calls: seq<Call>): nat {
    if calls == [] then 0 else Inserts(calls[..|calls| - 1]) + calls[|calls| - 1].Adds()
  }

  lemma {:induction false} InsertsMonotone(calls: seq<Call>, k: nat)
    requires k <= |calls|
    ensures Inserts(calls[..k]) <= Inserts(calls)
  {
    if k < |calls| {
      InsertsMonotone(calls[..|calls| - 1], k);
      assert calls[..|calls| - 1][..k] == calls[..k];
    } else {
      assert calls[..k] == calls;
    }
  }

  lemma NoInserts(calls: seq<Call>)
    requires calls == []
    ensures Inserts(calls) == 0
  {
  }

  lemma InsertsNext(calls: seq<Call>, k: nat)
    requires k < |calls|
    ensures Inserts(calls[..k + 1]) == Inserts(calls[..k]) + calls[k].Adds()
  {
    assert calls[..k + 1][..k] == calls[..k];
  }

  ghost function Operands(calls: seq<Call>): (s: set<Elm>)
    ensures forall c :: c in calls ==> c.Operand() <= s
  {
    if calls == [] then {} else calls[0].Operand() + Operands(calls[1..])
  }

  /** The left side tree closed, the root, the right side tree closed, and the rounds of the loop. */
  datatype Parts = Parts(l: STree, e: Elm, r: STree, rounds: nat) {
    function Tree(): STree { Node(l, e, r) }
  }

  /** Going down on the left: with a rotation where the key is left of the left child, too. */
  function GoLeft(cmp: Cmp, t: STree, key: int): Parts
    requires t.Node? && cmp(key, t.elem.key) < 0
    decreases t, 0
  {
    if t.left.Leaf? then Parts(Leaf, t.elem, t.right, 1)
    else if cmp(key, t.left.elem.key) < 0 then
      var rest := Node(t.left.right, t.elem, t.right);
      if t.left.left.Leaf? then Parts(Leaf, t.left.elem, rest, 1)
      else
        var p := SplayParts(cmp, t.left.left, key);
        Parts(p.l, p.e, Node(p.r, t.left.elem, rest), p.rounds + 1)
    else
      var p := SplayParts(cmp, t.left, key);
      Parts(p.l, p.e, Node(p.r, t.elem, t.right), p.rounds + 1)
  }

  function GoRight(cmp: Cmp, t: STree, key: int): Parts
    requires t.Node? && cmp(key, t.elem.key) > 0
    decreases t, 0
  {
    if t.right.Leaf? then Parts(t.left, t.elem, Leaf, 1)
    else if cmp(key, t.right.elem.key) > 0 then
      var rest := Node(t.left, t.elem, t.right.left);
      if t.right.right.Leaf? then Parts(rest, t.right.elem, Leaf, 1)
      else
        var p := SplayParts(cmp, t.right.right, key);
        Parts(Node(rest, t.right.elem, p.l), p.e, p.r, p.rounds + 1)
    else
      var p := SplayParts(cmp, t.right, key);
      Parts(Node(t.left, t.elem, p.l), p.e, p.r, p.rounds + 1)
  }

  /** SPLAY as a function. */
  function SplayParts(cmp: Cmp, t: STree, key: int): Parts
    requires t.Node?
    decreases t, 1
  {
    if cmp(key, t.elem.key) == 0 then Parts(t.left, t.elem, t.right, 0)
    else if cmp(key, t.elem.key) < 0 then GoLeft(cmp, t, key)
    else GoRight(cmp, t, key)
  }

  // ----- the potential -----------------------------------------------------------------------------

  function Rank(t: STree): nat {
    Log2(Size(t) + 1)
  }

  function Potential(t: STree): nat {
    if t.Leaf? then 0 else 3 * Rank(t) + Potential(t.left) + Potential(t.right)
  }

  lemma {:induction false} SizeIsLength(t: STree)
    ensures Size(t) == |InOrder(t)|
  {
    if t.Node? {
      SizeIsLength(t.left);
      SizeIsLength(t.right);
    }
  }

  /** What the potential at the start can pay for: at most three times the size times the rank. */
  lemma {:induction false} PotentialBound(t: STree, rank: nat)
    requires Rank(t) <= rank
    ensures Potential(t) <= 3 * (Size(t) * rank)
  {
    hide Rank;
    if t.Node? {
      SizeIs(t);
      RankMonotone(t.left, t);
      RankMonotone(t.right, t);
      PotentialBound(t.left, rank);
      PotentialBound(t.right, rank);
      Distribute(Size(t.left), Size(t.right), rank);
    }
  }

  lemma Distribute(a: nat, b: nat, c: nat)
    ensures (1 + a + b) * c == c + a * c + b * c
  {
  }

  /** The parts of t cost at most six times its rank, and two, beyond what the potential pays for. */
  ghost predicate Paid(p: Parts, t: STree) {
    && Size(p.l) + 1 + Size(p.r) == Size(t)
    && p.rounds + Potential(p.l) + Potential(p.r) <= Potential(t) + 6 * Rank(t) + 2
  }

  lemma PotentialIs(l: STree, e: Elm, r: STree)
    ensures Potential(Node(l, e, r)) == 3 * Rank(Node(l, e, r)) + Potential(l) + Potential(r)
  {
    hide Rank;
  }

  lemma SizeIs(t: STree)
    requires t.Node?
    ensures Size(t) == 1 + Size(t.left) + Size(t.right)
  {
  }

  lemma RankMonotone(s: STree, t: STree)
    requires Size(s) <= Size(t)
    ensures Rank(s) <= Rank(t)
  {
    hide Log2, Size;
    Log2Monotone(Size(s) + 1, Size(t) + 1);
  }

  lemma RankOfParts(a: STree, b: STree, t: STree)
    requires Size(a) + Size(b) < Size(t)
    ensures Rank(a) + Rank(b) <= 2 * Rank(t) - 1
  {
    hide Log2, Size;
    Log2OfParts(Size(a) + 1, Size(b) + 1, Size(t) + 1);
  }

  // ----- the ways a few rounds can go, each paid for if what follows is ----------------------------

  /** A rotation and a link. */
  lemma ZigZig(a: STree, y: Elm, b: STree, x: Elm, c: STree, p: Parts)
    requires Paid(p, a)
    ensures Paid(Parts(p.l, p.e, Node(p.r, y, Node(b, x, c)), p.rounds + 1), Node(Node(a, y, b), x, c))
  {
    hide Rank, Potential;
    var rest, left := Node(b, x, c), Node(a, y, b);
    var t, r' := Node(left, x, c), Node(p.r, y, rest);
    PotentialIs(b, x, c);
    PotentialIs(a, y, b);
    PotentialIs(left, x, c);
    PotentialIs(p.r, y, rest);
    RankMonotone(r', t);
    RankMonotone(a, left);
    RankOfParts(rest, a, t);
  }

  /** A link to one side, then one to the other. */
  lemma ZigZag(a: STree, y: Elm, b: STree, x: Elm, c: STree, p: Parts)
    requires Paid(p, b)
    ensures Paid(Parts(Node(a, y, p.l), p.e, Node(p.r, x, c), p.rounds + 2), Node(Node(a, y, b), x, c))
  {
    hide Rank, Potential;
    var left, l', r' := Node(a, y, b), Node(a, y, p.l), Node(p.r, x, c);
    var t := Node(left, x, c);
    PotentialIs(a, y, b);
    PotentialIs(a, y, p.l);
    PotentialIs(p.r, x, c);
    PotentialIs(left, x, c);
    RankMonotone(b, left);
    RankMonotone(b, t);
    RankOfParts(l', r', t);
  }

  /** A link to one side, then a rotation and a link to the other. */
  lemma ZigThenZig(a: STree, y: Elm, b: STree, w: Elm, d: STree, x: Elm, c: STree, p: Parts)
    requires Paid(p, d)
    ensures Paid(Parts(Node(Node(a, y, b), w, p.l), p.e, Node(p.r, x, c), p.rounds + 2), Node(Node(a, y, Node(b, w, d)), x, c))
  {
    hide Rank, Potential;
    var inner, rest := Node(b, w, d), Node(a, y, b);
    var left, l', r' := Node(a, y, inner), Node(rest, w, p.l), Node(p.r, x, c);
    var t := Node(left, x, c);
    PotentialIs(b, w, d);
    PotentialIs(a, y, b);
    PotentialIs(a, y, inner);
    PotentialIs(rest, w, p.l);
    PotentialIs(p.r, x, c);
    PotentialIs(left, x, c);
    RankMonotone(d, inner);
    RankMonotone(d, t);
    RankMonotone(rest, left);
    RankOfParts(l', r', t);
  }

  /** The walk ends at the left child: at once, or after a rotation. */
  lemma EndsAtChild(a: STree, y: Elm, b: STree, x: Elm, c: STree)
    ensures Paid(Parts(a, y, Node(b, x, c), 1), Node(Node(a, y, b), x, c))
  {
    hide Rank, Potential;
    var left, right := Node(a, y, b), Node(b, x, c);
    PotentialIs(a, y, b);
    PotentialIs(b, x, c);
    PotentialIs(left, x, c);
    RankMonotone(right, Node(left, x, c));
  }

  /** The walk ends right of the left child, which has no child there or one without a child there. */
  lemma EndsBetween(a: STree, y: Elm, b: STree, w: Elm, x: Elm, c: STree)
    ensures Paid(Parts(a, y, Node(Leaf, x, c), 2), Node(Node(a, y, Leaf), x, c))
    ensures Paid(Parts(Node(a, y, b), w, Node(Leaf, x, c), 2), Node(Node(a, y, Node(b, w, Leaf)), x, c))
  {
    hide Rank, Potential;
    var left, right := Node(a, y, b), Node(Leaf, x, c);
    var inner := Node(b, w, Leaf);
    var short, long := Node(a, y, Leaf), Node(a, y, inner);
    PotentialIs(a, y, b);
    PotentialIs(Leaf, x, c);
    PotentialIs(b, w, Leaf);
    PotentialIs(a, y, Leaf);
    PotentialIs(a, y, inner);
    PotentialIs(short, x, c);
    PotentialIs(long, x, c);
    RankMonotone(left, long);
    RankMonotone(right, Node(short, x, c));
    RankMonotone(right, Node(long, x, c));
  }

  // ----- left and right --------------------------------------------------------------------------

  /** Left and right exchanged. */
  function Mirror(t: STree): STree {
    if t.Leaf? then Leaf else Node(Mirror(t.right), t.elem, Mirror(t.left))
  }

  function Mirrored(p: Parts): Parts {
    Parts(Mirror(p.r), p.e, Mirror(p.l), p.rounds)
  }

  function Flipped(cmp: Cmp): Cmp {
    (a, b) => -cmp(a, b)
  }

  lemma {:induction false} MirrorSame(t: STree)
    ensures Size(Mirror(t)) == Size(t) && Potential(Mirror(t)) == Potential(t)
  {
    hide Log2;
    if t.Node? {
      MirrorSame(t.left);
      MirrorSame(t.right);
    }
  }

  lemma MirrorPaid(p: Parts, t: STree)
    ensures Paid(Mirrored(p), Mirror(t)) <==> Paid(p, t)
  {
    hide Log2, Potential, Size, Mirror;
    MirrorSame(p.l);
    MirrorSame(p.r);
    MirrorSame(t);
  }

  lemma MirrorIs(t: STree)
    requires t.Node?
    ensures Mirror(t) == Node(Mirror(t.right), t.elem, Mirror(t.left))
  {
  }

  lemma MirrorTwo(a: STree, y: Elm, b: STree, x: Elm, c: STree)
    ensures Mirror(Node(a, y, Node(b, x, c))) == Node(Node(Mirror(c), x, Mirror(b)), y, Mirror(a))
    ensures Mirror(Node(Node(a, y, b), x, c)) == Node(Mirror(c), x, Node(Mirror(b), y, Mirror(a)))
  {
  }

  /** Splaying the mirror image with the comparison turned round gives the mirror image. */
  lemma {:induction false} MirrorParts(cmp: Cmp, t: STree, key: int)
    requires t.Node?
    ensures SplayParts(Flipped(cmp), Mirror(t), key) == Mirrored(SplayParts(cmp, t, key))
  {
    if cmp(key, t.elem.key) < 0 && t.left.Node? {
      if cmp(key, t.left.elem.key) >= 0 {
        MirrorParts(cmp, t.left, key);
      } else if t.left.left.Node? {
        MirrorParts(cmp, t.left.left, key);
        MirrorTwo(SplayParts(cmp, t.left.left, key).r, t.left.elem, t.left.right, t.elem, t.right);
        MirrorIs(t.left);
      }
    } else if cmp(key, t.elem.key) > 0 && t.right.Node? {
      if cmp(key, t.right.elem.key) <= 0 {
        MirrorParts(cmp, t.right, key);
      } else if t.right.right.Node? {
        MirrorParts(cmp, t.right.right, key);
        MirrorTwo(t.left, t.elem, t.right.left, t.right.elem, SplayParts(cmp, t.right.right, key).l);
        MirrorIs(t.right);
      }
    }
  }

  // ----- the amortised bound -----------------------------------------------------------------------

  /** The rounds of one SPLAY and the potential of what it leaves are paid for. */
  lemma {:induction false} Amortised(cmp: Cmp, t: STree, key: int)
    requires t.Node?
    ensures Paid(SplayParts(cmp, t, key), t)
    decreases Size(t), 1
  {
    if cmp(key, t.elem.key) < 0 {
      AmortisedLeft(cmp, t, key);
    } else if cmp(key, t.elem.key) > 0 {
      MirrorSame(t);
      AmortisedLeft(Flipped(cmp), Mirror(t), key);
      MirrorParts(cmp, t, key);
      MirrorPaid(SplayParts(cmp, t, key), t);
    }
  }

  lemma {:induction false} AmortisedLeft(cmp: Cmp, t: STree, key: int)
    requires t.Node? && cmp(key, t.elem.key) < 0
    ensures Paid(SplayParts(cmp, t, key), t)
    decreases Size(t), 0, 1
  {
    hide Rank, Potential;
    var x, c := t.elem, t.right;
    if t.left.Leaf? {
      PotentialIs(Leaf, x, c);
      PotentialIs(Leaf, x, Leaf);
    } else {
      SizeIs(t);
      SizeIs(t.left);
      var a, y, b := t.left.left, t.left.elem, t.left.right;
      if cmp(key, y.key) > 0 {
        AmortisedBetween(cmp, t, key);
      } else if cmp(key, y.key) == 0 || a.Leaf? {
        assert cmp(key, y.key) == 0 ==> SplayParts(cmp, t.left, key) == Parts(a, y, b, 0);
        EndsAtChild(a, y, b, x, c);
      } else {
        Amortised(cmp, a, key);
        ZigZig(a, y, b, x, c, SplayParts(cmp, a, key));
      }
    }
  }

  lemma {:induction false} AmortisedBetween(cmp: Cmp, t: STree, key: int)
    requires t.Node? && t.left.Node? && cmp(key, t.elem.key) < 0 && cmp(key, t.left.elem.key) > 0
    ensures Paid(SplayParts(cmp, t, key), t)
    decreases Size(t), 0, 0
  {
    hide Paid;
    var x, c := t.elem, t.right;
    var a, y, b := t.left.left, t.left.elem, t.left.right;
    var q := GoRight(cmp, t.left, key);
    assert SplayParts(cmp, t.left, key) == q;
    assert SplayParts(cmp, t, key) == Parts(q.l, q.e, Node(q.r, x, c), q.rounds + 1);
    SizeIs(t);
    SizeIs(t.left);
    if b.Leaf? {
      assert q == Parts(a, y, Leaf, 1);
      EndsBetween(a, y, Leaf, y, x, c);
    } else if cmp(key, b.elem.key) <= 0 {
      Amortised(cmp, b, key);
      var p := SplayParts(cmp, b, key);
      assert q == Parts(Node(a, y, p.l), p.e, p.r, p.rounds + 1);
      ZigZag(a, y, b, x, c, p);
    } else if b.right.Leaf? {
      assert q == Parts(Node(a, y, b.left), b.elem, Leaf, 1);
      EndsBetween(a, y, b.left, b.elem, x, c);
    } else {
      SizeIs(b);
      Amortised(cmp, b.right, key);
      var p := SplayParts(cmp, b.right, key);
      assert q == Parts(Node(Node(a, y, b.left), b.elem, p.l), p.e, p.r, p.rounds + 1);
      ZigThenZig(a, y, b.left, b.elem, b.right, x, c, p);
    }
  }

  // ----- the loop --------------------------------------------------------------------------------

  /** What the three parts of a walk become once the loop has ended. */
  function Finish(cmp: Cmp, f: LSide, t: STree, g: RSide, key: int): STree
    requires t.Node?
  {
    var p := SplayParts(cmp, t, key);
    Node(LBuild(f, p.l), p.e, RBuild(g, p.r))
  }

  /** One round leads from the walk (f, t, g) to (f', t', g'), and there the loop may stop. */
  ghost predicate Round(cmp: Cmp, key: int, f: LSide, t: STree, g: RSide, stop: bool, f': LSide, t': STree, g': RSide) {
    && t.Node? && t'.Node?
    && (if stop then SplayParts(cmp, t, key).rounds == 1 && Assembled(f', t', g') == Finish(cmp, f, t, g, key)
        else
          && SplayParts(cmp, t, key).rounds == SplayParts(cmp, t', key).rounds + 1
          && Finish(cmp, f', t', g', key) == Finish(cmp, f, t, g, key))
  }

  /** After so many rounds from t0 the walk is (f, t, g), and the loop may have stopped. */
  ghost predicate Course(cmp: Cmp, key: int, t0: STree, rounds: nat, stop: bool, f: LSide, t: STree, g: RSide) {
    && t0.Node? && t.Node?
    && (if stop then rounds == SplayParts(cmp, t0, key).rounds && Assembled(f, t, g) == SplayParts(cmp, t0, key).Tree()
        else
          && rounds + SplayParts(cmp, t, key).rounds == SplayParts(cmp, t0, key).rounds
          && Finish(cmp, f, t, g, key) == SplayParts(cmp, t0, key).Tree())
  }

  lemma CourseStarts(cmp: Cmp, key: int, t: STree)
    requires t.Node?
    ensures Course(cmp, key, t, 0, false, LNil, t, RNil)
  {
    hide SplayParts;
  }

  lemma CourseGoesOn(cmp: Cmp, key: int, t0: STree, rounds: nat, f: LSide, t: STree, g: RSide,
                     stop: bool, f': LSide, t': STree, g': RSide)
    requires Course(cmp, key, t0, rounds, false, f, t, g) && Round(cmp, key, f, t, g, stop, f', t', g')
    ensures Course(cmp, key, t0, rounds + 1, stop, f', t', g')
  {
    hide SplayParts, Finish;
  }

  lemma CourseEnds(cmp: Cmp, key: int, t0: STree, rounds: nat, stop: bool, f: LSide, t: STree, g: RSide)
    requires Course(cmp, key, t0, rounds, stop, f, t, g) && (stop || cmp(key, t.elem.key) == 0)
    ensures rounds == SplayParts(cmp, t0, key).rounds && Assembled(f, t, g) == SplayParts(cmp, t0, key).Tree()
  {
    assert !stop ==> SplayParts(cmp, t, key) == Parts(t.left, t.elem, t.right, 0);
  }

  lemma LeftRound(cmp: Cmp, key: int, f: LSide, t: STree, g: RSide)
    requires t.Node? && cmp(key, t.elem.key) < 0
    ensures t.left.Leaf? ==> Round(cmp, key, f, t, g, true, f, t, g)
    ensures t.left.Node? && cmp(key, t.left.elem.key) >= 0 ==>
      Round(cmp, key, f, t, g, false, f, t.left, RCons(g, t.elem, t.right))
    ensures t.left.Node? && cmp(key, t.left.elem.key) < 0 ==>
      var t' := Node(t.left.left, t.left.elem, Node(t.left.right, t.elem, t.right));
      if t'.left.Leaf? then Round(cmp, key, f, t, g, true, f, t', g)
      else Round(cmp, key, f, t, g, false, f, t'.left, RCons(g, t'.elem, t'.right))
  {
    var x, c := t.elem, t.right;
    if t.left.Leaf? {
      assert SplayParts(cmp, t, key) == Parts(Leaf, x, c, 1);
    } else {
      var y, rest := t.left.elem, Node(t.left.right, x, c);
      if cmp(key, y.key) >= 0 {
        var p := SplayParts(cmp, t.left, key);
        assert SplayParts(cmp, t, key) == Parts(p.l, p.e, Node(p.r, x, c), p.rounds + 1);
        assert RBuild(RCons(g, x, c), p.r) == RBuild(g, Node(p.r, x, c));
      } else if t.left.left.Leaf? {
        assert SplayParts(cmp, t, key) == Parts(Leaf, y, rest, 1);
      } else {
        var p := SplayParts(cmp, t.left.left, key);
        assert SplayParts(cmp, t, key) == Parts(p.l, p.e, Node(p.r, y, rest), p.rounds + 1);
        assert RBuild(RCons(g, y, rest), p.r) == RBuild(g, Node(p.r, y, rest));
      }
    }
  }

  lemma RightRound(cmp: Cmp, key: int, f: LSide, t: STree, g: RSide)
    requires t.Node? && cmp(key, t.elem.key) > 0
    ensures t.right.Leaf? ==> Round(cmp, key, f, t, g, true, f, t, g)
    ensures t.right.Node? && cmp(key, t.right.elem.key) <= 0 ==>
      Round(cmp, key, f, t, g, false, LCons(f, t.left, t.elem), t.right, g)
    ensures t.right.Node? && cmp(key, t.right.elem.key) > 0 ==>
      var t' := Node(Node(t.left, t.elem, t.right.left), t.right.elem, t.right.right);
      if t'.right.Leaf? then Round(cmp, key, f, t, g, true, f, t', g)
      else Round(cmp, key, f, t, g, false, LCons(f, t'.left, t'.elem), t'.right, g)
  {
    var a, x := t.left, t.elem;
    if t.right.Leaf? {
      assert SplayParts(cmp, t, key) == Parts(a, x, Leaf, 1);
    } else {
      var y, rest := t.right.elem, Node(a, x, t.right.left);
      if cmp(key, y.key) <= 0 {
        var p := SplayParts(cmp, t.right, key);
        assert SplayParts(cmp, t, key) == Parts(Node(a, x, p.l), p.e, p.r, p.rounds + 1);
        assert LBuild(LCons(f, a, x), p.l) == LBuild(f, Node(a, x, p.l));
      } else if t.right.right.Leaf? {
        assert SplayParts(cmp, t, key) == Parts(rest, y, Leaf, 1);
      } else {
        var p := SplayParts(cmp, t.right.right, key);
        assert SplayParts(cmp, t, key) == Parts(Node(rest, y, p.l), p.e, p.r, p.rounds + 1);
        assert LBuild(LCons(f, rest, y), p.l) == LBuild(f, Node(rest, y, p.l));
      }
    }
  }

  // ----- the operations ------------------------------------------------------------------------

  /** One SPLAY pays nine times the rank of the tree, and two. */
  lemma SplayBound(cmp: Cmp, t: STree, key: int)
    requires t.Node?
    ensures var p := SplayParts(cmp, t, key);
      && p.rounds + Potential(p.Tree()) <= Potential(t) + 9 * Rank(t) + 2
      && Size(p.Tree()) == Size(t) && Rank(p.Tree()) == Rank(t)
  {
    hide Rank, Potential, SplayParts;
    Amortised(cmp, t, key);
    var p := SplayParts(cmp, t, key);
    PotentialIs(p.l, p.e, p.r);
    SizeIs(p.Tree());
    RankMonotone(p.Tree(), t);
    RankMonotone(t, p.Tree());
  }

  /** The rounds that one operation on a tree of n elements may take on average. */
  function Charge(n: nat): nat {
    18 * Log2(n + 1) + 4
  }

  lemma ChargeMonotone(a: nat, b: nat)
    requires a <= b
    ensures Charge(a) <= Charge(b)
  {
    hide Log2;
    Log2Monotone(a + 1, b + 1);
  }

  lemma ChargeIs(t: STree)
    ensures Charge(Size(t)) == 18 * Rank(t) + 4
  {
    hide Log2, Size;
  }

  lemma ChargeIsLog(n: nat)
    ensures Charge(n) == 18 * Log2(n + 1) + 4
  {
    hide Log2;
  }

  lemma RankIs(t: STree)
    ensures Rank(t) == Log2(Size(t) + 1)
  {
    hide Log2, Size;
  }

  /** The comparison of SPLAY_MINMAX, which looks at no keys. */
  function Toward(comp: int): Cmp {
    (a, b) => comp
  }

  lemma OneIsCheap(e: Elm)
    ensures Size(Node(Leaf, e, Leaf)) == 1 && Potential(Node(Leaf, e, Leaf)) <= Charge(1) && Size(Leaf) == 0
  {
    hide Log2;
    NoPotential();
  }

  /** What SPLAY_INSERT makes of a splayed tree when the new element is less than its root. */
  function InsertBelow(t: STree, e: Elm): STree
    requires t.Node?
  {
    Node(t.left, e, Node(Leaf, t.elem, t.right))
  }

  function InsertAbove(t: STree, e: Elm): STree
    requires t.Node?
  {
    Node(Node(t.left, t.elem, Leaf), e, t.right)
  }

  /** Putting a new root on top raises the potential by no more than its rank pays for. */
  lemma InsertBound(t: STree, e: Elm, u: STree)
    requires t.Node? && (u == InsertBelow(t, e) || u == InsertAbove(t, e))
    ensures Size(u) == Size(t) + 1 && Potential(u) <= Potential(t) + 3 * Rank(u) && Rank(t) <= Rank(u)
  {
    hide Rank, Potential;
    var below, above := Node(Leaf, t.elem, t.right), Node(t.left, t.elem, Leaf);
    PotentialIs(t.left, t.elem, t.right);
    PotentialIs(Leaf, t.elem, t.right);
    PotentialIs(t.left, t.elem, Leaf);
    PotentialIs(u.left, e, u.right);
    RankMonotone(below, t);
    RankMonotone(above, t);
    NoPotential();
    RankMonotone(t, u);
  }

  lemma NoPotential()
    ensures Potential(Leaf) == 0 && Size(Leaf) == 0
  {
  }

  /** Without its root, a tree with nothing on the left has no more potential. */
  lemma RemoveBound(t: STree)
    requires t.Node? && t.left.Leaf?
    ensures Size(t.right) < Size(t) && Potential(t.right) <= Potential(t)
  {
    hide Rank;
  }

  /** Splaying left and hanging right from its root. */
  ghost predicate JoinPaid(left: STree, right: STree, joined: STree, rounds: nat) {
    && Size(joined) == Size(left) + Size(right)
    && rounds + Potential(joined) <= Potential(left) + Potential(right) + 9 * Rank(left) + 3 * Rank(joined) + 2
  }

  lemma JoinedIsPaid(cmp: Cmp, left: STree, key: int, right: STree)
    requires left.Node?
    ensures var p := SplayParts(cmp, left, key); p.r.Leaf? ==> JoinPaid(left, right, Node(p.l, p.e, right), p.rounds)
  {
    hide Rank, Potential, SplayParts;
    SplayBound(cmp, left, key);
    var p := SplayParts(cmp, left, key);
    PotentialIs(p.l, p.e, p.r);
    PotentialIs(p.l, p.e, right);
    SizeIs(p.Tree());
  }

  lemma JoinBound(t: STree, joined: STree, rounds: nat)
    requires t.Node? && JoinPaid(t.left, t.right, joined, rounds)
    ensures Size(joined) < Size(t) && rounds + Potential(joined) <= Potential(t) + 9 * Rank(t) + 2
  {
    hide Rank, Potential;
    PotentialIs(t.left, t.elem, t.right);
    RankMonotone(joined, t);
    RankMonotone(t.left, t);
  }
}
