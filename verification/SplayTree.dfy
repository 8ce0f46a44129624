/** The splay tree macros of sys/tree.h on linked elements. */
module SplayTree {
  import opened Elements
  import opened SearchOrder
  import opened SplayShape
  import opened SplayCost
  import opened Logs

  ghost function Fields(s: set<Elm>): (m: Links)
    reads s
    ensures m.Keys == s && forall e :: e in s ==> m[e] == Cell(e.spLeft, e.spRight)
  {
    map e | e in s :: Cell(e.spLeft, e.spRight)
  }

  class SplayTree {
    const cmp: Cmp
    var root: Elm?
    ghost var tree: STree

    ghost predicate Shape()
      reads this, Elems(tree)
    {
      root == tree.Root() && Distinct(tree) && Linked(tree, Fields(Elems(tree)))
    }

    ghost predicate Valid()
      reads this, Elems(tree)
    {
      Shape() && Lawful(cmp) && Ordered(cmp, InOrder(tree))
    }

    /** The tree holds the same elements in the same order as t. */
    ghost predicate SameElements(t: STree)
      reads this
    {
      Elems(tree) == Elems(t) && InOrder(tree) == InOrder(t)
    }

    /** The state of the splay loops: three linked parts, together the elements of s except the header, in order. */
    ghost predicate InWalk(node: Elm, left: Elm, right: Elm, s: set<Elm>, order: seq<Elm>, f: LSide, t: STree, g: RSide)
      reads this, s
    {
      && Walk(f, t, g, node, Fields(s)) && t.Node? && root == t.elem
      && left == LTip(f, node) && right == RTip(g, node)
      && WalkElems(f, t, g) + {node} == s && WalkOrder(f, t, g) == order
    }

    constructor (cmp: Cmp)
      requires Lawful(cmp)
      ensures Valid() && tree == Leaf && this.cmp == cmp
    {
      this.cmp := cmp;
      root := null;
      tree := Leaf;
    }

    /** SPLAY_ROTATE_RIGHT; tmp is the left child of the root. */
    method RotateRight(tmp: Elm, ghost s: set<Elm>)
      requires root != null && root in s && tmp in s && tmp != root
      modifies this`root, s
      ensures root == tmp
      ensures var m, x := old(Fields(s)), old(root);
        Fields(s) == m[x := Cell(m[tmp].right, m[x].right)][tmp := Cell(m[tmp].left, x)]
    {
      root.spLeft := tmp.spRight;
      tmp.spRight := root;
      root := tmp;
    }

    /** SPLAY_ROTATE_LEFT; tmp is the right child of the root. */
    method RotateLeft(tmp: Elm, ghost s: set<Elm>)
      requires root != null && root in s && tmp in s && tmp != root
      modifies this`root, s
      ensures root == tmp
      ensures var m, x := old(Fields(s)), old(root);
        Fields(s) == m[x := Cell(m[x].left, m[tmp].left)][tmp := Cell(x, m[tmp].right)]
    {
      root.spRight := tmp.spLeft;
      tmp.spLeft := root;
      root := tmp;
    }

    /** SPLAY_LINKLEFT. */
    method LinkLeft(tmp: Elm, ghost s: set<Elm>) returns (tip: Elm)
      requires root != null && root in s && tmp in s && tmp != root
      modifies this`root, s
      ensures tip == old(root) && root == old(root.spLeft)
      ensures Fields(s) == old(Fields(s))[tmp := old(Fields(s))[tmp].(left := old(root))]
    {
      tmp.spLeft := root;
      tip := root;
      root := root.spLeft;
    }

    /** SPLAY_LINKRIGHT. */
    method LinkRight(tmp: Elm, ghost s: set<Elm>) returns (tip: Elm)
      requires root != null && root in s && tmp in s && tmp != root
      modifies this`root, s
      ensures tip == old(root) && root == old(root.spRight)
      ensures Fields(s) == old(Fields(s))[tmp := old(Fields(s))[tmp].(right := old(root))]
    {
      tmp.spRight := root;
      tip := root;
      root := root.spRight;
    }

    /** SPLAY_ASSEMBLE. */
    method Assemble(node: Elm, left: Elm, right: Elm, ghost s: set<Elm>, ghost f: LSide, ghost t: STree, ghost g: RSide)
      requires Walk(f, t, g, node, Fields(s)) && t.Node? && root == t.elem
      requires left == LTip(f, node) && right == RTip(g, node) && WalkElems(f, t, g) + {node} == s
      modifies this`tree, s
      ensures Shape() && tree == Assembled(f, t, g) && Elems(tree) == WalkElems(f, t, g)
    {
      hide Linked, Distinct, LDistinct, RDistinct, LLinked, RLinked, Elems, LElems, RElems, AssembleWrites;
      ghost var m := Fields(s);
      AssembleStep(f, t, g, node, m);
      AssembleFields(node, left, right, s, f, t, g);
      tree := Assembled(f, t, g);
      LinkedFrame(tree, Fields(s), Fields(Elems(tree)));
    }

    method AssembleFields(node: Elm, left: Elm, right: Elm, ghost s: set<Elm>, ghost f: LSide, ghost t: STree, ghost g: RSide)
      requires t.Node? && root == t.elem && root in s && left in s && right in s && node in s
      requires left == LTip(f, node) && right == RTip(g, node)
      modifies s
      ensures Fields(s) == AssembleWrites(f, t, g, node, old(Fields(s)))
    {
      CloseFields(left, right, s);
      RootWrites(node, s);
    }

    /** The last two writes of SPLAY_ASSEMBLE. */
    method RootWrites(node: Elm, ghost s: set<Elm>)
      requires root != null && root in s && node in s
      modifies s
      ensures var m := old(Fields(s));
        var m1 := m[root := m[root].(left := m[node].right)];
        Fields(s) == m1[root := m1[root].(right := m1[node].left)]
    {
      ghost var m := Fields(s);
      root.spLeft := node.spRight;
      ghost var m1 := Fields(s);
      assert m1 == m[root := m[root].(left := m[node].right)];
      root.spRight := node.spLeft;
    }

    /** The first two writes of SPLAY_ASSEMBLE. */
    method CloseFields(left: Elm, right: Elm, ghost s: set<Elm>)
      requires root != null && root in s && left in s && right in s
      modifies s
      ensures var m := old(Fields(s));
        var m1 := m[left := m[left].(right := m[root].left)];
        Fields(s) == m1[right := m1[right].(left := m1[root].right)]
    {
      ghost var m := Fields(s);
      left.spRight := root.spLeft;
      ghost var m1 := Fields(s);
      assert m1 == m[left := m[left].(right := m[root].left)];
      right.spLeft := root.spRight;
    }

    /** What a walk says about the root's fields. */
    lemma RootFields(node: Elm, left: Elm, right: Elm, s: set<Elm>, order: seq<Elm>, f: LSide, t: STree, g: RSide)
      requires InWalk(node, left, right, s, order, f, t, g)
      ensures root in s && root.spLeft == t.left.Root() && root.spRight == t.right.Root()
    {
    }

    lemma WalkIs(node: Elm, left: Elm, right: Elm, s: set<Elm>, order: seq<Elm>, f: LSide, t: STree, g: RSide)
      requires InWalk(node, left, right, s, order, f, t, g)
      ensures Walk(f, t, g, node, Fields(s)) && t.Node? && root == t.elem
      ensures left == LTip(f, node) && right == RTip(g, node)
      ensures WalkElems(f, t, g) + {node} == s && WalkOrder(f, t, g) == order
    {
      hide Linked, Distinct, LDistinct, RDistinct, LLinked, RLinked, Elems, LElems, RElems, Walk, InOrder, LOrder, ROrder;
    }

    /** The open ends and the root of a walk are different elements of the set. */
    static lemma WalkFacts(f: LSide, t: STree, g: RSide, h: Elm, m: Links)
      requires Walk(f, t, g, h, m) && t.Node?
      ensures t.elem in m && LTip(f, h) in m && RTip(g, h) in m && t.elem != LTip(f, h) && t.elem != RTip(g, h)
      ensures m[t.elem] == Cell(t.left.Root(), t.right.Root())
    {
    }

    static lemma RotateElems(t: STree)
      requires t.Node?
      ensures t.left.Node? ==> Elems(Node(t.left.left, t.left.elem, Node(t.left.right, t.elem, t.right))) == Elems(t)
      ensures t.right.Node? ==> Elems(Node(Node(t.left, t.elem, t.right.left), t.right.elem, t.right.right)) == Elems(t)
    {
      assert t.left.Node? ==> Elems(t.left) == Elems(t.left.left) + {t.left.elem} + Elems(t.left.right);
      assert t.right.Node? ==> Elems(t.right) == Elems(t.right.left) + {t.right.elem} + Elems(t.right.right);
    }

    /** Before the first step everything is in the middle tree. */
    lemma StartWalk(node: Elm, s: set<Elm>)
      requires Shape() && root != null && node !in Elems(tree) && s == Elems(tree) + {node}
      ensures InWalk(node, node, node, s, InOrder(tree), LNil, tree, RNil) && tree.Node? && root == tree.elem
    {
      LinkedFrame(tree, Fields(Elems(tree)), Fields(s));
      assert WalkOrder(LNil, tree, RNil) == InOrder(tree);
    }

    /** Rotation of the left child over the root, during the walk. */
    method RotateRightWalking(tmp: Elm, ghost node: Elm, ghost left: Elm, ghost right: Elm, ghost s: set<Elm>,
                           ghost order: seq<Elm>, ghost f: LSide, ghost t: STree, ghost g: RSide) returns (ghost t': STree)
      requires InWalk(node, left, right, s, order, f, t, g) && t.left.Root() == tmp
      modifies this`root, s
      ensures t' == Node(t.left.left, t.left.elem, Node(t.left.right, t.elem, t.right))
      ensures InWalk(node, left, right, s, order, f, t', g)
    {
      hide Linked, Distinct, LDistinct, RDistinct, LLinked, RLinked, LElems, RElems, LOrder, ROrder, Walk;
      t' := Node(t.left.left, t.left.elem, Node(t.left.right, t.elem, t.right));
      RotateRightStep(f, t, g, node, Fields(s));
      RotateElems(t);
      RotateOrder(t.left.left, t.left.elem, t.left.right, t.elem, t.right);
      hide InOrder, Elems;
      RotateRight(tmp, s);
    }

    /** SPLAY_LINKLEFT during the walk. */
    method LinkLeftWalking(ghost node: Elm, left: Elm, right: Elm, ghost s: set<Elm>,
                        ghost order: seq<Elm>, ghost f: LSide, ghost t: STree, ghost g: RSide) returns (tip: Elm)
      requires InWalk(node, left, right, s, order, f, t, g) && t.left.Node?
      modifies this`root, s
      ensures InWalk(node, left, tip, s, order, f, t.left, RCons(g, t.elem, t.right))
    {
      hide Linked, Distinct, LDistinct, RDistinct, LLinked, RLinked, InOrder, LOrder, ROrder, Walk;
      LinkLeftStep(f, t, g, node, Fields(s));
      LinkOrder(f, t, g);
      WalkFacts(f, t, g, node, Fields(s));
      tip := LinkLeft(right, s);
    }

    /** The branch of SPLAY for a key on the left. stop is a break out of the loop. */
    method StepLeft(key: int, node: Elm, left: Elm, right: Elm, ghost s: set<Elm>, ghost order: seq<Elm>,
                   ghost f: LSide, ghost t: STree, ghost g: RSide)
      returns (stop: bool, right': Elm, ghost t': STree, ghost g': RSide)
      requires InWalk(node, left, right, s, order, f, t, g) && cmp(key, root.key) < 0
      requires Lawful(cmp) && Ordered(cmp, order) && Split(cmp, f, g, key)
      modifies this`root, s
      ensures InWalk(node, left, right', s, order, f, t', g') && t'.Node? && root == t'.elem && Split(cmp, f, g', key)
      ensures Size(t') <= Size(t) && (!stop ==> Size(t') < Size(t))
      ensures stop ==> AtEnd(cmp, t', key)
      ensures Round(cmp, key, f, t, g, stop, f, t', g')
    {
      hide Linked, Distinct, LDistinct, RDistinct, LLinked, RLinked, Elems, LElems, RElems, Ordered, Lawful, Split, Walk;
      hide InOrder, LOrder, ROrder, Round;
      LeftRound(cmp, key, f, t, g);
      t', g' := t, g;
      RootFields(node, left, right, s, order, f, t', g);
      var tmp := root.spLeft;
      if tmp == null {
        return true, right, t', g';
      }
      if cmp(key, tmp.key) < 0 {
        t' := RotateRightWalking(tmp, node, left, right, s, order, f, t', g);
        RootFields(node, left, right, s, order, f, t', g);
        if root.spLeft == null {
          return true, right, t', g';
        }
      }
      LinkSplit(cmp, f, t', g, key);
      right' := LinkLeftWalking(node, left, right, s, order, f, t', g);
      g', t' := RCons(g, t'.elem, t'.right), t'.left;
      stop := false;
    }

    /** Rotation of the right child over the root, during the walk. */
    method RotateLeftWalking(tmp: Elm, ghost node: Elm, ghost left: Elm, ghost right: Elm, ghost s: set<Elm>,
                           ghost order: seq<Elm>, ghost f: LSide, ghost t: STree, ghost g: RSide) returns (ghost t': STree)
      requires InWalk(node, left, right, s, order, f, t, g) && t.right.Root() == tmp
      modifies this`root, s
      ensures t' == Node(Node(t.left, t.elem, t.right.left), t.right.elem, t.right.right)
      ensures InWalk(node, left, right, s, order, f, t', g)
    {
      hide Linked, Distinct, LDistinct, RDistinct, LLinked, RLinked, LElems, RElems, LOrder, ROrder, Walk;
      t' := Node(Node(t.left, t.elem, t.right.left), t.right.elem, t.right.right);
      RotateLeftStep(f, t, g, node, Fields(s));
      RotateElems(t);
      RotateOrder(t.left, t.elem, t.right.left, t.right.elem, t.right.right);
      hide InOrder, Elems;
      RotateLeft(tmp, s);
    }

    /** SPLAY_LINKRIGHT during the walk. */
    method LinkRightWalking(ghost node: Elm, left: Elm, right: Elm, ghost s: set<Elm>,
                        ghost order: seq<Elm>, ghost f: LSide, ghost t: STree, ghost g: RSide) returns (tip: Elm)
      requires InWalk(node, left, right, s, order, f, t, g) && t.right.Node?
      modifies this`root, s
      ensures InWalk(node, tip, right, s, order, LCons(f, t.left, t.elem), t.right, g)
    {
      hide Linked, Distinct, LDistinct, RDistinct, LLinked, RLinked, InOrder, LOrder, ROrder, Walk;
      LinkRightStep(f, t, g, node, Fields(s));
      LinkOrder(f, t, g);
      WalkFacts(f, t, g, node, Fields(s));
      tip := LinkRight(left, s);
    }

    /** The branch of SPLAY for a key on the right. stop is a break out of the loop. */
    method StepRight(key: int, node: Elm, left: Elm, right: Elm, ghost s: set<Elm>, ghost order: seq<Elm>,
                   ghost f: LSide, ghost t: STree, ghost g: RSide)
      returns (stop: bool, left': Elm, ghost f': LSide, ghost t': STree)
      requires InWalk(node, left, right, s, order, f, t, g) && cmp(key, root.key) > 0
      requires Lawful(cmp) && Ordered(cmp, order) && Split(cmp, f, g, key)
      modifies this`root, s
      ensures InWalk(node, left', right, s, order, f', t', g) && t'.Node? && root == t'.elem && Split(cmp, f', g, key)
      ensures Size(t') <= Size(t) && (!stop ==> Size(t') < Size(t))
      ensures stop ==> AtEnd(cmp, t', key)
      ensures Round(cmp, key, f, t, g, stop, f', t', g)
    {
      hide Linked, Distinct, LDistinct, RDistinct, LLinked, RLinked, Elems, LElems, RElems, Ordered, Lawful, Split, Walk;
      hide InOrder, LOrder, ROrder, Round;
      RightRound(cmp, key, f, t, g);
      t', f' := t, f;
      RootFields(node, left, right, s, order, f, t', g);
      var tmp := root.spRight;
      if tmp == null {
        return true, left, f', t';
      }
      if cmp(key, tmp.key) > 0 {
        t' := RotateLeftWalking(tmp, node, left, right, s, order, f, t', g);
        RootFields(node, left, right, s, order, f, t', g);
        if root.spRight == null {
          return true, left, f', t';
        }
      }
      LinkSplit(cmp, f, t', g, key);
      left' := LinkRightWalking(node, left, right, s, order, f, t', g);
      f', t' := LCons(f, t'.left, t'.elem), t'.right;
      stop := false;
    }

    /** The on-stack header node. */
    method NewHeader(ghost s: set<Elm>) returns (node: Elm)
      ensures fresh(node) && node !in s && Fields(s) == old(Fields(s))
    {
      node := new Elm(0);
      node.spLeft, node.spRight := null, null;
    }

    /**
     The main splay operation: same elements, same order, and the root divides them: everything in its left subtree is
     less than the key and everything in its right subtree greater. Like the macro, it needs a root. The loop takes
     as many rounds as SplayParts counts and leaves the tree that it describes.
     */
    method Splay(elm: Elm) returns (ghost rounds: nat)
      requires Valid() && root != null
      modifies this, Elems(tree)
      ensures Valid() && SameElements(old(tree)) && Splayed(cmp, tree, elm.key)
      ensures var p := SplayParts(cmp, old(tree), elm.key); tree == p.Tree() && rounds == p.rounds
    {
      hide Linked, Distinct, LDistinct, RDistinct, LLinked, RLinked, Elems, LElems, RElems, Ordered, Lawful, Walk;
      hide InOrder, LOrder, ROrder, Splayed, AtEnd, SplayParts, Course, Round, InWalk;
      ghost var was, s0, order := tree, Elems(tree), InOrder(tree);
      var node := NewHeader(s0);
      var left, right := node, node;
      ghost var s := s0 + {node};
      ghost var f, t, g := LNil, tree, RNil;
      StartWalk(node, s);
      StartSplit(elm.key);
      CourseStarts(cmp, elm.key, was);
      rounds := 0;
      var stop := false;
      while !stop && cmp(elm.key, root.key) != 0
        invariant InWalk(node, left, right, s, order, f, t, g) && t.Node? && root == t.elem && Split(cmp, f, g, elm.key)
        invariant stop ==> AtEnd(cmp, t, elm.key)
        invariant Course(cmp, elm.key, was, rounds, stop, f, t, g)
        decreases Size(t), !stop
      {
        ghost var f0, t0, g0 := f, t, g;
        if cmp(elm.key, root.key) < 0 {
          stop, right, t, g := StepLeft(elm.key, node, left, right, s, order, f, t, g);
        } else {
          stop, left, f, t := StepRight(elm.key, node, left, right, s, order, f, t, g);
        }
        CourseGoesOn(cmp, elm.key, was, rounds, f0, t0, g0, stop, f, t, g);
        rounds := rounds + 1;
      }
      WalkIs(node, left, right, s, order, f, t, g);
      if !stop {
        EqualIsEnd(cmp, t, elm.key);
      }
      CourseEnds(cmp, elm.key, was, rounds, stop, f, t, g);
      HeaderOutside(f, t, g, node, s0, Fields(s));
      EndIsSplayed(cmp, f, t, g, elm.key);
      AssembledOrder(f, t, g);
      Assemble(node, left, right, s, f, t, g);
    }

    static lemma HeaderOutside(f: LSide, t: STree, g: RSide, h: Elm, s0: set<Elm>, m: Links)
      requires Walk(f, t, g, h, m) && h !in s0 && WalkElems(f, t, g) + {h} == s0 + {h}
      ensures WalkElems(f, t, g) == s0
    {
      assert h !in WalkElems(f, t, g);
      assert forall e :: e in WalkElems(f, t, g) <==> e in WalkElems(f, t, g) + {h} && e != h;
    }

    lemma StartSplit(key: int)
      ensures Split(cmp, LNil, RNil, key)
    {
    }

    static lemma EqualIsEnd(cmp: Cmp, t: STree, key: int)
      requires t.Node? && cmp(key, t.elem.key) == 0
      ensures AtEnd(cmp, t, key)
    {
    }

    /** The root of a splayed tree decides whether the key is present. */
    lemma RootDecides(key: int)
      requires Valid() && Splayed(cmp, tree, key)
      ensures root != null && root in Elems(tree)
      ensures cmp(key, root.key) != 0 ==> forall e :: e in Elems(tree) ==> cmp(key, e.key) != 0
    {
      forall e | e in Elems(tree) && e != root
        ensures cmp(key, e.key) != 0
      {
        ElemsInOrder(tree, e);
      }
    }

    /** SPLAY_FIND. */
    method Find(elm: Elm) returns (r: Elm?, ghost rounds: nat)
      requires Valid()
      modifies this, Elems(tree)
      ensures rounds + Potential(tree) <= old(Potential(tree)) + Charge(old(Size(tree))) && Size(tree) == old(Size(tree))
      ensures Valid() && SameElements(old(tree))
      ensures r != null ==> r in Elems(tree) && cmp(elm.key, r.key) == 0 && root == r
      ensures r == null ==> forall e :: e in Elems(tree) ==> cmp(elm.key, e.key) != 0
    {
      hide Linked, Distinct, Ordered, Lawful, Splayed, InOrder, SplayParts, Potential, Size, Rank, Charge;
      if root == null {
        return null, 0;
      }
      SplayBound(cmp, tree, elm.key);
      ChargeIs(tree);
      rounds := Splay(elm);
      RootDecides(elm.key);
      r := if cmp(elm.key, root.key) == 0 then root else null;
    }

    /** SPLAY_INSERT. An equal element is returned and stays; otherwise elm becomes the root, at its place in the order. */
    method Insert(elm: Elm) returns (r: Elm?, ghost i: nat, ghost rounds: nat)
      requires Valid()
      modifies this, Elems(tree), elm
      ensures Valid()
      ensures r != null ==> SameElements(old(tree)) && r in Elems(tree) && cmp(elm.key, r.key) == 0
      ensures r == null ==>
        && (forall e :: e in old(Elems(tree)) ==> cmp(elm.key, e.key) != 0)
        && root == elm && Elems(tree) == old(Elems(tree)) + {elm}
        && InsertedAt(InOrder(tree), old(InOrder(tree)), i, elm)
      ensures Size(tree) == old(Size(tree)) + (if r == null then 1 else 0)
      ensures rounds + Potential(tree) <= old(Potential(tree)) + Charge(Size(tree))
    {
      hide Linked, Distinct, Ordered, Lawful, Splayed, InOrder, Elems, SplayParts, Potential, Size, Rank, Charge;
      i, rounds := 0, 0;
      if root == null {
        NoElements(tree);
        InsertFirst(elm);
        OneIsCheap(elm);
      } else {
        SplayBound(cmp, tree, elm.key);
        ChargeIs(tree);
        rounds := Splay(elm);
        RootDecides(elm.key);
        SelfEqual(cmp, elm.key);
        if cmp(elm.key, root.key) == 0 {
          return root, 0, rounds;
        }
        ghost var t := tree;
        i := InsertAtRoot(elm);
        InsertBound(t, elm, tree);
        ChargeIs(tree);
      }
      r := null;
    }

    static lemma NoElements(t: STree)
      requires t.Leaf?
      ensures Elems(t) == {} && InOrder(t) == []
    {
    }

    /** The new element alone. */
    method InsertFirst(elm: Elm)
      requires Valid() && root == null
      modifies this, elm
      ensures Valid() && root == elm && tree == Node(Leaf, elm, Leaf) && Elems(tree) == {elm}
      ensures  InsertedAt(InOrder(tree), old(InOrder(tree)), 0, elm)
    {
      elm.spLeft, elm.spRight := null, null;
      root := elm;
      tree := Node(Leaf, elm, Leaf);
    }

    /** The new element becomes the root; the old root, split from the subtree on the new element's side, its child. */
    method InsertAtRoot(elm: Elm) returns (ghost i: nat)
      requires Valid() && Splayed(cmp, tree, elm.key) && tree.Node? && cmp(elm.key, tree.elem.key) != 0 && elm !in Elems(tree)
      modifies this, Elems(tree), elm
      ensures Valid() && root == elm && Elems(tree) == old(Elems(tree)) + {elm}
      ensures InsertedAt(InOrder(tree), old(InOrder(tree)), i, elm)
      ensures tree == if cmp(elm.key, old(tree.elem.key)) < 0 then InsertBelow(old(tree), elm) else InsertAbove(old(tree), elm)
    {
      hide Linked, Distinct, Ordered, Lawful, Splayed, InOrder, Elems;
      ghost var s, m, t := Elems(tree), Fields(Elems(tree)), tree;
      RootLinked(t, m);
      if cmp(elm.key, root.key) < 0 {
        elm.spLeft := root.spLeft;
        elm.spRight := root;
        root.spLeft := null;
        tree := InsertBelow(t, elm);
        i := |InOrder(t.left)|;
      } else {
        elm.spRight := root.spRight;
        elm.spLeft := root;
        root.spRight := null;
        tree := InsertAbove(t, elm);
        i := |InOrder(t.left)| + 1;
      }
      root := elm;
      InsertOrder(cmp, t, elm);
      InsertElems(t, elm);
      InsertLinked(t, elm, m, Fields(s + {elm}));
    }

    static lemma RootLinked(t: STree, m: Links)
      requires t.Node? && Linked(t, m)
      ensures t.elem in m && m[t.elem] == Cell(t.left.Root(), t.right.Root()) && t.elem in Elems(t)
    {
    }

    static lemma InsertElems(t: STree, e: Elm)
      requires t.Node? && Distinct(t) && e !in Elems(t)
      ensures Distinct(InsertBelow(t, e)) && Elems(InsertBelow(t, e)) == Elems(t) + {e}
      ensures Distinct(InsertAbove(t, e)) && Elems(InsertAbove(t, e)) == Elems(t) + {e}
    {
    }

    static lemma InsertLinked(t: STree, e: Elm, m: Links, m': Links)
      requires t.Node? && Linked(t, m) && Distinct(t) && e !in Elems(t) && t.elem in m && e in m' && t.elem in m'
      requires forall x :: x in Elems(t) && x != t.elem ==> x in m && x in m' && m'[x] == m[x]
      ensures m'[e] == Cell(m[t.elem].left, t.elem) && m'[t.elem] == Cell(null, m[t.elem].right) ==> Linked(InsertBelow(t, e), m')
      ensures m'[e] == Cell(t.elem, m[t.elem].right) && m'[t.elem] == Cell(m[t.elem].left, null) ==> Linked(InsertAbove(t, e), m')
    {
      LinkedFrame(t.left, m, m');
      LinkedFrame(t.right, m, m');
    }

    static lemma InsertOrder(cmp: Cmp, t: STree, e: Elm)
      requires Splayed(cmp, t, e.key) && Lawful(cmp) && Ordered(cmp, InOrder(t))
      ensures cmp(e.key, t.elem.key) < 0 ==>
        && InsertedAt(InOrder(InsertBelow(t, e)), InOrder(t), |InOrder(t.left)|, e)
        && Ordered(cmp, InOrder(InsertBelow(t, e)))
      ensures cmp(e.key, t.elem.key) > 0 ==>
        && InsertedAt(InOrder(InsertAbove(t, e)), InOrder(t), |InOrder(t.left)| + 1, e)
        && Ordered(cmp, InOrder(InsertAbove(t, e)))
    {
      var l, x, r := InOrder(t.left), t.elem, InOrder(t.right);
      InsertedInOrder(t, e);
      hide InOrder, Ordered, Lawful, InsertedAt, InsertBelow, InsertAbove, AllBelow, AllAbove;
      if cmp(e.key, x.key) < 0 {
        OneMore(cmp, e.key, l, x, r);
        BetweenOrdered(cmp, l, e, [x] + r);
      } else if cmp(e.key, x.key) > 0 {
        OneMore(cmp, e.key, l, x, r);
        BetweenOrdered(cmp, l + [x], e, r);
      }
    }

    static lemma InsertedInOrder(t: STree, e: Elm)
      requires t.Node?
      ensures var l, x, r := InOrder(t.left), t.elem, InOrder(t.right);
        && InOrder(t) == l + ([x] + r) == (l + [x]) + r
        && InOrder(InsertBelow(t, e)) == l + [e] + ([x] + r) && InOrder(InsertAbove(t, e)) == (l + [x]) + [e] + r
    {
      var l, x, r := InOrder(t.left), t.elem, InOrder(t.right);
      assert InOrder(Node(Leaf, x, t.right)) == [x] + r;
      assert InOrder(Node(t.left, x, Leaf)) == l + [x];
      Assoc(l, [x], r);
    }

    static lemma OneMore(cmp: Cmp, key: int, l: seq<Elm>, x: Elm, r: seq<Elm>)
      ensures AllBelow(cmp, l, key) && cmp(key, x.key) > 0 ==> AllBelow(cmp, l + [x], key)
      ensures AllAbove(cmp, r, key) && cmp(key, x.key) < 0 ==> AllAbove(cmp, [x] + r, key)
    {
    }

    /** An element between two parts of an ordered sequence. */
    static lemma BetweenOrdered(cmp: Cmp, a: seq<Elm>, e: Elm, b: seq<Elm>)
      requires Lawful(cmp) && Ordered(cmp, a + b) && AllBelow(cmp, a, e.key) && AllAbove(cmp, b, e.key)
      ensures InsertedAt(a + [e] + b, a + b, |a|, e) && Ordered(cmp, a + [e] + b)
    {
      hide Ordered, Lawful, InsertedAt;
      InsertedOne(a, e, b);
      OrderedConcat(cmp, a, b);
      SplitSeparated(cmp, a, e, b);
      OrderedBetween(cmp, a, e, b);
    }

    static lemma SplitSeparated(cmp: Cmp, a: seq<Elm>, e: Elm, b: seq<Elm>)
      requires Lawful(cmp) && (forall x :: x in a ==> cmp(e.key, x.key) > 0) && (forall x :: x in b ==> cmp(e.key, x.key) < 0)
      ensures Separated(cmp, a, [e]) && Separated(cmp, [e], b)
    {
      forall x | x in a
        ensures cmp(x.key, e.key) < 0
      {
        SymmetricLess(cmp, e.key, x.key);
      }
    }

    static lemma OrderedBetween(cmp: Cmp, a: seq<Elm>, e: Elm, b: seq<Elm>)
      requires Ordered(cmp, a) && Ordered(cmp, b) && Separated(cmp, a, b) && Separated(cmp, a, [e]) && Separated(cmp, [e], b)
      ensures Ordered(cmp, a + [e] + b)
    {
      OrderedSingle(cmp, e);
      OrderedParts(cmp, a, [e], b);
    }

    static lemma SymmetricLess(cmp: Cmp, a: int, b: int)
      requires Lawful(cmp)
      ensures cmp(a, b) > 0 <==> cmp(b, a) < 0
    {
    }

    /**
     SPLAY_REMOVE. If an element compares equal, that one element leaves the tree (and elm is returned); otherwise the
     elements stay. After the second splay the root has no right child, so the right subtree can be hung there.
     */
    method Remove(elm: Elm) returns (r: Elm?, ghost gone: Elm, ghost rounds: nat)
      requires Valid()
      modifies this, Elems(tree)
      ensures Valid()
      ensures r == null ==> SameElements(old(tree)) && forall e :: e in Elems(tree) ==> cmp(elm.key, e.key) != 0
      ensures r != null ==>
        && r == elm && gone in old(Elems(tree)) && cmp(elm.key, gone.key) == 0
        && Elems(tree) == old(Elems(tree)) - {gone} && IsWithout(InOrder(tree), old(InOrder(tree)), gone)
      ensures Size(tree) <= old(Size(tree))
      ensures rounds + Potential(tree) <= old(Potential(tree)) + Charge(old(Size(tree)))
    {
      hide Linked, Distinct, Ordered, Lawful, Splayed, InOrder, Elems, SplayParts, Potential, Size, Rank, Charge;
      gone := elm;
      if root == null {
        NoElements(tree);
        return null, elm, 0;
      }
      SplayBound(cmp, tree, elm.key);
      ChargeIs(tree);
      rounds := Splay(elm);
      RootDecides(elm.key);
      if cmp(elm.key, root.key) != 0 {
        return null, elm, rounds;
      }
      gone := root;
      ghost var more := RemoveRoot(elm);
      rounds := rounds + more;
      r := elm;
    }

    /** The root, which compares equal, is replaced by its two subtrees joined. */
    method RemoveRoot(elm: Elm) returns (ghost rounds: nat)
      requires Valid() && tree.Node? && Splayed(cmp, tree, elm.key)
      modifies this, Elems(tree)
      ensures Valid() && Elems(tree) == old(Elems(tree)) - {old(tree.elem)}
      ensures IsWithout(InOrder(tree), old(InOrder(tree)), old(tree.elem))
      ensures Size(tree) < old(Size(tree))
      ensures rounds + Potential(tree) <= old(Potential(tree)) + 9 * old(Rank(tree)) + 2
    {
      hide Linked, Distinct, Ordered, Lawful, Splayed, InOrder, Elems, IsWithout, AllBelow, AllAbove, Potential, Size, Rank;
      ghost var t, m := tree, Fields(Elems(tree));
      RootLinked(t, m);
      SubtreeFacts(cmp, t, m);
      SplayedFacts(cmp, t, elm.key);
      WithoutOne(InOrder(t.left), t.elem, InOrder(t.right));
      assert Elems(t) - {t.elem} == Elems(t.left) + Elems(t.right);
      if root.spLeft == null {
        root := root.spRight;
        NoElements(t.left);
        tree := t.right;
        RemoveBound(t);
        rounds := 0;
        LinkedFrame(tree, m, Fields(Elems(tree)));
        assert [] + InOrder(t.right) == InOrder(t.right);
      } else {
        var tmp := root.spRight;
        root := root.spLeft;
        tree := t.left;
        LinkedFrame(tree, m, Fields(Elems(tree)));
        rounds := SplayAndJoin(elm, tmp, t.right, m);
        JoinBound(t, tree, rounds);
      }
    }

    /** The left subtree is splayed at the key and takes over the right subtree. */
    method SplayAndJoin(elm: Elm, tmp: Elm?, ghost right: STree, ghost m: Links) returns (ghost rounds: nat)
      requires Valid() && root != null && AllBelow(cmp, InOrder(tree), elm.key) && Ordered(cmp, InOrder(tree) + InOrder(right))
      requires right.Root() == tmp && Distinct(right) && Elems(right) !! Elems(tree) && Linked(right, m)
      requires forall e :: e in Elems(right) ==> e in m && m[e] == Cell(e.spLeft, e.spRight)
      modifies this, Elems(tree)
      ensures Valid() && Elems(tree) == old(Elems(tree)) + Elems(right)
      ensures InOrder(tree) == old(InOrder(tree)) + InOrder(right)
      ensures JoinPaid(old(tree), right, tree, rounds)
    {
      hide Linked, Distinct, Ordered, Lawful, Splayed, InOrder, Elems, SplayParts, JoinPaid;
      ghost var t := tree;
      rounds := Splay(elm);
      JoinedIsPaid(cmp, t, elm.key, right);
      SplayedFacts(cmp, tree, elm.key);
      NothingAbove(cmp, tree, t, elm.key);
      RootLinked(tree, Fields(Elems(tree)));
      Join(tmp, right, m);
    }

    static lemma SplayedFacts(cmp: Cmp, t: STree, key: int)
      requires Splayed(cmp, t, key)
      ensures t.Node? && AllBelow(cmp, InOrder(t.left), key) && AllAbove(cmp, InOrder(t.right), key)
    {
    }

    /** Both subtrees of a valid tree are linked, ordered and apart. */
    static lemma SubtreeFacts(cmp: Cmp, t: STree, m: Links)
      requires t.Node? && Linked(t, m) && Distinct(t) && Ordered(cmp, InOrder(t))
      ensures Linked(t.left, m) && Linked(t.right, m) && Distinct(t.left) && Distinct(t.right)
      ensures Elems(t.left) !! Elems(t.right) && Elems(t) == Elems(t.left) + {t.elem} + Elems(t.right)
      ensures t.elem !in Elems(t.left) && t.elem !in Elems(t.right)
      ensures InOrder(t) == InOrder(t.left) + [t.elem] + InOrder(t.right)
      ensures Ordered(cmp, InOrder(t.left)) && Ordered(cmp, InOrder(t.right)) && Ordered(cmp, InOrder(t.left) + InOrder(t.right))
      ensures forall e :: e in Elems(t) ==> e in m
    {
      OrderedParts(cmp, InOrder(t.left), [t.elem], InOrder(t.right));
      RemoveKeepsOrder(cmp, InOrder(t.left), t.elem, InOrder(t.right));
      LinkedElems(t, m);
    }

    /** A tree whose elements are all less than the key, splayed at the key, has nothing right of its root. */
    static lemma NothingAbove(cmp: Cmp, t: STree, was: STree, key: int)
      requires Splayed(cmp, t, key) && InOrder(t) == InOrder(was) && AllBelow(cmp, InOrder(was), key)
      ensures t.right.Leaf? && InOrder(t) == InOrder(t.left) + [t.elem]
    {
      RightInOrder(t);
    }

    static lemma RightInOrder(t: STree)
      requires t.Node?
      ensures t.right.Node? ==> t.right.elem in InOrder(t) && t.right.elem in InOrder(t.right)
    {
      assert t.right.Node? ==> InOrder(t.right) == InOrder(t.right.left) + [t.right.elem] + InOrder(t.right.right);
    }

    /** SPLAY_RIGHT(root) = tmp, where the root had no right child. */
    method Join(tmp: Elm?, ghost right: STree, ghost m: Links)
      requires Shape() && tree.Node? && tree.right.Leaf? && InOrder(tree) == InOrder(tree.left) + [tree.elem]
      requires Lawful(cmp) && Ordered(cmp, InOrder(tree) + InOrder(right))
      requires right.Root() == tmp && Distinct(right) && Elems(right) !! Elems(tree) && Linked(right, m)
      requires forall e :: e in Elems(right) ==> e in m && m[e] == Cell(e.spLeft, e.spRight)
      modifies this`tree, tree.elem
      ensures Valid() && Elems(tree) == old(Elems(tree)) + Elems(right)
      ensures InOrder(tree) == old(InOrder(tree)) + InOrder(right)
      ensures tree == Node(old(tree.left), old(tree.elem), right)
    {
      ghost var t, mt := tree, Fields(Elems(tree));
      root.spRight := tmp;
      tree := Node(t.left, t.elem, right);
      assert Distinct(tree) && Elems(tree) == Elems(t) + Elems(right);
      assert InOrder(tree) == InOrder(t) + InOrder(right);
      LinkedElems(t, mt);
      LinkedFrame(t.left, mt, Fields(Elems(tree)));
      LinkedFrame(right, m, Fields(Elems(tree)));
    }

    /** One round of SPLAY_MINMAX towards the left. stop is a break out of the loop. */
    method MinStep(node: Elm, left: Elm, right: Elm, ghost s: set<Elm>, ghost order: seq<Elm>,
                   ghost f: LSide, ghost t: STree, ghost g: RSide)
      returns (stop: bool, right': Elm, ghost t': STree, ghost g': RSide)
      requires InWalk(node, left, right, s, order, f, t, g)
      modifies this`root, s
      ensures InWalk(node, left, right', s, order, f, t', g') && t'.Node?
      ensures Size(t') <= Size(t) && (!stop ==> Size(t') < Size(t))
      ensures stop ==> t'.left.Leaf?
      ensures Round(Toward(-1), 0, f, t, g, stop, f, t', g')
    {
      hide Linked, Distinct, LDistinct, RDistinct, LLinked, RLinked, Elems, LElems, RElems, Walk, InOrder, LOrder, ROrder, Round;
      LeftRound(Toward(-1), 0, f, t, g);
      t', g' := t, g;
      RootFields(node, left, right, s, order, f, t', g);
      var tmp := root.spLeft;
      if tmp == null {
        return true, right, t', g';
      }
      t' := RotateRightWalking(tmp, node, left, right, s, order, f, t', g);
      RootFields(node, left, right, s, order, f, t', g);
      if root.spLeft == null {
        return true, right, t', g';
      }
      right' := LinkLeftWalking(node, left, right, s, order, f, t', g);
      g', t' := RCons(g, t'.elem, t'.right), t'.left;
      stop := false;
    }

    /** One round of SPLAY_MINMAX towards the right. stop is a break out of the loop. */
    method MaxStep(node: Elm, left: Elm, right: Elm, ghost s: set<Elm>, ghost order: seq<Elm>,
                   ghost f: LSide, ghost t: STree, ghost g: RSide)
      returns (stop: bool, left': Elm, ghost f': LSide, ghost t': STree)
      requires InWalk(node, left, right, s, order, f, t, g)
      modifies this`root, s
      ensures InWalk(node, left', right, s, order, f', t', g) && t'.Node?
      ensures Size(t') <= Size(t) && (!stop ==> Size(t') < Size(t))
      ensures stop ==> t'.right.Leaf?
      ensures Round(Toward(1), 0, f, t, g, stop, f', t', g)
    {
      hide Linked, Distinct, LDistinct, RDistinct, LLinked, RLinked, Elems, LElems, RElems, Walk, InOrder, LOrder, ROrder, Round;
      RightRound(Toward(1), 0, f, t, g);
      t', f' := t, f;
      RootFields(node, left, right, s, order, f, t', g);
      var tmp := root.spRight;
      if tmp == null {
        return true, left, f', t';
      }
      t' := RotateLeftWalking(tmp, node, left, right, s, order, f, t', g);
      RootFields(node, left, right, s, order, f, t', g);
      if root.spRight == null {
        return true, left, f', t';
      }
      left' := LinkRightWalking(node, left, right, s, order, f, t', g);
      f', t' := LCons(f, t'.left, t'.elem), t'.right;
      stop := false;
    }

    /** SPLAY_MINMAX: the minimum (comp < 0) or maximum (comp > 0) becomes the root. With comp == 0 it would not end. */
    method MinMax(comp: int) returns (ghost rounds: nat)
      requires Shape() && root != null && comp != 0
      modifies this, Elems(tree)
      ensures Shape() && SameElements(old(tree)) && root != null
      ensures if comp < 0 then tree.left.Leaf? else tree.right.Leaf?
      ensures root == if comp < 0 then First(InOrder(tree)) else Last(InOrder(tree))
      ensures rounds + Potential(tree) <= old(Potential(tree)) + Charge(old(Size(tree))) && Size(tree) == old(Size(tree))
    {
      hide Linked, Distinct, LDistinct, RDistinct, LLinked, RLinked, Elems, LElems, RElems, Walk, InOrder, LOrder, ROrder;
      hide SplayParts, Course, Round, Potential, Rank, Toward, InWalk;
      ghost var toward := Toward(if comp < 0 then -1 else 1);
      ghost var was, s0, order := tree, Elems(tree), InOrder(tree);
      var node := NewHeader(s0);
      var left, right := node, node;
      ghost var s := s0 + {node};
      ghost var f, t, g := LNil, tree, RNil;
      StartWalk(node, s);
      CourseStarts(toward, 0, was);
      SplayBound(toward, tree, 0);
      ChargeIs(tree);
      rounds := 0;
      var stop := false;
      while !stop
        invariant InWalk(node, left, right, s, order, f, t, g) && t.Node?
        invariant if comp < 0 then f == LNil else g == RNil
        invariant stop ==> if comp < 0 then t.left.Leaf? else t.right.Leaf?
        invariant Course(toward, 0, was, rounds, stop, f, t, g)
        decreases Size(t), !stop
      {
        ghost var f0, t0, g0 := f, t, g;
        if comp < 0 {
          stop, right, t, g := MinStep(node, left, right, s, order, f, t, g);
        } else {
          stop, left, f, t := MaxStep(node, left, right, s, order, f, t, g);
        }
        CourseGoesOn(toward, 0, was, rounds, f0, t0, g0, stop, f, t, g);
        rounds := rounds + 1;
      }
      WalkIs(node, left, right, s, order, f, t, g);
      CourseEnds(toward, 0, was, rounds, stop, f, t, g);
      HeaderOutside(f, t, g, node, s0, Fields(s));
      AssembledOrder(f, t, g);
      Assemble(node, left, right, s, f, t, g);
      ExtremeRoot(tree);
    }

    static lemma ExtremeRoot(t: STree)
      requires t.Node?
      ensures t.left.Leaf? ==> First(InOrder(t)) == t.elem
      ensures t.right.Leaf? ==> Last(InOrder(t)) == t.elem
    {
    }

    /** SPLAY_NEXT of an element of the tree: the element that follows it. */
    method Next(elm: Elm) returns (r: Elm?, ghost i: nat)
      requires Valid() && elm in Elems(tree)
      modifies this, Elems(tree)
      ensures Valid() && SameElements(old(tree))
      ensures i < |InOrder(tree)| && InOrder(tree)[i] == elm
      ensures r == if i + 1 < |InOrder(tree)| then InOrder(tree)[i + 1] else null
    {
      hide Linked, Distinct, Ordered, Lawful, Splayed, InOrder, Elems, SplayParts;
      HasRoot(elm);
      ghost var _ := Splay(elm);
      RootIsElm(elm);
      ghost var t := tree;
      RootLinked(t, Fields(Elems(tree)));
      SubtreeFacts(cmp, t, Fields(Elems(tree)));
      i := |InOrder(t.left)|;
      NoElements(Leaf);
      if elm.spRight != null {
        r := elm.spRight;
        ghost var u := t.right;
        FirstIsLeft(u, Fields(Elems(tree)));
        while r.spLeft != null
          invariant Valid() && SameElements(old(tree)) && tree == t && Linked(u, Fields(Elems(tree))) && u.Root() == r
          invariant First(InOrder(u)) == First(InOrder(t.right)) && First(InOrder(u)) != null
          decreases Size(u)
        {
          FirstIsLeft(u, Fields(Elems(tree)));
          r := r.spLeft;
          u := u.left;
        }
        FirstIsLeft(u, Fields(Elems(tree)));
      } else {
        r := null;
      }
    }

    lemma HasRoot(elm: Elm)
      requires Shape() && elm in Elems(tree)
      ensures root != null
    {
    }

    /** After splaying at an element of the tree, that element is the root. */
    lemma RootIsElm(elm: Elm)
      requires Valid() && elm in Elems(tree) && Splayed(cmp, tree, elm.key)
      ensures root == elm
    {
      SelfEqual(cmp, elm.key);
      ElemsInOrder(tree, elm);
    }

    static lemma FirstIsLeft(u: STree, m: Links)
      requires u.Node? && Linked(u, m)
      ensures u.elem in m && m[u.elem].left == u.left.Root() && Linked(u.left, m)
      ensures u.elem in Elems(u) && First(InOrder(u)) != null
      ensures u.left.Node? ==> First(InOrder(u)) == First(InOrder(u.left)) != null
      ensures u.left.Leaf? ==> First(InOrder(u)) == u.elem
    {
      if u.left.Node? {
        assert InOrder(u.left) == InOrder(u.left.left) + [u.left.elem] + InOrder(u.left.right);
      }
    }

    /** SPLAY_FOREACH: SPLAY_MIN, then SPLAY_NEXT until it returns NULL, visits every element once, in order. */
    method Foreach() returns (visited: seq<Elm>)
      requires Valid()
      modifies this, Elems(tree)
      ensures Valid() && SameElements(old(tree)) && visited == InOrder(tree)
    {
      hide Linked, Distinct, Ordered, Lawful, InOrder, Elems, Potential, Size;
      visited := [];
      if root == null {
        NoElements(tree);
        return;
      }
      ghost var _ := MinMax(-1);
      var x := root;
      while x != null
        invariant Valid() && SameElements(old(tree)) && visited <= InOrder(tree)
        invariant x == if |visited| < |InOrder(tree)| then InOrder(tree)[|visited|] else null
        decreases |InOrder(tree)| - |visited|
      {
        ghost var n := |visited|;
        ElemsInOrder(tree, x);
        visited := visited + [x];
        ghost var i;
        var y;
        y, i := Next(x);
        OrderedOnce(cmp, InOrder(tree), i, n);
        x := y;
      }
    }

    /** One operation pays its rounds out of its charge and the potential of the tree. */
    method Perform(call: Call) returns (ghost rounds: nat)
      requires Valid()
      modifies this, Elems(tree), call.Operand()
      ensures Valid() && Elems(tree) <= old(Elems(tree)) + call.Operand() && Size(tree) <= old(Size(tree)) + call.Adds()
      ensures rounds + Potential(tree) <= old(Potential(tree)) + Charge(old(Size(tree)) + call.Adds())
    {
      hide Linked, Distinct, Ordered, Lawful, InOrder, Elems, Potential, Size, Charge;
      rounds := 0;
      ghost var i, gone;
      var r;
      match call {
        case FindCall(elm) => r, rounds := Find(elm);
        case InsertCall(elm) =>
          r, i, rounds := Insert(elm);
          ChargeMonotone(Size(tree), old(Size(tree)) + 1);
        case RemoveCall(elm) => r, gone, rounds := Remove(elm);
        case MinCall =>
          if root != null {
            rounds := MinMax(-1);
          }
        case MaxCall =>
          if root != null {
            rounds := MinMax(1);
          }
      }
    }

    /**
     The Balance Theorem: any sequence of operations takes a number of rounds that is logarithmic on average in the
     number of elements there have been. Only a tree that was not empty at the start can have some rounds paid for before.
     */
    method PerformAll(calls: seq<Call>) returns (ghost rounds: nat)
      requires Valid()
      modifies this, Elems(tree), Operands(calls)
      ensures Valid()
      ensures var n, m := |old(InOrder(tree))|, |old(InOrder(tree))| + Inserts(calls);
        rounds <= |calls| * (18 * Log2(m + 1) + 4) + 3 * (n * Log2(n + 1))
    {
      hide Linked, Distinct, Ordered, Lawful, InOrder, Elems, Operands, Inserts, Charge, Potential, Size, Valid, Rank;
      ghost var was, all, n := tree, Operands(calls), Size(tree) + Inserts(calls);
      ghost var charge := Charge(n);
      SizeIsLength(tree);
      RankIs(tree);
      PotentialBound(tree, Rank(tree));
      rounds := 0;
      assert Inserts(calls[..0]) == 0 by {
        NoInserts(calls[..0]);
      }
      for k := 0 to |calls|
        invariant Valid() && Elems(tree) <= Elems(was) + all && Size(tree) <= Size(was) + Inserts(calls[..k])
        invariant rounds + Potential(tree) <= Potential(was) + k * charge
      {
        InsertsNext(calls, k);
        InsertsMonotone(calls, k + 1);
        ChargeMonotone(Size(tree) + calls[k].Adds(), n);
        assert calls[k].Operand() <= all;
        ghost var more := Perform(calls[k]);
        rounds := rounds + more;
        OneMoreTime(k, charge);
      }
      ChargeIsLog(n);
    }

    static lemma OneMoreTime(k: nat, c: nat)
      ensures (k + 1) * c == k * c + c
    {
    }
  }
}
