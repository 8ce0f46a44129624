/**
 The red-black tree macros of sys/tree.h on linked elements. The ghost field `tree` is the tree that the left, right,
 parent and colour fields spell out; every operation states what it does to that tree.
 */
module RbTree {
  import opened Elements
  import opened RbShape
  import opened RbBalance
  import opened RbFix
  import opened RbOrder
  import opened Logs
  import opened SearchOrder

  /** The fields of all elements of a tree. */
  ghost function Fields(s: set<Elm>): (m: Links)
    reads s
    ensures m.Keys == s && forall e :: e in s ==> m[e] == FieldsOf(e)
  {
    map e | e in s :: FieldsOf(e)
  }

  class RbTree {
    const cmp: Cmp
    var root: Elm?
    ghost var tree: Tree

    ghost function M(): Links
      reads this, Elems(tree)
    {
      Fields(Elems(tree))
    }

    /** The linked structure spells out `tree`, in which no element occurs twice. */
    ghost predicate Shape()
      reads this, Elems(tree)
    {
      root == tree.Root() && Distinct(tree) && Linked(tree, null, M())
    }

    /** The tree holds the same elements in the same order as t. */
    ghost predicate SameElements(t: Tree)
      reads this
    {
      Elems(tree) == Elems(t) && InOrder(tree) == InOrder(t)
    }

    /** RB_COLOR(e) = col. */
    method SetColor(e: Elm, col: Color)
      requires Shape() && e in Elems(tree)
      modifies this`tree, e`color
      ensures Shape() && tree == Paint(old(tree), e, col) && SameElements(old(tree))
    {
      ghost var m := M();
      PaintLinked(tree, null, m, e, col);
      PaintFacts(tree, e, col);
      e.color := col;
      tree := Paint(tree, e, col);
      assert M() == m[e := m[e].(color := col)];
    }

    /** RB_SET_BLACKRED. */
    method SetBlackRed(black: Elm, red: Elm)
      requires Shape() && black in Elems(tree) && red in Elems(tree)
      modifies this`tree, black`color, red`color
      ensures Shape() && tree == Paint(Paint(old(tree), black, Black), red, Red) && SameElements(old(tree))
    {
      SetColor(black, Black);
      SetColor(red, Red);
    }

    /** RB_ROTATE_LEFT. */
    method RotateLeft(elm: Elm) returns (tmp: Elm)
      requires Shape() && elm in Elems(tree) && elm.right != null
      modifies this, Elems(tree)
      ensures Shape() && tree == Rot(L, old(tree), elm) && SameElements(old(tree))
      ensures tmp == old(elm.right)
    {
      hide Linked, Distinct, Elems, Rot, RotWrites, InOrder;
      ghost var m := M();
      RotPointers(L, tree, elm, m);
      tmp := RotateLeftFields(elm, Elems(tree));
      RotLinked(L, tree, elm, m, M());
      RotElems(L, tree, elm);
      RotFacts(L, tree, elm);
      tree := Rot(L, tree, elm);
    }

    method RotateLeftFields(elm: Elm, ghost s: set<Elm>) returns (tmp: Elm)
      requires elm in s && elm.right != null && elm.right in s && elm.right != elm
      requires elm.parent != null ==> elm.parent in s && elm.parent != elm && elm.parent != elm.right
      requires elm.right.left != null ==>
        elm.right.left in s && elm.right.left != elm && elm.right.left != elm.right && elm.right.left != elm.parent
      modifies this`root, s
      ensures RotWrites(L, elm, old(Fields(s)), Fields(s))
      ensures tmp == old(elm.right) && root == if old(elm.parent) == null then tmp else old(root)
    {
      tmp := elm.right;
      elm.right := tmp.left;
      if tmp.left != null {
        tmp.left.parent := elm;
      }
      tmp.parent := elm.parent;
      if elm.parent != null {
        if elm == elm.parent.left {
          elm.parent.left := tmp;
        } else {
          elm.parent.right := tmp;
        }
      } else {
        root := tmp;
      }
      tmp.left := elm;
      elm.parent := tmp;
    }

    /** RB_ROTATE_RIGHT. */
    method RotateRight(elm: Elm) returns (tmp: Elm)
      requires Shape() && elm in Elems(tree) && elm.left != null
      modifies this, Elems(tree)
      ensures Shape() && tree == Rot(R, old(tree), elm) && SameElements(old(tree))
      ensures tmp == old(elm.left)
    {
      hide Linked, Distinct, Elems, Rot, RotWrites, InOrder;
      ghost var m := M();
      RotPointers(R, tree, elm, m);
      tmp := RotateRightFields(elm, Elems(tree));
      RotLinked(R, tree, elm, m, M());
      RotElems(R, tree, elm);
      RotFacts(R, tree, elm);
      tree := Rot(R, tree, elm);
    }

    method RotateRightFields(elm: Elm, ghost s: set<Elm>) returns (tmp: Elm)
      requires elm in s && elm.left != null && elm.left in s && elm.left != elm
      requires elm.parent != null ==> elm.parent in s && elm.parent != elm && elm.parent != elm.left
      requires elm.left.right != null ==>
        elm.left.right in s && elm.left.right != elm && elm.left.right != elm.left && elm.left.right != elm.parent
      modifies this`root, s
      ensures RotWrites(R, elm, old(Fields(s)), Fields(s))
      ensures tmp == old(elm.left) && root == if old(elm.parent) == null then tmp else old(root)
    {
      tmp := elm.left;
      elm.left := tmp.right;
      if tmp.right != null {
        tmp.right.parent := elm;
      }
      tmp.parent := elm.parent;
      if elm.parent != null {
        if elm == elm.parent.left {
          elm.parent.left := tmp;
        } else {
          elm.parent.right := tmp;
        }
      } else {
        root := tmp;
      }
      tmp.right := elm;
      elm.parent := tmp;
    }

    /** The fields around the hole of a context that makes up the tree. */
    lemma Around(c: Ctx, t: Tree)
      requires Shape() && tree == Plug(c, t)
      ensures Distinct(Plug(c, t))
      ensures t.Node? ==> HoldsNode(t, c.Par())
      ensures c.In? ==> c.elem in Elems(tree) && FieldsOf(c.elem).Kid(c.s) == t.Root()
      ensures c.In? ==> FieldsOf(c.elem).Kid(c.s.Opp()) == c.sib.Root() && c.elem.color == c.color && c.elem.parent == c.up.Par()
      ensures c.In? && c.sib.Node? ==> HoldsNode(c.sib, c.elem)
      ensures c.In? && c.sib.Node? && t.Node? ==> t.elem != c.sib.elem
    {
      PlugLinked(c, t, M());
      PlugDistinct(c, t);
      PlugElems(c, t);
    }

    /** The root element of a subtree of the tree has the fields that the subtree gives it. */
    ghost predicate HoldsNode(t: Tree, p: Elm?)
      requires t.Node?
      reads this, t.elem
    {
      t.elem in Elems(tree) && FieldsOf(t.elem) == Cell(t.left.Root(), t.right.Root(), p, t.color)
    }

    /** The uncle is red: it and the parent turn black, the grandparent red. */
    method UncleRed(tmp: Elm, parent: Elm, gparent: Elm, ghost c: Ctx, ghost t: Tree) returns (ghost t': Tree)
      requires Shape() && tree == Plug(c, t) && Inserting(c, t)
      requires c.IsRed() && c.up.In? && c.elem == parent && c.up.elem == gparent && c.up.sib.Root() == tmp && tmp.color == Red
      modifies this`tree, Elems(tree)
      ensures t' == Mk(c.up.s, Mk(c.s, t, Black, c.elem, c.sib), Red, c.up.elem, Blacken(c.up.sib))
      ensures Shape() && tree == Plug(c.up.up, t') && Inserting(c.up.up, t') && SameElements(old(tree))
    {
      hide Linked, Distinct, Elems, Paint, Plug, InOrder, Inserting;
      t' := Mk(c.up.s, Mk(c.s, t, Black, c.elem, c.sib), Red, c.up.elem, Blacken(c.up.sib));
      Around(c, t);
      PlugUp(c, t);
      Around(c.up, Mk(c.s, t, c.color, c.elem, c.sib));
      RecolourTree(c, t);
      InsertRecolour(c, t);
      SetColor(tmp, Black);
      SetBlackRed(parent, gparent);
    }

    /** The branch of RB_INSERT_COLOR for a parent that is a left child. */
    method InsertColorLeft(elm: Elm, parent: Elm, gparent: Elm, ghost c: Ctx, ghost t: Tree)
      returns (next: Elm, ghost c': Ctx, ghost t': Tree)
      requires Shape() && tree == Plug(c, t) && t.Root() == elm && Inserting(c, t)
      requires c.IsRed() && c.up.In? && c.elem == parent && c.up.elem == gparent && c.up.s == L
      modifies this, Elems(tree)
      ensures Shape() && tree == Plug(c', t') && t'.Root() == next && Inserting(c', t')
      ensures c'.Depth() < c.Depth() && SameElements(old(tree))
    {
      hide Linked, Distinct, Elems, Rot, Paint, Plug, InOrder, Inserting;
      Around(c, t);
      PlugUp(c, t);
      Around(c.up, Mk(c.s, t, c.color, c.elem, c.sib));
      var tmp := gparent.right;
      if tmp != null && tmp.color == Red {
        t' := UncleRed(tmp, parent, gparent, c, t);
        return gparent, c.up.up, t';
      }
      c', t' := c, t;
      var p, e := parent, elm;
      if parent.right == elm {
        tmp := RotateParentLeft(parent, c, t);
        c', t' := In(c.up, L, Red, t.elem, t.right), Mk(L, c.sib, Red, c.elem, t.left);
        p, e := elm, parent;
      }
      c' := RotateGrandparentRight(p, gparent, c', t');
      next := e;
    }

    /** The node is an inner grandchild: its parent is rotated down. */
    method RotateParentLeft(parent: Elm, ghost c: Ctx, ghost t: Tree) returns (tmp: Elm)
      requires Shape() && tree == Plug(c, t) && Inserting(c, t)
      requires c.IsRed() && c.up.In? && c.elem == parent && c.up.s == L && c.s == R
      modifies this, Elems(tree)
      ensures Shape() && SameElements(old(tree))
      ensures tree == Plug(In(c.up, L, Red, t.elem, t.right), Mk(L, c.sib, Red, c.elem, t.left))
      ensures Inserting(In(c.up, L, Red, t.elem, t.right), Mk(L, c.sib, Red, c.elem, t.left))
    {
      hide Linked, Distinct, Elems, Rot, Plug, InOrder;
      assert t == Mk(L, t.left, Red, t.elem, t.right);
      Around(c, t);
      InnerTree(c, L, t.left, Red, t.elem, t.right);
      InsertInner(c, t.left, t.elem, t.right);
      tmp := RotateLeft(parent);
    }

    /** The node is an outer grandchild: recolouring and one rotation of the grandparent end the fix-up. */
    method RotateGrandparentRight(parent: Elm, gparent: Elm, ghost c: Ctx, ghost t: Tree) returns (ghost c': Ctx)
      requires Shape() && tree == Plug(c, t) && Inserting(c, t)
      requires c.IsRed() && c.up.In? && c.elem == parent && c.up.elem == gparent
      requires c.up.s == L && c.s == L && !c.up.sib.IsRed()
      modifies this, Elems(tree)
      ensures c' == In(c.up.up, L, Black, c.elem, Mk(L, c.sib, Red, c.up.elem, c.up.sib))
      ensures Shape() && tree == Plug(c', t) && Inserting(c', t) && SameElements(old(tree))
    {
      hide Linked, Distinct, Elems, Rot, Paint, Plug, InOrder, Inserting;
      c' := In(c.up.up, L, Black, c.elem, Mk(L, c.sib, Red, c.up.elem, c.up.sib));
      Around(c, t);
      PlugUp(c, t);
      Around(c.up, Mk(c.s, t, c.color, c.elem, c.sib));
      InsertOuter(c, t);
      OuterTree(c, t);
      SetBlackRed(parent, gparent);
      var tmp := RotateRight(gparent);
    }

    /** The branch of RB_INSERT_COLOR for a parent that is a right child. */
    method InsertColorRight(elm: Elm, parent: Elm, gparent: Elm, ghost c: Ctx, ghost t: Tree)
      returns (next: Elm, ghost c': Ctx, ghost t': Tree)
      requires Shape() && tree == Plug(c, t) && t.Root() == elm && Inserting(c, t)
      requires c.IsRed() && c.up.In? && c.elem == parent && c.up.elem == gparent && c.up.s == R
      modifies this, Elems(tree)
      ensures Shape() && tree == Plug(c', t') && t'.Root() == next && Inserting(c', t')
      ensures c'.Depth() < c.Depth() && SameElements(old(tree))
    {
      hide Linked, Distinct, Elems, Rot, Paint, Plug, InOrder, Inserting;
      Around(c, t);
      PlugUp(c, t);
      Around(c.up, Mk(c.s, t, c.color, c.elem, c.sib));
      var tmp := gparent.left;
      if tmp != null && tmp.color == Red {
        t' := UncleRed(tmp, parent, gparent, c, t);
        return gparent, c.up.up, t';
      }
      c', t' := c, t;
      var p, e := parent, elm;
      if parent.left == elm {
        tmp := RotateParentRight(parent, c, t);
        c', t' := In(c.up, R, Red, t.elem, t.left), Mk(R, c.sib, Red, c.elem, t.right);
        p, e := elm, parent;
      }
      c' := RotateGrandparentLeft(p, gparent, c', t');
      next := e;
    }

    /** The node is an inner grandchild: its parent is rotated down. */
    method RotateParentRight(parent: Elm, ghost c: Ctx, ghost t: Tree) returns (tmp: Elm)
      requires Shape() && tree == Plug(c, t) && Inserting(c, t)
      requires c.IsRed() && c.up.In? && c.elem == parent && c.up.s == R && c.s == L
      modifies this, Elems(tree)
      ensures Shape() && SameElements(old(tree))
      ensures tree == Plug(In(c.up, R, Red, t.elem, t.left), Mk(R, c.sib, Red, c.elem, t.right))
      ensures Inserting(In(c.up, R, Red, t.elem, t.left), Mk(R, c.sib, Red, c.elem, t.right))
    {
      hide Linked, Distinct, Elems, Rot, Plug, InOrder;
      assert t == Mk(R, t.right, Red, t.elem, t.left);
      Around(c, t);
      InnerTree(c, R, t.right, Red, t.elem, t.left);
      InsertInner(c, t.right, t.elem, t.left);
      tmp := RotateRight(parent);
    }

    /** The node is an outer grandchild: recolouring and one rotation of the grandparent end the fix-up. */
    method RotateGrandparentLeft(parent: Elm, gparent: Elm, ghost c: Ctx, ghost t: Tree) returns (ghost c': Ctx)
      requires Shape() && tree == Plug(c, t) && Inserting(c, t)
      requires c.IsRed() && c.up.In? && c.elem == parent && c.up.elem == gparent
      requires c.up.s == R && c.s == R && !c.up.sib.IsRed()
      modifies this, Elems(tree)
      ensures c' == In(c.up.up, R, Black, c.elem, Mk(R, c.sib, Red, c.up.elem, c.up.sib))
      ensures Shape() && tree == Plug(c', t) && Inserting(c', t) && SameElements(old(tree))
    {
      hide Linked, Distinct, Elems, Rot, Paint, Plug, InOrder, Inserting;
      c' := In(c.up.up, R, Black, c.elem, Mk(R, c.sib, Red, c.up.elem, c.up.sib));
      Around(c, t);
      PlugUp(c, t);
      Around(c.up, Mk(c.s, t, c.color, c.elem, c.sib));
      InsertOuter(c, t);
      OuterTree(c, t);
      SetBlackRed(parent, gparent);
      var tmp := RotateLeft(gparent);
    }

    /** RB_INSERT_COLOR, from a node whose parent edge is the only place where the colour rule may fail. */
    method InsertColor(first: Elm, ghost c0: Ctx, ghost t0: Tree)
      requires Shape() && tree == Plug(c0, t0) && t0.Root() == first && Inserting(c0, t0)
      modifies this, Elems(tree)
      ensures Shape() && RedBlack(tree) && SameElements(old(tree))
    {
      hide Linked, Distinct, Elems, Plug, InOrder, Inserting;
      ghost var c, t := c0, t0;
      var elm := first;
      Around(c, t);
      while elm.parent != null && elm.parent.color == Red
        invariant Shape() && tree == Plug(c, t) && t.Root() == elm && Inserting(c, t)
        invariant SameElements(old(tree))
        invariant HoldsNode(t, c.Par()) && (c.In? ==> c.elem.color == c.color)
        decreases c.Depth()
      {
        var parent := elm.parent;
        RedParentHasParent(c, t);
        Around(c, t);
        PlugUp(c, t);
        Around(c.up, Mk(c.s, t, c.color, c.elem, c.sib));
        var gparent := parent.parent;
        if parent == gparent.left {
          elm, c, t := InsertColorLeft(elm, parent, gparent, c, t);
        } else {
          elm, c, t := InsertColorRight(elm, parent, gparent, c, t);
        }
        Around(c, t);
      }
      InsertDone(c, t);
      PlugRoot(c, t);
      RootInTree();
      BlackenRoot();
      SetColor(root, Black);
    }

    lemma RootInTree()
      requires Shape() && root != null
      ensures root in Elems(tree)
    {
    }

    lemma BlackenRoot()
      requires Shape() && tree.Node?
      ensures Paint(tree, tree.elem, Black) == Blacken(tree)
    {
      PaintHere(Top, tree, Black);
    }
    /** A red-black search tree. */
    ghost predicate Valid()
      reads this, Elems(tree)
    {
      Shape() && RedBlack(tree) && Lawful(cmp) && Ordered(cmp, InOrder(tree))
    }

    constructor (cmp: Cmp)
      requires Lawful(cmp)
      ensures Valid() && tree == Leaf && this.cmp == cmp
    {
      this.cmp := cmp;
      root := null;
      tree := Leaf;
    }

    /** RB_FIND: the one equal element, or none exists, in at most 2 lg(n + 1) steps. */
    method Find(elm: Elm) returns (r: Elm?, ghost steps: nat)
      requires Valid()
      ensures r != null ==> r in Elems(tree) && cmp(elm.key, r.key) == 0
      ensures r != null ==> forall e :: e in Elems(tree) && cmp(elm.key, e.key) == 0 ==> e == r
      ensures r == null ==> forall e :: e in Elems(tree) ==> cmp(elm.key, e.key) != 0
      ensures steps <= Height(tree) && Pow2(steps) <= (|InOrder(tree)| + 1) * (|InOrder(tree)| + 1)
    {
      hide Linked, Distinct, Elems, Plug, InOrder, Ordered, Lawful, RedBlack, Between, Pow2;
      ghost var c, t := Top, tree;
      var tmp := root;
      steps := 0;
      SearchStart(tree, elm.key);
      while tmp != null
        invariant Shape() && tree == Plug(c, t) && t.Root() == tmp && Between(cmp, c, elm.key)
        invariant steps + Height(t) <= Height(tree)
        decreases Height(t)
      {
        Around(c, t);
        Descend(cmp, c, t, elm.key);
        PlugUpBoth(c, t);
        var comp := cmp(elm.key, tmp.key);
        steps := steps + 1;
        if comp < 0 {
          tmp := tmp.left;
          c, t := In(c, L, t.color, t.elem, t.right), t.left;
        } else if comp > 0 {
          tmp := tmp.right;
          c, t := In(c, R, t.color, t.elem, t.left), t.right;
        } else {
          StepsBound(tree, steps);
          OnlyMatch(tmp, elm.key);
          return tmp, steps;
        }
      }
      StepsBound(tree, steps);
      NotFound(cmp, c, elm.key);
      r := null;
    }

    /** Equal keys mean the same element. */
    lemma OnlyMatch(r: Elm, key: int)
      requires Valid() && r in Elems(tree) && cmp(key, r.key) == 0
      ensures forall e :: e in Elems(tree) && cmp(key, e.key) == 0 ==> e == r
    {
      hide Linked, Distinct, Elems, InOrder, Ordered, Lawful, RedBlack;
      forall e | e in Elems(tree) && cmp(key, e.key) == 0
        ensures e == r
      {
        ElemsInOrder(tree, e);
        ElemsInOrder(tree, r);
        FoundIsUnique(cmp, InOrder(tree), key, r, e);
      }
    }

    lemma SearchStart(t: Tree, key: int)
      ensures t == Plug(Top, t) && Between(cmp, Top, key)
    {
    }

    lemma PlugUpBoth(c: Ctx, t: Tree)
      requires t.Node?
      ensures Plug(In(c, L, t.color, t.elem, t.right), t.left) == Plug(c, t)
      ensures Plug(In(c, R, t.color, t.elem, t.left), t.right) == Plug(c, t)
    {
    }

    /** RB_NFIND: the first element that is not less than the key, in tree order. */
    method NFind(elm: Elm) returns (res: Elm?)
      requires Valid()
      ensures res == null ==> AllBelow(cmp, InOrder(tree), elm.key)
      ensures res != null ==> cmp(elm.key, res.key) <= 0 && FirstNotBelow(cmp, InOrder(tree), res, elm.key)
    {
      hide Linked, Distinct, Elems, Plug, Ordered, Lawful, RedBlack;
      ghost var c, t := Top, tree;
      var tmp := root;
      res := null;
      SearchStart(tree, elm.key);
      while tmp != null
        invariant Shape() && tree == Plug(c, t) && t.Root() == tmp && Between(cmp, c, elm.key)
        invariant res == First(After(c))
        decreases Height(t)
      {
        Around(c, t);
        Descend(cmp, c, t, elm.key);
        PlugUpBoth(c, t);
        var comp := cmp(elm.key, tmp.key);
        if comp < 0 {
          res := tmp;
          tmp := tmp.left;
          c, t := In(c, L, t.color, t.elem, t.right), t.left;
        } else if comp > 0 {
          tmp := tmp.right;
          c, t := In(c, R, t.color, t.elem, t.left), t.right;
        } else {
          FoundHere(cmp, c, t, elm.key);
          return tmp;
        }
      }
      NFindEnd(cmp, c, elm.key);
    }

    static lemma FoundHere(cmp: Cmp, c: Ctx, t: Tree, key: int)
      requires t.Node? && Lawful(cmp) && Ordered(cmp, InOrder(Plug(c, t))) && Between(cmp, c, key)
      requires cmp(key, t.elem.key) == 0
      ensures FirstNotBelow(cmp, InOrder(Plug(c, t)), t.elem, key)
    {
      hide Lawful, Ordered, Plug;
      PlugInOrder(c, t);
      OrderedParts(cmp, Before(c), InOrder(t), After(c));
      OrderedParts(cmp, InOrder(t.left), [t.elem], InOrder(t.right));
      Regroup(Before(c), InOrder(t.left), [t.elem], InOrder(t.right), After(c));
      hide InOrder;
      forall x | x in InOrder(t.left)
        ensures cmp(key, x.key) > 0
      {
        assert cmp(x.key, t.elem.key) < 0;
        EqualThenLess(cmp, key, t.elem.key, x.key);
      }
      FirstNotBelowAt(cmp, Before(c) + InOrder(t.left), t.elem, InOrder(t.right) + After(c), key);
    }

    /** e is in s, and everything in front of it is less than the key. */
    static ghost predicate FirstNotBelow(cmp: Cmp, s: seq<Elm>, e: Elm, key: int) {
      exists i :: 0 <= i < |s| && s[i] == e && AllBelow(cmp, s[..i], key)
    }

    static lemma FirstNotBelowAt(cmp: Cmp, a: seq<Elm>, e: Elm, b: seq<Elm>, key: int)
      requires AllBelow(cmp, a, key)
      ensures FirstNotBelow(cmp, a + [e] + b, e, key)
      ensures a + [e] + b == a + ([e] + b)
    {
      var s := a + [e] + b;
      assert s[|a|] == e && s[..|a|] == a;
    }

    static lemma EqualThenLess(cmp: Cmp, a: int, b: int, c: int)
      requires Lawful(cmp) && cmp(a, b) == 0 && cmp(c, b) < 0
      ensures cmp(a, c) > 0
    {
      LessTransitive(cmp, c, b, a);
    }

    static lemma NFindEnd(cmp: Cmp, c: Ctx, key: int)
      requires Between(cmp, c, key)
      ensures After(c) == [] ==> AllBelow(cmp, InOrder(Plug(c, Leaf)), key)
      ensures After(c) != [] ==>
        cmp(key, After(c)[0].key) <= 0 && FirstNotBelow(cmp, InOrder(Plug(c, Leaf)), After(c)[0], key)
    {
      PlugInOrder(c, Leaf);
      assert InOrder(Leaf) == [];
      hide Plug, InOrder;
      assert Before(c) + [] == Before(c);
      if After(c) != [] {
        var a, e, b := Before(c), After(c)[0], After(c)[1..];
        assert After(c) == [e] + b;
        FirstNotBelowAt(cmp, a, e, b, key);
      }
    }

    /**
     RB_INSERT. If an element compares equal it is returned and nothing changes; otherwise elm joins the tree at its
     place in the order.
     */
    method Insert(elm: Elm) returns (r: Elm?, ghost i: nat)
      requires Valid()
      modifies this, Elems(tree), elm
      ensures Valid()
      ensures r != null ==> r in Elems(tree) && cmp(elm.key, r.key) == 0 && tree == old(tree) && M() == old(M())
      ensures r == null ==>
        && (forall e :: e in old(Elems(tree)) ==> cmp(elm.key, e.key) != 0) && Elems(tree) == old(Elems(tree)) + {elm}
        && i <= |old(InOrder(tree))| && InOrder(tree) == old(InOrder(tree))[..i] + [elm] + old(InOrder(tree))[i..]
    {
      hide Linked, Distinct, Elems, Plug, InOrder, Ordered, Lawful, RedBlack, Between;
      ghost var c, t := Top, tree;
      var tmp := root;
      var parent: Elm? := null;
      var comp := 0;
      i := 0;
      SearchStart(tree, elm.key);
      while tmp != null
        invariant Shape() && tree == old(tree) && M() == old(M())
        invariant tree == Plug(c, t) && t.Root() == tmp && Between(cmp, c, elm.key)
        invariant parent == c.Par() && (c.In? ==> (comp < 0 <==> c.s.L?))
        decreases Height(t)
        modifies {}
      {
        Around(c, t);
        Descend(cmp, c, t, elm.key);
        PlugUpBoth(c, t);
        parent := tmp;
        comp := cmp(elm.key, parent.key);
        if comp < 0 {
          tmp := tmp.left;
          c, t := In(c, L, t.color, t.elem, t.right), t.left;
        } else if comp > 0 {
          tmp := tmp.right;
          c, t := In(c, R, t.color, t.elem, t.left), t.right;
        } else {
          return tmp, 0;
        }
      }
      NotFound(cmp, c, elm.key);
      SelfEqual(cmp, elm.key);
      InsertKeepsOrder(cmp, c, elm);
      InsertStart(c, elm);
      i := |Before(c)|;
      Link(elm, parent, comp, c);
      InsertColor(elm, c, Node(Leaf, Red, elm, Leaf));
      r := null;
    }

    /** RB_SET and the linking of the new node below its parent. */
    method Link(elm: Elm, parent: Elm?, comp: int, ghost c: Ctx)
      requires Shape() && tree == Plug(c, Leaf) && elm !in Elems(tree)
      requires parent == c.Par() && (c.In? ==> (comp < 0 <==> c.s.L?))
      modifies this, Elems(tree), elm
      ensures Shape() && tree == Plug(c, Node(Leaf, Red, elm, Leaf)) && Elems(tree) == old(Elems(tree)) + {elm}
    {
      hide Linked, Distinct, Elems, Plug;
      ghost var m := M();
      Around(c, Leaf);
      elm.parent := parent;
      elm.left, elm.right := null, null;
      elm.color := Red;
      if parent != null {
        if comp < 0 {
          parent.left := elm;
        } else {
          parent.right := elm;
        }
      } else {
        root := elm;
      }
      tree := Plug(c, Node(Leaf, Red, elm, Leaf));
      LinkElems(c, elm);
      LinkLinked(c, elm, m, M());
      PlugRoot(c, Leaf);
      PlugRoot(c, Node(Leaf, Red, elm, Leaf));
    }

    static lemma LinkElems(c: Ctx, elm: Elm)
      requires Distinct(Plug(c, Leaf)) && elm !in Elems(Plug(c, Leaf))
      ensures Distinct(Plug(c, Node(Leaf, Red, elm, Leaf)))
      ensures Elems(Plug(c, Node(Leaf, Red, elm, Leaf))) == Elems(Plug(c, Leaf)) + {elm}
    {
      PlugDistinct(c, Leaf);
      PlugDistinct(c, Node(Leaf, Red, elm, Leaf));
      PlugElems(c, Leaf);
      PlugElems(c, Node(Leaf, Red, elm, Leaf));
    }

    static lemma LinkLinked(c: Ctx, elm: Elm, m: Links, m': Links)
      requires Linked(Plug(c, Leaf), null, m) && Distinct(Plug(c, Leaf)) && elm !in Elems(Plug(c, Leaf))
      requires elm in m' && m'[elm] == Cell(null, null, c.Par(), Red)
      requires forall e :: e in Elems(Plug(c, Leaf)) ==> e in m && e in m'
      requires c.In? ==> c.elem in m && c.elem in m' && m'[c.elem] == m[c.elem].SetKid(c.s, elm)
      requires forall e :: e in Elems(Plug(c, Leaf)) && e != c.Par() ==> m'[e] == m[e]
      ensures Linked(Plug(c, Node(Leaf, Red, elm, Leaf)), null, m')
    {
      PlugLinked(c, Leaf, m);
      PlugDistinct(c, Leaf);
      PlugElems(c, Leaf);
      Refill(c, null, elm, m, m');
      PlugLinked(c, Node(Leaf, Red, elm, Leaf), m');
    }
    // ----- removal -------------------------------------------------------------------------------

    lemma TopPlug(t: Tree)
      ensures Plug(Top, t) == t && Plug(Top, Blacken(t)) == Blacken(t)
    {
    }

    /** The fields of the sibling's children. */
    lemma NephewsInTree(c: Ctx, t: Tree)
      requires Shape() && tree == Plug(c, t) && c.In? && c.sib.Node?
      ensures c.sib.left.Node? ==> HoldsNode(c.sib.left, c.sib.elem)
      ensures c.sib.right.Node? ==> HoldsNode(c.sib.right, c.sib.elem)
    {
      AcrossPlug(c, t);
      var d := Across(c, t);
      PlugUpBoth(d, c.sib);
      Around(In(d, L, c.sib.color, c.sib.elem, c.sib.right), c.sib.left);
      Around(In(d, R, c.sib.color, c.sib.elem, c.sib.left), c.sib.right);
    }

    /** Neither nephew is red: the sibling turns red and the shortage moves up. */
    method RecolourSibling(sibling: Elm, ghost c: Ctx, ghost t: Tree) returns (ghost t': Tree)
      requires Shape() && tree == Plug(c, t) && Removing(c, t) && !t.IsRed()
      requires c.In? && c.sib.Root() == sibling && sibling.color == Black && !c.sib.left.IsRed() && !c.sib.right.IsRed()
      modifies this`tree, sibling`color
      ensures Shape() && SameElements(old(tree)) && tree == Plug(c.up, t') && Removing(c.up, t')
      ensures t'.Root() == c.elem && t'.IsRed() == c.color.Red?
    {
      hide Linked, Distinct, Elems, Paint, Plug, InOrder, Removing;
      Around(c, t);
      ghost var near, far := if c.s.L? then c.sib.left else c.sib.right, if c.s.L? then c.sib.right else c.sib.left;
      t' := Mk(c.s, t, c.color, c.elem, Mk(c.s, near, Red, sibling, far));
      RedSiblingUp(c, t, near, Black, sibling, far);
      RemoveRecolour(c, t, near, sibling, far);
      SetColor(sibling, Red);
    }

    /** The branch of RB_REMOVE_COLOR for a left child. done is the break out of the loop. */
    method RemoveColorLeft(parent: Elm, elm: Elm?, ghost c: Ctx, ghost t: Tree)
      returns (done: bool, nextParent: Elm?, next: Elm?, ghost c': Ctx, ghost t': Tree)
      requires Shape() && tree == Plug(c, t) && Removing(c, t) && !t.IsRed()
      requires c.In? && c.s == L && c.elem == parent && t.Root() == elm
      modifies this, Elems(tree)
      ensures Shape() && SameElements(old(tree)) && tree == Plug(c', t') && t'.Root() == next
      ensures done ==> RedBlack(Plug(c', Blacken(t'))) && c' == Top
      ensures !done ==> Removing(c', t') && c'.Par() == nextParent && (t'.IsRed() || c'.Depth() < c.Depth())
    {
      hide Linked, Distinct, Elems, Rot, Paint, Plug, InOrder, Removing;
      Around(c, t);
      SiblingExists(c, t);
      var tmp := parent.right;
      c', t' := c, t;
      if tmp.color == Red {
        tmp, c' := RedSiblingLeft(tmp, parent, c, t);
      }
      Around(c', t);
      SiblingExists(c', t);
      NephewsInTree(c', t);
      if (tmp.left == null || tmp.left.color == Black) && (tmp.right == null || tmp.right.color == Black) {
        t' := RecolourSibling(tmp, c', t);
        c' := c'.up;
        Around(c', t');
        next, nextParent, done := parent, parent.parent, false;
      } else {
        if tmp.right == null || tmp.right.color == Black {
          tmp, c' := InnerNephewLeft(tmp, parent, c', t);
          Around(c', t);
          NephewsInTree(c', t);
        }
        OuterNephewLeft(tmp, parent, c', t);
        next, nextParent, done := root, null, true;
        c', t' := Top, tree;
        TopPlug(tree);
      }
    }

    /** The sibling is red: it turns black, the parent red and is rotated down. */
    method RedSiblingLeft(sibling: Elm, parent: Elm, ghost c: Ctx, ghost t: Tree) returns (tmp: Elm, ghost c': Ctx)
      requires Shape() && tree == Plug(c, t) && Removing(c, t)
      requires c.In? && c.s == L && c.elem == parent && c.sib.Root() == sibling && sibling.color == Red
      modifies this, Elems(tree)
      ensures Shape() && SameElements(old(tree)) && tree == Plug(c', t) && Removing(c', t)
      ensures c'.In? && c'.s == L && c'.elem == parent && c'.sib.Root() == tmp && tmp.color == Black
      ensures c'.color.Red? && c'.up.Depth() == c.Depth()
    {
      hide Linked, Distinct, Elems, Rot, Paint, Plug, InOrder, Removing;
      Around(c, t);
      c' := In(In(c.up, L, Black, c.sib.elem, c.sib.right), L, Red, c.elem, c.sib.left);
      RedSiblingTree(c, t, c.sib.left, c.sib.elem, c.sib.right);
      RemoveRedSibling(c, t, c.sib.left, c.sib.elem, c.sib.right);
      SiblingExists(c', t);
      SetBlackRed(sibling, parent);
      var up := RotateLeft(parent);
      Around(c', t);
      tmp := parent.right;
    }

    /** Only the inner nephew is red: it turns black, the sibling red and is rotated down. */
    method InnerNephewLeft(sibling: Elm, parent: Elm, ghost c: Ctx, ghost t: Tree) returns (tmp: Elm, ghost c': Ctx)
      requires Shape() && tree == Plug(c, t) && Removing(c, t)
      requires c.In? && c.s == L && c.elem == parent && c.sib.Root() == sibling && sibling.color == Black
      requires c.sib.left.IsRed() && !c.sib.right.IsRed()
      modifies this, Elems(tree)
      ensures Shape() && SameElements(old(tree)) && tree == Plug(c', t) && Removing(c', t)
      ensures c'.In? && c'.s == L && c'.elem == parent && c'.sib.Root() == tmp && tmp.color == Black
      ensures c'.sib.right.IsRed()
    {
      hide Linked, Distinct, Elems, Rot, Paint, Plug, InOrder, Removing;
      Around(c, t);
      NephewsInTree(c, t);
      ghost var near, far := c.sib.left, c.sib.right;
      c' := c.(sib := Mk(L, near.left, Black, near.elem, Mk(L, near.right, Red, sibling, far)));
      InnerNephewTree(c, t, near.left, Red, near.elem, near.right, Black, sibling, far);
      RemoveInner(c, t, near.left, near.elem, near.right, sibling, far);
      var nephew := sibling.left;
      if nephew != null {
        SetColor(nephew, Black);
      }
      SetColor(sibling, Red);
      var up := RotateRight(sibling);
      Around(c', t);
      tmp := parent.right;
    }

    /** The outer nephew is red: recolouring and rotating the parent down make up for the missing black node. */
    method OuterNephewLeft(sibling: Elm, parent: Elm, ghost c: Ctx, ghost t: Tree)
      requires Shape() && tree == Plug(c, t) && Removing(c, t) && !t.IsRed()
      requires c.In? && c.s == L && c.elem == parent && c.sib.Root() == sibling && sibling.color == Black
      requires c.sib.right.IsRed()
      modifies this, Elems(tree)
      ensures Shape() && SameElements(old(tree)) && RedBlack(Blacken(tree))
    {
      hide Linked, Distinct, Elems, Rot, Paint, Plug, InOrder, Removing, RedBlack;
      Around(c, t);
      NephewsInTree(c, t);
      OuterNephewTree(c, t, c.sib.left, Black, sibling, c.sib.right);
      RemoveOuter(c, t, c.sib.left, sibling, c.sib.right);
      SetColor(sibling, parent.color);
      SetColor(parent, Black);
      if sibling.right != null {
        SetColor(sibling.right, Black);
      }
      var up := RotateLeft(parent);
    }

    /** The branch of RB_REMOVE_COLOR for a right child. done is the break out of the loop. */
    method RemoveColorRight(parent: Elm, elm: Elm?, ghost c: Ctx, ghost t: Tree)
      returns (done: bool, nextParent: Elm?, next: Elm?, ghost c': Ctx, ghost t': Tree)
      requires Shape() && tree == Plug(c, t) && Removing(c, t) && !t.IsRed()
      requires c.In? && c.s == R && c.elem == parent && t.Root() == elm
      modifies this, Elems(tree)
      ensures Shape() && SameElements(old(tree)) && tree == Plug(c', t') && t'.Root() == next
      ensures done ==> RedBlack(Plug(c', Blacken(t'))) && c' == Top
      ensures !done ==> Removing(c', t') && c'.Par() == nextParent && (t'.IsRed() || c'.Depth() < c.Depth())
    {
      hide Linked, Distinct, Elems, Rot, Paint, Plug, InOrder, Removing;
      Around(c, t);
      SiblingExists(c, t);
      var tmp := parent.left;
      c', t' := c, t;
      if tmp.color == Red {
        tmp, c' := RedSiblingRight(tmp, parent, c, t);
      }
      Around(c', t);
      SiblingExists(c', t);
      NephewsInTree(c', t);
      if (tmp.left == null || tmp.left.color == Black) && (tmp.right == null || tmp.right.color == Black) {
        t' := RecolourSibling(tmp, c', t);
        c' := c'.up;
        Around(c', t');
        next, nextParent, done := parent, parent.parent, false;
      } else {
        if tmp.left == null || tmp.left.color == Black {
          tmp, c' := InnerNephewRight(tmp, parent, c', t);
          Around(c', t);
          NephewsInTree(c', t);
        }
        OuterNephewRight(tmp, parent, c', t);
        next, nextParent, done := root, null, true;
        c', t' := Top, tree;
        TopPlug(tree);
      }
    }

    /** The sibling is red: it turns black, the parent red and is rotated down. */
    method RedSiblingRight(sibling: Elm, parent: Elm, ghost c: Ctx, ghost t: Tree) returns (tmp: Elm, ghost c': Ctx)
      requires Shape() && tree == Plug(c, t) && Removing(c, t)
      requires c.In? && c.s == R && c.elem == parent && c.sib.Root() == sibling && sibling.color == Red
      modifies this, Elems(tree)
      ensures Shape() && SameElements(old(tree)) && tree == Plug(c', t) && Removing(c', t)
      ensures c'.In? && c'.s == R && c'.elem == parent && c'.sib.Root() == tmp && tmp.color == Black
      ensures c'.color.Red? && c'.up.Depth() == c.Depth()
    {
      hide Linked, Distinct, Elems, Rot, Paint, Plug, InOrder, Removing;
      Around(c, t);
      c' := In(In(c.up, R, Black, c.sib.elem, c.sib.left), R, Red, c.elem, c.sib.right);
      RedSiblingTree(c, t, c.sib.right, c.sib.elem, c.sib.left);
      RemoveRedSibling(c, t, c.sib.right, c.sib.elem, c.sib.left);
      SiblingExists(c', t);
      SetBlackRed(sibling, parent);
      var up := RotateRight(parent);
      Around(c', t);
      tmp := parent.left;
    }

    /** Only the inner nephew is red: it turns black, the sibling red and is rotated down. */
    method InnerNephewRight(sibling: Elm, parent: Elm, ghost c: Ctx, ghost t: Tree) returns (tmp: Elm, ghost c': Ctx)
      requires Shape() && tree == Plug(c, t) && Removing(c, t)
      requires c.In? && c.s == R && c.elem == parent && c.sib.Root() == sibling && sibling.color == Black
      requires c.sib.right.IsRed() && !c.sib.left.IsRed()
      modifies this, Elems(tree)
      ensures Shape() && SameElements(old(tree)) && tree == Plug(c', t) && Removing(c', t)
      ensures c'.In? && c'.s == R && c'.elem == parent && c'.sib.Root() == tmp && tmp.color == Black
      ensures c'.sib.left.IsRed()
    {
      hide Linked, Distinct, Elems, Rot, Paint, Plug, InOrder, Removing;
      Around(c, t);
      NephewsInTree(c, t);
      ghost var near, far := c.sib.right, c.sib.left;
      c' := c.(sib := Mk(R, near.right, Black, near.elem, Mk(R, near.left, Red, sibling, far)));
      InnerNephewTree(c, t, near.right, Red, near.elem, near.left, Black, sibling, far);
      RemoveInner(c, t, near.right, near.elem, near.left, sibling, far);
      var nephew := sibling.right;
      if nephew != null {
        SetColor(nephew, Black);
      }
      SetColor(sibling, Red);
      var up := RotateLeft(sibling);
      Around(c', t);
      tmp := parent.left;
    }

    /** The outer nephew is red: recolouring and rotating the parent down make up for the missing black node. */
    method OuterNephewRight(sibling: Elm, parent: Elm, ghost c: Ctx, ghost t: Tree)
      requires Shape() && tree == Plug(c, t) && Removing(c, t) && !t.IsRed()
      requires c.In? && c.s == R && c.elem == parent && c.sib.Root() == sibling && sibling.color == Black
      requires c.sib.left.IsRed()
      modifies this, Elems(tree)
      ensures Shape() && SameElements(old(tree)) && RedBlack(Blacken(tree))
    {
      hide Linked, Distinct, Elems, Rot, Paint, Plug, InOrder, Removing, RedBlack;
      Around(c, t);
      NephewsInTree(c, t);
      OuterNephewTree(c, t, c.sib.right, Black, sibling, c.sib.left);
      RemoveOuter(c, t, c.sib.right, sibling, c.sib.left);
      SetColor(sibling, parent.color);
      SetColor(parent, Black);
      if sibling.left != null {
        SetColor(sibling.left, Black);
      }
      var up := RotateRight(parent);
    }

    /** RB_REMOVE_COLOR: a black node is missing on every path through the hole of c0. */
    method RemoveColor(parent0: Elm?, elm0: Elm?, ghost c0: Ctx, ghost t0: Tree)
      requires Shape() && tree == Plug(c0, t0) && Removing(c0, t0)
      requires t0.Root() == elm0 && c0.Par() == parent0
      modifies this, Elems(tree)
      ensures Shape() && RedBlack(tree) && SameElements(old(tree))
    {
      hide Linked, Distinct, Elems, Plug, InOrder, Removing, RedBlack, Paint;
      ghost var c, t := c0, t0;
      var parent, elm := parent0, elm0;
      Around(c, t);
      RootIsNotHole(c, t);
      var done := false;
      while (elm == null || elm.color == Black) && elm != root
        invariant Shape() && SameElements(old(tree)) && tree == Plug(c, t) && t.Root() == elm
        invariant !done && Removing(c, t) && c.Par() == parent
        invariant (elm != null ==> elm.color == t.color) && (elm == root <==> c.Top?)
        decreases if t.IsRed() then 0 else c.Depth() + 1
      {
        Around(c, t);
        SiblingExists(c, t);
        if parent.left == elm {
          done, parent, elm, c, t := RemoveColorLeft(parent, elm, c, t);
        } else {
          done, parent, elm, c, t := RemoveColorRight(parent, elm, c, t);
        }
        Around(c, t);
        RootIsNotHole(c, t);
        if done {
          break;
        }
      }
      if !done {
        RemoveDone(c, t);
      }
      if elm != null {
        PaintHere(c, t, Black);
        Around(c, t);
        SetColor(elm, Black);
      }
    }

    lemma RootIsNotHole(c: Ctx, t: Tree)
      requires Shape() && tree == Plug(c, t)
      ensures t.Root() == root <==> c.Top?
    {
      PlugRoot(c, t);
      PlugDistinct(c, t);
    }
    /** The link writes that put child in the place of elm, which has no other child. */
    method SpliceFields(elm: Elm, child: Elm?, parent: Elm?, ghost s: set<Elm>)
      requires elm in s && elm.parent == parent
      requires child != null ==> child in s && child != parent
      requires parent != null ==> parent in s
      modifies this`root, s
      ensures SpliceWrites(elm, child, old(Fields(s)), Fields(s))
      ensures root == if parent == null then child else old(root)
    {
      if child != null {
        child.parent := parent;
      }
      if parent != null {
        if parent.left == elm {
          parent.left := child;
        } else {
          parent.right := child;
        }
      } else {
        root := child;
      }
    }

    /** The link writes that put elm, with old's fields, in the place of old. */
    method TransplantFields(oldElm: Elm, elm: Elm, ghost s: set<Elm>)
      requires oldElm in s && elm in s && elm != oldElm
      requires oldElm.left != null && oldElm.left in s && oldElm.left != elm && oldElm.left != oldElm
      requires oldElm.right != null ==> oldElm.right in s && oldElm.right != elm && oldElm.right != oldElm && oldElm.right != oldElm.left
      requires oldElm.parent != null ==>
        oldElm.parent in s && oldElm.parent != elm && oldElm.parent != oldElm
        && oldElm.parent != oldElm.left && oldElm.parent != oldElm.right
      modifies this`root, s
      ensures RenameWrites(oldElm, elm, old(Fields(s)), Fields(s))
      ensures root == if old(oldElm.parent) == null then elm else old(root)
    {
      elm.left, elm.right, elm.parent, elm.color := oldElm.left, oldElm.right, oldElm.parent, oldElm.color;
      if oldElm.parent != null {
        if oldElm.parent.left == oldElm {
          oldElm.parent.left := elm;
        } else {
          oldElm.parent.right := elm;
        }
      } else {
        root := elm;
      }
      oldElm.left.parent := elm;
      if oldElm.right != null {
        oldElm.right.parent := elm;
      }
    }

    /** The common path of RB_REMOVE: a node with at most one child is replaced by that child. */
    method Splice(elm: Elm, child: Elm?, ghost c: Ctx, ghost t: Tree, ghost sub: Tree)
      requires Shape() && tree == Plug(c, t) && t.Root() == elm && OnlyChild(t, sub) && sub.Root() == child
      modifies this, Elems(tree)
      ensures Shape() && tree == Plug(c, sub) && Elems(tree) == old(Elems(tree)) - {elm}
    {
      hide Linked, Distinct, Elems, Plug;
      ghost var s, m := Elems(tree), M();
      Around(c, t);
      ChildApart(c, t, sub);
      SpliceFields(elm, child, elm.parent, s);
      SpliceLinked(c, t, sub, m, Fields(s));
      SpliceElems(c, t, sub);
      PlugRoot(c, t);
      PlugRoot(c, sub);
      tree := Plug(c, sub);
      LinkedFrame(tree, null, Fields(s), M());
    }

    lemma ChildApart(c: Ctx, t: Tree, sub: Tree)
      requires Distinct(Plug(c, t)) && OnlyChild(t, sub)
      ensures sub.Node? ==> sub.elem in Elems(Plug(c, t)) && sub.elem != t.elem && sub.Root() != c.Par()
      ensures c.In? ==> c.elem in Elems(Plug(c, t))
    {
      PlugDistinct(c, t);
      PlugElems(c, t);
    }
    /** elm, which is outside the tree, takes the place and the colour of oldElm. */
    method Transplant(oldElm: Elm, elm: Elm)
      requires Shape() && oldElm in Elems(tree) && elm !in Elems(tree) && oldElm.left != null
      modifies this, Elems(tree), elm
      ensures Shape() && tree == Rename(old(tree), oldElm, elm)
      ensures Elems(tree) == old(Elems(tree)) - {oldElm} + {elm}
    {
      hide Shape, M, Linked, Distinct, Elems, Rename, RenameWrites;
      ghost var s, m := Elems(tree) + {elm}, Fields(Elems(tree) + {elm});
      ShapeIs();
      Neighbours(oldElm);
      SameFields(tree, Elems(tree), s);
      TransplantFields(oldElm, elm, s);
      TransplantLinked(tree, m, Fields(s), oldElm, elm);
      tree := Rename(tree, oldElm, elm);
      SameFields(tree, s, Elems(tree));
      ShapeIs();
    }

    lemma ShapeIs()
      ensures Shape() <==> root == tree.Root() && Distinct(tree) && Linked(tree, null, Fields(Elems(tree)))
    {
    }

    /** The links of a tree do not depend on what else is looked at. */
    static lemma SameFields(t: Tree, a: set<Elm>, b: set<Elm>)
      requires Linked(t, null, Fields(a)) && Elems(t) <= a && Elems(t) <= b
      ensures Linked(t, null, Fields(b))
    {
      hide Linked, Elems;
      LinkedFrame(t, null, Fields(a), Fields(b));
    }

    static lemma TransplantLinked(t: Tree, m: Links, m': Links, z: Elm, y: Elm)
      requires Linked(t, null, m) && Distinct(t) && z in Elems(t) && y !in Elems(t)
      requires z in m && RenameWrites(z, y, m, m')
      ensures Linked(Rename(t, z, y), null, m') && Distinct(Rename(t, z, y))
      ensures Elems(Rename(t, z, y)) == Elems(t) - {z} + {y}
      ensures Rename(t, z, y).Root() == if m[z].parent == null then y else t.Root()
    {
      hide RenameWrites, Elems, Linked;
      RenameLinked(t, m, m', z, y);
      RenameElems(t, z, y);
      BackLinks(t, m, z);
      RenameRoot(t, z, y);
    }

    /** The neighbours of an element are in the tree and all different. */
    lemma Neighbours(e: Elm)
      requires Shape() && e in Elems(tree)
      ensures e.left != null ==> e.left in Elems(tree) && e.left != e && e.left != e.right
      ensures e.right != null ==> e.right in Elems(tree) && e.right != e
      ensures e.parent != null ==>
        e.parent in Elems(tree) && e.parent != e && e.parent != e.left && e.parent != e.right
    {
      NeighboursApart(tree, M(), e);
    }

    static lemma RenameRoot(t: Tree, z: Elm, y: Elm)
      ensures Rename(t, z, y).Root() == Sub(t.Root(), z, y)
    {
    }

    /** The neighbours of an element are in the tree and all different. */
    static lemma NeighboursApart(t: Tree, m: Links, e: Elm)
      requires Linked(t, null, m) && Distinct(t) && e in Elems(t)
      ensures e in m
      ensures m[e].left != null ==> m[e].left in Elems(t) && m[e].left != e && m[e].left != m[e].right
      ensures m[e].right != null ==> m[e].right in Elems(t) && m[e].right != e
      ensures m[e].parent != null ==>
        m[e].parent in Elems(t) && m[e].parent != e && m[e].parent != m[e].left && m[e].parent != m[e].right
    {
      var c, te := Locate(t, e, Top);
      PlugLinked(c, te, m);
      PlugDistinct(c, te);
      PlugElems(c, te);
    }

    /** k extends c by left children only. */
    static ghost predicate LeftSpine(c: Ctx, k: Ctx) {
      k == c || (k.In? && k.s.L? && LeftSpine(c, k.up))
    }

    static lemma {:induction false} SpineFacts(c: Ctx, k: Ctx, t: Tree) returns (t': Tree)
      requires LeftSpine(c, k)
      ensures Plug(k, t) == Plug(c, t') && CtxElems(c) <= CtxElems(k)
    {
      if k == c {
        t' := t;
      } else {
        t' := SpineFacts(c, k.up, Mk(k.s, t, k.color, k.elem, k.sib));
      }
    }

    /** The leftmost element below start. */
    method Leftmost(start: Elm, ghost c: Ctx, ghost t: Tree) returns (elm: Elm, ghost k: Ctx, ghost ty: Tree)
      requires Shape() && tree == Plug(c, t) && t.Root() == start
      ensures Shape() && tree == Plug(k, ty) && ty.Root() == elm && ty.left == Leaf && Before(k) == Before(c)
      ensures LeftSpine(c, k)
    {
      hide Linked, Distinct, Elems, Plug;
      elm, k, ty := start, c, t;
      Around(k, ty);
      while elm.left != null
        invariant Shape() && tree == Plug(k, ty) && ty.Root() == elm && Before(k) == Before(c)
        invariant HoldsNode(ty, k.Par()) && LeftSpine(c, k)
        decreases Height(ty)
      {
        PlugUpBoth(k, ty);
        elm := elm.left;
        k, ty := In(k, L, ty.color, ty.elem, ty.right), ty.left;
        Around(k, ty);
      }
    }

    /** Removing z from an ordered tree in which y follows z, by splicing y out and renaming z to y. */
    static lemma RemovedOrder(cmp: Cmp, k: Ctx, ty: Tree, a: seq<Elm>, z: Elm, rest: seq<Elm>)
      requires Lawful(cmp) && Ordered(cmp, InOrder(Plug(k, ty))) && ty.Node? && ty.left == Leaf
      requires Before(k) == a + [z] && rest == InOrder(ty.right) + After(k)
      ensures InOrder(Plug(k, ty)) == a + [z] + ([ty.elem] + rest)
      ensures InOrder(Rename(Plug(k, ty.right), z, ty.elem)) == a + ([ty.elem] + rest)
    {
      var y := ty.elem;
      SplicedOrder(k, ty, a + [z]);
      RenameInOrder(Plug(k, ty.right), z, y);
      hide InOrder, Plug, Rename, Ordered, Lawful;
      OnlyOnce(cmp, a, z, [y] + rest);
      RenameOne(a, z, rest, y, InOrder(Rename(Plug(k, ty.right), z, y)));
    }

    static lemma SplicedOrder(k: Ctx, ty: Tree, a: seq<Elm>)
      requires ty.Node? && ty.left == Leaf && Before(k) == a
      ensures InOrder(Plug(k, ty)) == a + ([ty.elem] + (InOrder(ty.right) + After(k)))
      ensures InOrder(Plug(k, ty.right)) == a + (InOrder(ty.right) + After(k))
    {
      PlugInOrder(k, ty);
      PlugInOrder(k, ty.right);
      assert InOrder(ty) == [ty.elem] + InOrder(ty.right);
      hide InOrder, Plug;
      GroupRight(a, [ty.elem], InOrder(ty.right), After(k));
      GroupRight(a, [], InOrder(ty.right), After(k));
    }

    static lemma GroupRight(a: seq<Elm>, y: seq<Elm>, r: seq<Elm>, b: seq<Elm>)
      ensures a + (y + r) + b == a + (y + (r + b))
      ensures y == [] ==> a + r + b == a + (r + b)
    {
    }

    static lemma RenameOne(a: seq<Elm>, z: Elm, b: seq<Elm>, y: Elm, s: seq<Elm>)
      requires z !in a && z !in b && |s| == |a + [z] + b|
      requires forall i :: 0 <= i < |s| ==> s[i] == Sub((a + [z] + b)[i], z, y)
      ensures s == a + ([y] + b)
    {
    }

    static lemma OnlyOnce(cmp: Cmp, a: seq<Elm>, z: Elm, b: seq<Elm>)
      requires Lawful(cmp) && Ordered(cmp, a + [z] + b)
      ensures z !in a && z !in b
    {
      SelfEqual(cmp, z.key);
      OrderedParts(cmp, a, [z], b);
    }

    /** RB_REMOVE for a node with two children: its successor is spliced out and takes its place. */
    method RemoveWithSuccessor(oldElm: Elm, ghost c: Ctx, ghost t: Tree)
      returns (parent: Elm?, child: Elm?, color: Color, ghost c': Ctx, ghost t': Tree)
      requires Valid() && tree == Plug(c, t) && t.Root() == oldElm && t.left.Node? && t.right.Node?
      modifies this, Elems(tree)
      ensures Shape() && tree == Plug(c', t') && t'.Root() == child && c'.Par() == parent
      ensures Elems(tree) == old(Elems(tree)) - {oldElm}
      ensures IsWithout(InOrder(tree), old(InOrder(tree)), oldElm)
      ensures color.Red? ==> RedBlack(tree)
      ensures color.Black? ==> Removing(c', t')
    {
      hide Linked, Distinct, Elems, Plug, InOrder, RedBlack, Removing, Ordered, Lawful, Rename, CtxRename;
      ghost var c1 := In(c, R, t.color, t.elem, t.left);
      PlugUpBoth(c, t);
      Around(c, t);
      var elm;
      ghost var k, ty;
      elm, k, ty := Leftmost(oldElm.right, c1, t.right);
      Around(k, ty);
      child, color := elm.right, elm.color;
      ghost var a, rest := Before(c) + InOrder(t.left), InOrder(ty.right) + After(k);
      RemovedOrder(cmp, k, ty, a, oldElm, rest);
      WithoutOne(a, oldElm, [elm] + rest);
      SpliceStart(k, ty, ty.right);
      SuccessorApart(c1, k, ty, oldElm);
      RenameAll(k, ty.right, oldElm, elm);
      parent := ReplaceBySuccessor(oldElm, elm, child, c, t, k, ty);
      c', t' := CtxRename(k, oldElm, elm), ty.right;
    }

    /** The successor leaves its place to its right child and takes over the place of oldElm. */
    method ReplaceBySuccessor(oldElm: Elm, elm: Elm, child: Elm?, ghost c: Ctx, ghost t: Tree, ghost k: Ctx, ghost ty: Tree)
      returns (parent: Elm?)
      requires Shape() && tree == Plug(k, ty) && ty.Root() == elm && ty.left == Leaf && ty.right.Root() == child
      requires t.Root() == oldElm && t.left.Node? && LeftSpine(In(c, R, t.color, t.elem, t.left), k)
      modifies this, Elems(tree)
      ensures Shape() && tree == Rename(Plug(k, ty.right), oldElm, elm)
      ensures parent == Sub(k.Par(), oldElm, elm)
      ensures Elems(tree) == old(Elems(tree)) - {oldElm}
    {
      hide Linked, Distinct, Elems, Plug, Rename;
      ghost var c1 := In(c, R, t.color, t.elem, t.left);
      SuccessorApart(c1, k, ty, oldElm);
      Around(k, ty);
      parent := elm.parent;
      Splice(elm, child, k, ty, ty.right);
      if parent == oldElm {
        parent := elm;
      }
      StillHasLeft(c, t, k, ty.right);
      Transplant(oldElm, elm);
    }

    lemma StillHasLeft(c: Ctx, t: Tree, k: Ctx, sub: Tree)
      requires Shape() && tree == Plug(k, sub)
      requires t.Node? && t.left.Node? && LeftSpine(In(c, R, t.color, t.elem, t.left), k)
      ensures t.elem.left != null
    {
      var t' := SpineFacts(In(c, R, t.color, t.elem, t.left), k, sub);
      Around(In(c, R, t.color, t.elem, t.left), t');
    }

    static lemma SuccessorApart(c1: Ctx, k: Ctx, ty: Tree, z: Elm)
      requires c1.In? && c1.elem == z && ty.Node? && LeftSpine(c1, k) && Distinct(Plug(k, ty))
      ensures z != ty.elem && z !in Elems(ty.right) && ty.elem !in Elems(ty.right)
      ensures z in Elems(Plug(k, ty)) && ty.elem in Elems(Plug(k, ty))
    {
      PlugDistinct(k, ty);
      PlugElems(k, ty);
      var _ := SpineFacts(c1, k, ty);
    }

    /** Renaming commutes with plugging and keeps the colours. */
    static lemma RenameAll(k: Ctx, sub: Tree, z: Elm, y: Elm)
      requires z !in Elems(sub)
      ensures Rename(Plug(k, sub), z, y) == Plug(CtxRename(k, z, y), sub)
      ensures CtxRename(k, z, y).Par() == Sub(k.Par(), z, y)
      ensures RedBlack(Plug(k, sub)) ==> RedBlack(Rename(Plug(k, sub), z, y))
      ensures Removing(k, sub) ==> Removing(CtxRename(k, z, y), sub)
    {
      RenamePlug(k, sub, z, y);
      RenameAbsent(sub, z, y);
      RenameColours(Plug(k, sub), z, y);
      CtxRenameColours(k, z, y, BlackHeight(sub) + 1);
    }
    /** RB_REMOVE: exactly the given element leaves the tree, and every condition is restored. */
    method Remove(elm: Elm) returns (oldElm: Elm)
      requires Valid() && elm in Elems(tree)
      modifies this, Elems(tree)
      ensures Valid() && oldElm == elm
      ensures Elems(tree) == old(Elems(tree)) - {elm}
      ensures IsWithout(InOrder(tree), old(InOrder(tree)), elm)
    {
      hide Linked, Distinct, Elems, Plug, InOrder, RedBlack, Removing, Ordered, Lawful;
      oldElm := elm;
      ghost var order := InOrder(tree);
      ghost var c, t := Locate(tree, elm, Top);
      TopPlug(tree);
      Around(c, t);
      var parent, child: Elm?, color: Color;
      if elm.left != null && elm.right != null {
        parent, child, color, c, t := RemoveWithSuccessor(elm, c, t);
      } else {
        ghost var sub := if elm.left == null then t.right else t.left;
        child := if elm.left == null then elm.right else elm.left;
        parent, color := elm.parent, elm.color;
        SpliceStart(c, t, sub);
        SpliceOrder(c, t, sub);
        Splice(elm, child, c, t, sub);
        t := sub;
      }
      WithoutKeepsOrder(cmp, InOrder(tree), order, elm);
      if color == Black {
        RemoveColor(parent, child, c, t);
      }
    }

    static lemma SpliceOrder(c: Ctx, t: Tree, sub: Tree)
      requires OnlyChild(t, sub)
      ensures IsWithout(InOrder(Plug(c, sub)), InOrder(Plug(c, t)), t.elem)
    {
      PlugInOrder(c, t);
      PlugInOrder(c, sub);
      var l, r := InOrder(t.left), InOrder(t.right);
      assert (t.left == Leaf ==> l == []) && (t.right == Leaf ==> r == []);
      assert sub == t.left || sub == t.right;
      hide Plug, InOrder, IsWithout;
      Regroup(Before(c), l, [t.elem], r, After(c));
      WithoutOne(Before(c) + l, t.elem, r + After(c));
      DropEmpty(Before(c), l, r, After(c));
    }

    static lemma DropEmpty(a: seq<Elm>, l: seq<Elm>, r: seq<Elm>, b: seq<Elm>)
      ensures l == [] ==> a + r + b == a + l + (r + b)
      ensures r == [] ==> a + l + b == a + l + (r + b)
    {
    }

    // ----- traversal ------------------------------------------------------------------------------

    /** Where the root of a subtree stands in the order of the tree. */
    lemma Position(c: Ctx, t: Tree)
      requires tree == Plug(c, t) && t.Node?
      ensures InOrder(tree) == (Before(c) + InOrder(t.left)) + [t.elem] + (InOrder(t.right) + After(c))
    {
      PlugInOrder(c, t);
      Regroup(Before(c), InOrder(t.left), [t.elem], InOrder(t.right), After(c));
    }

    /** The rightmost element below start. */
    method Rightmost(start: Elm, ghost c: Ctx, ghost t: Tree) returns (elm: Elm, ghost k: Ctx, ghost ty: Tree)
      requires Shape() && tree == Plug(c, t) && t.Root() == start
      ensures Shape() && tree == Plug(k, ty) && ty.Root() == elm && ty.right == Leaf && After(k) == After(c)
    {
      hide Linked, Distinct, Elems, Plug;
      elm, k, ty := start, c, t;
      Around(k, ty);
      while elm.right != null
        invariant Shape() && tree == Plug(k, ty) && ty.Root() == elm && After(k) == After(c)
        invariant HoldsNode(ty, k.Par())
        decreases Height(ty)
      {
        PlugUpBoth(k, ty);
        elm := elm.right;
        k, ty := In(k, R, ty.color, ty.elem, ty.left), ty.right;
        Around(k, ty);
      }
    }

    /** Climbs while coming from a right child; the next parent is the neighbour on the other side. */
    method ClimbFromRight(start: Elm, ghost c0: Ctx, ghost t0: Tree) returns (r: Elm?)
      requires Shape() && tree == Plug(c0, t0) && t0.Root() == start
      ensures Shape() && r == First(After(c0))
    {
      hide Linked, Distinct, Elems, Plug, InOrder;
      var e: Elm := start;
      ghost var c, t := c0, t0;
      Around(c, t);
      while e.parent != null && e == e.parent.right
        invariant Shape() && tree == Plug(c, t) && t.Root() == e && After(c) == After(c0)
        invariant HoldsNode(t, c.Par())
        decreases c.Depth()
      {
        Around(c, t);
        PlugUp(c, t);
        e := e.parent;
        c, t := c.up, Mk(c.s, t, c.color, c.elem, c.sib);
        Around(c, t);
      }
      Around(c, t);
      r := e.parent;
    }

    /** Climbs while coming from a left child; the next parent is the neighbour on the other side. */
    method ClimbFromLeft(start: Elm, ghost c0: Ctx, ghost t0: Tree) returns (r: Elm?)
      requires Shape() && tree == Plug(c0, t0) && t0.Root() == start
      ensures Shape() && r == Last(Before(c0))
    {
      hide Linked, Distinct, Elems, Plug, InOrder;
      var e: Elm := start;
      ghost var c, t := c0, t0;
      Around(c, t);
      while e.parent != null && e == e.parent.left
        invariant Shape() && tree == Plug(c, t) && t.Root() == e && Before(c) == Before(c0)
        invariant HoldsNode(t, c.Par())
        decreases c.Depth()
      {
        Around(c, t);
        PlugUp(c, t);
        e := e.parent;
        c, t := c.up, Mk(c.s, t, c.color, c.elem, c.sib);
        Around(c, t);
      }
      Around(c, t);
      r := e.parent;
    }

    /** RB_NEXT: the successor in tree order, found through parent pointers alone. */
    method Next(elm: Elm) returns (r: Elm?, ghost i: nat)
      requires Shape() && elm in Elems(tree)
      ensures Shape() && i < |InOrder(tree)| && InOrder(tree)[i] == elm
      ensures r == if i + 1 < |InOrder(tree)| then InOrder(tree)[i + 1] else null
      ensures Follows(InOrder(tree), elm, r)
    {
      hide Linked, Distinct, Elems, Plug, InOrder, Follows, Precedes;
      ghost var c, t := Locate(tree, elm, Top);
      TopPlug(tree);
      Around(c, t);
      Position(c, t);
      ghost var pre := Before(c) + InOrder(t.left);
      i := |pre|;
      if elm.right != null {
        ghost var k, ty;
        PlugUpBoth(c, t);
        r, k, ty := Leftmost(elm.right, In(c, R, t.color, t.elem, t.left), t.right);
        Position(k, ty);
        LeafOrder();
        assert Before(k) == pre + [elm];
      } else {
        LeafOrder();
        ghost var rest := After(c);
        if elm.parent != null && elm == elm.parent.left {
          r := elm.parent;
        } else {
          r := ClimbFromRight(elm, c, t);
        }
        assert r == First(rest);
      }
      At(InOrder(tree), i, elm);
    }

    static lemma LeafOrder()
      ensures InOrder(Leaf) == []
    {
    }

    /** RB_PREV: the predecessor in tree order. */
    method Prev(elm: Elm) returns (r: Elm?, ghost i: nat)
      requires Shape() && elm in Elems(tree)
      ensures Shape() && i < |InOrder(tree)| && InOrder(tree)[i] == elm
      ensures r == if i > 0 then InOrder(tree)[i - 1] else null
      ensures Precedes(InOrder(tree), elm, r)
    {
      hide Linked, Distinct, Elems, Plug, InOrder, Follows, Precedes;
      ghost var c, t := Locate(tree, elm, Top);
      TopPlug(tree);
      Around(c, t);
      Position(c, t);
      ghost var pre := Before(c) + InOrder(t.left);
      i := |pre|;
      if elm.left != null {
        ghost var k, ty;
        PlugUpBoth(c, t);
        r, k, ty := Rightmost(elm.left, In(c, L, t.color, t.elem, t.right), t.left);
        Position(k, ty);
        LeafOrder();
        SuffixPosition(InOrder(tree), pre, elm, Before(k) + InOrder(ty.left), r, InOrder(t.right) + After(c));
      } else {
        LeafOrder();
        if elm.parent != null && elm == elm.parent.right {
          r := elm.parent;
        } else {
          r := ClimbFromLeft(elm, c, t);
        }
        assert r == Last(pre);
      }
      At(InOrder(tree), i, elm);
    }

    static lemma SuffixPosition(s: seq<Elm>, pre: seq<Elm>, e: Elm, pre': seq<Elm>, r: Elm, rest: seq<Elm>)
      requires s == pre + [e] + rest && s == pre' + [r] + ([e] + rest)
      ensures |pre| > 0 && s[|pre| - 1] == r
    {
      assert |pre| == |pre'| + 1;
    }

    /** RB_MINMAX: the first or the last element. */
    method MinMax(val: int) returns (parent: Elm?)
      requires Shape()
      ensures Shape() && parent == if val < 0 then First(InOrder(tree)) else Last(InOrder(tree))
    {
      hide Linked, Distinct, Elems, Plug, InOrder;
      ghost var c, t := Top, tree;
      TopPlug(tree);
      var tmp := root;
      parent := null;
      while tmp != null
        invariant Shape() && tree == Plug(c, t) && t.Root() == tmp && parent == c.Par()
        invariant if val < 0 then Before(c) == [] && (c.In? ==> c.s.L?) else After(c) == [] && (c.In? ==> c.s.R?)
        decreases Height(t)
      {
        Around(c, t);
        PlugUpBoth(c, t);
        parent := tmp;
        if val < 0 {
          tmp := tmp.left;
          c, t := In(c, L, t.color, t.elem, t.right), t.left;
        } else {
          tmp := tmp.right;
          c, t := In(c, R, t.color, t.elem, t.left), t.right;
        }
      }
      PlugInOrder(c, Leaf);
      LeafOrder();
    }

    /** RB_FOREACH: starting at the minimum and following RB_NEXT visits every element once, in order. */
    method Foreach() returns (visited: seq<Elm>)
      requires Shape()
      ensures visited == InOrder(tree)
    {
      hide Linked, Distinct, Elems, InOrder;
      visited := [];
      var x := MinMax(-1);
      while x != null
        invariant Shape() && visited <= InOrder(tree)
        invariant x == if |visited| < |InOrder(tree)| then InOrder(tree)[|visited|] else null
        decreases |InOrder(tree)| - |visited|
      {
        ghost var n := |visited|;
        ElemsInOrder(tree, x);
        visited := visited + [x];
        ghost var i;
        var y;
        y, i := Next(x);
        InOrderDistinct(tree, i, n);
        x := y;
      }
    }

    /** No element stands at two positions. */
    static lemma {:induction false} InOrderDistinct(t: Tree, i: nat, j: nat)
      requires Distinct(t) && i < |InOrder(t)| && j < |InOrder(t)| && InOrder(t)[i] == InOrder(t)[j]
      ensures i == j
      decreases t, i
    {
      var l, r, n := InOrder(t.left), InOrder(t.right), |InOrder(t.left)|;
      if j < i {
        InOrderDistinct(t, j, i);
      } else if j < n {
        InOrderDistinct(t.left, i, j);
      } else if i > n {
        InOrderDistinct(t.right, i - n - 1, j - n - 1);
      } else {
        assert InOrder(t) == l + [t.elem] + r;
        if i < n { AtInElems(t.left, i); }
        if j > n { AtInElems(t.right, j - n - 1); }
      }
    }

    static lemma AtInElems(t: Tree, i: nat)
      requires i < |InOrder(t)|
      ensures InOrder(t)[i] in Elems(t)
    {
      ElemsInOrder(t, InOrder(t)[i]);
    }
  }
}
