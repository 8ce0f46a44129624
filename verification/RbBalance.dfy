/** The red-black conditions, what each fix-up step does to them, and the height bound they imply. */
module RbBalance {
  import opened Elements
  import opened RbShape
  import opened Logs

  /** Black nodes on the leftmost path; on every path, when the tree is balanced. */
  function BlackHeight(t: Tree): nat {
    match t
    case Leaf => 0
    case Node(l, c, _, _) => BlackHeight(l) + Weight(c)
  }

  function Weight(c: Color): nat { if c.Black? then 1 else 0 }

  /** Every path to a leaf passes the same number of black nodes. */
  ghost predicate Balanced(t: Tree) {
    match t
    case Leaf => true
    case Node(l, _, _, r) => Balanced(l) && Balanced(r) && BlackHeight(l) == BlackHeight(r)
  }

  /** No red node has a red child. */
  ghost predicate NoRedRed(t: Tree) {
    match t
    case Leaf => true
    case Node(l, c, _, r) => NoRedRed(l) && NoRedRed(r) && (c.Red? ==> !l.IsRed() && !r.IsRed())
  }

  ghost predicate RedBlack(t: Tree) {
    Balanced(t) && NoRedRed(t) && !t.IsRed()
  }

  /** The context is balanced once the hole holds a subtree of black height h. */
  ghost predicate CtxBalanced(c: Ctx, h: int) {
    match c
    case Top => true
    case In(up, _, col, _, sib) => Balanced(sib) && BlackHeight(sib) == h && CtxBalanced(up, h + Weight(col))
  }

  ghost predicate CtxNoRedRed(c: Ctx) {
    match c
    case Top => true
    case In(up, _, col, _, sib) => NoRedRed(sib) && CtxNoRedRed(up) && (col.Red? ==> !sib.IsRed() && !up.IsRed())
  }

  /** The root of a non-empty context is black. */
  predicate BlackBase(c: Ctx) {
    c.In? ==> if c.up.Top? then c.color.Black? else BlackBase(c.up)
  }

  lemma {:induction false} PlugBalanced(c: Ctx, t: Tree)
    ensures Balanced(Plug(c, t)) <==> Balanced(t) && CtxBalanced(c, BlackHeight(t))
  {
    match c
    case Top =>
    case In(up, s, col, e, sib) =>
      PlugBalanced(up, Mk(s, t, col, e, sib));
  }

  lemma {:induction false} PlugNoRedRed(c: Ctx, t: Tree)
    ensures NoRedRed(Plug(c, t)) <==> NoRedRed(t) && CtxNoRedRed(c) && !(c.IsRed() && t.IsRed())
  {
    match c
    case Top =>
    case In(up, s, col, e, sib) =>
      PlugNoRedRed(up, Mk(s, t, col, e, sib));
  }

  lemma {:induction false} PlugRootColor(c: Ctx, t: Tree)
    ensures Plug(c, t).IsRed() <==> if c.Top? then t.IsRed() else !BlackBase(c)
  {
    match c
    case Top =>
    case In(up, s, col, e, sib) =>
      PlugRootColor(up, Mk(s, t, col, e, sib));
  }

  function Blacken(t: Tree): Tree {
    if t.Leaf? then Leaf else t.(color := Black)
  }

  // ----- insertion ------------------------------------------------------------------------------

  /**
   Between two rounds of RB_INSERT_COLOR: t is the subtree at the node being fixed, c its context. The tree is
   balanced and the only red-red edge, if any, is the one above t.
   */
  ghost predicate Inserting(c: Ctx, t: Tree) {
    && t.IsRed() && Balanced(t) && NoRedRed(t)
    && CtxBalanced(c, BlackHeight(t)) && CtxNoRedRed(c) && BlackBase(c)
  }

  /** A red parent is not the root. */
  lemma RedParentHasParent(c: Ctx, t: Tree)
    requires Inserting(c, t) && c.IsRed()
    ensures c.up.In?
  {
  }

  lemma MkFacts(s: Side, near: Tree, c: Color, e: Elm, far: Tree)
    ensures Balanced(Mk(s, near, c, e, far)) <==> Balanced(near) && Balanced(far) && BlackHeight(near) == BlackHeight(far)
    ensures BlackHeight(near) == BlackHeight(far) ==> BlackHeight(Mk(s, near, c, e, far)) == BlackHeight(near) + Weight(c)
    ensures NoRedRed(Mk(s, near, c, e, far)) <==>
            NoRedRed(near) && NoRedRed(far) && (c.Red? ==> !near.IsRed() && !far.IsRed())
  {
  }

  lemma BlackenFacts(t: Tree)
    requires Balanced(t) && NoRedRed(t)
    ensures Balanced(Blacken(t)) && NoRedRed(Blacken(t)) && !Blacken(t).IsRed()
    ensures BlackHeight(Blacken(t)) == BlackHeight(t) + if t.IsRed() then 1 else 0
  {
  }

  /** Uncle red: both turn black, the grandparent red, and the grandparent is next. */
  lemma InsertRecolour(c: Ctx, t: Tree)
    requires Inserting(c, t) && c.IsRed() && c.up.In? && c.up.sib.IsRed()
    ensures Inserting(c.up.up, Mk(c.up.s, Mk(c.s, t, Black, c.elem, c.sib), Red, c.up.elem, Blacken(c.up.sib)))
  {
    var g := c.up;
    assert CtxBalanced(g, BlackHeight(t)) && CtxNoRedRed(g) && BlackBase(g);
    MkFacts(c.s, t, Black, c.elem, c.sib);
    BlackenFacts(g.sib);
    MkFacts(g.s, Mk(c.s, t, Black, c.elem, c.sib), Red, g.elem, Blacken(g.sib));
  }

  /** Uncle black, node on the inner side: after rotating the parent down, the parent is on the outer side. */
  lemma InsertInner(c: Ctx, near: Tree, e: Elm, far: Tree)
    requires c.IsRed() && c.up.In? && c.up.s == c.s.Opp() && Inserting(c, Mk(c.up.s, near, Red, e, far))
    ensures Inserting(In(c.up, c.up.s, Red, e, far), Mk(c.up.s, c.sib, Red, c.elem, near))
  {
    MkFacts(c.up.s, near, Red, e, far);
    MkFacts(c.up.s, c.sib, Red, c.elem, near);
  }

  /** Uncle black, node on the outer side: recolour and rotate the grandparent; no red-red edge is left. */
  lemma InsertOuter(c: Ctx, t: Tree)
    requires Inserting(c, t) && c.IsRed() && c.up.In? && c.s == c.up.s && !c.up.sib.IsRed()
    ensures Inserting(In(c.up.up, c.s, Black, c.elem, Mk(c.s, c.sib, Red, c.up.elem, c.up.sib)), t)
  {
    var g := c.up;
    assert CtxBalanced(g, BlackHeight(t)) && CtxNoRedRed(g) && BlackBase(g);
    MkFacts(c.s, c.sib, Red, g.elem, g.sib);
  }

  /** When the parent is not red, or there is none, painting the root black leaves a red-black tree. */
  lemma InsertDone(c: Ctx, t: Tree)
    requires Inserting(c, t) && !c.IsRed()
    ensures RedBlack(Blacken(Plug(c, t)))
  {
    PlugBalanced(c, t);
    PlugNoRedRed(c, t);
    BlackenFacts(Plug(c, t));
  }

  /** A new red leaf node starts the fix-up. */
  lemma InsertStart(c: Ctx, e: Elm)
    requires RedBlack(Plug(c, Leaf))
    ensures Inserting(c, Node(Leaf, Red, e, Leaf))
  {
    PlugBalanced(c, Leaf);
    PlugNoRedRed(c, Leaf);
    PlugRootColor(c, Leaf);
  }

  // ----- removal --------------------------------------------------------------------------------

  /**
   Between two rounds of RB_REMOVE_COLOR: every path through the hole lacks one black node, and at most the root of t
   and its neighbours may break the colour rule, which painting that root black repairs.
   */
  ghost predicate Removing(c: Ctx, t: Tree) {
    && Balanced(t) && NoRedRed(Blacken(t))
    && CtxBalanced(c, BlackHeight(t) + 1) && CtxNoRedRed(c) && BlackBase(c)
  }

  /** The sibling exists: its paths hold one more black node than the hole's. */
  lemma SiblingExists(c: Ctx, t: Tree)
    requires Removing(c, t) && c.In?
    ensures c.sib.Node?
  {
  }

  /** Red sibling: it changes colours with the parent and is rotated up; the new sibling is black. */
  lemma RemoveRedSibling(c: Ctx, t: Tree, near: Tree, e: Elm, far: Tree)
    requires Removing(c, t) && c.In? && c.sib == Mk(c.s, near, Red, e, far)
    ensures c.color == Black
    ensures Removing(In(In(c.up, c.s, Black, e, far), c.s, Red, c.elem, near), t) && !near.IsRed()
  {
    MkFacts(c.s, near, Red, e, far);
  }

  /** Black sibling with black children: it turns red and the shortage moves to the parent. */
  lemma RemoveRecolour(c: Ctx, t: Tree, near: Tree, e: Elm, far: Tree)
    requires Removing(c, t) && !t.IsRed() && c.In? && c.sib == Mk(c.s, near, Black, e, far)
    requires !near.IsRed() && !far.IsRed()
    ensures Removing(c.up, Mk(c.s, t, c.color, c.elem, Mk(c.s, near, Red, e, far)))
  {
    MkFacts(c.s, near, Black, e, far);
    MkFacts(c.s, near, Red, e, far);
    MkFacts(c.s, t, c.color, c.elem, Mk(c.s, near, Red, e, far));
    MkFacts(c.s, t, Black, c.elem, Mk(c.s, near, Red, e, far));
  }

  /** Black sibling, red near and black far child: after rotating the sibling, the far child is red. */
  lemma RemoveInner(c: Ctx, t: Tree, n1: Tree, ne: Elm, n2: Tree, e: Elm, far: Tree)
    requires Removing(c, t) && c.In? && c.sib == Mk(c.s, Mk(c.s, n1, Red, ne, n2), Black, e, far) && !far.IsRed()
    ensures Removing(In(c.up, c.s, c.color, c.elem, Mk(c.s, n1, Black, ne, Mk(c.s, n2, Red, e, far))), t)
  {
    MkFacts(c.s, n1, Red, ne, n2);
    MkFacts(c.s, Mk(c.s, n1, Red, ne, n2), Black, e, far);
    MkFacts(c.s, n2, Red, e, far);
    MkFacts(c.s, n1, Black, ne, Mk(c.s, n2, Red, e, far));
  }

  /** Black sibling with a red far child: one rotation and recolouring repair everything. */
  lemma RemoveOuter(c: Ctx, t: Tree, near: Tree, e: Elm, far: Tree)
    requires Removing(c, t) && !t.IsRed() && c.In? && c.sib == Mk(c.s, near, Black, e, far) && far.IsRed()
    ensures RedBlack(Blacken(Plug(c.up, Mk(c.s, Mk(c.s, t, Black, c.elem, near), c.color, e, Blacken(far)))))
  {
    var t' := Mk(c.s, Mk(c.s, t, Black, c.elem, near), c.color, e, Blacken(far));
    MkFacts(c.s, near, Black, e, far);
    BlackenFacts(far);
    MkFacts(c.s, t, Black, c.elem, near);
    MkFacts(c.s, Mk(c.s, t, Black, c.elem, near), c.color, e, Blacken(far));
    PlugBalanced(c.up, t');
    PlugNoRedRed(c.up, t');
    BlackenFacts(Plug(c.up, t'));
  }

  /** A red root of t, or the root of the tree, absorbs the shortage when painted black. */
  lemma RemoveDone(c: Ctx, t: Tree)
    requires Removing(c, t) && (t.IsRed() || c.Top?)
    ensures RedBlack(Plug(c, Blacken(t)))
  {
    PlugBalanced(c, Blacken(t));
    PlugNoRedRed(c, Blacken(t));
    PlugRootColor(c, Blacken(t));
  }

  /** Splicing out a node with at most one child: a red one leaves a red-black tree, a black one starts the fix-up. */
  lemma SpliceStart(c: Ctx, t: Tree, child: Tree)
    requires RedBlack(Plug(c, t)) && OnlyChild(t, child)
    ensures t.color.Red? ==> RedBlack(Plug(c, child))
    ensures t.color.Black? ==> Removing(c, child)
  {
    hide Plug, CtxBalanced, CtxNoRedRed;
    PlugBalanced(c, t);
    PlugNoRedRed(c, t);
    PlugRootColor(c, t);
    PlugBalanced(c, child);
    PlugNoRedRed(c, child);
    PlugRootColor(c, child);
  }

  // ----- colours survive renaming ----------------------------------------------------------------

  lemma {:induction false} RenameColours(t: Tree, z: Elm, y: Elm)
    ensures BlackHeight(Rename(t, z, y)) == BlackHeight(t) && Rename(t, z, y).IsRed() == t.IsRed()
    ensures Balanced(Rename(t, z, y)) == Balanced(t) && NoRedRed(Rename(t, z, y)) == NoRedRed(t)
  {
    match t
    case Leaf =>
    case Node(l, _, _, r) =>
      RenameColours(l, z, y);
      RenameColours(r, z, y);
  }

  lemma {:induction false} CtxRenameColours(c: Ctx, z: Elm, y: Elm, h: int)
    ensures CtxBalanced(CtxRename(c, z, y), h) == CtxBalanced(c, h)
    ensures CtxNoRedRed(CtxRename(c, z, y)) == CtxNoRedRed(c) && CtxRename(c, z, y).IsRed() == c.IsRed()
    ensures BlackBase(CtxRename(c, z, y)) == BlackBase(c)
  {
    match c
    case Top =>
    case In(up, _, col, _, sib) =>
      RenameColours(sib, z, y);
      CtxRenameColours(up, z, y, h + Weight(col));
  }

  // ----- height ----------------------------------------------------------------------------------

  function Height(t: Tree): nat {
    if t.Leaf? then 0 else 1 + if Height(t.left) > Height(t.right) then Height(t.left) else Height(t.right)
  }

  function Size(t: Tree): nat {
    if t.Leaf? then 0 else Size(t.left) + 1 + Size(t.right)
  }

  lemma {:induction false} SizeBound(t: Tree)
    requires Balanced(t)
    ensures Pow2(BlackHeight(t)) <= Size(t) + 1
  {
    if t.Node? {
      SizeBound(t.left);
      SizeBound(t.right);
    }
  }

  lemma {:induction false} HeightByBlackHeight(t: Tree)
    requires Balanced(t) && NoRedRed(t)
    ensures Height(t) <= 2 * BlackHeight(t) + if t.IsRed() then 1 else 0
  {
    if t.Node? {
      HeightByBlackHeight(t.left);
      HeightByBlackHeight(t.right);
    }
  }

  /** A red-black tree of n nodes is at most 2 lg(n + 1) high: 2^height <= (n + 1)^2. */
  lemma HeightBound(t: Tree)
    requires RedBlack(t)
    ensures Pow2(Height(t)) <= (Size(t) + 1) * (Size(t) + 1)
  {
    var h, n := BlackHeight(t), Size(t) + 1;
    SizeBound(t);
    HeightByBlackHeight(t);
    Pow2Monotone(Height(t), 2 * h);
    Pow2Double(h);
    Square(Pow2(h), n);
  }

  lemma {:induction false} SizeIsLength(t: Tree)
    ensures Size(t) == |InOrder(t)|
  {
    if t.Node? {
      SizeIsLength(t.left);
      SizeIsLength(t.right);
    }
  }

  /** A search of at most height steps is logarithmic: 2^steps <= (n + 1)^2. */
  lemma StepsBound(t: Tree, steps: nat)
    requires RedBlack(t) && steps <= Height(t)
    ensures Pow2(steps) <= (|InOrder(t)| + 1) * (|InOrder(t)| + 1)
  {
    hide InOrder;
    HeightBound(t);
    SizeIsLength(t);
    Pow2Monotone(steps, Height(t));
  }
}
