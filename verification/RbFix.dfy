/** What the recolourings and rotations of one fix-up round do to the whole tree, seen from the node being fixed. */
module RbFix {
  import opened Elements
  import opened RbShape
  import opened RbBalance

  lemma PaintedDistinct(t: Tree, x: Elm, col: Color)
    requires Distinct(t)
    ensures Distinct(Paint(t, x, col))
  {
    PaintFacts(t, x, col);
  }

  // ----- insertion ------------------------------------------------------------------------------

  /** Uncle red: uncle and parent black, grandparent red. */
  lemma RecolourTree(c: Ctx, t: Tree)
    requires c.In? && c.up.In? && c.up.sib.Node? && Distinct(Plug(c, t))
    ensures Paint(Paint(Paint(Plug(c, t), c.up.sib.elem, Black), c.elem, Black), c.up.elem, Red) ==
            Plug(c.up.up, Mk(c.up.s, Mk(c.s, t, Black, c.elem, c.sib), Red, c.up.elem, Blacken(c.up.sib)))
  {
    hide Plug, Distinct, Paint;
    var g, p := c.up, Mk(c.s, t, c.color, c.elem, c.sib);
    PlugUp(c, t);
    AcrossPlug(g, p);
    PaintHere(Across(g, p), g.sib, Black);
    PaintedDistinct(Plug(c, t), g.sib.elem, Black);
    var g1 := g.(sib := Blacken(g.sib));
    AcrossPlug(g1, p);
    var c1 := c.(up := g1);
    PlugUp(c1, t);
    PaintAbove(c1, t, Black);
    PaintedDistinct(Plug(c1, t), c.elem, Black);
    var c2 := c1.(color := Black);
    PlugUp(c2, t);
    PaintAbove(g1, Mk(c.s, t, Black, c.elem, c.sib), Red);
    PlugUp(g1.(color := Red), Mk(c.s, t, Black, c.elem, c.sib));
  }

  lemma PlugUp(c: Ctx, t: Tree)
    requires c.In?
    ensures Plug(c, t) == Plug(c.up, Mk(c.s, t, c.color, c.elem, c.sib))
  {
  }

  /** Inner side: the parent is rotated away from the node. */
  lemma InnerTree(c: Ctx, o: Side, near: Tree, col: Color, e: Elm, far: Tree)
    requires c.In? && o == c.s.Opp() && Distinct(Plug(c, Mk(o, near, col, e, far)))
    ensures Rot(o, Plug(c, Mk(o, near, col, e, far)), c.elem) ==
            Plug(In(c.up, o, col, e, far), Mk(o, c.sib, c.color, c.elem, near))
  {
    var t := Mk(o, near, col, e, far);
    PlugUp(c, t);
    RotHere(o, c.up, Mk(c.s, t, c.color, c.elem, c.sib));
    RotAt(o, c.sib, c.color, c.elem, near, col, e, far);
  }

  /** Outer side: parent black, grandparent red and rotated away from them. */
  lemma OuterTree(c: Ctx, t: Tree)
    requires c.In? && c.up.In? && c.s == c.up.s && Distinct(Plug(c, t))
    ensures Rot(c.s.Opp(), Paint(Paint(Plug(c, t), c.elem, Black), c.up.elem, Red), c.up.elem) ==
            Plug(In(c.up.up, c.s, Black, c.elem, Mk(c.s, c.sib, Red, c.up.elem, c.up.sib)), t)
  {
    hide Plug, Distinct, Paint, Rot;
    var g, c1 := c.up, c.(color := Black);
    PaintAbove(c, t, Black);
    PaintedDistinct(Plug(c, t), c.elem, Black);
    PlugUp(c1, t);
    var p := Mk(c.s, t, Black, c.elem, c.sib);
    PaintAbove(g, p, Red);
    PaintedDistinct(Plug(c1, t), g.elem, Red);
    var g1 := g.(color := Red);
    PlugUp(g1, p);
    RotHere(c.s.Opp(), g.up, Mk(g.s, p, Red, g.elem, g.sib));
    RotAt(c.s.Opp(), g.sib, Red, g.elem, c.sib, Black, c.elem, t);
    PlugUp(In(g.up, c.s, Black, c.elem, Mk(c.s, c.sib, Red, g.elem, g.sib)), t);
  }

  // ----- removal --------------------------------------------------------------------------------

  /** Painting the root of the sibling. */
  lemma PaintSibling(c: Ctx, t: Tree, col: Color)
    requires c.In? && c.sib.Node? && Distinct(Plug(c, t))
    ensures Paint(Plug(c, t), c.sib.elem, col) == Plug(c.(sib := c.sib.(color := col)), t)
  {
    hide Plug, Distinct, Paint;
    AcrossPlug(c, t);
    PaintHere(Across(c, t), c.sib, col);
    AcrossPlug(c.(sib := c.sib.(color := col)), t);
  }

  /** Painting the child of the sibling on side s. */
  lemma PaintNephew(c: Ctx, t: Tree, s: Side, kid: Tree, wc: Color, e: Elm, other: Tree, col: Color)
    requires c.In? && c.sib == Mk(s, kid, wc, e, other) && kid.Node? && Distinct(Plug(c, t))
    ensures Paint(Plug(c, t), kid.elem, col) == Plug(c.(sib := Mk(s, kid.(color := col), wc, e, other)), t)
  {
    hide Plug, Distinct, Paint;
    AcrossPlug(c, t);
    var d := In(Across(c, t), s, wc, e, other);
    PlugUp(d, kid);
    PaintHere(d, kid, col);
    PlugUp(d, kid.(color := col));
    AcrossPlug(c.(sib := Mk(s, kid.(color := col), wc, e, other)), t);
  }

  /** Red sibling: sibling black, parent red and rotated towards the hole. */
  lemma RedSiblingTree(c: Ctx, t: Tree, near: Tree, e: Elm, far: Tree)
    requires c.In? && c.sib == Mk(c.s, near, Red, e, far) && Distinct(Plug(c, t))
    ensures Rot(c.s, Paint(Paint(Plug(c, t), e, Black), c.elem, Red), c.elem) ==
            Plug(In(In(c.up, c.s, Black, e, far), c.s, Red, c.elem, near), t)
  {
    hide Plug, Distinct, Paint, Rot;
    PaintSibling(c, t, Black);
    PaintedDistinct(Plug(c, t), e, Black);
    var c1 := c.(sib := Mk(c.s, near, Black, e, far));
    PaintAbove(c1, t, Red);
    PaintedDistinct(Plug(c1, t), c.elem, Red);
    RotateTowards(c1.(color := Red), t, near, Black, e, far);
  }

  /** Rotating the node above the hole towards the hole. */
  lemma RotateTowards(c: Ctx, t: Tree, near: Tree, wc: Color, e: Elm, far: Tree)
    requires c.In? && c.sib == Mk(c.s, near, wc, e, far) && Distinct(Plug(c, t))
    ensures Rot(c.s, Plug(c, t), c.elem) == Plug(In(In(c.up, c.s, wc, e, far), c.s, c.color, c.elem, near), t)
  {
    hide Plug, Distinct, Rot;
    PlugUp(c, t);
    RotHere(c.s, c.up, Mk(c.s, t, c.color, c.elem, c.sib));
    RotAt(c.s, t, c.color, c.elem, near, wc, e, far);
    PlugUp(In(In(c.up, c.s, wc, e, far), c.s, c.color, c.elem, near), t);
    PlugUp(In(c.up, c.s, wc, e, far), Mk(c.s, t, c.color, c.elem, near));
  }

  /** Inner nephew red: it turns black, the sibling red and is rotated away from the hole. */
  lemma InnerNephewTree(c: Ctx, t: Tree, n1: Tree, nc: Color, ne: Elm, n2: Tree, wc: Color, e: Elm, far: Tree)
    requires c.In? && c.sib == Mk(c.s, Mk(c.s, n1, nc, ne, n2), wc, e, far) && Distinct(Plug(c, t))
    ensures Rot(c.s.Opp(), Paint(Paint(Plug(c, t), ne, Black), e, Red), e) ==
            Plug(c.(sib := Mk(c.s, n1, Black, ne, Mk(c.s, n2, Red, e, far))), t)
  {
    hide Plug, Distinct, Paint, Rot;
    var near := Mk(c.s, n1, nc, ne, n2);
    PaintNephew(c, t, c.s, near, wc, e, far, Black);
    PaintedDistinct(Plug(c, t), ne, Black);
    var near1 := Mk(c.s, n1, Black, ne, n2);
    var c1 := c.(sib := Mk(c.s, near1, wc, e, far));
    PaintSibling(c1, t, Red);
    PaintedDistinct(Plug(c1, t), e, Red);
    var c2 := c.(sib := Mk(c.s, near1, Red, e, far));
    AcrossPlug(c2, t);
    RotHere(c.s.Opp(), Across(c2, t), c2.sib);
    RotAt(c.s.Opp(), far, Red, e, n2, Black, ne, n1);
    AcrossPlug(c.(sib := Mk(c.s, n1, Black, ne, Mk(c.s, n2, Red, e, far))), t);
  }

  /** Outer nephew red: sibling takes the parent's colour, parent and nephew black, rotation towards the hole. */
  lemma OuterNephewTree(c: Ctx, t: Tree, near: Tree, wc: Color, e: Elm, far: Tree)
    requires c.In? && c.sib == Mk(c.s, near, wc, e, far) && far.Node? && Distinct(Plug(c, t))
    ensures Rot(c.s, Paint(Paint(Paint(Plug(c, t), e, c.color), c.elem, Black), far.elem, Black), c.elem) ==
            Plug(c.up, Mk(c.s, Mk(c.s, t, Black, c.elem, near), c.color, e, Blacken(far)))
  {
    hide Plug, Distinct, Paint, Rot;
    PaintSibling(c, t, c.color);
    PaintedDistinct(Plug(c, t), e, c.color);
    var c1 := c.(sib := Mk(c.s, near, c.color, e, far));
    PaintAbove(c1, t, Black);
    PaintedDistinct(Plug(c1, t), c.elem, Black);
    var c2 := c1.(color := Black);
    PaintNephew(c2, t, c.s.Opp(), far, c.color, e, near, Black);
    PaintedDistinct(Plug(c2, t), far.elem, Black);
    var c3 := c2.(sib := Mk(c.s, near, c.color, e, Blacken(far)));
    RotateTowards(c3, t, near, c.color, e, Blacken(far));
    PlugUp(In(In(c.up, c.s, c.color, e, Blacken(far)), c.s, Black, c.elem, near), t);
    PlugUp(In(c.up, c.s, c.color, e, Blacken(far)), Mk(c.s, t, Black, c.elem, near));
  }

  /** Nephews black: only the sibling changes, to red. */
  lemma RedSiblingUp(c: Ctx, t: Tree, near: Tree, wc: Color, e: Elm, far: Tree)
    requires c.In? && c.sib == Mk(c.s, near, wc, e, far) && Distinct(Plug(c, t))
    ensures Paint(Plug(c, t), e, Red) == Plug(c.up, Mk(c.s, t, c.color, c.elem, Mk(c.s, near, Red, e, far)))
  {
    PaintSibling(c, t, Red);
    PlugUp(c.(sib := Mk(c.s, near, Red, e, far)), t);
  }
}
