/**
 Red-black trees as values: trees of elements, contexts (a tree with a hole, from the hole up to the root), and the
 recolouring, rotation and renaming that the macros of sys/tree.h perform on the linked structure. Everything that has
 a mirror image is stated once, with the side as a parameter.
 */
module RbShape {
  import opened Elements

  datatype Side = L | R {
    function Opp(): Side { if L? then R else L }
  }

  /** What the four fields of one element hold. */
  datatype Cell = Cell(left: Elm?, right: Elm?, parent: Elm?, color: Color) {
    function Kid(s: Side): Elm? { if s.L? then left else right }
    function SetKid(s: Side, e: Elm?): Cell { if s.L? then this.(left := e) else this.(right := e) }
  }

  /** The red-black fields of one element. */
  function FieldsOf(e: Elm): Cell
    reads e
  {
    Cell(e.left, e.right, e.parent, e.color)
  }

  type Links = map<Elm, Cell>

  datatype Tree = Leaf | Node(left: Tree, color: Color, elem: Elm, right: Tree) {
    function Root(): Elm? { if Leaf? then null else elem }
    predicate IsRed() { Node? && color.Red? }
  }

  /** A node whose child on side s is `near` and whose other child is `far`. */
  function Mk(s: Side, near: Tree, c: Color, e: Elm, far: Tree): (t: Tree)
    ensures t.Node? && t.color == c && t.elem == e
  {
    if s.L? then Node(near, c, e, far) else Node(far, c, e, near)
  }

  /** A tree with a hole: the hole is the child on side s of e; sib is the other child. */
  datatype Ctx = Top | In(up: Ctx, s: Side, color: Color, elem: Elm, sib: Tree) {
    function Par(): Elm? { if Top? then null else elem }
    predicate IsRed() { In? && color.Red? }
    function Depth(): nat { if Top? then 0 else 1 + up.Depth() }
  }

  function Plug(c: Ctx, t: Tree): Tree {
    match c
    case Top => t
    case In(up, s, col, e, sib) => Plug(up, Mk(s, t, col, e, sib))
  }

  // ----- contents ------------------------------------------------------------------------------

  function InOrder(t: Tree): seq<Elm> {
    match t
    case Leaf => []
    case Node(l, _, e, r) => InOrder(l) + [e] + InOrder(r)
  }

  function Before(c: Ctx): seq<Elm> {
    match c
    case Top => []
    case In(up, s, _, e, sib) => if s.L? then Before(up) else Before(up) + InOrder(sib) + [e]
  }

  function After(c: Ctx): seq<Elm> {
    match c
    case Top => []
    case In(up, s, _, e, sib) => if s.L? then [e] + InOrder(sib) + After(up) else After(up)
  }

  lemma {:induction false} PlugInOrder(c: Ctx, t: Tree)
    ensures InOrder(Plug(c, t)) == Before(c) + InOrder(t) + After(c)
  {
    match c
    case Top =>
    case In(up, s, col, e, sib) =>
      PlugInOrder(up, Mk(s, t, col, e, sib));
      hide InOrder, Plug;
      var x, y, z := InOrder(t), [e], InOrder(sib);
      if s.L? {
        Regroup(Before(up), x, y, z, After(up));
      } else {
        Regroup(Before(up), z, y, x, After(up));
      }
  }

  lemma Regroup(a: seq<Elm>, x: seq<Elm>, y: seq<Elm>, z: seq<Elm>, b: seq<Elm>)
    ensures a + (x + y + z) + b == a + x + (y + z + b)
    ensures a + (x + y + z) + b == a + x + y + z + b
    ensures a + (x + y + z) + b == (a + x) + y + (z + b)
  {
  }

  ghost function Elems(t: Tree): set<Elm> {
    match t
    case Leaf => {}
    case Node(l, _, e, r) => Elems(l) + {e} + Elems(r)
  }

  ghost function CtxElems(c: Ctx): set<Elm> {
    match c
    case Top => {}
    case In(up, _, _, e, sib) => CtxElems(up) + {e} + Elems(sib)
  }

  lemma {:induction false} PlugElems(c: Ctx, t: Tree)
    ensures Elems(Plug(c, t)) == Elems(t) + CtxElems(c)
  {
    match c
    case Top =>
    case In(up, s, col, e, sib) => PlugElems(up, Mk(s, t, col, e, sib));
  }

  lemma {:induction false} ElemsInOrder(t: Tree, e: Elm)
    ensures e in Elems(t) <==> e in InOrder(t)
  {
    match t
    case Leaf =>
    case Node(l, _, _, r) =>
      ElemsInOrder(l, e);
      ElemsInOrder(r, e);
  }

  /** No element occurs twice. */
  ghost predicate Distinct(t: Tree) {
    match t
    case Leaf => true
    case Node(l, _, e, r) =>
      Distinct(l) && Distinct(r) && e !in Elems(l) && e !in Elems(r) && Elems(l) !! Elems(r)
  }

  ghost predicate CtxDistinct(c: Ctx) {
    match c
    case Top => true
    case In(up, _, _, e, sib) =>
      CtxDistinct(up) && Distinct(sib) && e !in Elems(sib) && e !in CtxElems(up) && Elems(sib) !! CtxElems(up)
  }

  lemma {:induction false} PlugDistinct(c: Ctx, t: Tree)
    ensures Distinct(Plug(c, t)) <==> Distinct(t) && CtxDistinct(c) && Elems(t) !! CtxElems(c)
  {
    match c
    case Top =>
    case In(up, s, col, e, sib) => PlugDistinct(up, Mk(s, t, col, e, sib));
  }

  /** Every element is the root of some subtree. */
  lemma {:induction false} Locate(t: Tree, e: Elm, c: Ctx) returns (c': Ctx, t': Tree)
    requires e in Elems(t)
    ensures Plug(c', t') == Plug(c, t) && t'.Root() == e
  {
    if t.elem == e {
      c', t' := c, t;
    } else if e in Elems(t.left) {
      c', t' := Locate(t.left, e, In(c, L, t.color, t.elem, t.right));
    } else {
      c', t' := Locate(t.right, e, In(c, R, t.color, t.elem, t.left));
    }
  }

  // ----- linking -------------------------------------------------------------------------------

  /** The fields recorded in m link up the tree t, whose root's parent is p. */
  ghost predicate Linked(t: Tree, p: Elm?, m: Links) {
    match t
    case Leaf => true
    case Node(l, c, e, r) =>
      e in m && m[e] == Cell(l.Root(), r.Root(), p, c) && Linked(l, e, m) && Linked(r, e, m)
  }

  /** The same for a context whose hole is occupied by a subtree with root h. */
  ghost predicate CtxLinked(c: Ctx, h: Elm?, m: Links) {
    match c
    case Top => true
    case In(up, s, col, e, sib) =>
      && e in m
      && m[e] == Cell(null, null, up.Par(), col).SetKid(s, h).SetKid(s.Opp(), sib.Root())
      && Linked(sib, e, m)
      && CtxLinked(up, e, m)
  }

  lemma {:induction false} PlugLinked(c: Ctx, t: Tree, m: Links)
    ensures Linked(Plug(c, t), null, m) <==> Linked(t, c.Par(), m) && CtxLinked(c, t.Root(), m)
  {
    match c
    case Top =>
    case In(up, s, col, e, sib) => PlugLinked(up, Mk(s, t, col, e, sib), m);
  }

  lemma {:induction false} LinkedFrame(t: Tree, p: Elm?, m: Links, m': Links)
    requires Linked(t, p, m)
    requires forall e :: e in Elems(t) ==> e in m && e in m' && m'[e] == m[e]
    ensures Linked(t, p, m')
  {
    match t
    case Leaf =>
    case Node(l, _, e, r) =>
      LinkedFrame(l, e, m, m');
      LinkedFrame(r, e, m, m');
  }

  lemma {:induction false} CtxLinkedFrame(c: Ctx, h: Elm?, m: Links, m': Links)
    requires CtxLinked(c, h, m)
    requires forall e :: e in CtxElems(c) ==> e in m && e in m' && m'[e] == m[e]
    ensures CtxLinked(c, h, m')
  {
    match c
    case Top =>
    case In(up, _, _, e, sib) =>
      LinkedFrame(sib, e, m, m');
      CtxLinkedFrame(up, e, m, m');
  }

  /** Moving a subtree: only its root's parent field changes. */
  lemma Reparent(t: Tree, p: Elm?, p': Elm?, m: Links, m': Links)
    requires Linked(t, p, m) && Distinct(t)
    requires t.Node? ==> t.elem in m' && m'[t.elem] == m[t.elem].(parent := p')
    requires forall e :: e in Elems(t) && e != t.Root() ==> e in m && e in m' && m'[e] == m[e]
    ensures Linked(t, p', m')
  {
    if t.Node? {
      LinkedFrame(t.left, t.elem, m, m');
      LinkedFrame(t.right, t.elem, m, m');
    }
  }

  /** Filling the hole with something else: only the child field next to the hole changes. */
  lemma Refill(c: Ctx, h: Elm?, h': Elm?, m: Links, m': Links)
    requires CtxLinked(c, h, m) && CtxDistinct(c)
    requires c.In? ==> c.elem in m' && m'[c.elem] == m[c.elem].SetKid(c.s, h')
    requires forall e :: e in CtxElems(c) && e != c.Par() ==> e in m && e in m' && m'[e] == m[e]
    ensures CtxLinked(c, h', m')
  {
    if c.In? {
      LinkedFrame(c.sib, c.elem, m, m');
      CtxLinkedFrame(c.up, c.elem, m, m');
    }
  }

  // ----- recolouring ---------------------------------------------------------------------------

  function Paint(t: Tree, x: Elm, col: Color): (r: Tree)
    ensures r.Root() == t.Root()
  {
    match t
    case Leaf => Leaf
    case Node(l, c, e, r) => Node(Paint(l, x, col), if e == x then col else c, e, Paint(r, x, col))
  }

  function CtxPaint(c: Ctx, x: Elm, col: Color): Ctx {
    match c
    case Top => Top
    case In(up, s, cc, e, sib) =>
      In(CtxPaint(up, x, col), s, if e == x then col else cc, e, Paint(sib, x, col))
  }

  lemma {:induction false} PaintPlug(c: Ctx, t: Tree, x: Elm, col: Color)
    ensures Paint(Plug(c, t), x, col) == Plug(CtxPaint(c, x, col), Paint(t, x, col))
  {
    match c
    case Top =>
    case In(up, s, cc, e, sib) => PaintPlug(up, Mk(s, t, cc, e, sib), x, col);
  }

  lemma {:induction false} PaintAbsent(t: Tree, x: Elm, col: Color)
    requires x !in Elems(t)
    ensures Paint(t, x, col) == t
  {
    match t
    case Leaf =>
    case Node(l, _, _, r) =>
      PaintAbsent(l, x, col);
      PaintAbsent(r, x, col);
  }

  lemma {:induction false} CtxPaintAbsent(c: Ctx, x: Elm, col: Color)
    requires x !in CtxElems(c)
    ensures CtxPaint(c, x, col) == c
  {
    match c
    case Top =>
    case In(up, _, _, _, sib) =>
      CtxPaintAbsent(up, x, col);
      PaintAbsent(sib, x, col);
  }

  lemma {:induction false} PaintFacts(t: Tree, x: Elm, col: Color)
    ensures InOrder(Paint(t, x, col)) == InOrder(t)
    ensures Elems(Paint(t, x, col)) == Elems(t)
    ensures Distinct(Paint(t, x, col)) <==> Distinct(t)
  {
    match t
    case Leaf =>
    case Node(l, _, _, r) =>
      PaintFacts(l, x, col);
      PaintFacts(r, x, col);
  }

  /** Painting the root of a subtree, or of the node around the hole, changes that one colour. */
  lemma PaintHere(c: Ctx, t: Tree, col: Color)
    requires t.Node? && Distinct(Plug(c, t))
    ensures Paint(Plug(c, t), t.elem, col) == Plug(c, t.(color := col))
  {
    PlugDistinct(c, t);
    PaintPlug(c, t, t.elem, col);
    CtxPaintAbsent(c, t.elem, col);
    PaintAbsent(t.left, t.elem, col);
    PaintAbsent(t.right, t.elem, col);
  }

  lemma PaintAbove(c: Ctx, t: Tree, col: Color)
    requires c.In? && Distinct(Plug(c, t))
    ensures Paint(Plug(c, t), c.elem, col) == Plug(c.(color := col), t)
  {
    PaintHere(c.up, Mk(c.s, t, c.color, c.elem, c.sib), col);
  }

  /** The hole seen from the other child of the node above it. */
  function Across(c: Ctx, t: Tree): Ctx
    requires c.In?
  {
    In(c.up, c.s.Opp(), c.color, c.elem, t)
  }

  lemma AcrossPlug(c: Ctx, t: Tree)
    requires c.In?
    ensures Plug(Across(c, t), c.sib) == Plug(c, t)
  {
  }

  lemma RotHere(s: Side, c: Ctx, t: Tree)
    requires t.Node? && Distinct(Plug(c, t))
    ensures Rot(s, Plug(c, t), t.elem) == Plug(c, Rot(s, t, t.elem))
  {
    PlugDistinct(c, t);
    RotPlug(s, c, t, t.elem);
  }

  /** Writing a colour field repaints that element of the tree. */
  lemma {:induction false} PaintLinked(t: Tree, p: Elm?, m: Links, x: Elm, col: Color)
    requires Linked(t, p, m) && x in m
    ensures Linked(Paint(t, x, col), p, m[x := m[x].(color := col)])
  {
    match t
    case Leaf =>
    case Node(l, _, e, r) =>
      PaintLinked(l, e, m, x, col);
      PaintLinked(r, e, m, x, col);
  }

  // ----- rotation ------------------------------------------------------------------------------

  /** Rotates x down to side s; its child on the other side takes its place. */
  function Rot(s: Side, t: Tree, x: Elm): Tree {
    match t
    case Leaf => Leaf
    case Node(l, c, e, r) =>
      if e != x then Node(Rot(s, l, x), c, e, Rot(s, r, x))
      else if s.L? && r.Node? then Node(Node(l, c, e, r.left), r.color, r.elem, r.right)
      else if s.R? && l.Node? then Node(l.left, l.color, l.elem, Node(l.right, c, e, r))
      else t
  }

  lemma {:induction false} RotAbsent(s: Side, t: Tree, x: Elm)
    requires x !in Elems(t)
    ensures Rot(s, t, x) == t
  {
    match t
    case Leaf =>
    case Node(l, _, _, r) =>
      RotAbsent(s, l, x);
      RotAbsent(s, r, x);
  }

  lemma {:induction false} RotPlug(s: Side, c: Ctx, t: Tree, x: Elm)
    requires x !in CtxElems(c)
    ensures Rot(s, Plug(c, t), x) == Plug(c, Rot(s, t, x))
  {
    match c
    case Top =>
    case In(up, cs, cc, e, sib) =>
      RotAbsent(s, sib, x);
      RotPlug(s, up, Mk(cs, t, cc, e, sib), x);
  }

  /** The rotated node, in terms of sides. */
  lemma RotAt(s: Side, a: Tree, cx: Color, x: Elm, b: Tree, cy: Color, y: Elm, d: Tree)
    ensures Rot(s, Mk(s, a, cx, x, Mk(s, b, cy, y, d)), x) == Mk(s, Mk(s, a, cx, x, b), cy, y, d)
  {
  }

  lemma {:induction false} RotFacts(s: Side, t: Tree, x: Elm)
    ensures InOrder(Rot(s, t, x)) == InOrder(t)
  {
    match t
    case Leaf =>
    case Node(l, c, e, r) =>
      RotFacts(s, l, x);
      RotFacts(s, r, x);
      if e == x && s.L? && r.Node? {
        Regroup(InOrder(l), [e], InOrder(r.left), [r.elem], InOrder(r.right));
      } else if e == x && s.R? && l.Node? {
        Regroup(InOrder(l.left), [l.elem], InOrder(l.right), [e], InOrder(r));
      }
  }

  lemma {:induction false} RotElems(s: Side, t: Tree, x: Elm)
    ensures Elems(Rot(s, t, x)) == Elems(t)
    ensures Distinct(t) ==> Distinct(Rot(s, t, x))
  {
    match t
    case Leaf =>
    case Node(l, c, e, r) =>
      if e != x {
        RotElems(s, l, x);
        RotElems(s, r, x);
      } else if Distinct(t) && s.L? && r.Node? {
        assert Distinct(r) && Elems(r) == Elems(r.left) + {r.elem} + Elems(r.right);
        assert Distinct(Node(l, c, e, r.left));
      } else if Distinct(t) && s.R? && l.Node? {
        assert Distinct(l) && Elems(l) == Elems(l.left) + {l.elem} + Elems(l.right);
        assert Distinct(Node(l.right, c, e, r));
      }
  }

  /** The field writes of a rotation at x, as the macro makes them. */
  ghost predicate RotWrites(s: Side, x: Elm, m: Links, m': Links)
    requires x in m && m[x].Kid(s.Opp()) != null
  {
    var y := m[x].Kid(s.Opp());
    && m'.Keys == m.Keys && y in m
    && var p, b := m[x].parent, m[y].Kid(s);
    && m'[x] == m[x].SetKid(s.Opp(), b).(parent := y)
    && m'[y] == m[y].SetKid(s, x).(parent := p)
    && (b != null ==> b in m && m'[b] == m[b].(parent := x))
    && (p != null ==> p in m && m'[p] == if m[p].left == x then m[p].(left := y) else m[p].(right := y))
    && forall e :: e in m && e != x && e != y && e != p && e != b ==> m'[e] == m[e]
  }

  /** The elements a rotation touches are all in the tree, and all different. */
  lemma RotPointers(s: Side, t: Tree, x: Elm, m: Links)
    requires Linked(t, null, m) && Distinct(t) && x in Elems(t)
    requires x in m && m[x].Kid(s.Opp()) != null
    ensures var y, p := m[x].Kid(s.Opp()), m[x].parent;
      && y in Elems(t) && y in m && y != x && p != x && p != y
      && (p != null ==> p in Elems(t))
      && var b := m[y].Kid(s); b != null ==> b in Elems(t) && b != x && b != y && b != p
  {
    var c, tx := Locate(t, x, Top);
    PlugLinked(c, tx, m);
    PlugDistinct(c, tx);
    PlugElems(c, tx);
    var ty := if s.L? then tx.right else tx.left;
    assert Distinct(ty) && Linked(ty, x, m);
    if c.In? {
      assert c.elem in CtxElems(c);
    }
  }

  /** The macro's writes rotate the linked tree. */
  lemma RotLinked(s: Side, t: Tree, x: Elm, m: Links, m': Links)
    requires Linked(t, null, m) && Distinct(t) && x in Elems(t)
    requires x in m && m[x].Kid(s.Opp()) != null && RotWrites(s, x, m, m')
    ensures Linked(Rot(s, t, x), null, m')
    ensures Rot(s, t, x).Root() == if m[x].parent == null then m[x].Kid(s.Opp()) else t.Root()
  {
    var c, tx := Locate(t, x, Top);
    PlugLinked(c, tx, m);
    PlugDistinct(c, tx);
    RotPlug(s, c, tx, x);
    RotLinkedHere(s, c, tx, m, m');
    PlugLinked(c, Rot(s, tx, x), m');
    PlugRoot(c, tx);
    PlugRoot(c, Rot(s, tx, x));
  }

  lemma {:induction false} PlugRoot(c: Ctx, t: Tree)
    ensures c.Top? ==> Plug(c, t).Root() == t.Root()
    ensures c.In? ==> Plug(c, t).Root() == Plug(c, Leaf).Root() != null
    ensures c.In? ==> Plug(c, t).Root() in CtxElems(c)
  {
    match c
    case Top =>
    case In(up, s, col, e, sib) =>
      if up.In? {
        PlugRoot(up, Mk(s, t, col, e, sib));
        PlugRoot(up, Mk(s, Leaf, col, e, sib));
      }
  }

  lemma RotLinkedHere(s: Side, c: Ctx, t: Tree, m: Links, m': Links)
    requires t.Node? && Linked(t, c.Par(), m) && CtxLinked(c, t.elem, m)
    requires Distinct(t) && CtxDistinct(c) && Elems(t) !! CtxElems(c)
    requires t.elem in m && m[t.elem].Kid(s.Opp()) != null && RotWrites(s, t.elem, m, m')
    ensures Linked(Rot(s, t, t.elem), c.Par(), m') && CtxLinked(c, Rot(s, t, t.elem).Root(), m')
  {
    LinkedElems(t, c.Par(), m);
    CtxLinkedElems(c, t.elem, m);
    ParentSide(c, t, m);
    var y := m[t.elem].Kid(s.Opp());
    Refill(c, t.elem, y, m, m');
    if s.L? {
      RotLeftLinked(c.Par(), t, m, m');
    } else {
      RotRightLinked(c.Par(), t, m, m');
    }
  }

  /** The macro's test finds the side of the hole. */
  lemma ParentSide(c: Ctx, t: Tree, m: Links)
    requires t.Node? && CtxLinked(c, t.elem, m) && Elems(t) !! CtxElems(c)
    ensures c.In? ==> c.elem in m && (m[c.elem].left == t.elem <==> c.s.L?)
  {
    if c.In? && c.sib.Node? {
      assert c.sib.elem in CtxElems(c);
    }
  }

  lemma RotLeftLinked(p: Elm?, t: Tree, m: Links, m': Links)
    requires t.Node? && t.right.Node? && Linked(t, p, m) && Distinct(t) && (p == null || p !in Elems(t))
    requires t.elem in m && m[t.elem].Kid(R) != null && RotWrites(L, t.elem, m, m')
    ensures Linked(Rot(L, t, t.elem), p, m')
  {
    LinkedElems(t, p, m);
    var b, d := t.right.left, t.right.right;
    LinkedFrame(t.left, t.elem, m, m');
    LinkedFrame(d, t.right.elem, m, m');
    Reparent(b, t.right.elem, t.elem, m, m');
  }

  lemma RotRightLinked(p: Elm?, t: Tree, m: Links, m': Links)
    requires t.Node? && t.left.Node? && Linked(t, p, m) && Distinct(t) && (p == null || p !in Elems(t))
    requires t.elem in m && m[t.elem].Kid(L) != null && RotWrites(R, t.elem, m, m')
    ensures Linked(Rot(R, t, t.elem), p, m')
  {
    LinkedElems(t, p, m);
    var b, d := t.left.right, t.left.left;
    LinkedFrame(t.right, t.elem, m, m');
    LinkedFrame(d, t.left.elem, m, m');
    Reparent(b, t.left.elem, t.elem, m, m');
  }

  lemma {:induction false} LinkedElems(t: Tree, p: Elm?, m: Links)
    requires Linked(t, p, m)
    ensures forall e :: e in Elems(t) ==> e in m
  {
    match t
    case Leaf =>
    case Node(l, _, e, r) =>
      LinkedElems(l, e, m);
      LinkedElems(r, e, m);
  }

  lemma {:induction false} CtxLinkedElems(c: Ctx, h: Elm?, m: Links)
    requires CtxLinked(c, h, m)
    ensures forall e :: e in CtxElems(c) ==> e in m
  {
    match c
    case Top =>
    case In(up, _, _, e, sib) =>
      LinkedElems(sib, e, m);
      CtxLinkedElems(up, e, m);
  }

  // ----- removal of a node ---------------------------------------------------------------------

  /** Each link of the structure has its partner. */
  lemma BackLinks(t: Tree, m: Links, e: Elm)
    requires Linked(t, null, m) && Distinct(t) && e in Elems(t)
    ensures e in m
    ensures m[e].left != null ==> m[e].left in Elems(t) && m[e].left in m && m[m[e].left].parent == e
    ensures m[e].right != null ==> m[e].right in Elems(t) && m[e].right in m && m[m[e].right].parent == e
    ensures m[e].left != null ==> m[e].left != m[e].right
    ensures m[e].parent != null ==> m[e].parent in Elems(t) && m[e].parent in m && m[e].parent != e
    ensures m[e].parent != null ==> m[m[e].parent].left == e || m[m[e].parent].right == e
    ensures m[e].parent == null <==> e == t.Root()
  {
    var c, te := Locate(t, e, Top);
    PlugLinked(c, te, m);
    PlugDistinct(c, te);
    PlugElems(c, te);
    PlugRoot(c, te);
  }

  /** The writes that replace the node x, which has at most one child, by that child. */
  ghost predicate SpliceWrites(x: Elm, child: Elm?, m: Links, m': Links)
    requires x in m
  {
    var p := m[x].parent;
    && m'.Keys == m.Keys
    && (child != null ==> child in m && m'[child] == m[child].(parent := p))
    && (p != null ==> p in m && m'[p] == if m[p].left == x then m[p].(left := child) else m[p].(right := child))
    && forall e :: e in m && e != child && e != p ==> m'[e] == m[e]
  }

  /** The node at the root of t has `child` as its only child. */
  ghost predicate OnlyChild(t: Tree, child: Tree) {
    t.Node? && ((t.left == Leaf && t.right == child) || (t.right == Leaf && t.left == child))
  }

  lemma SpliceElems(c: Ctx, t: Tree, child: Tree)
    requires OnlyChild(t, child) && Distinct(Plug(c, t))
    ensures Distinct(Plug(c, child)) && Elems(Plug(c, child)) == Elems(Plug(c, t)) - {t.elem}
  {
    PlugDistinct(c, t);
    PlugElems(c, t);
    PlugElems(c, child);
    PlugDistinct(c, child);
  }

  lemma SpliceLinked(c: Ctx, t: Tree, child: Tree, m: Links, m': Links)
    requires OnlyChild(t, child) && Linked(Plug(c, t), null, m) && Distinct(Plug(c, t)) && t.elem in m
    requires SpliceWrites(t.elem, child.Root(), m, m')
    ensures Linked(Plug(c, child), null, m')
  {
    PlugLinked(c, t, m);
    PlugDistinct(c, t);
    ParentSide(c, t, m);
    LinkedElems(t, c.Par(), m);
    CtxLinkedElems(c, t.elem, m);
    PlugLinked(c, child, m');
    hide Plug;
    assert Linked(child, t.elem, m) && Distinct(child) && m[t.elem].parent == c.Par();
    SpliceParts(c, t, child, m, m');
  }

  lemma SpliceParts(c: Ctx, t: Tree, child: Tree, m: Links, m': Links)
    requires OnlyChild(t, child) && Distinct(child) && CtxDistinct(c) && Elems(t) !! CtxElems(c)
    requires Linked(child, t.elem, m) && CtxLinked(c, t.elem, m) && t.elem in m && m[t.elem].parent == c.Par()
    requires (forall e :: e in Elems(t) ==> e in m) && (forall e :: e in CtxElems(c) ==> e in m)
    requires c.In? ==> (m[c.elem].left == t.elem <==> c.s.L?)
    requires SpliceWrites(t.elem, child.Root(), m, m')
    ensures Linked(child, c.Par(), m') && CtxLinked(c, child.Root(), m')
  {
    Reparent(child, t.elem, c.Par(), m, m');
    Refill(c, t.elem, child.Root(), m, m');
  }

  function Rename(t: Tree, z: Elm, y: Elm): Tree {
    match t
    case Leaf => Leaf
    case Node(l, c, e, r) => Node(Rename(l, z, y), c, if e == z then y else e, Rename(r, z, y))
  }

  function CtxRename(c: Ctx, z: Elm, y: Elm): Ctx {
    match c
    case Top => Top
    case In(up, s, col, e, sib) => In(CtxRename(up, z, y), s, col, if e == z then y else e, Rename(sib, z, y))
  }

  lemma {:induction false} RenamePlug(c: Ctx, t: Tree, z: Elm, y: Elm)
    ensures Rename(Plug(c, t), z, y) == Plug(CtxRename(c, z, y), Rename(t, z, y))
  {
    match c
    case Top =>
    case In(up, s, col, e, sib) => RenamePlug(up, Mk(s, t, col, e, sib), z, y);
  }

  lemma {:induction false} RenameAbsent(t: Tree, z: Elm, y: Elm)
    requires z !in Elems(t)
    ensures Rename(t, z, y) == t
  {
    match t
    case Leaf =>
    case Node(l, _, _, r) =>
      RenameAbsent(l, z, y);
      RenameAbsent(r, z, y);
  }

  lemma {:induction false} RenameElems(t: Tree, z: Elm, y: Elm)
    requires Distinct(t) && y !in Elems(t)
    ensures Elems(Rename(t, z, y)) == if z in Elems(t) then Elems(t) - {z} + {y} else Elems(t)
    ensures Distinct(Rename(t, z, y))
  {
    match t
    case Leaf =>
    case Node(l, _, _, r) =>
      RenameElems(l, z, y);
      RenameElems(r, z, y);
  }

  lemma {:induction false} RenameInOrder(t: Tree, z: Elm, y: Elm)
    ensures |InOrder(Rename(t, z, y))| == |InOrder(t)|
    ensures forall i :: 0 <= i < |InOrder(t)| ==> InOrder(Rename(t, z, y))[i] == Sub(InOrder(t)[i], z, y)
  {
    match t
    case Leaf =>
    case Node(l, _, _, r) =>
      RenameInOrder(l, z, y);
      RenameInOrder(r, z, y);
  }

  function Sub(p: Elm?, z: Elm, y: Elm): Elm? { if p == z then y else p }

  /** The writes that put y, with z's own fields, in z's place: only z's neighbours point to z. */
  ghost predicate RenameWrites(z: Elm, y: Elm, m: Links, m': Links)
    requires z in m
  {
    var p := m[z].parent;
    && m'.Keys == m.Keys && y in m
    && m'[y] == m[z]
    && (p != null ==> p in m && m'[p] == if m[p].left == z then m[p].(left := y) else m[p].(right := y))
    && (m[z].left != null ==> m[z].left in m && m'[m[z].left] == m[m[z].left].(parent := y))
    && (m[z].right != null ==> m[z].right in m && m'[m[z].right] == m[m[z].right].(parent := y))
    && forall e :: e in m && e != y && e != p && e != m[z].left && e != m[z].right ==> m'[e] == m[e]
  }

  ghost predicate Renamed(e: Elm, z: Elm, y: Elm, m: Links, m': Links) {
    && e in m
    && Sub(e, z, y) in m'
    && m'[Sub(e, z, y)] == Cell(Sub(m[e].left, z, y), Sub(m[e].right, z, y), Sub(m[e].parent, z, y), m[e].color)
  }

  lemma RenameLinked(t: Tree, m: Links, m': Links, z: Elm, y: Elm)
    requires Linked(t, null, m) && Distinct(t) && z in Elems(t) && y !in Elems(t)
    requires z in m && RenameWrites(z, y, m, m')
    ensures Linked(Rename(t, z, y), null, m')
  {
    BackLinks(t, m, z);
    forall e | e in Elems(t)
      ensures Renamed(e, z, y, m, m')
    {
      BackLinks(t, m, e);
    }
    RenameLinkedIn(t, null, m, m', z, y);
  }

  lemma {:induction false} RenameLinkedIn(t: Tree, p: Elm?, m: Links, m': Links, z: Elm, y: Elm)
    requires Linked(t, p, m)
    requires forall e :: e in Elems(t) ==> Renamed(e, z, y, m, m')
    ensures Linked(Rename(t, z, y), Sub(p, z, y), m')
  {
    match t
    case Leaf =>
    case Node(l, _, e, r) =>
      assert Renamed(e, z, y, m, m');
      RenameLinkedIn(l, e, m, m', z, y);
      RenameLinkedIn(r, e, m, m', z, y);
  }
}
