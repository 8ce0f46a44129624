/**
 Top-down splaying on values. While the search walks down, the tree is in three parts: the middle tree that still holds
 the key's position, and two side trees being assembled, of everything found smaller (left) and larger (right).
 */
module SplayShape {
  import opened Elements
  import opened SearchOrder

  datatype STree = Leaf | Node(left: STree, elem: Elm, right: STree) {
    function Root(): Elm? { if Leaf? then null else elem }
  }

  /** The left side tree: its rightmost path, innermost element first, whose last right child is still open. */
  datatype LSide = LNil | LCons(up: LSide, left: STree, elem: Elm)

  /** The right side tree: its leftmost path, innermost element first, whose last left child is still open. */
  datatype RSide = RNil | RCons(up: RSide, elem: Elm, right: STree)

  function InOrder(t: STree): seq<Elm> {
    if t.Leaf? then [] else InOrder(t.left) + [t.elem] + InOrder(t.right)
  }

  function LOrder(f: LSide): seq<Elm> {
    if f.LNil? then [] else LOrder(f.up) + (InOrder(f.left) + [f.elem])
  }

  function ROrder(f: RSide): seq<Elm> {
    if f.RNil? then [] else ([f.elem] + InOrder(f.right)) + ROrder(f.up)
  }

  /** The side trees with their open ends closed by x. */
  function LBuild(f: LSide, x: STree): STree {
    if f.LNil? then x else LBuild(f.up, Node(f.left, f.elem, x))
  }

  function RBuild(f: RSide, x: STree): STree {
    if f.RNil? then x else RBuild(f.up, Node(x, f.elem, f.right))
  }

  lemma {:induction false} LBuildOrder(f: LSide, x: STree)
    ensures InOrder(LBuild(f, x)) == LOrder(f) + InOrder(x)
  {
    if f.LCons? {
      LBuildOrder(f.up, Node(f.left, f.elem, x));
      Assoc(LOrder(f.up), InOrder(f.left) + [f.elem], InOrder(x));
    }
  }

  lemma {:induction false} RBuildOrder(f: RSide, x: STree)
    ensures InOrder(RBuild(f, x)) == InOrder(x) + ROrder(f)
  {
    if f.RCons? {
      RBuildOrder(f.up, Node(x, f.elem, f.right));
      Assoc(InOrder(x), [f.elem], InOrder(f.right));
      Assoc(InOrder(x), [f.elem] + InOrder(f.right), ROrder(f.up));
    }
  }

  lemma Assoc(a: seq<Elm>, b: seq<Elm>, c: seq<Elm>)
    ensures a + b + c == a + (b + c)
  {
  }

  // ----- elements ------------------------------------------------------------------------------

  ghost function Elems(t: STree): set<Elm> {
    if t.Leaf? then {} else Elems(t.left) + {t.elem} + Elems(t.right)
  }

  ghost function LElems(f: LSide): set<Elm> {
    if f.LNil? then {} else LElems(f.up) + Elems(f.left) + {f.elem}
  }

  ghost function RElems(f: RSide): set<Elm> {
    if f.RNil? then {} else RElems(f.up) + Elems(f.right) + {f.elem}
  }

  ghost predicate Distinct(t: STree) {
    t.Node? ==>
      Distinct(t.left) && Distinct(t.right) && t.elem !in Elems(t.left) && t.elem !in Elems(t.right) && Elems(t.left) !! Elems(t.right)
  }

  ghost predicate LDistinct(f: LSide) {
    f.LCons? ==>
      LDistinct(f.up) && Distinct(f.left) && f.elem !in Elems(f.left) && f.elem !in LElems(f.up) && Elems(f.left) !! LElems(f.up)
  }

  ghost predicate RDistinct(f: RSide) {
    f.RCons? ==>
      RDistinct(f.up) && Distinct(f.right) && f.elem !in Elems(f.right) && f.elem !in RElems(f.up) && Elems(f.right) !! RElems(f.up)
  }

  lemma {:induction false} LBuildDistinct(f: LSide, x: STree)
    requires LDistinct(f) && Distinct(x) && Elems(x) !! LElems(f)
    ensures Distinct(LBuild(f, x)) && Elems(LBuild(f, x)) == Elems(x) + LElems(f)
  {
    if f.LCons? {
      LBuildDistinct(f.up, Node(f.left, f.elem, x));
    }
  }

  lemma {:induction false} RBuildDistinct(f: RSide, x: STree)
    requires RDistinct(f) && Distinct(x) && Elems(x) !! RElems(f)
    ensures Distinct(RBuild(f, x)) && Elems(RBuild(f, x)) == Elems(x) + RElems(f)
  {
    if f.RCons? {
      RBuildDistinct(f.up, Node(x, f.elem, f.right));
    }
  }

  lemma {:induction false} ElemsInOrder(t: STree, e: Elm)
    ensures e in Elems(t) <==> e in InOrder(t)
  {
    if t.Node? {
      ElemsInOrder(t.left, e);
      ElemsInOrder(t.right, e);
    }
  }

  // ----- links ---------------------------------------------------------------------------------

  datatype Cell = Cell(left: Elm?, right: Elm?)

  type Links = map<Elm, Cell>

  ghost predicate Linked(t: STree, m: Links) {
    t.Node? ==>
      t.elem in m && m[t.elem] == Cell(t.left.Root(), t.right.Root()) && Linked(t.left, m) && Linked(t.right, m)
  }

  /** The element whose open child field continues the side tree: the header h when it is empty. */
  function LTip(f: LSide, h: Elm): Elm { if f.LNil? then h else f.elem }

  function RTip(f: RSide, h: Elm): Elm { if f.RNil? then h else f.elem }

  /** The side tree hangs off the header's right field; the open end may hold anything. */
  ghost predicate LLinked(f: LSide, h: Elm, m: Links) {
    f.LCons? ==>
      && f.elem in m && m[f.elem].left == f.left.Root() && Linked(f.left, m)
      && LTip(f.up, h) in m && m[LTip(f.up, h)].right == f.elem
      && LLinked(f.up, h, m)
  }

  /** The side tree hangs off the header's left field. */
  ghost predicate RLinked(f: RSide, h: Elm, m: Links) {
    f.RCons? ==>
      && f.elem in m && m[f.elem].right == f.right.Root() && Linked(f.right, m)
      && RTip(f.up, h) in m && m[RTip(f.up, h)].left == f.elem
      && RLinked(f.up, h, m)
  }

  lemma {:induction false} LinkedFrame(t: STree, m: Links, m': Links)
    requires Linked(t, m) && forall e :: e in Elems(t) ==> e in m && e in m' && m'[e] == m[e]
    ensures Linked(t, m')
  {
    if t.Node? {
      LinkedFrame(t.left, m, m');
      LinkedFrame(t.right, m, m');
    }
  }

  lemma {:induction false} LinkedElems(t: STree, m: Links)
    requires Linked(t, m)
    ensures forall e :: e in Elems(t) ==> e in m
  {
    if t.Node? {
      LinkedElems(t.left, m);
      LinkedElems(t.right, m);
    }
  }

  /** The fields that a left side tree depends on. */
  ghost predicate LSame(f: LSide, h: Elm, m: Links, m': Links) {
    && (f.LCons? ==> h in m && h in m' && m'[h].right == m[h].right)
    && (forall e :: e in LElems(f) ==> e in m && e in m' && m'[e].left == m[e].left)
    && (forall e :: e in LElems(f) && e != LTip(f, h) ==> m'[e] == m[e])
  }

  ghost predicate RSame(f: RSide, h: Elm, m: Links, m': Links) {
    && (f.RCons? ==> h in m && h in m' && m'[h].left == m[h].left)
    && (forall e :: e in RElems(f) ==> e in m && e in m' && m'[e].right == m[e].right)
    && (forall e :: e in RElems(f) && e != RTip(f, h) ==> m'[e] == m[e])
  }

  lemma {:induction false} LLinkedFrame(f: LSide, h: Elm, m: Links, m': Links)
    requires LLinked(f, h, m) && LDistinct(f) && LSame(f, h, m, m')
    ensures LLinked(f, h, m')
  {
    if f.LCons? {
      LinkedFrame(f.left, m, m');
      LLinkedFrame(f.up, h, m, m');
    }
  }

  lemma {:induction false} RLinkedFrame(f: RSide, h: Elm, m: Links, m': Links)
    requires RLinked(f, h, m) && RDistinct(f) && RSame(f, h, m, m')
    ensures RLinked(f, h, m')
  {
    if f.RCons? {
      LinkedFrame(f.right, m, m');
      RLinkedFrame(f.up, h, m, m');
    }
  }

  /** Closing the open end links up the whole side tree. */
  lemma {:induction false} LClose(f: LSide, x: STree, h: Elm, m: Links)
    requires LLinked(f, h, m) && Linked(x, m) && LTip(f, h) in m && m[LTip(f, h)].right == x.Root()
    ensures Linked(LBuild(f, x), m) && h in m && m[h].right == LBuild(f, x).Root()
  {
    if f.LCons? {
      LClose(f.up, Node(f.left, f.elem, x), h, m);
    }
  }

  lemma {:induction false} RClose(f: RSide, x: STree, h: Elm, m: Links)
    requires RLinked(f, h, m) && Linked(x, m) && RTip(f, h) in m && m[RTip(f, h)].left == x.Root()
    ensures Linked(RBuild(f, x), m) && h in m && m[h].left == RBuild(f, x).Root()
  {
    if f.RCons? {
      RClose(f.up, Node(x, f.elem, f.right), h, m);
    }
  }

  // ----- one state of the walk -------------------------------------------------------------------

  /** The three parts have no element in common with each other or with the header. */
  ghost predicate Apart(f: LSide, t: STree, g: RSide, h: Elm) {
    && Distinct(t) && LDistinct(f) && RDistinct(g)
    && Elems(t) !! LElems(f) && Elems(t) !! RElems(g) && LElems(f) !! RElems(g)
    && h !in Elems(t) && h !in LElems(f) && h !in RElems(g)
  }

  ghost predicate Walk(f: LSide, t: STree, g: RSide, h: Elm, m: Links) {
    Apart(f, t, g, h) && h in m && Linked(t, m) && LLinked(f, h, m) && RLinked(g, h, m)
  }

  /** What the walk has established about the order: the side trees lie on their sides of the key. */
  ghost predicate Split(cmp: Cmp, f: LSide, g: RSide, key: int) {
    AllBelow(cmp, LOrder(f), key) && AllAbove(cmp, ROrder(g), key)
  }

  function Size(t: STree): nat {
    if t.Leaf? then 0 else 1 + Size(t.left) + Size(t.right)
  }

  /** All elements of the walk, in order. */
  function WalkOrder(f: LSide, t: STree, g: RSide): seq<Elm> {
    LOrder(f) + InOrder(t) + ROrder(g)
  }

  ghost function WalkElems(f: LSide, t: STree, g: RSide): set<Elm> {
    LElems(f) + Elems(t) + RElems(g)
  }

  /** The tree that SPLAY_ASSEMBLE leaves. */
  function Assembled(f: LSide, t: STree, g: RSide): STree
    requires t.Node?
  {
    Node(LBuild(f, t.left), t.elem, RBuild(g, t.right))
  }

  // ----- steps -----------------------------------------------------------------------------------

  /** SPLAY_ROTATE_RIGHT at the root of the middle tree. */
  lemma RotateRightStep(f: LSide, t: STree, g: RSide, h: Elm, m: Links)
    requires Walk(f, t, g, h, m) && t.Node? && t.left.Node?
    ensures var x, y := t.elem, t.left.elem;
      && x != y && x in m && y in m
      && Walk(f, Node(t.left.left, y, Node(t.left.right, x, t.right)), g, h,
              m[x := Cell(m[y].right, m[x].right)][y := Cell(m[y].left, x)])
  {
    var x, y := t.elem, t.left.elem;
    LinkedElems(t, m);
    assert Distinct(t.left) && Linked(t.left, m);
    var m' := m[x := Cell(m[y].right, m[x].right)][y := Cell(m[y].left, x)];
    LinkedFrame(t.left.left, m, m');
    LinkedFrame(t.left.right, m, m');
    LinkedFrame(t.right, m, m');
    SidesKeep(f, t, g, h, m, m');
  }

  /** SPLAY_ROTATE_LEFT at the root of the middle tree. */
  lemma RotateLeftStep(f: LSide, t: STree, g: RSide, h: Elm, m: Links)
    requires Walk(f, t, g, h, m) && t.Node? && t.right.Node?
    ensures var x, y := t.elem, t.right.elem;
      && x != y && x in m && y in m
      && Walk(f, Node(Node(t.left, x, t.right.left), y, t.right.right), g, h,
              m[x := Cell(m[x].left, m[y].left)][y := Cell(x, m[y].right)])
  {
    var x, y := t.elem, t.right.elem;
    LinkedElems(t, m);
    assert Distinct(t.right) && Linked(t.right, m);
    var m' := m[x := Cell(m[x].left, m[y].left)][y := Cell(x, m[y].right)];
    LinkedFrame(t.left, m, m');
    LinkedFrame(t.right.left, m, m');
    LinkedFrame(t.right.right, m, m');
    SidesKeep(f, t, g, h, m, m');
  }

  /** Writes inside the middle tree leave the side trees alone. */
  lemma SidesKeep(f: LSide, t: STree, g: RSide, h: Elm, m: Links, m': Links)
    requires Walk(f, t, g, h, m) && m'.Keys == m.Keys
    requires forall e :: e in m && e !in Elems(t) ==> m'[e] == m[e]
    ensures h in m' && LLinked(f, h, m') && RLinked(g, h, m')
  {
    LLinkedElems(f, h, m);
    RLinkedElems(g, h, m);
    LLinkedFrame(f, h, m, m');
    RLinkedFrame(g, h, m, m');
  }

  lemma {:induction false} LLinkedElems(f: LSide, h: Elm, m: Links)
    requires LLinked(f, h, m)
    ensures forall e :: e in LElems(f) ==> e in m
  {
    if f.LCons? {
      LinkedElems(f.left, m);
      LLinkedElems(f.up, h, m);
    }
  }

  lemma {:induction false} RLinkedElems(f: RSide, h: Elm, m: Links)
    requires RLinked(f, h, m)
    ensures forall e :: e in RElems(f) ==> e in m
  {
    if f.RCons? {
      LinkedElems(f.right, m);
      RLinkedElems(f.up, h, m);
    }
  }

  /** SPLAY_LINKLEFT: the root and its right subtree join the right side tree. */
  lemma LinkLeftStep(f: LSide, t: STree, g: RSide, h: Elm, m: Links)
    requires Walk(f, t, g, h, m) && t.Node?
    ensures RTip(g, h) in m
    ensures Walk(f, t.left, RCons(g, t.elem, t.right), h, m[RTip(g, h) := m[RTip(g, h)].(left := t.elem)])
  {
    var tip := RTip(g, h);
    LinkedElems(t, m);
    LLinkedElems(f, h, m);
    RLinkedElems(g, h, m);
    var m' := m[tip := m[tip].(left := t.elem)];
    LinkedFrame(t, m, m');
    LLinkedFrame(f, h, m, m');
    RLinkedFrame(g, h, m, m');
  }

  /** SPLAY_LINKRIGHT: the root and its left subtree join the left side tree. */
  lemma LinkRightStep(f: LSide, t: STree, g: RSide, h: Elm, m: Links)
    requires Walk(f, t, g, h, m) && t.Node?
    ensures LTip(f, h) in m
    ensures Walk(LCons(f, t.left, t.elem), t.right, g, h, m[LTip(f, h) := m[LTip(f, h)].(right := t.elem)])
  {
    var tip := LTip(f, h);
    LinkedElems(t, m);
    LLinkedElems(f, h, m);
    RLinkedElems(g, h, m);
    var m' := m[tip := m[tip].(right := t.elem)];
    LinkedFrame(t, m, m');
    LLinkedFrame(f, h, m, m');
    RLinkedFrame(g, h, m, m');
  }

  /** The first two writes of SPLAY_ASSEMBLE: the children of the root close the side trees. */
  function CloseWrites(f: LSide, t: STree, g: RSide, h: Elm, m: Links): Links
    requires t.Node? && t.elem in m && LTip(f, h) in m && RTip(g, h) in m
  {
    var m1 := m[LTip(f, h) := m[LTip(f, h)].(right := m[t.elem].left)];
    m1[RTip(g, h) := m1[RTip(g, h)].(left := m1[t.elem].right)]
  }

  lemma CloseStep(f: LSide, t: STree, g: RSide, h: Elm, m: Links)
    requires Walk(f, t, g, h, m) && t.Node?
    ensures t.elem in m && LTip(f, h) in m && RTip(g, h) in m && h in m
    ensures var m' := CloseWrites(f, t, g, h, m);
      && Linked(LBuild(f, t.left), m') && Linked(RBuild(g, t.right), m')
      && m'[h].right == LBuild(f, t.left).Root() && m'[h].left == RBuild(g, t.right).Root()
  {
    LinkedElems(t, m);
    LLinkedElems(f, h, m);
    RLinkedElems(g, h, m);
    var m' := CloseWrites(f, t, g, h, m);
    LinkedFrame(t.left, m, m');
    LinkedFrame(t.right, m, m');
    LLinkedFrame(f, h, m, m');
    RLinkedFrame(g, h, m, m');
    LClose(f, t.left, h, m');
    RClose(g, t.right, h, m');
  }

  /** The four writes of SPLAY_ASSEMBLE, in order. */
  function AssembleWrites(f: LSide, t: STree, g: RSide, h: Elm, m: Links): Links
    requires t.Node? && t.elem in m && LTip(f, h) in m && RTip(g, h) in m && h in m
  {
    var m2 := CloseWrites(f, t, g, h, m);
    var m3 := m2[t.elem := m2[t.elem].(left := m2[h].right)];
    m3[t.elem := m3[t.elem].(right := m3[h].left)]
  }

  /** Assembling puts the three parts together under the root of the middle tree. */
  lemma AssembleStep(f: LSide, t: STree, g: RSide, h: Elm, m: Links)
    requires Walk(f, t, g, h, m) && t.Node?
    ensures t.elem in m && LTip(f, h) in m && RTip(g, h) in m && h in m
    ensures Linked(Assembled(f, t, g), AssembleWrites(f, t, g, h, m))
    ensures Distinct(Assembled(f, t, g)) && Elems(Assembled(f, t, g)) == WalkElems(f, t, g)
  {
    CloseStep(f, t, g, h, m);
    LBuildDistinct(f, t.left);
    RBuildDistinct(g, t.right);
    var m2, m' := CloseWrites(f, t, g, h, m), AssembleWrites(f, t, g, h, m);
    hide CloseWrites, LLinked, RLinked, LDistinct, RDistinct, LBuild, RBuild;
    LinkedElems(LBuild(f, t.left), m2);
    LinkedElems(RBuild(g, t.right), m2);
    LinkedFrame(LBuild(f, t.left), m2, m');
    LinkedFrame(RBuild(g, t.right), m2, m');
  }

  // ----- order -----------------------------------------------------------------------------------

  lemma AssembledOrder(f: LSide, t: STree, g: RSide)
    requires t.Node?
    ensures InOrder(Assembled(f, t, g)) == WalkOrder(f, t, g)
  {
    LBuildOrder(f, t.left);
    RBuildOrder(g, t.right);
    Assoc(LOrder(f), InOrder(t.left), [t.elem]);
    Assoc(LOrder(f) + (InOrder(t.left) + [t.elem]), InOrder(t.right), ROrder(g));
    Assoc(LOrder(f), InOrder(t.left) + [t.elem], InOrder(t.right));
  }

  lemma RotateOrder(a: STree, y: Elm, b: STree, x: Elm, d: STree)
    ensures InOrder(Node(Node(a, y, b), x, d)) == InOrder(Node(a, y, Node(b, x, d)))
  {
    assert InOrder(Node(a, y, b)) == InOrder(a) + [y] + InOrder(b);
    assert InOrder(Node(b, x, d)) == InOrder(b) + [x] + InOrder(d);
  }

  lemma LinkOrder(f: LSide, t: STree, g: RSide)
    requires t.Node?
    ensures WalkOrder(f, t.left, RCons(g, t.elem, t.right)) == WalkOrder(f, t, g)
    ensures WalkOrder(LCons(f, t.left, t.elem), t.right, g) == WalkOrder(f, t, g)
  {
    var a, l, e, r, b := LOrder(f), InOrder(t.left), [t.elem], InOrder(t.right), ROrder(g);
    LinkSeqs(a, l, e, r, b);
  }

  lemma LinkSeqs(a: seq<Elm>, l: seq<Elm>, e: seq<Elm>, r: seq<Elm>, b: seq<Elm>)
    ensures a + l + ((e + r) + b) == a + (l + e + r) + b
    ensures (a + (l + e)) + r + b == a + (l + e + r) + b
  {
  }

  /** The root and the subtree that a link step moves lie on the proper side of the key. */
  lemma LinkSplit(cmp: Cmp, f: LSide, t: STree, g: RSide, key: int)
    requires Lawful(cmp) && t.Node? && Ordered(cmp, WalkOrder(f, t, g)) && Split(cmp, f, g, key)
    ensures cmp(key, t.elem.key) < 0 ==> Split(cmp, f, RCons(g, t.elem, t.right), key)
    ensures cmp(key, t.elem.key) > 0 ==> Split(cmp, LCons(f, t.left, t.elem), g, key)
    ensures cmp(key, t.elem.key) < 0 ==> AllAbove(cmp, InOrder(t.right), key)
    ensures cmp(key, t.elem.key) > 0 ==> AllBelow(cmp, InOrder(t.left), key)
    ensures cmp(key, t.elem.key) == 0 ==> AllAbove(cmp, InOrder(t.right), key) && AllBelow(cmp, InOrder(t.left), key)
  {
    hide Lawful, Ordered;
    OrderedParts(cmp, LOrder(f), InOrder(t), ROrder(g));
    OrderedParts(cmp, InOrder(t.left), [t.elem], InOrder(t.right));
    if cmp(key, t.elem.key) < 0 {
      AboveAll(cmp, key, t.elem, InOrder(t.right));
    } else if cmp(key, t.elem.key) > 0 {
      BelowAll(cmp, key, t.elem, InOrder(t.left));
    } else {
      EqualSplit(cmp, key, InOrder(t.left), t.elem, InOrder(t.right));
    }
  }

  lemma EqualSplit(cmp: Cmp, key: int, l: seq<Elm>, e: Elm, r: seq<Elm>)
    requires Lawful(cmp) && cmp(key, e.key) == 0 && Separated(cmp, l, [e]) && Separated(cmp, [e], r)
    ensures AllBelow(cmp, l, key) && AllAbove(cmp, r, key)
  {
    forall x | x in l
      ensures cmp(key, x.key) > 0
    {
      assert cmp(x.key, e.key) < 0;
      assert cmp(e.key, key) <= 0;
      LessTransitive(cmp, x.key, e.key, key);
    }
    forall x | x in r
      ensures cmp(key, x.key) < 0
    {
      assert cmp(e.key, x.key) < 0;
      LessTransitive(cmp, key, e.key, x.key);
    }
  }

  /** What splaying achieves: the root's left subtree lies below the key and its right subtree above. */
  ghost predicate Splayed(cmp: Cmp, t: STree, key: int) {
    t.Node? && AllBelow(cmp, InOrder(t.left), key) && AllAbove(cmp, InOrder(t.right), key)
  }

  /** The walk ends at the key, or where the next step would leave the tree. */
  ghost predicate AtEnd(cmp: Cmp, t: STree, key: int) {
    && t.Node?
    && (cmp(key, t.elem.key) < 0 ==> t.left.Leaf?)
    && (cmp(key, t.elem.key) > 0 ==> t.right.Leaf?)
  }

  lemma EndIsSplayed(cmp: Cmp, f: LSide, t: STree, g: RSide, key: int)
    requires Lawful(cmp) && AtEnd(cmp, t, key) && Ordered(cmp, WalkOrder(f, t, g)) && Split(cmp, f, g, key)
    ensures Splayed(cmp, Assembled(f, t, g), key)
  {
    LinkSplit(cmp, f, t, g, key);
    LBuildOrder(f, t.left);
    RBuildOrder(g, t.right);
    assert t.left.Leaf? ==> InOrder(t.left) == [];
    assert t.right.Leaf? ==> InOrder(t.right) == [];
  }
}
