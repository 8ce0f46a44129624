/** What a search has established when it reaches a position in a red-black tree. */
module RbOrder {
  import opened Elements
  import opened RbShape
  import opened SearchOrder

  /** The search for key has reached the hole of c: everything outside it is on its proper side. */
  ghost predicate Between(cmp: Cmp, c: Ctx, key: int) {
    AllBelow(cmp, Before(c), key) && AllAbove(cmp, After(c), key)
  }

  /** One step of a search keeps the key between. */
  lemma Descend(cmp: Cmp, c: Ctx, t: Tree, key: int)
    requires Lawful(cmp) && t.Node? && Ordered(cmp, InOrder(Plug(c, t))) && Between(cmp, c, key)
    ensures cmp(key, t.elem.key) < 0 ==> Between(cmp, In(c, L, t.color, t.elem, t.right), key)
    ensures cmp(key, t.elem.key) > 0 ==> Between(cmp, In(c, R, t.color, t.elem, t.left), key)
  {
    hide Ordered, Lawful, Plug;
    PlugInOrder(c, t);
    OrderedParts(cmp, Before(c), InOrder(t), After(c));
    OrderedParts(cmp, InOrder(t.left), [t.elem], InOrder(t.right));
    if cmp(key, t.elem.key) < 0 {
      AboveAll(cmp, key, t.elem, InOrder(t.right));
    }
    if cmp(key, t.elem.key) > 0 {
      BelowAll(cmp, key, t.elem, InOrder(t.left));
    }
  }

  /** The key fits at the hole. */
  lemma InsertKeepsOrder(cmp: Cmp, c: Ctx, e: Elm)
    requires Lawful(cmp) && Ordered(cmp, InOrder(Plug(c, Leaf))) && Between(cmp, c, e.key)
    ensures InOrder(Plug(c, Node(Leaf, Red, e, Leaf))) == Before(c) + [e] + After(c)
    ensures InOrder(Plug(c, Leaf)) == Before(c) + After(c)
    ensures Ordered(cmp, Before(c) + [e] + After(c))
  {
    hide Ordered, Plug;
    PlugInOrder(c, Leaf);
    PlugInOrder(c, Node(Leaf, Red, e, Leaf));
    var a, b := Before(c), After(c);
    assert a + [] + b == a + b;
    OrderedConcat(cmp, a, b);
    OrderedSingle(cmp, e);
    OrderedParts(cmp, a, [e], b);
  }

  /** At the end of a search nothing outside the hole compares equal. */
  lemma NotFound(cmp: Cmp, c: Ctx, key: int)
    requires Between(cmp, c, key)
    ensures forall e :: e in Elems(Plug(c, Leaf)) ==> e in Before(c) || e in After(c)
    ensures forall e :: e in Elems(Plug(c, Leaf)) ==> cmp(key, e.key) != 0
  {
    PlugInOrder(c, Leaf);
    var s := InOrder(Plug(c, Leaf));
    assert s == Before(c) + After(c) by { assert InOrder(Leaf) == []; }
    hide Elems, InOrder, Plug, Before, After;
    forall e | e in Elems(Plug(c, Leaf))
      ensures e in Before(c) || e in After(c)
    {
      ElemsInOrder(Plug(c, Leaf), e);
    }
  }
}
