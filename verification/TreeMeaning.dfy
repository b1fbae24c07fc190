/** The local conditions on links, ranks and colours, read as statements about one recursive tree. */
module TreeMeaning {
  import opened Basics
  import opened TreeLinks
  import opened TreeColours
  import opened TreeEdits

  datatype Shape = Leaf | Branch(l: Shape, node: Ptr, red: bool, r: Shape)

  function Inorder(t: Shape): seq<Ptr>
  {
    match t
    case Leaf => []
    case Branch(l, n, _, r) => Inorder(l) + [n] + Inorder(r)
  }

  function Height(t: Shape): nat
  {
    match t
    case Leaf => 0
    case Branch(l, _, _, r) => 1 + if Height(l) < Height(r) then Height(r) else Height(l)
  }

  // Every path from t down to a leaf passes the same number h of black nodes.
  predicate EqualBlacks(t: Shape, h: int)
  {
    match t
    case Leaf => h == 0
    case Branch(l, _, red, r) =>
      var below := if red then h else h - 1;
      EqualBlacks(l, below) && EqualBlacks(r, below)
  }

  predicate RootRed(t: Shape) { t.Branch? && t.red }

  predicate NoRedPair(t: Shape)
  {
    match t
    case Leaf => true
    case Branch(l, _, red, r) => !(red && (RootRed(l) || RootRed(r))) && NoRedPair(l) && NoRedPair(r)
  }

  // The tree that the links below n spell out.
  ghost function TreeAt(g: Links, red: Colours, rk: Spans, nodes: set<Ptr>, top: Ptr, size: int, n: Ptr): Shape
    requires Linked(g, nodes, top) && Spanned(g, rk, nodes, top, size) && (n == NULL || n in nodes)
    decreases if n == NULL then 0 else assert SpanOk(g, rk, size, n); rk[n].hi - rk[n].lo
  {
    if n == NULL then Leaf else
      assert DownOk(g, nodes, n) && SpanOk(g, rk, size, n);
      assert g.left[n] != NULL ==> SpanOk(g, rk, size, g.left[n]);
      assert g.right[n] != NULL ==> SpanOk(g, rk, size, g.right[n]);
      Branch(TreeAt(g, red, rk, nodes, top, size, g.left[n]), n, IsRed(red, n),
             TreeAt(g, red, rk, nodes, top, size, g.right[n]))
  }

  // The nodes below n, read from left to right, are the stretch of the order that n spans.
  lemma {:induction false} SpelledInOrder(g: Links, red: Colours, rk: Spans, nodes: set<Ptr>, top: Ptr,
                                          order: seq<Ptr>, n: Ptr)
    requires Linked(g, nodes, top) && Spanned(g, rk, nodes, top, |order|) && Ranked(rk, nodes, order) && n in nodes
    ensures n in rk && 0 <= rk[n].lo <= rk[n].hi <= |order|
    ensures Inorder(TreeAt(g, red, rk, nodes, top, |order|, n)) == order[rk[n].lo..rk[n].hi]
    decreases assert SpanOk(g, rk, |order|, n); rk[n].hi - rk[n].lo
  {
    assert DownOk(g, nodes, n) && SpanOk(g, rk, |order|, n) && RankOk(rk, order, n);
    if g.left[n] != NULL {
      assert SpanOk(g, rk, |order|, g.left[n]);
      SpelledInOrder(g, red, rk, nodes, top, order, g.left[n]);
    }
    if g.right[n] != NULL {
      assert SpanOk(g, rk, |order|, g.right[n]);
      SpelledInOrder(g, red, rk, nodes, top, order, g.right[n]);
    }
    assert order[rk[n].lo..rk[n].hi] ==
           order[rk[n].lo..rk[n].pos] + [order[rk[n].pos]] + order[rk[n].pos + 1..rk[n].hi];
  }

  lemma {:induction false} SpelledRedBlack(g: Links, red: Colours, bh: Heights, rk: Spans, nodes: set<Ptr>, top: Ptr,
                                           size: int, n: Ptr)
    requires Linked(g, nodes, top) && Spanned(g, rk, nodes, top, size) && (n == NULL || n in nodes)
    requires Coloured(g, red, nodes, NULL, NULL) && Balanced(g, red, bh, nodes, NULL, true)
    ensures var t := TreeAt(g, red, rk, nodes, top, size, n); EqualBlacks(t, BH(bh, n)) && NoRedPair(t)
    decreases if n == NULL then 0 else assert SpanOk(g, rk, size, n); rk[n].hi - rk[n].lo
  {
    if n != NULL {
      assert DownOk(g, nodes, n) && SpanOk(g, rk, size, n);
      assert RedOk(g, red, n, NULL, NULL) && BalOk(g, red, bh, n, NULL, true);
      assert g.left[n] != NULL ==> SpanOk(g, rk, size, g.left[n]);
      assert g.right[n] != NULL ==> SpanOk(g, rk, size, g.right[n]);
      SpelledRedBlack(g, red, bh, rk, nodes, top, size, g.left[n]);
      SpelledRedBlack(g, red, bh, rk, nodes, top, size, g.right[n]);
    }
  }

  // A red-black tree is at most twice as high as its number of blacks, which is at most logarithmic in its size.
  lemma {:induction false} RedBlackHeight(t: Shape, h: nat)
    requires EqualBlacks(t, h) && NoRedPair(t)
    ensures Height(t) <= 2 * h + (if RootRed(t) then 1 else 0)
    ensures Pow2(h) <= |Inorder(t)| + 1
  {
    match t
    case Leaf =>
    case Branch(l, _, red, r) =>
      BlacksNotNegative(l, if red then h else h - 1);
      RedBlackHeight(l, if red then h else h - 1);
      RedBlackHeight(r, if red then h else h - 1);
  }

  lemma {:induction false} BlacksNotNegative(t: Shape, h: int)
    requires EqualBlacks(t, h)
    ensures h >= 0
  {
    match t
    case Leaf =>
    case Branch(l, _, red, _) => BlacksNotNegative(l, if red then h else h - 1);
  }
}
