/** Which insertions into a red-black tree leave the new node with children: those that its fixup turns inwards. */
module TreeTurns {
  import opened TreeLinks
  import opened TreeColours
  import opened TreeEdits

  predicate Childless(g: Links, n: Ptr)
  {
    n in g.left && n in g.right && g.left[n] == NULL && g.right[n] == NULL
  }

  // The node at is the right child of a red left child p, whose sibling is not red.
  predicate InsideLeft(g: Links, red: Colours, at: Ptr, p: Ptr, gp: Ptr)
  {
    && p != NULL && gp != NULL && p in g.right && gp in g.left && gp in g.right
    && IsRed(red, p) && g.left[gp] == p && g.right[p] == at && !IsRed(red, g.right[gp])
  }

  predicate Inside(g: Links, red: Colours, at: Ptr)
  {
    && at in g.parent && g.parent[at] in g.parent
    && var p := g.parent[at];
    && var gp := g.parent[p];
    && (InsideLeft(g, red, at, p, gp) || InsideLeft(Mirror(g), red, at, p, gp))
  }

  // What the last turns of an insertion fixup do to the links, where the parent is a left child.
  function TurnedIn(g: Links, at: Ptr, p: Ptr): Links
    requires p in g.right && p in g.parent && at in g.left && (g.parent[p] != NULL ==> g.parent[p] in g.left)
  {
    if g.right[p] == at then Rotated(g, p) else g
  }

  function Turned(g: Links, at: Ptr, p: Ptr, gp: Ptr): Links
    requires p in g.right && p in g.parent && at in g.left && (g.parent[p] != NULL ==> g.parent[p] in g.left)
    requires var g' := TurnedIn(g, at, p);
      && gp in g'.left && gp in g'.parent && g'.left[gp] in g'.right
      && (g'.parent[gp] != NULL ==> g'.parent[gp] in g'.right)
  {
    Mirror(Rotated(Mirror(TurnedIn(g, at, p)), gp))
  }

  // The node at is red below a red left child p whose sibling is not red.
  ghost predicate CanTurn(g: Links, red: Colours, nodes: set<Ptr>, top: Ptr, at: Ptr, p: Ptr, gp: Ptr)
  {
    && RedPair(g, red, nodes, top, at, p, gp) && g.left[gp] == p && !IsRed(red, g.right[gp])
    && (g.left[p] == at || g.right[p] == at) && DownOk(g, nodes, p) && DownOk(g, nodes, gp) && DownOk(g, nodes, at)
    && UpOk(g, nodes, top, gp)
  }

  // A subtree of black height 0 has no black node at its top.
  lemma NoBlackBelow(g: Links, red: Colours, bh: Heights, nodes: set<Ptr>, top: Ptr, n: Ptr)
    requires Linked(g, nodes, top) && Balanced(g, red, bh, nodes, NULL, true)
    requires n == NULL || n in nodes
    ensures BH(bh, n) >= 0 && (n != NULL && BH(bh, n) == 0 ==> IsRed(red, n) && BH(bh, g.left[n]) == 0)
  {
    if n != NULL {
      assert BalOk(g, red, bh, n, NULL, true) && DownOk(g, nodes, n);
      if g.left[n] != NULL { assert BalOk(g, red, bh, g.left[n], NULL, true); }
    }
  }

  // A childless node turned inwards ends up above its old parent and grandparent, which then have no children.
  lemma TurnedInside(g: Links, red: Colours, bh: Heights, nodes: set<Ptr>, top: Ptr, at: Ptr, p: Ptr, gp: Ptr)
    requires CanTurn(g, red, nodes, top, at, p, gp) && g.right[p] == at && Childless(g, at)
    requires Coloured(g, red, nodes, NULL, at) && Balanced(g, red, bh, nodes, NULL, true)
    ensures g.left[p] == NULL && g.right[gp] == NULL
    ensures var t := Turned(g, at, p, gp);
      at in t.left && at in t.right && t.left[at] == p && t.right[at] == gp && Childless(t, p) && Childless(t, gp)
  {
    assert BalOk(g, red, bh, at, NULL, true) && BalOk(g, red, bh, p, NULL, true) && BalOk(g, red, bh, gp, NULL, true);
    assert RedOk(g, red, p, NULL, at);
    NoBlackBelow(g, red, bh, nodes, top, g.left[p]);
    NoBlackBelow(g, red, bh, nodes, top, g.right[gp]);
  }

  // Turns keep a node childless, unless it is the lower node of the pair and turns inwards.
  lemma TurnedAside(g: Links, red: Colours, nodes: set<Ptr>, top: Ptr, at: Ptr, p: Ptr, gp: Ptr, n: Ptr)
    requires CanTurn(g, red, nodes, top, at, p, gp) && n in nodes && Childless(g, n)
    requires if n == at then g.left[p] == at else !Childless(g, at)
    ensures Childless(Turned(g, at, p, gp), n)
  {
    var q := g.parent[gp];
    assert n != p && n != gp && n != q;
  }

  // The node below which a node that is turned inwards was first, in the order.
  function Lowered(g: Links, at: Ptr): Ptr
    requires at in g.parent && g.parent[at] in g.right && g.parent[at] in g.parent
  {
    var p := g.parent[at];
    if g.right[p] == at then p else g.parent[p]
  }

  // What a childless node n finds below it in links t after the turns at a node at.
  ghost predicate Settled(g: Links, red: Colours, t: Links, at: Ptr, n: Ptr)
  {
    if n == at && Inside(g, red, at) then
      && g.parent[at] in g.right && n in t.left
      && t.left[n] == Lowered(g, at) && t.left[n] != NULL && Childless(t, t.left[n])
    else
      Childless(t, n)
  }

  lemma TurnedSettled(g: Links, red: Colours, bh: Heights, nodes: set<Ptr>, top: Ptr, at: Ptr, p: Ptr, gp: Ptr, n: Ptr)
    requires CanTurn(g, red, nodes, top, at, p, gp) && n in nodes && Childless(g, n) && (n == at || !Childless(g, at))
    requires Coloured(g, red, nodes, NULL, at) && Balanced(g, red, bh, nodes, NULL, true)
    ensures Settled(g, red, Turned(g, at, p, gp), at, n)
    ensures Settled(Mirror(g), red, Mirror(Turned(g, at, p, gp)), at, n)
  {
    if n == at && g.right[p] == at {
      TurnedInside(g, red, bh, nodes, top, at, p, gp);
    } else {
      TurnedAside(g, red, nodes, top, at, p, gp, n);
    }
  }

  // ---- the same, seen from the tree before the leaf is linked ----

  // Whether a node that is linked next after q will be turned inwards.
  predicate TurnsAfter(g: Links, red: Colours, q: Ptr)
  {
    && q in g.left && q in g.right && q in g.parent
    && if IsRed(red, q) then
         && g.right[q] == NULL && g.parent[q] in g.left && g.parent[q] in g.right
         && g.left[g.parent[q]] == q && !IsRed(red, g.right[g.parent[q]])
       else
         g.left[q] == NULL && IsRed(red, g.right[q])
  }

  ghost predicate Grown(g: Links, rk: Spans, red: Colours, bh: Heights, nodes: set<Ptr>, top: Ptr, order: seq<Ptr>)
  {
    && Linked(g, nodes, top) && Spanned(g, rk, nodes, top, |order|) && Ranked(rk, nodes, order)
    && Coloured(g, red, nodes, NULL, NULL) && Balanced(g, red, bh, nodes, NULL, true) && !IsRed(red, top)
  }

  lemma TurnsOnRight(g: Links, rk: Spans, red: Colours, bh: Heights, nodes: set<Ptr>, top: Ptr, order: seq<Ptr>,
                     last: Ptr, node: Ptr)
    requires Grown(g, rk, red, bh, nodes, top, order) && CanLink(g, rk, nodes, top, |order|, last, false, node)
    ensures Inside(LeafLinked(g, last, false, node), red[node := true], node) <==> TurnsAfter(g, red, last)
  {
    assert UpOk(g, nodes, top, last) && DownOk(g, nodes, last);
    var gp := g.parent[last];
    if gp != NULL {
      assert DownOk(g, nodes, gp) && SpanOk(g, rk, |order|, gp) && SpanOk(g, rk, |order|, last);
      assert Inside(LeafLinked(g, last, false, node), red[node := true], node) <==>
             InsideLeft(LeafLinked(g, last, false, node), red[node := true], node, last, gp);
    }
  }

  lemma TurnsOnLeft(g: Links, rk: Spans, red: Colours, bh: Heights, nodes: set<Ptr>, top: Ptr, order: seq<Ptr>,
                    last: Ptr, node: Ptr)
    requires Grown(g, rk, red, bh, nodes, top, order) && CanLink(g, rk, nodes, top, |order|, last, true, node)
    requires Inside(LeafLinked(g, last, true, node), red[node := true], node)
    ensures last in rk && 0 < rk[last].pos <= |order| && last in g.parent && order[rk[last].pos - 1] == g.parent[last]
    ensures TurnsAfter(g, red, g.parent[last])
  {
    assert UpOk(g, nodes, top, last) && DownOk(g, nodes, last) && SpanOk(g, rk, |order|, last);
    var gp := g.parent[last];
    assert DownOk(g, nodes, gp) && SpanOk(g, rk, |order|, gp) && RankOk(rk, order, gp) && RedOk(g, red, gp, NULL, NULL);
    assert BalOk(g, red, bh, last, NULL, true) && BalOk(g, red, bh, gp, NULL, true);
    NoBlackBelow(g, red, bh, nodes, top, g.left[gp]);
  }

  // A new leaf of rank k is turned inwards exactly if the node of rank k - 1 says so, and comes to lie above it.
  lemma LinkedTurns(g: Links, rk: Spans, red: Colours, bh: Heights, nodes: set<Ptr>, top: Ptr, order: seq<Ptr>,
                    last: Ptr, onLeft: bool, node: Ptr, k: int)
    requires Grown(g, rk, red, bh, nodes, top, order) && CanLink(g, rk, nodes, top, |order|, last, onLeft, node)
    requires k == LeafRank(rk, last, onLeft) && 0 <= k <= |order|
    ensures var g', red' := LeafLinked(g, last, onLeft, node), red[node := true];
      && (Inside(g', red', node) <==> k > 0 && TurnsAfter(g, red, order[k - 1]))
      && (Inside(g', red', node) ==> g'.parent[node] in g'.right && Lowered(g', node) == order[k - 1])
  {
    var g', red' := LeafLinked(g, last, onLeft, node), red[node := true];
    assert RankOk(rk, order, last) && DownOk(g, nodes, last);
    if !onLeft {
      TurnsOnRight(g, rk, red, bh, nodes, top, order, last, node);
    } else {
      if Inside(g', red', node) { TurnsOnLeft(g, rk, red, bh, nodes, top, order, last, node); }
      if k > 0 && TurnsAfter(g, red, order[k - 1]) {
        TurnsAfterOnLeft(g, rk, red, bh, nodes, top, order, last, node, order[k - 1]);
      }
    }
  }

  // A left child with no right child comes just before its parent.
  lemma AfterLeftLeaf(g: Links, rk: Spans, nodes: set<Ptr>, top: Ptr, order: seq<Ptr>, q: Ptr)
    requires Linked(g, nodes, top) && Spanned(g, rk, nodes, top, |order|) && Ranked(rk, nodes, order) && q in nodes
    requires g.right[q] == NULL && g.parent[q] in nodes && g.left[g.parent[q]] == q
    ensures q in rk && 0 <= rk[q].pos + 1 < |order| && order[rk[q].pos + 1] in nodes
    ensures g.left[order[rk[q].pos + 1]] == q
  {
    var up := g.parent[q];
    assert SpanOk(g, rk, |order|, q) && SpanOk(g, rk, |order|, up) && RankOk(rk, order, up);
  }

  lemma TurnsAfterOnLeft(g: Links, rk: Spans, red: Colours, bh: Heights, nodes: set<Ptr>, top: Ptr, order: seq<Ptr>,
                         last: Ptr, node: Ptr, q: Ptr)
    requires Grown(g, rk, red, bh, nodes, top, order) && CanLink(g, rk, nodes, top, |order|, last, true, node)
    requires q in nodes && q in rk && rk[q].pos + 1 == rk[last].pos && TurnsAfter(g, red, q)
    ensures Inside(LeafLinked(g, last, true, node), red[node := true], node) && g.parent[last] == q
  {
    assert RankOk(rk, order, last) && SpanOk(g, rk, |order|, last) && SpanOk(g, rk, |order|, q) && DownOk(g, nodes, q);
    assert UpOk(g, nodes, top, q);
    if IsRed(red, q) {
      AfterLeftLeaf(g, rk, nodes, top, order, q);
      assert false;
    } else {
      var r := g.right[q];
      assert DownOk(g, nodes, r) && SpanOk(g, rk, |order|, r) && RankOk(rk, order, r) && RedOk(g, red, r, NULL, NULL);
      assert BalOk(g, red, bh, q, NULL, true) && BalOk(g, red, bh, r, NULL, true);
      NoBlackBelow(g, red, bh, nodes, top, g.left[r]);
    }
  }

  // A node has a child on a side exactly if its subtree has ranks there.
  lemma ChildSpans(g: Links, rk: Spans, nodes: set<Ptr>, top: Ptr, size: int, n: Ptr)
    requires Linked(g, nodes, top) && Spanned(g, rk, nodes, top, size) && n in nodes
    ensures SpanOk(g, rk, size, n)
    ensures (g.left[n] != NULL <==> rk[n].lo < rk[n].pos) && (g.right[n] != NULL <==> rk[n].pos + 1 < rk[n].hi)
  {
    assert SpanOk(g, rk, size, n) && DownOk(g, nodes, n);
    if g.left[n] != NULL { assert SpanOk(g, rk, size, g.left[n]); }
    if g.right[n] != NULL { assert SpanOk(g, rk, size, g.right[n]); }
  }

  // After the first node of all, that takes a red node with no sibling or a black node with a child.
  lemma TurnsAfterFirst(g: Links, rk: Spans, red: Colours, bh: Heights, nodes: set<Ptr>, top: Ptr, order: seq<Ptr>)
    requires Grown(g, rk, red, bh, nodes, top, order) && order != []
    ensures var f := order[0];
      && f in g.right && f in g.parent && (IsRed(red, f) ==> g.parent[f] in g.right)
      && (TurnsAfter(g, red, f) <==> if IsRed(red, f) then g.right[g.parent[f]] == NULL else g.right[f] != NULL)
  {
    var f := order[0];
    assert f in nodes && RankOk(rk, order, f);
    assert DownOk(g, nodes, f) && UpOk(g, nodes, top, f) && SpanOk(g, rk, |order|, f);
    ChildSpans(g, rk, nodes, top, |order|, f);
    assert BalOk(g, red, bh, f, NULL, true) && RedOk(g, red, f, NULL, NULL);
    NoBlackBelow(g, red, bh, nodes, top, g.right[f]);
    if IsRed(red, f) {
      var p := g.parent[f];
      assert DownOk(g, nodes, p) && SpanOk(g, rk, |order|, p) && BalOk(g, red, bh, p, NULL, true);
      NoBlackBelow(g, red, bh, nodes, top, g.right[p]);
    }
  }

  // With two nodes in the tree that is so, whichever of them is at the top.
  lemma TurnsAfterOneOfTwo(g: Links, rk: Spans, red: Colours, bh: Heights, nodes: set<Ptr>, top: Ptr, order: seq<Ptr>)
    requires Grown(g, rk, red, bh, nodes, top, order) && |order| == 2
    ensures TurnsAfter(g, red, order[0])
  {
    var f, q := order[0], order[1];
    TurnsAfterFirst(g, rk, red, bh, nodes, top, order);
    assert f in nodes && q in nodes && top in nodes && rk[f].pos == 0 && rk[q].pos == 1;
    ChildSpans(g, rk, nodes, top, 2, f);
    ChildSpans(g, rk, nodes, top, 2, q);
    assert RankOk(rk, order, top) && BalOk(g, red, bh, f, NULL, true) && BalOk(g, red, bh, q, NULL, true);
    if top != f {
      var c := g.left[q];
      assert top == q && DownOk(g, nodes, q) && RankOk(rk, order, c) && SpanOk(g, rk, 2, c);
      assert c == f;
    }
  }
}
