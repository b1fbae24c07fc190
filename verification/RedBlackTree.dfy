/** The red-black trees of gskrbtreemacros.h: plain (GSK_RBTREE) and with subtree counts (GSK_RBCTREE). */
module RedBlackTree {
  import opened Basics
  import opened TreeLinks
  import opened TreeColours
  import opened TreeEdits
  import opened TreeTurns
  import M = TreeMeaning

  // What the macros demand of a comparator: it totally orders the nodes it is given.
  ghost predicate TotalOrderOn(cmp: (Ptr, Ptr) -> int, s: set<Ptr>)
  {
    && (forall a, b {:trigger cmp(a, b)} :: a in s && b in s ==> (cmp(a, b) < 0 <==> cmp(b, a) > 0))
    && (forall a, b, c {:trigger cmp(a, b), cmp(b, c)} :: a in s && b in s && c in s ==>
          (cmp(a, b) <= 0 && cmp(b, c) <= 0 ==> cmp(a, c) <= 0)
          && (cmp(a, b) < 0 && cmp(b, c) < 0 ==> cmp(a, c) < 0))
  }

  class Tree {
    var top: Ptr
    // The node fields that the macros read and write, one map for each field.
    var left: map<Ptr, Ptr>
    var right: map<Ptr, Ptr>
    var parent: map<Ptr, Ptr>
    var isRed: map<Ptr, bool>
    var count: map<Ptr, int>
    // Whether this is a GSK_RBCTREE.
    const counted: bool
    const cmp: (Ptr, Ptr) -> int

    // The nodes of the tree, in order, and for each its ranks and black height.
    ghost var nodes: set<Ptr>
    ghost var order: seq<Ptr>
    ghost var spans: Spans
    ghost var bh: Heights

    ghost function View(): Links
      reads this`left, this`right, this`parent
    {
      Links(left, right, parent)
    }

    ghost predicate Shaped()
      reads this`top, this`left, this`right, this`parent, this`isRed, this`nodes, this`order, this`spans
    {
      && Linked(View(), nodes, top) && Spanned(View(), spans, nodes, top, |order|)
      && Ranked(spans, nodes, order) && nodes <= isRed.Keys
    }

    ghost predicate Counts(except: set<Ptr>)
      reads this`count, this`nodes, this`spans
    {
      counted ==> Sized(count, spans, nodes, except)
    }

    ghost predicate Sorted()
      reads this`order
    {
      forall i, j :: 0 <= i < j < |order| ==> cmp(order[i], order[j]) < 0
    }

    ghost predicate Valid()
      reads this
    {
      && Shaped() && Counts({}) && Sorted() && !IsRed(isRed, top)
      && Coloured(View(), isRed, nodes, NULL, NULL) && Balanced(View(), isRed, bh, nodes, NULL, true)
    }

    constructor (cmp: (Ptr, Ptr) -> int, counted: bool)
      ensures Valid() && order == [] && this.cmp == cmp && this.counted == counted
    {
      this.cmp, this.counted := cmp, counted;
      top, left, right, parent, isRed, count := NULL, map[], map[], map[], map[], map[];
      nodes, order, spans, bh := {}, [], map[], map[];
    }

    // The pointer writes of GSK_RBTREE_ROTATE_LEFT.
    method RelinkLeft(x: Ptr)
      requires CanRotate(View(), nodes, x)
      modifies this`top, this`left, this`right, this`parent
      ensures View() == Rotated(old(View()), x)
      ensures top == if old(parent[x]) == NULL then old(right[x]) else old(top)
    {
      var y := right[x];
      right := right[x := left[y]];
      if left[y] != NULL {
        parent := parent[left[y] := x];
      }
      parent := parent[y := parent[x]];
      if parent[x] == NULL {
        top := y;
      } else if x == left[parent[x]] {
        left := left[parent[x] := y];
      } else {
        right := right[parent[x] := y];
      }
      left := left[y := x];
      parent := parent[x := y];
    }

    // The same macro with the two child fields swapped.
    method RelinkRight(x: Ptr)
      requires CanRotate(Mirror(View()), nodes, x)
      modifies this`top, this`left, this`right, this`parent
      ensures View() == Mirror(Rotated(Mirror(old(View())), x))
      ensures top == if old(parent[x]) == NULL then old(left[x]) else old(top)
    {
      var y := left[x];
      left := left[x := right[y]];
      if right[y] != NULL {
        parent := parent[right[y] := x];
      }
      parent := parent[y := parent[x]];
      if parent[x] == NULL {
        top := y;
      } else if x == right[parent[x]] {
        right := right[parent[x] := y];
      } else {
        left := left[parent[x] := y];
      }
      right := right[y := x];
      parent := parent[x := y];
    }

    method RotateLeft(x: Ptr)
      requires Shaped() && Counts({}) && x in nodes && right[x] != NULL
      modifies this`top, this`left, this`right, this`parent, this`count, this`spans
      ensures Shaped() && Counts({})
      ensures CanRotate(old(View()), nodes, x) && View() == Rotated(old(View()), x)
      ensures top == if old(parent[x]) == NULL then old(right[x]) else old(top)
      ensures x in old(spans) && old(right[x]) in old(spans) && spans == RotatedSpans(old(spans), x, old(right[x]))
    {
      ghost var g := View();
      var y := right[x];
      Rotatable(g, spans, nodes, top, |order|, x);
      RotatedLinked(g, nodes, top, x);
      RotatedSpanned(g, spans, nodes, top, |order|, x);
      RelinkLeft(x);
      RotatedRanked(spans, nodes, order, x, y, RotatedSpans(spans, x, y));
      spans := RotatedSpans(spans, x, y);
      if counted {
        RotatedSizes(count, old(spans), nodes, x, y, spans);
        FixRotatedCounts(x, y, right[y]);
      }
    }

    method RotateRight(x: Ptr)
      requires Shaped() && Counts({}) && x in nodes && left[x] != NULL
      modifies this`top, this`left, this`right, this`parent, this`count, this`spans
      ensures Shaped() && Counts({})
      ensures CanRotate(Mirror(old(View())), nodes, x) && View() == Mirror(Rotated(Mirror(old(View())), x))
      ensures top == if old(parent[x]) == NULL then old(left[x]) else old(top)
      ensures x in old(spans) && old(left[x]) in old(spans) && spans == RotatedSpansRight(old(spans), x, old(left[x]))
    {
      ghost var g := View();
      var y := left[x];
      RotatableRight(g, spans, nodes, top, |order|, x);
      MirrorLinked(g, nodes, top);
      RotatedLinked(Mirror(g), nodes, top, x);
      MirrorLinked(Rotated(Mirror(g), x), nodes, if parent[x] == NULL then left[x] else top);
      RotatedRightSpanned(g, spans, nodes, top, |order|, x);
      RelinkRight(x);
      RotatedRanked(spans, nodes, order, x, y, RotatedSpansRight(spans, x, y));
      spans := RotatedSpansRight(spans, x, y);
      if counted {
        RotatedSizes(count, old(spans), nodes, x, y, spans);
        FixRotatedCounts(x, y, left[y]);
      }
    }

    // The count updates of a rotation that has put y above x and left y its outer child c.
    method FixRotatedCounts(x: Ptr, y: Ptr, c: Ptr)
      requires counted && Shaped() && Sized(count, spans, nodes, {x, y}) && x in nodes && y in nodes
      requires (x == left[y] && c == right[y]) || (x == right[y] && c == left[y])
      requires x in spans && y in spans && count[x] == spans[y].hi - spans[y].lo
      modifies this`count
      ensures Counts({})
    {
      assert SpanOk(View(), spans, |order|, x) && SpanOk(View(), spans, |order|, y);
      assert DownOk(View(), nodes, y) && DownOk(View(), nodes, x) && RankOk(spans, order, x) && RankOk(spans, order, y);
      if c != NULL { assert SpanOk(View(), spans, |order|, c) && SizeOk(count, spans, c); }
      var n0 := count[x];
      var n1 := if c != NULL then count[c] else 0;
      var n2 := n0 - n1 - 1;
      count := count[x := n2];
      count := count[y := n0];
      forall n | n in nodes ensures SizeOk(count, spans, n) {
        if n != x && n != y { assert SizeOk(old(count), spans, n); }
      }
    }

    // ---- insertion ----

    ghost predicate Between(node: Ptr, k: int)
      reads this`order
    {
      && 0 <= k <= |order|
      && (forall i :: 0 <= i < k ==> cmp(order[i], node) < 0)
      && (forall i :: k <= i < |order| ==> cmp(order[i], node) > 0)
    }

    // Descends to an equal node at, or to the node last under which a node of rank k can be linked.
    method Search(node: Ptr) returns (last: Ptr, lastWasLeft: bool, at: Ptr, ghost k: int)
      requires Valid() && node !in nodes && TotalOrderOn(cmp, nodes + {node})
      ensures at != NULL ==> at in nodes && cmp(at, node) == 0
      ensures at == NULL ==> Between(node, k) && (last == NULL <==> top == NULL)
      ensures at == NULL && last != NULL ==>
        && last in nodes && last in spans && k == LeafRank(spans, last, lastWasLeft)
        && (if lastWasLeft then left[last] else right[last]) == NULL
    {
      last, at, lastWasLeft := NULL, top, false;
      ghost var lo, hi := 0, |order|;
      FirstIsNode(spans, nodes, order);
      while at != NULL
        invariant 0 <= lo <= hi <= |order|
        invariant forall i :: 0 <= i < lo ==> cmp(order[i], node) < 0
        invariant forall i :: hi <= i < |order| ==> cmp(order[i], node) > 0
        invariant at != NULL ==> at in nodes && at in spans && spans[at].lo == lo && spans[at].hi == hi
        invariant at == NULL ==> lo == hi && (last == NULL ==> top == NULL)
        invariant last != NULL ==> last in nodes && last in spans
        invariant at == NULL && last != NULL ==>
          lo == LeafRank(spans, last, lastWasLeft) && (if lastWasLeft then left[last] else right[last]) == NULL
        decreases hi - lo, if at != NULL then 1 else 0
      {
        assert SpanOk(View(), spans, |order|, at) && DownOk(View(), nodes, at) && RankOk(spans, order, at);
        var rv := cmp(at, node);
        last := at;
        if rv > 0 {
          lastWasLeft := true;
          forall i | spans[at].pos <= i < hi ensures cmp(order[i], node) > 0 { OrderedAround(at, i, node); }
          at, hi := left[at], spans[at].pos;
        } else if rv < 0 {
          lastWasLeft := false;
          forall i | lo <= i <= spans[at].pos ensures cmp(order[i], node) < 0 { OrderedAround(at, i, node); }
          at, lo := right[at], spans[at].pos + 1;
        } else {
          return last, lastWasLeft, at, lo;
        }
      }
      k := lo;
    }

    lemma OrderedAround(at: Ptr, i: int, node: Ptr)
      requires Valid() && TotalOrderOn(cmp, nodes + {node}) && at in nodes && at in spans && 0 <= i < |order|
      ensures cmp(at, node) > 0 && i >= spans[at].pos ==> cmp(order[i], node) > 0
      ensures cmp(at, node) < 0 && i <= spans[at].pos ==> cmp(order[i], node) < 0
    {
      assert RankOk(spans, order, at) && order[i] in nodes;
      assert i > spans[at].pos ==> cmp(at, order[i]) < 0;
      assert i < spans[at].pos ==> cmp(order[i], at) < 0;
      assert cmp(node, at) == cmp(node, at) && cmp(node, order[i]) == cmp(node, order[i]);
    }

    // The counts of last and of the nodes above it go up by one.
    method CountUp(last: Ptr)
      requires counted && Whole(Shaped()) && last in nodes && nodes <= count.Keys
      requires Whole(Lagging(count, spans, nodes, Above(View(), spans, nodes, top, |order|, last)))
      modifies this`count
      ensures Counts({})
    {
      var at := last;
      ghost var path := Above(View(), spans, nodes, top, |order|, last);
      while at != NULL
        invariant at == NULL ==> path == {}
        invariant at != NULL ==> at in nodes && path == Above(View(), spans, nodes, top, |order|, at)
        invariant nodes <= count.Keys && Lagging(count, spans, nodes, path)
        decreases |path|
      {
        AboveStep(View(), spans, nodes, top, |order|, at);
        ghost var below, was := path, count;
        path := path - {at};
        var newCount := count[at] + 1;
        count := count[at := newCount];
        forall n | n in nodes ensures LagOk(count, spans, path, n) {
          assert LagOk(was, spans, below, n);
        }
        at := parent[at];
      }
      forall n | n in nodes ensures SizeOk(count, spans, n) {
        assert LagOk(count, spans, path, n);
      }
    }

    method WriteLeaf(node: Ptr, last: Ptr, lastWasLeft: bool)
      requires node != last
      modifies this`left, this`right, this`parent, this`isRed
      ensures View() == LeafLinked(old(View()), last, lastWasLeft, node) && isRed == old(isRed)[node := true]
    {
      isRed := isRed[node := true];
      parent := parent[node := last];
      left, right := left[node := NULL], right[node := NULL];
      if lastWasLeft {
        left := left[last := node];
      } else {
        right := right[last := node];
      }
    }

    // Links node, as a red leaf, under last.
    method LinkLeaf(node: Ptr, last: Ptr, lastWasLeft: bool, ghost k: int)
      requires Valid() && CanLink(View(), spans, nodes, top, |order|, last, lastWasLeft, node)
      requires k == LeafRank(spans, last, lastWasLeft) && 0 <= k <= |order|
      modifies this`left, this`right, this`parent, this`isRed, this`count,
               this`nodes, this`order, this`spans, this`bh
      ensures Inserting(node) && nodes == old(nodes) + {node}
      ensures order == old(order)[..k] + [node] + old(order)[k..]
      ensures View() == LeafLinked(old(View()), last, lastWasLeft, node) && isRed == old(isRed)[node := true]
    {
      ghost var g', nodes', order', spans', bh' := LeafAdded(last, lastWasLeft, node, k);
      GraftLeaf(node, last, lastWasLeft, g', nodes', order', spans', bh');
      CountLeaf(node, last);
    }

    // g' are the links, and the other values describe the tree, once node is a red leaf under last; only the
    // counts above the leaf are still to be raised.
    ghost predicate Grafted(g': Links, nodes': set<Ptr>, order': seq<Ptr>, spans': Spans, bh': Heights,
                            node: Ptr, last: Ptr)
      reads this`top, this`isRed, this`count
    {
      && Linked(g', nodes', top) && Spanned(g', spans', nodes', top, |order'|) && Ranked(spans', nodes', order')
      && Coloured(g', isRed[node := true], nodes', NULL, node)
      && Balanced(g', isRed[node := true], bh', nodes', NULL, true)
      && node in nodes' && last in nodes' && !IsRed(isRed[node := true], top) && nodes' <= isRed.Keys + {node}
      && (counted ==>
           && nodes' <= count.Keys + {node}
           && Lagging(count[node := 1], spans', nodes', Above(g', spans', nodes', top, |order'|, last)))
    }

    lemma LeafAdded(last: Ptr, onLeft: bool, node: Ptr, k: int)
      returns (g': Links, nodes': set<Ptr>, order': seq<Ptr>, spans': Spans, bh': Heights)
      requires Valid() && CanLink(View(), spans, nodes, top, |order|, last, onLeft, node)
      requires k == LeafRank(spans, last, onLeft) && 0 <= k <= |order|
      ensures g' == LeafLinked(View(), last, onLeft, node) && nodes' == nodes + {node}
      ensures order' == order[..k] + [node] + order[k..]
      ensures Whole(Grafted(g', nodes', order', spans', bh', node, last)) && node != last
    {
      LeafColoured(last, onLeft, node);
      LeafShaped(last, onLeft, node);
      g', nodes' := LeafLinked(View(), last, onLeft, node), nodes + {node};
      order' := order[..k] + [node] + order[k..];
      spans', bh' := SpreadSpans(spans, k, onLeft, node), bh[node := 0];
    }

    method GraftLeaf(node: Ptr, last: Ptr, lastWasLeft: bool, ghost g': Links, ghost nodes': set<Ptr>,
                     ghost order': seq<Ptr>, ghost spans': Spans, ghost bh': Heights)
      requires g' == LeafLinked(View(), last, lastWasLeft, node) && node != last
      requires Whole(Grafted(g', nodes', order', spans', bh', node, last))
      modifies this`left, this`right, this`parent, this`isRed, this`nodes, this`order, this`spans, this`bh
      ensures Whole(Counting(node, last)) && nodes == nodes' && order == order'
      ensures View() == g' && isRed == old(isRed)[node := true]
    {
      WriteLeaf(node, last, lastWasLeft);
      nodes, order, spans, bh := nodes', order', spans', bh';
    }

    // The new leaf is in the tree, but neither it nor the nodes above it have been counted.
    ghost predicate Counting(node: Ptr, last: Ptr)
      reads this
    {
      && Shaped() && node in nodes && IsRed(isRed, node) && !IsRed(isRed, top) && last in nodes
      && Coloured(View(), isRed, nodes, NULL, node) && Balanced(View(), isRed, bh, nodes, NULL, true)
      && (counted ==>
           && nodes <= count.Keys + {node}
           && Lagging(count[node := 1], spans, nodes, Above(View(), spans, nodes, top, |order|, last)))
    }

    method CountLeaf(node: Ptr, last: Ptr)
      requires Whole(Counting(node, last))
      modifies this`count
      ensures Whole(Inserting(node))
    {
      if counted {
        count := count[node := 1];
        CountUp(last);
      }
    }

    lemma LeafColoured(last: Ptr, onLeft: bool, node: Ptr)
      requires Valid() && CanLink(View(), spans, nodes, top, |order|, last, onLeft, node)
      ensures var g', red' := LeafLinked(View(), last, onLeft, node), isRed[node := true];
        && Coloured(g', red', nodes + {node}, NULL, node)
        && Balanced(g', red', bh[node := 0], nodes + {node}, NULL, true)
    {
      LeafKeepsColours(View(), isRed, bh, nodes, top, last, onLeft, node);
    }

    lemma LeafShaped(last: Ptr, onLeft: bool, node: Ptr)
      requires Valid() && CanLink(View(), spans, nodes, top, |order|, last, onLeft, node)
      requires 0 <= LeafRank(spans, last, onLeft) <= |order|
      ensures var k := LeafRank(spans, last, onLeft);
        var g', nodes' := LeafLinked(View(), last, onLeft, node), nodes + {node};
        var rk' := SpreadSpans(spans, k, onLeft, node);
        && Linked(g', nodes', top) && Spanned(g', rk', nodes', top, |order| + 1)
        && Ranked(rk', nodes', order[..k] + [node] + order[k..])
        && (counted ==> Lagging(count[node := 1], rk', nodes', Above(g', rk', nodes', top, |order| + 1, last)))
    {
      LeafKeepsLinks(View(), spans, nodes, top, |order|, last, onLeft, node);
      LeafKeepsSpans(View(), spans, nodes, top, |order|, last, onLeft, node, order);
      LeafKeepsRanks(spans, nodes, order, LeafRank(spans, last, onLeft), onLeft, node);
      if counted { LeafSizes(View(), count, spans, nodes, top, order, last, onLeft, node); }
    }

    lemma InsertSorted(node: Ptr, k: int)
      requires Sorted() && Between(node, k) && Ranked(spans, nodes, order) && TotalOrderOn(cmp, nodes + {node})
      ensures var order' := order[..k] + [node] + order[k..];
        forall i, j :: 0 <= i < j < |order'| ==> cmp(order'[i], order'[j]) < 0
    {
      var order' := order[..k] + [node] + order[k..];
      forall i, j | 0 <= i < j < |order'| ensures cmp(order'[i], order'[j]) < 0 {
        if i < k { assert order'[i] == order[i]; } else if i > k { assert order'[i] == order[i - 1]; }
        if j < k { assert order'[j] == order[j]; } else if j > k { assert order'[j] == order[j - 1]; }
        if i == k { assert cmp(order[j - 1], node) > 0 && order[j - 1] in nodes; }
      }
    }

    // The state in which the fixup loop of an insertion finds the tree: at, which is red, may have a red parent.
    ghost predicate Inserting(at: Ptr)
      reads this
    {
      && Shaped() && Counts({}) && at in nodes && IsRed(isRed, at) && (IsRed(isRed, top) ==> top == at)
      && Coloured(View(), isRed, nodes, NULL, at) && Balanced(View(), isRed, bh, nodes, NULL, true)
    }

    // The state in which it leaves it.
    ghost predicate Mended()
      reads this
    {
      && Shaped() && Counts({}) && !IsRed(isRed, top)
      && Coloured(View(), isRed, nodes, NULL, NULL) && Balanced(View(), isRed, bh, nodes, NULL, true)
    }

    // at, its parent and its grandparent, where the parent is a left child and the uncle is not red.
    ghost predicate LeftPair(at: Ptr)
      reads this
    {
      && Inserting(at) && at in parent && parent[at] in parent && parent[at] in right
      && RedPair(View(), isRed, nodes, top, at, parent[at], parent[parent[at]])
      && left[parent[parent[at]]] == parent[at] && !IsRed(isRed, right[parent[parent[at]]])
    }

    ghost predicate RightPair(at: Ptr)
      reads this
    {
      && Inserting(at) && at in parent && parent[at] in parent && parent[at] in left
      && RedPair(View(), isRed, nodes, top, at, parent[at], parent[parent[at]])
      && right[parent[parent[at]]] == parent[at] && !IsRed(isRed, left[parent[parent[at]]])
    }

    method TurnInnerLeft(at0: Ptr, ghost g: Links, ghost p: Ptr, ghost gp: Ptr) returns (at: Ptr)
      requires LeftPair(at0) && g == View() && CanTurn(g, isRed, nodes, top, at0, p, gp)
      modifies this`top, this`left, this`right, this`parent, this`count, this`spans
      ensures LeftPair(at) && left[parent[at]] == at
      ensures View() == TurnedIn(g, at0, p) && parent[parent[at]] == gp
    {
      at := at0;
      assert UpOk(View(), nodes, top, at) && DownOk(View(), nodes, gp);
      if at == right[parent[at]] {
        at := parent[at];
        RotateLeft(at);
        InnerRotation(g, isRed, bh, nodes, top, at0, p, gp);
        assert DownOk(View(), nodes, gp);
      }
    }

    method TurnOuterRight(at: Ptr, ghost g: Links, ghost gp: Ptr)
      requires LeftPair(at) && left[parent[at]] == at && g == View() && gp == parent[parent[at]]
      modifies this`top, this`left, this`right, this`parent, this`isRed, this`count, this`spans, this`bh
      ensures Mended() && !IsRed(isRed, parent[at])
      ensures CanRotate(Mirror(g), nodes, gp) && View() == Mirror(Rotated(Mirror(g), gp))
    {
      ghost var p := parent[at];
      assert DownOk(g, nodes, p) && UpOk(g, nodes, top, p) && UpOk(g, nodes, top, gp);
      RotatableRight(g, spans, nodes, top, |order|, gp);
      MirrorLinked(g, nodes, top);
      MirrorColours(g, isRed, bh, nodes, NULL, at, NULL, true);
      OuterRotation(Mirror(g), isRed, bh, nodes, top, at, p, gp);
      isRed := isRed[parent[at] := false];
      isRed := isRed[parent[parent[at]] := true];
      RotateRight(parent[parent[at]]);
      bh := bh[p := bh[gp]][gp := bh[gp] - 1];
      MirrorColours(Rotated(Mirror(g), gp), isRed, bh, nodes, NULL, NULL, NULL, true);
    }

    method TurnInnerRight(at0: Ptr, ghost g: Links, ghost p: Ptr, ghost gp: Ptr) returns (at: Ptr)
      requires RightPair(at0) && g == View() && CanTurn(Mirror(g), isRed, nodes, top, at0, p, gp)
      modifies this`top, this`left, this`right, this`parent, this`count, this`spans
      ensures RightPair(at) && right[parent[at]] == at
      ensures View() == Mirror(TurnedIn(Mirror(g), at0, p)) && parent[parent[at]] == gp
    {
      at := at0;
      assert UpOk(View(), nodes, top, at) && DownOk(View(), nodes, gp);
      if at == left[parent[at]] {
        at := parent[at];
        RotateRight(at);
        MirrorLinked(g, nodes, top);
        MirrorColours(g, isRed, bh, nodes, NULL, at0, NULL, true);
        InnerRotation(Mirror(g), isRed, bh, nodes, top, at0, p, gp);
        MirrorColours(Rotated(Mirror(g), p), isRed, bh, nodes, NULL, p, NULL, true);
        assert DownOk(View(), nodes, gp);
      }
    }

    method TurnOuterLeft(at: Ptr, ghost g: Links, ghost gp: Ptr)
      requires RightPair(at) && right[parent[at]] == at && g == View() && gp == parent[parent[at]]
      modifies this`top, this`left, this`right, this`parent, this`isRed, this`count, this`spans, this`bh
      ensures Mended() && !IsRed(isRed, parent[at])
      ensures CanRotate(g, nodes, gp) && View() == Rotated(g, gp)
    {
      ghost var p := parent[at];
      assert DownOk(g, nodes, p) && UpOk(g, nodes, top, p) && UpOk(g, nodes, top, gp);
      Rotatable(g, spans, nodes, top, |order|, gp);
      OuterRotation(g, isRed, bh, nodes, top, at, p, gp);
      isRed := isRed[parent[at] := false];
      isRed := isRed[parent[parent[at]] := true];
      RotateLeft(parent[parent[at]]);
      bh := bh[p := bh[gp]][gp := bh[gp] - 1];
    }

    // The turns that end the fixup; a childless node n keeps childless or is turned inwards.
    method TurnLeftPair(at0: Ptr, ghost n: Ptr, ghost g: Links, ghost red: Colours) returns (at: Ptr)
      requires LeftPair(at0) && g == View() && red == isRed && Followed(g, at0, n)
      modifies this`top, this`left, this`right, this`parent, this`isRed, this`count, this`spans, this`bh
      ensures Mended() && at in nodes && !IsRed(isRed, parent[at]) && Settled(g, red, View(), at0, n)
    {
      ghost var p, gp := parent[at0], parent[parent[at0]];
      assert UpOk(g, nodes, top, at0) && DownOk(g, nodes, at0) && DownOk(g, nodes, p) && DownOk(g, nodes, gp);
      assert UpOk(g, nodes, top, gp);
      TurnedSettled(g, red, bh, nodes, top, at0, p, gp, n);
      at := TurnInnerLeft(at0, g, p, gp);
      TurnOuterRight(at, View(), gp);
    }

    method TurnRightPair(at0: Ptr, ghost n: Ptr, ghost g: Links, ghost red: Colours) returns (at: Ptr)
      requires RightPair(at0) && g == View() && red == isRed && Followed(g, at0, n)
      modifies this`top, this`left, this`right, this`parent, this`isRed, this`count, this`spans, this`bh
      ensures Mended() && at in nodes && !IsRed(isRed, parent[at]) && Settled(g, red, View(), at0, n)
    {
      ghost var p, gp := parent[at0], parent[parent[at0]];
      MirrorLinked(g, nodes, top);
      MirrorColours(g, red, bh, nodes, NULL, at0, NULL, true);
      assert UpOk(g, nodes, top, at0) && DownOk(g, nodes, at0) && DownOk(g, nodes, p) && DownOk(g, nodes, gp);
      assert UpOk(g, nodes, top, gp);
      TurnedSettled(Mirror(g), red, bh, nodes, top, at0, p, gp, n);
      at := TurnInnerRight(at0, g, p, gp);
      TurnOuterLeft(at, View(), gp);
    }

    // n is a childless node that the fixup starts from, or has left below.
    ghost predicate Followed(g: Links, at: Ptr, n: Ptr)
      reads this`nodes
    {
      n in nodes && Childless(g, n) && (n == at || !Childless(g, at))
    }

    // A red uncle: the blacks of the grandparent move down and the red moves up to it.
    method PushRedUp(at: Ptr, y: Ptr)
      requires Inserting(at) && at in parent && parent[at] in parent && parent[parent[at]] in left
      requires RedPair(View(), isRed, nodes, top, at, parent[at], parent[parent[at]]) && IsRed(isRed, y)
      requires parent[parent[at]] in right
      requires (left[parent[parent[at]]] == parent[at] && right[parent[parent[at]]] == y)
            || (right[parent[parent[at]]] == parent[at] && left[parent[parent[at]]] == y)
      modifies this`isRed, this`bh
      ensures Inserting(parent[parent[at]])
      ensures RedClimb(parent[parent[at]]) < old(RedClimb(at))
    {
      ghost var p := parent[at];
      assert SpanOk(View(), spans, |order|, at) && SpanOk(View(), spans, |order|, p);
      assert SpanOk(View(), spans, |order|, parent[p]);
      Recoloured(View(), isRed, bh, nodes, top, at, p, parent[p], y);
      assert UpOk(View(), nodes, top, at) && UpOk(View(), nodes, top, p) && DownOk(View(), nodes, parent[p]);
      isRed := isRed[parent[at] := false];
      isRed := isRed[y := false];
      isRed := isRed[parent[parent[at]] := true];
      bh := bh[p := bh[p] + 1][y := bh[y] + 1];
    }

    ghost predicate Mending(at: Ptr)
      reads this
    {
      Inserting(at) || (Mended() && at in nodes && !IsRed(isRed, parent[at]))
    }

    // How far the fixup loop has to go.
    ghost function RedClimb(at: Ptr): (r: int)
      requires Shaped() && at in nodes
      reads this
      ensures 0 <= r
    {
      assert SpanOk(View(), spans, |order|, at);
      if IsRed(isRed, parent[at]) then 1 + |order| - (spans[at].hi - spans[at].lo) else 0
    }

    // One round of the fixup loop from the links g and colours red: what it leaves below the followed node n.
    method MendStep(at0: Ptr, ghost n: Ptr, ghost g: Links, ghost red: Colours) returns (at: Ptr)
      requires Inserting(at0) && IsRed(isRed, parent[at0]) && g == View() && red == isRed && Followed(g, at0, n)
      modifies this`top, this`left, this`right, this`parent, this`isRed, this`count, this`spans, this`bh
      ensures Mending(at) && RedClimb(at) < old(RedClimb(at0)) && Settled(g, red, View(), at0, n)
      ensures IsRed(isRed, parent[at]) ==> Followed(View(), at, n) && n != at
    {
      at := at0;
      GrandparentOf(g, spans, isRed, nodes, top, |order|, at);
      assert DownOk(g, nodes, parent[parent[at]]) && UpOk(g, nodes, top, parent[at]) && SpanOk(g, spans, |order|, at);
      if parent[at] == left[parent[parent[at]]] {
        var y := right[parent[parent[at]]];
        if y != NULL && isRed[y] {
          PushRedUp(at, y);
          at := parent[parent[at]];
        } else {
          at := TurnLeftPair(at, n, g, red);
        }
      } else {
        var y := left[parent[parent[at]]];
        if y != NULL && isRed[y] {
          PushRedUp(at, y);
          at := parent[parent[at]];
        } else {
          at := TurnRightPair(at, n, g, red);
        }
      }
    }

    // The fixup of an insertion; the new node comes to have children only if it is turned inwards.
    method MendInsertion(node: Ptr, ghost g: Links, ghost red: Colours)
      requires Inserting(node) && g == View() && red == isRed && Childless(g, node)
      modifies this`top, this`left, this`right, this`parent, this`isRed, this`count, this`spans, this`bh
      ensures Mended() && Settled(g, red, View(), node, node)
    {
      var at := node;
      ghost var started := false;
      assert UpOk(View(), nodes, top, at);
      while (if counted then parent[at] != NULL else top != at) && isRed[parent[at]]
        invariant Mending(at) && UpOk(View(), nodes, top, at)
        invariant started ==> Settled(g, red, View(), node, node)
        invariant if started then IsRed(isRed, parent[at]) ==> at != node && Followed(View(), at, node)
                  else at == node && View() == g && isRed == red && Inserting(at)
        decreases RedClimb(at)
      {
        ghost var before, colours := View(), isRed;
        at := MendStep(at, node, before, colours);
        started := true;
        assert UpOk(View(), nodes, top, at);
      }
      BlackenTop(at);
    }

    method BlackenTop(ghost at: Ptr)
      requires Mending(at) && !IsRed(isRed, parent[at])
      modifies this`isRed, this`bh
      ensures Mended()
    {
      WeakenColours(View(), isRed, nodes, at);
      TopBlackened(View(), isRed, bh, nodes, top, at);
      bh := if IsRed(isRed, top) then bh[top := bh[top] + 1] else bh;
      isRed := isRed[top := false];
    }

    // GSK_RBTREE_INSERT and GSK_RBCTREE_INSERT: links node in, or reports the equal node and changes nothing.
    method Insert(node: Ptr) returns (collision: Ptr)
      requires Valid() && node != NULL && node !in nodes && TotalOrderOn(cmp, nodes + {node})
      modifies this
      ensures Valid()
      ensures collision != NULL <==> exists n :: n in old(nodes) && cmp(n, node) == 0
      ensures collision != NULL ==>
        && collision in nodes && cmp(collision, node) == 0
        && nodes == old(nodes) && order == old(order) && top == old(top) && View() == old(View())
        && isRed == old(isRed) && count == old(count)
      ensures collision == NULL ==>
        && nodes == old(nodes) + {node} && node in spans && 0 <= spans[node].pos <= |old(order)|
        && order == old(order)[..spans[node].pos] + [node] + old(order)[spans[node].pos..]
        && Beneath(old(View()), old(isRed), old(order), spans[node].pos, node)
    {
      var last, lastWasLeft, at, k := Search(node);
      collision := NULL;
      if at != NULL {
        collision := at;
        return;
      }
      NoEqual(node, k);
      if last == NULL {
        PlantRoot(node, k);
      } else {
        AddLeaf(node, last, lastWasLeft, k);
      }
    }

    lemma NoEqual(node: Ptr, k: int)
      requires Valid() && Between(node, k)
      ensures forall n :: n in nodes ==> cmp(n, node) != 0
    {
      forall n | n in nodes ensures cmp(n, node) != 0 {
        assert RankOk(spans, order, n);
      }
    }

    // What lies to the left of a new node of rank k, in terms of the tree without it: nothing, or just the
    // node before it, if that node is placed so that the new one is turned inwards.
    ghost predicate Beneath(g: Links, red: Colours, before: seq<Ptr>, k: int, node: Ptr)
      requires 0 <= k <= |before|
      reads this`left, this`right, this`parent
    {
      && node in left
      && if k > 0 && TurnsAfter(g, red, before[k - 1]) then
           left[node] == before[k - 1] && left[node] != NULL && Childless(View(), left[node])
         else
           left[node] == NULL
    }

    method AddLeaf(node: Ptr, last: Ptr, lastWasLeft: bool, ghost k: int)
      requires Valid() && CanLink(View(), spans, nodes, top, |order|, last, lastWasLeft, node)
      requires k == LeafRank(spans, last, lastWasLeft) && Between(node, k) && TotalOrderOn(cmp, nodes + {node})
      modifies this
      ensures Valid() && nodes == old(nodes) + {node} && RankOk(spans, order, node) && spans[node].pos == k
      ensures order == old(order)[..k] + [node] + old(order)[k..]
      ensures Beneath(old(View()), old(isRed), old(order), k, node)
    {
      InsertSorted(node, k);
      LinkedTurns(View(), spans, isRed, bh, nodes, top, order, last, lastWasLeft, node, k);
      LinkLeaf(node, last, lastWasLeft, k);
      MendInsertion(node, View(), isRed);
      assert order[k] == node && RankOk(spans, order, node);
    }

    // The first node of a tree.
    method PlantRoot(node: Ptr, ghost k: int)
      requires Valid() && top == NULL && node != NULL && Between(node, k)
      modifies this
      ensures Valid() && nodes == old(nodes) + {node} && RankOk(spans, order, node) && spans[node].pos == k
      ensures order == old(order)[..k] + [node] + old(order)[k..]
      ensures Beneath(old(View()), old(isRed), old(order), k, node)
    {
      FirstIsNode(spans, nodes, order);
      PlantOnly(node);
    }

    method PlantOnly(node: Ptr)
      requires node != NULL
      modifies this
      ensures Valid() && nodes == {node} && order == [node]
      ensures node in spans && spans[node].pos == 0 && node in left && left[node] == NULL
    {
      WriteRoot(node);
      SingleNode(View(), isRed, node);
      nodes, order, spans, bh := {node}, [node], map[node := Span(0, 0, 1)], map[node := 1];
    }

    method WriteRoot(node: Ptr)
      modifies this`top, this`left, this`right, this`parent, this`isRed, this`count
      ensures node in left && node in right && node in parent && node in isRed && !isRed[node] && top == node
      ensures left[node] == NULL && right[node] == NULL && parent[node] == NULL
      ensures counted ==> node in count && count[node] == 1
    {
      top := node;
      isRed := isRed[node := false];
      left, right, parent := left[node := NULL], right[node := NULL], parent[node := NULL];
      if counted {
        count := count[node := 1];
      }
    }

    // ---- removal ----

    // GSK_RBTREE_NEXT: the node of the next rank.
    method Next(z: Ptr) returns (out: Ptr)
      requires Shaped() && z in nodes
      ensures z in spans && (out == NULL <==> spans[z].pos + 1 == |order|)
      ensures out != NULL ==> out in nodes && out in spans && spans[out].pos == spans[z].pos + 1
      ensures right[z] != NULL ==> out != NULL && left[out] == NULL
    {
      assert SpanOk(View(), spans, |order|, z) && DownOk(View(), nodes, z) && UpOk(View(), nodes, top, z);
      var at := z;
      if right[at] != NULL {
        at := right[at];
        assert SpanOk(View(), spans, |order|, at);
        while left[at] != NULL
          invariant at in nodes && SpanOk(View(), spans, |order|, at) && spans[at].lo == spans[z].pos + 1
          decreases spans[at].pos
        {
          assert DownOk(View(), nodes, at);
          at := left[at];
          assert SpanOk(View(), spans, |order|, at);
        }
        out := at;
      } else {
        var up := parent[z];
        assert RankOk(spans, order, z);
        while up != NULL && at == right[up]
          invariant at in nodes && SpanOk(View(), spans, |order|, at) && spans[at].hi == spans[z].pos + 1
          invariant up == parent[at] && UpOk(View(), nodes, top, at)
          decreases |order| - (spans[at].hi - spans[at].lo)
        {
          assert SpanOk(View(), spans, |order|, up) && UpOk(View(), nodes, top, up);
          at := up;
          up := parent[up];
        }
        if up != NULL { assert SpanOk(View(), spans, |order|, up) && RankOk(spans, order, up); }
        out := up;
      }
    }

    // _GSK_RBCTREE_FIX_COUNT_AND_UP: recomputes the counts of n and of the nodes above it.  The links may
    // still differ from those of the finished tree g in the parent fields of nodes that are not above n.
    method FixCountAndUp(n: Ptr, ghost g: Links)
      requires Linked(g, nodes, top) && Spanned(g, spans, nodes, top, |order|) && n in nodes
      requires left == g.left && right == g.right && nodes <= parent.Keys
      requires forall m :: m in Above(g, spans, nodes, top, |order|, n) ==>
        m in parent && m in g.parent && parent[m] == g.parent[m]
      requires Sized(count, spans, nodes, Above(g, spans, nodes, top, |order|, n))
      modifies this`count
      ensures Sized(count, spans, nodes, {}) && old(count).Keys <= count.Keys
    {
      var at := n;
      ghost var path := Above(g, spans, nodes, top, |order|, n);
      while at != NULL
        invariant at == NULL ==> path == {}
        invariant at != NULL ==> at in nodes && path == Above(g, spans, nodes, top, |order|, at)
        invariant forall m :: m in path ==> m in parent && m in g.parent && parent[m] == g.parent[m]
        invariant Sized(count, spans, nodes, path) && old(count).Keys <= count.Keys
        decreases |path|
      {
        AboveStep(g, spans, nodes, top, |order|, at);
        ghost var below, was := path, count;
        path := path - {at};
        FixCount(at, g);
        forall m | m in nodes && m !in path ensures SizeOk(count, spans, m) {
          if m != at { assert SizeOk(was, spans, m); }
        }
        at := parent[at];
      }
    }

    method FixCount(n: Ptr, ghost g: Links)
      requires Linked(g, nodes, top) && Spanned(g, spans, nodes, top, |order|) && n in nodes
      requires left == g.left && right == g.right
      requires Sized(count, spans, nodes, Above(g, spans, nodes, top, |order|, n))
      modifies this`count
      ensures n in spans && count == old(count)[n := spans[n].hi - spans[n].lo]
    {
      assert DownOk(g, nodes, n) && SpanOk(g, spans, |order|, n);
      var c := 1;
      if left[n] != NULL {
        ChildNotAbove(g, n, left[n]);
        c := c + count[left[n]];
      }
      if right[n] != NULL {
        ChildNotAbove(g, n, right[n]);
        c := c + count[right[n]];
      }
      count := count[n := c];
    }

    lemma ChildNotAbove(g: Links, n: Ptr, c: Ptr)
      requires Linked(g, nodes, top) && Spanned(g, spans, nodes, top, |order|) && n in nodes
      requires c != NULL && (c == g.left[n] || c == g.right[n])
      requires Sized(count, spans, nodes, Above(g, spans, nodes, top, |order|, n))
      ensures SizeOk(count, spans, c)
    {
      assert DownOk(g, nodes, n) && SpanOk(g, spans, |order|, n) && SpanOk(g, spans, |order|, c);
      if c in Above(g, spans, nodes, top, |order|, n) { AboveHolds(g, spans, nodes, top, |order|, n, c); }
      assert SizeOk(count, spans, c);
    }

    // Takes y, which has at most one child, out of the links; its own fields keep their values.
    method WriteSplice(y: Ptr) returns (x: Ptr, nullpar: Ptr)
      requires Shaped() && CanSplice(View(), nodes, top, y)
      modifies this`top, this`left, this`right, this`parent
      ensures old(parent[y]) != NULL ==> old(parent[y]) in old(left)
      ensures View() == Spliced(old(View()), y) && x == Survivor(old(View()), y)
      ensures top == if old(parent[y]) == NULL then x else old(top)
      ensures x == NULL ==> nullpar == old(parent[y])
    {
      assert UpOk(View(), nodes, top, y) && DownOk(View(), nodes, y) && SpanOk(View(), spans, |order|, y);
      nullpar := NULL;
      x := if left[y] != NULL then left[y] else right[y];
      if x != NULL {
        parent := parent[x := parent[y]];
      } else {
        nullpar := parent[y];
      }
      if parent[y] == NULL {
        top := x;
      } else if y == left[parent[y]] {
        left := left[parent[y] := x];
      } else {
        right := right[parent[y] := x];
      }
    }

    // What remains to be mended once a node has been spliced out: child x of p, on side dl, lacks one black.
    ghost predicate Lacking(x: Ptr, p: Ptr, dl: bool)
      reads this
    {
      && Shaped() && (x != NULL ==> x in nodes) && (IsRed(isRed, top) ==> top == x)
      && Coloured(View(), isRed, nodes, x, x) && Balanced(View(), isRed, bh, nodes, p, dl)
      && (p == NULL <==> x == top)
      && (p != NULL ==> p in nodes && x == (if dl then left[p] else right[p]))
    }

    // The nodes next to y, which is to be spliced out.
    lemma SpliceAround(y: Ptr)
      requires Shaped() && CanSplice(View(), nodes, top, y)
      ensures y in spans && 0 <= spans[y].pos < |order| && y in parent && y != parent[y] && Survivor(View(), y) != y
      ensures parent[y] != NULL ==> parent[y] in left && parent[y] in nodes
      ensures Survivor(View(), y) != NULL ==> Survivor(View(), y) in nodes
    {
      assert UpOk(View(), nodes, top, y) && DownOk(View(), nodes, y) && SpanOk(View(), spans, |order|, y);
      if parent[y] != NULL { assert SpanOk(View(), spans, |order|, parent[y]); }
      if Survivor(View(), y) != NULL { assert SpanOk(View(), spans, |order|, Survivor(View(), y)); }
    }

    // The links, spans and ranks of the tree without y.
    lemma SpliceShaped(y: Ptr)
      requires Shaped() && Counts({}) && CanSplice(View(), nodes, top, y)
      requires y in spans && 0 <= spans[y].pos < |order| && y in parent && y in left && y in right
      requires parent[y] != NULL ==> parent[y] in left && parent[y] in nodes && parent[y] != y
      ensures var k, g', nodes' := spans[y].pos, Spliced(View(), y), nodes - {y};
        var top' := if parent[y] == NULL then Survivor(View(), y) else top;
        && Linked(g', nodes', top') && Spanned(g', ShrunkSpans(spans, k), nodes', top', |order| - 1)
        && Ranked(ShrunkSpans(spans, k), nodes', order[..k] + order[k + 1..])
        && (counted ==> y in count && Sized(count, ShrunkSpans(spans, k), nodes',
              if parent[y] == NULL then {} else
                Above(g', ShrunkSpans(spans, k), nodes', top', |order| - 1, parent[y])))
    {
      SpliceKeepsRanks(spans, nodes, order, y);
      SpliceKeepsLinks(View(), spans, nodes, top, order, y);
      SpliceKeepsSpans(View(), spans, nodes, top, order, y);
      if counted { SpliceSizes(View(), count, spans, nodes, top, order, y); }
    }

    // A red node leaves nothing to mend; a black one leaves its place lacking one black.
    lemma SpliceColoured(y: Ptr)
      requires Valid() && CanSplice(View(), nodes, top, y)
      ensures y in parent && y in isRed && (parent[y] != NULL ==> parent[y] in left && parent[y] in right)
      ensures var g', x, p, nodes' := Spliced(View(), y), Survivor(View(), y), parent[y], nodes - {y};
        var top' := if p == NULL then x else top;
        if isRed[y] then
          && Coloured(g', isRed, nodes', NULL, NULL) && Balanced(g', isRed, bh, nodes', NULL, true)
          && !IsRed(isRed, top')
        else
          && Coloured(g', isRed, nodes', x, x) && Balanced(g', isRed, bh, nodes', p, p in left && left[p] == y)
          && (IsRed(isRed, top') ==> top' == x) && (p == NULL <==> x == top')
          && (p != NULL ==> p in g'.left && p in g'.right && x == (if left[p] == y then g'.left[p] else g'.right[p]))
    {
      assert UpOk(View(), nodes, top, y) && DownOk(View(), nodes, y) && RedOk(View(), isRed, y, NULL, NULL);
      SpliceKeepsColours(View(), isRed, bh, spans, nodes, top, |order|, y);
      if parent[y] != NULL { assert DownOk(View(), nodes, parent[y]); }
      if !isRed[y] {
        WeakenBoth(Spliced(View(), y), isRed, nodes - {y}, NULL, Survivor(View(), y), Survivor(View(), y));
      }
    }

    method SpliceLinks(y: Ptr) returns (x: Ptr, nullpar: Ptr)
      requires Valid() && CanSplice(View(), nodes, top, y)
      modifies this`top, this`left, this`right, this`parent, this`count, this`nodes, this`order, this`spans
      ensures Shaped() && nodes == old(nodes) - {y} && Counts({}) && (counted ==> y in count)
      ensures y in old(spans) && spans == ShrunkSpans(old(spans), old(spans)[y].pos)
      ensures 0 <= old(spans)[y].pos < |old(order)|
      ensures order == old(order)[..old(spans)[y].pos] + old(order)[old(spans)[y].pos + 1..]
      ensures y in old(left) && y in old(right) && y in old(parent)
      ensures old(parent[y]) != NULL ==> old(parent[y]) in old(left)
      ensures View() == Spliced(old(View()), y) && x == Survivor(old(View()), y)
      ensures top == if old(parent[y]) == NULL then x else old(top)
      ensures x == NULL ==> nullpar == old(parent[y])
      ensures x != y && old(parent[y]) != y && (x != NULL ==> x in nodes)
      ensures old(parent[y]) != NULL ==> old(parent[y]) in nodes
    {
      ghost var g', x', top', nodes', order', spans' := SpliceOutcome(y);
      x, nullpar := WriteSplice(y);
      nodes, order, spans := nodes', order', spans';
      CountSplice(parent[y]);
    }

    // What the tree is without y, apart from the counts above it.
    lemma SpliceOutcome(y: Ptr)
      returns (g': Links, x': Ptr, top': Ptr, nodes': set<Ptr>, order': seq<Ptr>, spans': Spans)
      requires Valid() && CanSplice(View(), nodes, top, y)
      ensures y in spans && 0 <= spans[y].pos < |order| && y in parent && y in left && y in right
      ensures parent[y] != y && (parent[y] != NULL ==> parent[y] in left) && (counted ==> y in count)
      ensures g' == Spliced(View(), y) && x' == Survivor(View(), y) && nodes' == nodes - {y}
      ensures top' == if parent[y] == NULL then x' else top
      ensures order' == order[..spans[y].pos] + order[spans[y].pos + 1..]
      ensures spans' == ShrunkSpans(spans, spans[y].pos)
      ensures x' != y && (x' != NULL ==> x' in nodes')
      ensures Whole(Recounted(g', top', nodes', order', spans', parent[y]))
    {
      SpliceAround(y);
      SpliceShaped(y);
      g', x', nodes' := Spliced(View(), y), Survivor(View(), y), nodes - {y};
      top' := if parent[y] == NULL then x' else top;
      order', spans' := order[..spans[y].pos] + order[spans[y].pos + 1..], ShrunkSpans(spans, spans[y].pos);
    }

    // A tree whose counts are right, except perhaps for the node p and the ones above it.
    ghost predicate Recounted(g: Links, top: Ptr, nodes: set<Ptr>, order: seq<Ptr>, spans: Spans, p: Ptr)
      reads this`isRed, this`count
    {
      && Linked(g, nodes, top) && Spanned(g, spans, nodes, top, |order|) && Ranked(spans, nodes, order)
      && nodes <= isRed.Keys && (p != NULL ==> p in nodes)
      && (counted ==> Sized(count, spans, nodes, if p == NULL then {} else Above(g, spans, nodes, top, |order|, p)))
    }

    method CountSplice(p: Ptr)
      requires Whole(Recounted(View(), top, nodes, order, spans, p))
      modifies this`count
      ensures Whole(Shaped() && Counts({})) && old(count).Keys <= count.Keys
    {
      if counted && p != NULL {
        FixCountAndUp(p, View());
      }
    }

    method SpliceOut(y: Ptr) returns (x: Ptr, nullpar: Ptr, ghost p: Ptr, ghost dl: bool)
      requires Valid() && CanSplice(View(), nodes, top, y)
      modifies this`top, this`left, this`right, this`parent, this`count, this`nodes, this`order, this`spans
      ensures Shaped() && nodes == old(nodes) - {y} && Counts({}) && (counted ==> y in count)
      ensures y in old(spans) && spans == ShrunkSpans(old(spans), old(spans)[y].pos)
      ensures 0 <= old(spans)[y].pos < |old(order)|
      ensures order == old(order)[..old(spans)[y].pos] + old(order)[old(spans)[y].pos + 1..]
      ensures y in isRed && if isRed[y] then Mended() else Lacking(x, p, dl)
      ensures p != NULL && x == NULL ==> nullpar == p
      ensures x != y && p != y && x == old(if left[y] != NULL then left[y] else right[y])
      ensures y in left && y in right && y in parent
    {
      SpliceColoured(y);
      p := parent[y];
      dl := p in left && left[p] == y;
      x, nullpar := SpliceLinks(y);
    }

    // The first half of the writes by which y takes the place of z; the children still name z as their parent.
    method WriteReplace(z: Ptr, y: Ptr)
      requires Linked(View(), nodes, top) && z in nodes && y !in nodes && y != NULL && z in isRed
      modifies this`top, this`left, this`right, this`parent, this`isRed
      ensures old(parent[z]) != NULL ==> old(parent[z]) in old(left)
      ensures View() == Replaced(old(View()), z, y).(parent := old(parent)[y := old(parent[z])])
      ensures top == if old(parent[z]) == NULL then y else old(top)
      ensures isRed == old(isRed)[y := old(isRed[z])]
    {
      assert UpOk(View(), nodes, top, z) && DownOk(View(), nodes, z);
      isRed := isRed[y := isRed[z]];
      left := left[y := left[z]];
      right := right[y := right[z]];
      parent := parent[y := parent[z]];
      if parent[y] != NULL {
        if left[parent[y]] == z {
          left := left[parent[y] := y];
        } else {
          right := right[parent[y] := y];
        }
      } else {
        top := y;
      }
    }

    lemma ReplaceShaped(z: Ptr, y: Ptr)
      requires Shaped() && z in nodes && y !in nodes && y != NULL && y in left && y in right && y in parent
      ensures z in spans && 0 <= spans[z].pos < |order| && (parent[z] != NULL ==> parent[z] in left)
      ensures var g', nodes', top' := Replaced(View(), z, y), nodes - {z} + {y}, if parent[z] == NULL then y else top;
        && Linked(g', nodes', top') && Spanned(g', spans[y := spans[z]], nodes', top', |order|)
        && Ranked(spans[y := spans[z]], nodes', order[spans[z].pos := y])
    {
      assert SpanOk(View(), spans, |order|, z);
      ReplaceKeepsLinks(View(), spans, nodes, top, |order|, z, y);
      ReplaceKeepsSpans(View(), spans, nodes, top, |order|, z, y);
      ReplaceKeepsRanks(spans, nodes, order, z, y);
    }

    lemma ReplaceColoured(z: Ptr, y: Ptr, x: Ptr, p: Ptr, dl: bool)
      requires Shaped() && z in nodes && y !in nodes && y != NULL && y in left && y in right && y in parent
      requires z != x && y != x && (p == NULL || p in nodes)
      requires Coloured(View(), isRed, nodes, x, x) && Balanced(View(), isRed, bh, nodes, p, dl)
      ensures (parent[z] != NULL ==> parent[z] in left) && z in isRed && z in bh
      ensures var g', red' := Replaced(View(), z, y), isRed[y := isRed[z]];
        && Coloured(g', red', nodes - {z} + {y}, x, x)
        && Balanced(g', red', bh[y := bh[z]], nodes - {z} + {y}, if p == z then y else p, dl)
      ensures var g', p' := Replaced(View(), z, y), if p == z then y else p;
        p != NULL && x == (if dl then left[p] else right[p]) ==>
          p' in g'.left && p' in g'.right && x == (if dl then g'.left[p'] else g'.right[p'])
    {
      assert SpanOk(View(), spans, |order|, z) && UpOk(View(), nodes, top, z) && DownOk(View(), nodes, z);
      assert RedOk(View(), isRed, z, x, x) && BalOk(View(), isRed, bh, z, p, dl);
      if parent[z] != NULL { assert DownOk(View(), nodes, parent[z]) && SpanOk(View(), spans, |order|, parent[z]); }
      if p != NULL { assert DownOk(View(), nodes, p); }
      ReplaceKeepsColours(View(), isRed, bh, spans, nodes, top, |order|, z, y, x, p, dl);
    }

    // No child of y is above y, so its parent field does not matter on the way up from y.
    lemma ChildrenAside(g: Links, y: Ptr)
      requires Linked(g, nodes, top) && Spanned(g, spans, nodes, top, |order|) && y in nodes
      ensures forall m :: m in Above(g, spans, nodes, top, |order|, y) ==> m != g.left[y] && m != g.right[y]
    {
      forall m | m in Above(g, spans, nodes, top, |order|, y) ensures m != g.left[y] && m != g.right[y] {
        AboveHolds(g, spans, nodes, top, |order|, y, m);
        assert DownOk(g, nodes, y) && SpanOk(g, spans, |order|, y) && SpanOk(g, spans, |order|, m);
      }
    }

    // The second half: the children of y name it as their parent.
    method Adopt(z: Ptr, y: Ptr, ghost g: Links)
      requires z in g.left && z in g.right && z in g.parent && (g.parent[z] != NULL ==> g.parent[z] in g.left)
      requires g.parent[z] != y && View() == Replaced(g, z, y).(parent := g.parent[y := g.parent[z]])
      modifies this`parent
      ensures View() == Replaced(g, z, y)
    {
      if left[y] != NULL {
        parent := parent[left[y] := y];
      }
      if right[y] != NULL {
        parent := parent[right[y] := y];
      }
    }

    // y, which is not in the tree, gets the links, colour and count of z.
    method Occupy(z: Ptr, y: Ptr)
      requires Shaped() && Counts({}) && z in nodes && y !in nodes && y != NULL && z in isRed
      requires y in left && y in right && y in parent && (counted ==> y in count)
      requires parent[z] != NULL ==> parent[z] in left
      modifies this`top, this`left, this`right, this`parent, this`isRed, this`count, this`nodes, this`order, this`spans
      ensures Whole(Shaped() && Counts({})) && nodes == old(nodes) - {z} + {y}
      ensures z in old(spans) && 0 <= old(spans)[z].pos < |old(order)| && order == old(order)[old(spans)[z].pos := y]
      ensures View() == Replaced(old(View()), z, y) && isRed == old(isRed)[y := old(isRed[z])]
      ensures top == if old(parent[z]) == NULL then y else old(top)
    {
      ghost var g, g', nodes', order', spans' := ReplaceOutcome(z, y);
      WriteReplace(z, y);
      nodes, order, spans := nodes', order', spans';
      CountAndAdopt(z, y, g, g');
    }

    // The links are those of the finished tree g', but for the parent fields of the children of y.
    method CountAndAdopt(z: Ptr, y: Ptr, ghost g: Links, ghost g': Links)
      requires z in g.left && z in g.right && z in g.parent && (g.parent[z] != NULL ==> g.parent[z] in g.left)
      requires g.parent[z] != y && g' == Replaced(g, z, y) && View() == g'.(parent := g.parent[y := g.parent[z]])
      requires nodes <= parent.Keys && Whole(Replacing(g', top, nodes, order, spans, y)) && y in isRed
      modifies this`parent, this`count
      ensures Whole(Shaped() && Counts({})) && View() == g'
    {
      CountReplace(y, g');
      Adopt(z, y, g);
    }

    // What the tree is with y in the place of z.
    lemma ReplaceOutcome(z: Ptr, y: Ptr)
      returns (g: Links, g': Links, nodes': set<Ptr>, order': seq<Ptr>, spans': Spans)
      requires Shaped() && Counts({}) && z in nodes && y !in nodes && y != NULL && z in isRed
      requires y in left && y in right && y in parent && (counted ==> y in count)
      ensures z in spans && 0 <= spans[z].pos < |order| && (parent[z] != NULL ==> parent[z] in left) && parent[z] != y
      ensures g == View() && g' == Replaced(View(), z, y) && nodes' == nodes - {z} + {y}
      ensures order' == order[spans[z].pos := y] && spans' == spans[y := spans[z]]
      ensures Whole(Replacing(g', if parent[z] == NULL then y else top, nodes', order', spans', y))
    {
      assert UpOk(View(), nodes, top, z);
      ReplaceShaped(z, y);
      if counted { ReplaceSizes(count, spans, nodes, z, y); }
      g, g', nodes' := View(), Replaced(View(), z, y), nodes - {z} + {y};
      order', spans' := order[spans[z].pos := y], spans[y := spans[z]];
    }

    ghost predicate Replacing(g: Links, top: Ptr, nodes: set<Ptr>, order: seq<Ptr>, spans: Spans, y: Ptr)
      reads this`isRed, this`count
    {
      && Linked(g, nodes, top) && Spanned(g, spans, nodes, top, |order|) && Ranked(spans, nodes, order)
      && nodes <= isRed.Keys + {y} && y in nodes && (counted ==> Sized(count, spans, nodes, {y}))
    }

    // The counts of y and of the nodes above it, when only the children of y do not yet name it as their parent.
    method CountReplace(y: Ptr, ghost g: Links)
      requires Whole(Replacing(g, top, nodes, order, spans, y)) && left == g.left && right == g.right
      requires nodes <= parent.Keys
      requires forall m :: m in nodes && m != g.left[y] && m != g.right[y] ==> parent[m] == g.parent[m]
      modifies this`count
      ensures Counts({})
    {
      if counted {
        ChildrenAside(g, y);
        FixCountAndUp(y, g);
      }
    }

    method TakePlace(z: Ptr, y: Ptr, ghost x: Ptr, ghost p: Ptr, ghost dl: bool)
      requires Shaped() && Counts({}) && z in nodes && y !in nodes && y != NULL
      requires y in left && y in right && y in parent && (counted ==> y in count)
      requires z != x && y != x && p != y
      requires Lacking(x, p, dl) || (x == NULL && p == NULL && dl && Mended())
      modifies this`top, this`left, this`right, this`parent, this`isRed, this`count,
               this`nodes, this`order, this`spans, this`bh
      ensures Shaped() && Counts({}) && nodes == old(nodes) - {z} + {y}
      ensures z in old(spans) && 0 <= old(spans)[z].pos < |old(order)| && order == old(order)[old(spans)[z].pos := y]
      ensures old(Lacking(x, p, dl)) ==> Lacking(x, if p == z then y else p, dl)
      ensures old(Mended()) && x == NULL && p == NULL && dl ==> Mended()
    {
      ReplaceColoured(z, y, x, p, dl);
      assert UpOk(View(), nodes, top, z);
      Occupy(z, y);
      bh := bh[y := bh[z]];
    }

    // The left child of p lacks one black, and nothing else is amiss.
    ghost predicate ShortOnLeft(p: Ptr)
      reads this
    {
      Shaped() && Counts({}) && !IsRed(isRed, top) && LeftDeficit(View(), isRed, bh, nodes, top, p)
    }

    ghost predicate ShortOnRight(p: Ptr)
      reads this
    {
      Shaped() && Counts({}) && !IsRed(isRed, top) && LeftDeficit(Mirror(View()), isRed, bh, nodes, top, p)
    }

    // A red sibling on the right: turned up, it leaves a black sibling.
    method TurnRedSiblingLeft(p: Ptr, w: Ptr)
      requires ShortOnLeft(p) && w == right[p] && IsRed(isRed, w)
      modifies this`top, this`left, this`right, this`parent, this`isRed, this`count, this`spans, this`bh
      ensures ShortOnLeft(p) && left[p] == old(left[p]) && !IsRed(isRed, right[p])
      ensures left[p] != NULL ==> left[p] in old(spans) && left[p] in spans && spans[left[p]] == old(spans)[left[p]]
    {
      ghost var g := View();
      SiblingOf(g, isRed, bh, nodes, top, p);
      Rotatable(g, spans, nodes, top, |order|, p);
      RedSibling(g, isRed, bh, nodes, top, p);
      assert DownOk(g, nodes, p) && SpanOk(g, spans, |order|, p) && RankOk(spans, order, p) && RankOk(spans, order, w);
      bh := bh[w := bh[p]][p := bh[p] - 1];
      isRed := isRed[w := false];
      isRed := isRed[p := true];
      RotateLeft(p);
    }

    method TurnRedSiblingRight(p: Ptr, w: Ptr)
      requires ShortOnRight(p) && w == left[p] && IsRed(isRed, w)
      modifies this`top, this`left, this`right, this`parent, this`isRed, this`count, this`spans, this`bh
      ensures ShortOnRight(p) && right[p] == old(right[p]) && !IsRed(isRed, left[p])
      ensures right[p] != NULL ==>
        right[p] in old(spans) && right[p] in spans && spans[right[p]] == old(spans)[right[p]]
    {
      ghost var g := View();
      SiblingOf(Mirror(g), isRed, bh, nodes, top, p);
      RotatableRight(g, spans, nodes, top, |order|, p);
      RedSibling(Mirror(g), isRed, bh, nodes, top, p);
      assert DownOk(g, nodes, p) && SpanOk(g, spans, |order|, p) && RankOk(spans, order, p) && RankOk(spans, order, w);
      bh := bh[w := bh[p]][p := bh[p] - 1];
      isRed := isRed[w := false];
      isRed := isRed[p := true];
      RotateRight(p);
    }

    // The sibling w and its children are black: w turns red and p lacks the black instead.
    method ReddenSibling(p: Ptr, w: Ptr, ghost onLeft: bool)
      requires if onLeft then ShortOnLeft(p) && w == right[p] else ShortOnRight(p) && w == left[p]
      requires w in nodes && !IsRed(isRed, w) && !IsRed(isRed, left[w]) && !IsRed(isRed, right[w])
      modifies this`isRed, this`bh
      ensures Counts({}) && Lacking(p, parent[p], parent[p] in left && left[parent[p]] == p)
    {
      ghost var g := View();
      assert DownOk(g, nodes, p) && UpOk(g, nodes, top, p) && DownOk(g, nodes, w);
      assert parent[p] != NULL ==> DownOk(g, nodes, parent[p]);
      if onLeft {
        SiblingOf(g, isRed, bh, nodes, top, p);
        BlackSibling(g, isRed, bh, nodes, top, p);
      } else {
        SiblingOf(Mirror(g), isRed, bh, nodes, top, p);
        BlackSibling(Mirror(g), isRed, bh, nodes, top, p);
        ghost var q := parent[p];
        MirrorColours(Mirror(g), isRed[w := true], bh[w := bh[w] - 1][p := bh[p] - 1], nodes, p, p, q,
                      q in right && right[q] == p);
      }
      bh := bh[w := bh[w] - 1][p := bh[p] - 1];
      isRed := isRed[w := true];
    }

    // The sibling's inner child, here its left one, is the only red one: turn it up.
    method TurnInnerNephewRight(p: Ptr, w: Ptr)
      requires ShortOnLeft(p) && w == right[p] && w in nodes && !IsRed(isRed, w)
      requires IsRed(isRed, left[w]) && !IsRed(isRed, right[w])
      modifies this`top, this`left, this`right, this`parent, this`isRed, this`count, this`spans, this`bh
      ensures ShortOnLeft(p) && right[p] in nodes && !IsRed(isRed, right[p])
      ensures right[right[p]] == w && IsRed(isRed, w) && left[p] == old(left[p])
    {
      ghost var g, r := View(), left[w];
      SiblingOf(g, isRed, bh, nodes, top, p);
      assert DownOk(g, nodes, p) && DownOk(g, nodes, w);
      RotatableRight(g, spans, nodes, top, |order|, w);
      MirrorLinked(g, nodes, top);
      InnerRedNephew(Mirror(g), isRed, bh, nodes, top, p);
      bh := bh[r := bh[w]][w := bh[w] - 1];
      if left[w] != NULL {
        isRed := isRed[left[w] := false];
      }
      isRed := isRed[w := true];
      RotateRight(w);
      assert DownOk(View(), nodes, p);
    }

    method TurnInnerNephewLeft(p: Ptr, w: Ptr)
      requires ShortOnRight(p) && w == left[p] && w in nodes && !IsRed(isRed, w)
      requires IsRed(isRed, right[w]) && !IsRed(isRed, left[w])
      modifies this`top, this`left, this`right, this`parent, this`isRed, this`count, this`spans, this`bh
      ensures ShortOnRight(p) && left[p] in nodes && !IsRed(isRed, left[p])
      ensures left[left[p]] == w && IsRed(isRed, w) && right[p] == old(right[p])
    {
      ghost var g, r := View(), right[w];
      SiblingOf(Mirror(g), isRed, bh, nodes, top, p);
      assert DownOk(g, nodes, p) && DownOk(g, nodes, w);
      Rotatable(g, spans, nodes, top, |order|, w);
      InnerRedNephew(g, isRed, bh, nodes, top, p);
      bh := bh[r := bh[w]][w := bh[w] - 1];
      isRed := isRed[right[w] := false];
      isRed := isRed[w := true];
      RotateLeft(w);
      assert DownOk(View(), nodes, p);
    }

    // The sibling's outer child is red: a rotation of p pays what is missing.
    method TurnOuterNephewLeft(p: Ptr, w: Ptr)
      requires ShortOnLeft(p) && w == right[p] && w in nodes && !IsRed(isRed, w) && IsRed(isRed, right[w])
      modifies this`top, this`left, this`right, this`parent, this`isRed, this`count, this`spans, this`bh
      ensures Mended()
    {
      ghost var g, s := View(), right[w];
      SiblingOf(g, isRed, bh, nodes, top, p);
      assert DownOk(g, nodes, p) && DownOk(g, nodes, w) && UpOk(g, nodes, top, p) && UpOk(g, nodes, top, s);
      Rotatable(g, spans, nodes, top, |order|, p);
      assert RedOk(g, isRed, p, NULL, NULL);
      OuterRedNephew(g, isRed, bh, nodes, top, p);
      bh := bh[w := bh[p]][p := bh[w]][s := bh[s] + 1];
      isRed := isRed[w := isRed[p]];
      isRed := isRed[p := false];
      isRed := isRed[right[w] := false];
      RotateLeft(p);
    }

    method TurnOuterNephewRight(p: Ptr, w: Ptr)
      requires ShortOnRight(p) && w == left[p] && w in nodes && !IsRed(isRed, w) && IsRed(isRed, left[w])
      modifies this`top, this`left, this`right, this`parent, this`isRed, this`count, this`spans, this`bh
      ensures Mended()
    {
      ghost var g, s := View(), left[w];
      SiblingOf(Mirror(g), isRed, bh, nodes, top, p);
      assert DownOk(g, nodes, p) && DownOk(g, nodes, w) && UpOk(g, nodes, top, p) && UpOk(g, nodes, top, s);
      RotatableRight(g, spans, nodes, top, |order|, p);
      assert RedOk(Mirror(g), isRed, p, NULL, NULL);
      OuterRedNephew(Mirror(g), isRed, bh, nodes, top, p);
      bh := bh[w := bh[p]][p := bh[w]][s := bh[s] + 1];
      isRed := isRed[w := isRed[p]];
      isRed := isRed[p := false];
      if left[w] != NULL {
        isRed := isRed[left[w] := false];
      }
      RotateRight(p);
      MirrorColours(Rotated(Mirror(g), p), isRed, bh, nodes, NULL, NULL, NULL, true);
    }

    // The state of the loop that mends a removal: x lacks one black at p, or everything is mended and x is the top.
    ghost predicate Climbing(x: Ptr, p: Ptr, dl: bool)
      reads this
    {
      Counts({}) && (Lacking(x, p, dl) || (Mended() && x == top && p == NULL && dl))
    }

    ghost function BlackClimb(x: Ptr): (r: int)
      requires Shaped() && (x == NULL || x in nodes)
      reads this
      ensures 0 <= r
    {
      if x == top then 0 else if x == NULL then 1 + |order| else
        assert SpanOk(View(), spans, |order|, x);
        1 + |order| - (spans[x].hi - spans[x].lo)
    }

    lemma ShortSide(x: Ptr, p: Ptr, dl: bool)
      requires Counts({}) && Lacking(x, p, dl) && x != top && !IsRed(isRed, x)
      ensures p in nodes && (x != NULL ==> parent[x] == p)
      ensures dl <==> x == left[p]
      ensures if dl then ShortOnLeft(p) else ShortOnRight(p)
    {
      BlackNeedsNoExemption(View(), isRed, nodes, x);
      MirrorLinked(View(), nodes, top);
      MirrorColours(View(), isRed, bh, nodes, NULL, NULL, p, dl);
      assert DownOk(View(), nodes, p) && BalOk(View(), isRed, bh, p, p, dl);
      if x != NULL { assert BalOk(View(), isRed, bh, x, p, dl); }
    }

    method ClimbLeft(x0: Ptr, p: Ptr) returns (x: Ptr, ghost p': Ptr, ghost dl': bool)
      requires ShortOnLeft(p) && x0 == left[p] && x0 != top && (x0 == NULL || x0 in nodes)
      modifies this`top, this`left, this`right, this`parent, this`isRed, this`count, this`spans, this`bh
      ensures Climbing(x, p', dl') && x in nodes && BlackClimb(x) < old(BlackClimb(x0))
    {
      x := x0;
      SiblingOf(View(), isRed, bh, nodes, top, p);
      assert DownOk(View(), nodes, p);
      var w := right[p];
      if w != NULL && isRed[w] {
        TurnRedSiblingLeft(p, w);
        w := right[p];
      }
      SiblingOf(View(), isRed, bh, nodes, top, p);
      assert DownOk(View(), nodes, p) && DownOk(View(), nodes, w) && SpanOk(View(), spans, |order|, p);
      if x != NULL { assert SpanOk(View(), spans, |order|, x); }
      if !(left[w] != NULL && isRed[left[w]]) && !(right[w] != NULL && isRed[right[w]]) {
        ReddenSibling(p, w, true);
        x, p', dl' := p, parent[p], parent[p] in left && left[parent[p]] == p;
      } else {
        if !(right[w] != NULL && isRed[right[w]]) {
          TurnInnerNephewRight(p, w);
          w := right[p];
        }
        TurnOuterNephewLeft(p, w);
        x, p', dl' := top, NULL, true;
      }
    }

    method ClimbRight(x0: Ptr, p: Ptr) returns (x: Ptr, ghost p': Ptr, ghost dl': bool)
      requires ShortOnRight(p) && x0 == right[p] && x0 != top && (x0 == NULL || x0 in nodes)
      modifies this`top, this`left, this`right, this`parent, this`isRed, this`count, this`spans, this`bh
      ensures Climbing(x, p', dl') && x in nodes && BlackClimb(x) < old(BlackClimb(x0))
    {
      x := x0;
      SiblingOf(Mirror(View()), isRed, bh, nodes, top, p);
      assert DownOk(View(), nodes, p);
      var w := left[p];
      if w != NULL && isRed[w] {
        TurnRedSiblingRight(p, w);
        w := left[p];
      }
      SiblingOf(Mirror(View()), isRed, bh, nodes, top, p);
      assert DownOk(View(), nodes, p) && DownOk(View(), nodes, w) && SpanOk(View(), spans, |order|, p);
      if x != NULL { assert SpanOk(View(), spans, |order|, x); }
      if !(right[w] != NULL && isRed[right[w]]) && !(left[w] != NULL && isRed[left[w]]) {
        ReddenSibling(p, w, false);
        x, p', dl' := p, parent[p], parent[p] in left && left[parent[p]] == p;
      } else {
        if !(left[w] != NULL && isRed[left[w]]) {
          TurnInnerNephewLeft(p, w);
          w := left[p];
        }
        TurnOuterNephewRight(p, w);
        x, p', dl' := top, NULL, true;
      }
    }

    method MendRemoval(x0: Ptr, nullpar: Ptr, ghost p0: Ptr, ghost dl0: bool)
      requires Counts({}) && Lacking(x0, p0, dl0) && (p0 != NULL && x0 == NULL ==> nullpar == p0)
      modifies this`top, this`left, this`right, this`parent, this`isRed, this`count, this`spans, this`bh
      ensures Mended()
    {
      var x := x0;
      ghost var p, dl := p0, dl0;
      while x != top && !(x != NULL && isRed[x])
        invariant (x == NULL || x in nodes) && Climbing(x, p, dl) && nodes <= isRed.Keys
        invariant x == NULL && x != top ==> nullpar == p
        decreases BlackClimb(x)
      {
        ShortSide(x, p, dl);
        var xparent := if x != NULL then parent[x] else nullpar;
        if x == left[xparent] {
          x, p, dl := ClimbLeft(x, xparent);
        } else {
          x, p, dl := ClimbRight(x, xparent);
        }
      }
      PayDeficit(x, p, dl);
    }

    method PayDeficit(x: Ptr, ghost p: Ptr, ghost dl: bool)
      requires Climbing(x, p, dl) && (x == top || IsRed(isRed, x))
      modifies this`isRed, this`bh
      ensures Mended()
    {
      if x != NULL {
        if Mended() { WeakenBoth(View(), isRed, nodes, NULL, NULL, x); }
        DeficitPaid(View(), isRed, bh, nodes, top, x, p, dl);
        bh := if IsRed(isRed, x) then bh[x := bh[x] + 1] else bh;
        isRed := isRed[x := false];
      }
    }

    // What a removal has to mend after z has left the links: nothing, or a black that x lacks.
    ghost predicate Unhooked(fixup: bool, x: Ptr, nullpar: Ptr, p: Ptr, dl: bool)
      reads this
    {
      if fixup then Counts({}) && Lacking(x, p, dl) && (p != NULL && x == NULL ==> nullpar == p) else Mended()
    }

    lemma SplicedThenReplaced(order: seq<Ptr>, k: int, y: Ptr)
      requires 0 <= k && k + 1 < |order| && order[k + 1] == y
      ensures (order[..k + 1] + order[k + 2..])[k := y] == order[..k] + order[k + 1..]
    {
    }

    // z has two children: its successor y is spliced out and takes its place.
    method UnhookInner(z: Ptr, y: Ptr) returns (fixup: bool, x: Ptr, nullpar: Ptr, ghost p: Ptr, ghost dl: bool)
      requires Valid() && CanSplice(View(), nodes, top, y) && z in nodes && left[y] == NULL
      requires z in spans && y in spans && spans[y].pos == spans[z].pos + 1 < |order|
      modifies this`top, this`left, this`right, this`parent, this`isRed, this`count,
               this`nodes, this`order, this`spans, this`bh
      ensures nodes == old(nodes) - {z} && Unhooked(fixup, x, nullpar, p, dl)
      ensures 0 <= old(spans)[z].pos
      ensures order == old(order)[..old(spans)[z].pos] + old(order)[old(spans)[z].pos + 1..]
    {
      ghost var order0, k := order, spans[z].pos;
      assert DownOk(View(), nodes, y) && SpanOk(View(), spans, |order|, y) && SpanOk(View(), spans, |order|, z);
      if right[y] != NULL { assert SpanOk(View(), spans, |order|, right[y]); }
      assert RankOk(spans, order, y);
      x, nullpar, p, dl := SpliceOut(y);
      fixup := !isRed[y];
      TakePlace(z, y, if fixup then x else NULL, if fixup then p else NULL, if fixup then dl else true);
      if nullpar == z {
        nullpar := y;
      }
      p := if p == z then y else p;
      SplicedThenReplaced(order0, k, y);
    }

    method Unhook(z: Ptr) returns (fixup: bool, x: Ptr, nullpar: Ptr, ghost p: Ptr, ghost dl: bool)
      requires Valid() && z in nodes
      modifies this`top, this`left, this`right, this`parent, this`isRed, this`count,
               this`nodes, this`order, this`spans, this`bh
      ensures nodes == old(nodes) - {z} && Unhooked(fixup, x, nullpar, p, dl)
      ensures z in old(spans) && 0 <= old(spans)[z].pos < |old(order)|
      ensures order == old(order)[..old(spans)[z].pos] + old(order)[old(spans)[z].pos + 1..]
    {
      assert DownOk(View(), nodes, z) && SpanOk(View(), spans, |order|, z) && RankOk(spans, order, z);
      if left[z] == NULL || right[z] == NULL {
        x, nullpar, p, dl := SpliceOut(z);
        fixup := !isRed[z];
      } else {
        var y := Next(z);
        assert RankOk(spans, order, y);
        fixup, x, nullpar, p, dl := UnhookInner(z, y);
      }
    }

    // GSK_RBTREE_REMOVE and GSK_RBCTREE_REMOVE.
    method Remove(node: Ptr)
      requires Valid() && node in nodes
      modifies this
      ensures Valid() && nodes == old(nodes) - {node}
      ensures node in old(spans) && 0 <= old(spans)[node].pos < |old(order)|
      ensures old(order)[old(spans)[node].pos] == node
      ensures order == old(order)[..old(spans)[node].pos] + old(order)[old(spans)[node].pos + 1..]
      ensures node in left && node in right && node in parent
      ensures left[node] == NULL && right[node] == NULL && parent[node] == NULL
    {
      assert RankOk(spans, order, node);
      RemovalSorted(spans[node].pos);
      var fixup, x, nullpar;
      ghost var p, dl;
      fixup, x, nullpar, p, dl := Unhook(node);
      if fixup {
        MendRemoval(x, nullpar, p, dl);
      }
      Detach(node);
    }

    lemma RemovalSorted(k: int)
      requires Sorted() && 0 <= k < |order|
      ensures var order' := order[..k] + order[k + 1..];
        forall i, j :: 0 <= i < j < |order'| ==> cmp(order'[i], order'[j]) < 0
    {
    }

    // The removed node's own links are cleared.
    method Detach(z: Ptr)
      requires Mended() && z !in nodes
      modifies this`left, this`right, this`parent
      ensures Mended() && z in left && z in right && z in parent
      ensures left[z] == NULL && right[z] == NULL && parent[z] == NULL
    {
      ghost var g := View();
      left := left[z := NULL];
      right := right[z := NULL];
      parent := parent[z := NULL];
      ElsewhereIsAside(g, View());
    }

    // Links of nodes outside the tree do not matter to it.
    lemma ElsewhereIsAside(g: Links, g': Links)
      requires Dom(g, nodes) && Dom(g', nodes)
      requires forall n :: n in nodes ==>
        g.left[n] == g'.left[n] && g.right[n] == g'.right[n] && g.parent[n] == g'.parent[n]
      ensures Linked(g, nodes, top) ==> Linked(g', nodes, top)
      ensures Spanned(g, spans, nodes, top, |order|) ==> Spanned(g', spans, nodes, top, |order|)
      ensures Coloured(g, isRed, nodes, NULL, NULL) ==> Coloured(g', isRed, nodes, NULL, NULL)
      ensures Balanced(g, isRed, bh, nodes, NULL, true) ==> Balanced(g', isRed, bh, nodes, NULL, true)
    {
      forall n | n in nodes
        ensures Linked(g, nodes, top) ==> DownOk(g', nodes, n) && UpOk(g', nodes, top, n)
        ensures Spanned(g, spans, nodes, top, |order|) ==> SpanOk(g', spans, |order|, n)
        ensures Coloured(g, isRed, nodes, NULL, NULL) ==> RedOk(g', isRed, n, NULL, NULL)
        ensures Balanced(g, isRed, bh, nodes, NULL, true) ==> BalOk(g', isRed, bh, n, NULL, true)
      {
        assert Linked(g, nodes, top) ==> DownOk(g, nodes, n) && UpOk(g, nodes, top, n);
        assert Spanned(g, spans, nodes, top, |order|) ==> SpanOk(g, spans, |order|, n);
        assert Coloured(g, isRed, nodes, NULL, NULL) ==> RedOk(g, isRed, n, NULL, NULL);
        assert Balanced(g, isRed, bh, nodes, NULL, true) ==> BalOk(g, isRed, bh, n, NULL, true);
      }
    }

    // ---- queries ----

    // What validity says of the tree that the links spell out from the top.
    lemma ValidMeans()
      requires Valid()
      ensures var t := M.TreeAt(View(), isRed, spans, nodes, top, |order|, top);
        && M.Inorder(t) == order
        && !M.RootRed(t) && M.NoRedPair(t)
        && (exists h: nat :: M.EqualBlacks(t, h) && M.Height(t) <= 2 * h && Pow2(h) <= |order| + 1)
    {
      var t := M.TreeAt(View(), isRed, spans, nodes, top, |order|, top);
      M.SpelledRedBlack(View(), isRed, bh, spans, nodes, top, |order|, top);
      M.BlacksNotNegative(t, BH(bh, top));
      M.RedBlackHeight(t, BH(bh, top));
      if top != NULL {
        M.SpelledInOrder(View(), isRed, spans, nodes, top, order, top);
        assert order[0..|order|] == order;
      } else {
        FirstIsNode(spans, nodes, order);
      }
    }

    // key is compared with the nodes consistently with their order.
    ghost predicate KeyFits(keyCmp: Ptr -> int)
      reads this`order
    {
      forall i, j :: 0 <= i < j < |order| ==> (keyCmp(order[i]) <= 0 ==> keyCmp(order[j]) < 0)
    }

    method LookupComparator(keyCmp: Ptr -> int) returns (out: Ptr)
      requires Valid() && KeyFits(keyCmp)
      ensures out != NULL ==> out in nodes && keyCmp(out) == 0
      ensures out == NULL ==> forall n :: n in nodes ==> keyCmp(n) != 0
    {
      var at := top;
      ghost var lo, hi := 0, |order|;
      FirstIsNode(spans, nodes, order);
      while at != NULL
        invariant 0 <= lo <= hi <= |order|
        invariant forall i :: 0 <= i < |order| && !(lo <= i < hi) ==> keyCmp(order[i]) != 0
        invariant if at == NULL then lo == hi
                  else at in nodes && at in spans && spans[at].lo == lo && spans[at].hi == hi
        decreases hi - lo
      {
        assert SpanOk(View(), spans, |order|, at) && DownOk(View(), nodes, at) && RankOk(spans, order, at);
        var rv := keyCmp(at);
        if rv < 0 {
          at, hi := left[at], spans[at].pos;
        } else if rv > 0 {
          at, lo := right[at], spans[at].pos + 1;
        } else {
          break;
        }
      }
      if at == NULL {
        forall n | n in nodes ensures keyCmp(n) != 0 { assert RankOk(spans, order, n); }
      }
      out := at;
    }

    // The last node at or before the key.
    method InfimumComparator(keyCmp: Ptr -> int) returns (out: Ptr)
      requires Valid() && KeyFits(keyCmp)
      ensures out == NULL ==> forall i :: 0 <= i < |order| ==> keyCmp(order[i]) < 0
      ensures out != NULL ==> RankOk(spans, order, out) && keyCmp(out) >= 0
      ensures out != NULL ==> forall i :: spans[out].pos < i < |order| ==> keyCmp(order[i]) < 0
    {
      var at := top;
      out := NULL;
      ghost var lo, hi := 0, |order|;
      FirstIsNode(spans, nodes, order);
      while at != NULL
        invariant 0 <= lo <= hi <= |order|
        invariant forall i :: hi <= i < |order| ==> keyCmp(order[i]) < 0
        invariant if out == NULL then lo == 0
                  else RankOk(spans, order, out) && keyCmp(out) >= 0 && spans[out].pos + 1 == lo
        invariant if at == NULL then lo == hi
                  else at in nodes && at in spans && spans[at].lo == lo && spans[at].hi == hi
        decreases hi - lo
      {
        assert SpanOk(View(), spans, |order|, at) && DownOk(View(), nodes, at) && RankOk(spans, order, at);
        if keyCmp(at) >= 0 {
          out := at;
          at, lo := right[at], spans[at].pos + 1;
        } else {
          at, hi := left[at], spans[at].pos;
        }
      }
    }

    // The first node at or after the key.
    method SupremumComparator(keyCmp: Ptr -> int) returns (out: Ptr)
      requires Valid() && KeyFits(keyCmp)
      ensures out == NULL ==> forall i :: 0 <= i < |order| ==> keyCmp(order[i]) > 0
      ensures out != NULL ==> RankOk(spans, order, out) && keyCmp(out) <= 0
      ensures out != NULL ==> forall i :: 0 <= i < spans[out].pos ==> keyCmp(order[i]) > 0
    {
      var at := top;
      out := NULL;
      ghost var lo, hi := 0, |order|;
      FirstIsNode(spans, nodes, order);
      while at != NULL
        invariant 0 <= lo <= hi <= |order|
        invariant forall i :: 0 <= i < lo ==> keyCmp(order[i]) > 0
        invariant if out == NULL then hi == |order|
                  else RankOk(spans, order, out) && keyCmp(out) <= 0 && spans[out].pos == hi
        invariant if at == NULL then lo == hi
                  else at in nodes && at in spans && spans[at].lo == lo && spans[at].hi == hi
        decreases hi - lo
      {
        assert SpanOk(View(), spans, |order|, at) && DownOk(View(), nodes, at) && RankOk(spans, order, at);
        if keyCmp(at) <= 0 {
          out := at;
          at, hi := left[at], spans[at].pos;
        } else {
          at, lo := right[at], spans[at].pos + 1;
        }
      }
    }

    method First() returns (out: Ptr)
      requires Valid()
      ensures out == if order == [] then NULL else order[0]
    {
      out := top;
      FirstIsNode(spans, nodes, order);
      if out != NULL {
        while left[out] != NULL
          invariant out in nodes && SpanOk(View(), spans, |order|, out) && spans[out].lo == 0
          decreases spans[out].pos
        {
          assert DownOk(View(), nodes, out);
          out := left[out];
          assert SpanOk(View(), spans, |order|, out);
        }
        assert RankOk(spans, order, out);
      }
    }

    method GetByIndex(index: nat) returns (out: Ptr)
      requires Valid() && counted
      ensures out == if index < |order| then order[index] else NULL
    {
      if top != NULL { assert SizeOk(count, spans, top); }
      FirstIsNode(spans, nodes, order);
      if top == NULL || index >= count[top] {
        return NULL;
      }
      var at, i := top, index;
      while true
        invariant 0 <= i && at in nodes && SpanOk(View(), spans, |order|, at)
        invariant spans[at].lo + i == index && i < spans[at].hi - spans[at].lo
        decreases spans[at].hi - spans[at].lo
      {
        assert DownOk(View(), nodes, at) && RankOk(spans, order, at);
        if left[at] != NULL { assert SpanOk(View(), spans, |order|, left[at]) && SizeOk(count, spans, left[at]); }
        if right[at] != NULL { assert SpanOk(View(), spans, |order|, right[at]); }
        var leftSize := if left[at] != NULL then count[left[at]] else 0;
        if i < leftSize {
          at := left[at];
        } else if i == leftSize {
          break;
        } else {
          i := i - (leftSize + 1);
          at := right[at];
        }
      }
      assert RankOk(spans, order, at);
      out := at;
    }

    method GetNodeIndex(node: Ptr) returns (index: int)
      requires Valid() && counted && node in nodes
      ensures 0 <= index < |order| && order[index] == node
    {
      var at := node;
      assert SpanOk(View(), spans, |order|, at) && DownOk(View(), nodes, at) && UpOk(View(), nodes, top, at);
      assert RankOk(spans, order, node);
      if left[at] != NULL { assert SpanOk(View(), spans, |order|, left[at]) && SizeOk(count, spans, left[at]); }
      index := if left[at] != NULL then count[left[at]] else 0;
      while parent[at] != NULL
        invariant at in nodes && SpanOk(View(), spans, |order|, at) && UpOk(View(), nodes, top, at)
        invariant index == spans[node].pos - spans[at].lo
        decreases |order| - (spans[at].hi - spans[at].lo)
      {
        var up := parent[at];
        assert SpanOk(View(), spans, |order|, up) && DownOk(View(), nodes, up) && UpOk(View(), nodes, top, up);
        if left[up] != at {
          if left[up] != NULL {
            assert SpanOk(View(), spans, |order|, left[up]) && SizeOk(count, spans, left[up]);
            index := index + count[left[up]];
          }
          index := index + 1;
        }
        at := up;
      }
    }

    // The test by which protobuf_c_dispatch_add_timer decides that a node is the first: no step of the path
    // from it to the top comes up from a right child.  It holds exactly when nothing before the node lies
    // outside the node's own subtree; that makes the node the first one only if it has no left child.
    method OnLeftSpine(node: Ptr) returns (first: bool)
      requires Valid() && node in nodes
      ensures node in spans && (first <==> spans[node].lo == 0)
      ensures 0 < |order| && (first && left[node] == NULL <==> order[0] == node)
    {
      var at := node;
      assert SpanOk(View(), spans, |order|, node) && DownOk(View(), nodes, node) && RankOk(spans, order, node);
      if left[node] != NULL { assert SpanOk(View(), spans, |order|, left[node]); }
      while at != NULL
        invariant at == NULL ==> spans[node].lo == 0
        invariant at != NULL ==> at in nodes && SpanOk(View(), spans, |order|, at) && spans[at].lo == spans[node].lo
        decreases if at == NULL then 0 else 1 + |order| - (spans[at].hi - spans[at].lo)
      {
        assert UpOk(View(), nodes, top, at);
        var up := parent[at];
        if up != NULL {
          assert SpanOk(View(), spans, |order|, up) && DownOk(View(), nodes, up);
          if right[up] == at {
            return false;
          }
        }
        at := up;
      }
      first := true;
    }
  }
}
