/** The link structure of the trees of gskrbtreemacros.h: what a rotation does to it, as functions on values. */
module TreeLinks {
  // A node's address; NULL is the address of no node.
  type Ptr = nat
  const NULL: Ptr := 0

  // The link fields of the nodes in memory, one map for each field.
  datatype Links = Links(left: map<Ptr, Ptr>, right: map<Ptr, Ptr>, parent: map<Ptr, Ptr>)

  // The rank of a node and the half-open interval of the ranks in its subtree.
  datatype Span = Span(lo: int, pos: int, hi: int)

  type Spans = map<Ptr, Span>

  ghost predicate Dom(g: Links, nodes: set<Ptr>)
  {
    NULL !in nodes && nodes <= g.left.Keys && nodes <= g.right.Keys && nodes <= g.parent.Keys
  }

  // The children of n name n as their parent.
  ghost predicate DownOk(g: Links, nodes: set<Ptr>, n: Ptr)
    requires Dom(g, nodes)
  {
    && n in nodes
    && (g.left[n] != NULL ==> g.left[n] in nodes && g.parent[g.left[n]] == n && g.left[n] != g.right[n])
    && (g.right[n] != NULL ==> g.right[n] in nodes && g.parent[g.right[n]] == n)
  }

  // The parent of n has n as a child; only the top has no parent.
  ghost predicate UpOk(g: Links, nodes: set<Ptr>, top: Ptr, n: Ptr)
    requires Dom(g, nodes)
  {
    && n in nodes
    && (if g.parent[n] == NULL then n == top else
          g.parent[n] in nodes && (g.left[g.parent[n]] == n || g.right[g.parent[n]] == n))
  }

  ghost predicate Linked(g: Links, nodes: set<Ptr>, top: Ptr)
  {
    && Dom(g, nodes)
    && (forall n {:trigger DownOk(g, nodes, n)} :: n in nodes ==> DownOk(g, nodes, n))
    && (forall n {:trigger UpOk(g, nodes, top, n)} :: n in nodes ==> UpOk(g, nodes, top, n))
    && (top == NULL ==> nodes == {})
    && (top != NULL ==> top in nodes && g.parent[top] == NULL)
  }

  // The subtree of n is the node itself between the subtrees of its children.
  ghost predicate SpanOk(g: Links, rk: Spans, size: int, n: Ptr)
  {
    && n in g.left && n in g.right && n in rk
    && 0 <= rk[n].lo <= rk[n].pos < rk[n].hi <= size
    && (if g.left[n] == NULL then rk[n].lo == rk[n].pos else
          g.left[n] in rk && rk[g.left[n]].lo == rk[n].lo && rk[g.left[n]].hi == rk[n].pos)
    && (if g.right[n] == NULL then rk[n].hi == rk[n].pos + 1 else
          g.right[n] in rk && rk[g.right[n]].lo == rk[n].pos + 1 && rk[g.right[n]].hi == rk[n].hi)
  }

  ghost predicate Spanned(g: Links, rk: Spans, nodes: set<Ptr>, top: Ptr, size: int)
  {
    && (forall n {:trigger SpanOk(g, rk, size, n)} :: n in nodes ==> SpanOk(g, rk, size, n))
    && (top != NULL ==> top in rk && rk[top].lo == 0 && rk[top].hi == size)
  }

  // A rotation to the right is a rotation to the left with the two child fields swapped.
  function Mirror(g: Links): Links
  {
    Links(g.right, g.left, g.parent)
  }

  lemma MirrorLinked(g: Links, nodes: set<Ptr>, top: Ptr)
    requires Linked(g, nodes, top)
    ensures Linked(Mirror(g), nodes, top)
  {
    var m := Mirror(g);
    forall n | n in nodes ensures DownOk(m, nodes, n) && UpOk(m, nodes, top, n) {
      assert DownOk(g, nodes, n) && UpOk(g, nodes, top, n);
    }
  }

  // x has a right child, and the nodes whose links a rotation rewrites are all different.
  ghost predicate CanRotate(g: Links, nodes: set<Ptr>, x: Ptr)
  {
    && Dom(g, nodes) && x in nodes && g.right[x] in nodes && x != g.right[x]
    && var y := g.right[x];
    && var b, p := g.left[y], g.parent[x];
    && (b != NULL ==> b in nodes && b != x && b != y)
    && (p != NULL ==> p in nodes && p != x && p != y && p != b)
  }

  function Rotated(g: Links, x: Ptr): Links
    requires x in g.right && x in g.parent && g.right[x] in g.left
    requires g.parent[x] != NULL ==> g.parent[x] in g.left
  {
    var y := g.right[x];
    var b, p := g.left[y], g.parent[x];
    var up := g.parent[y := p][x := y];
    Links(
      if p != NULL && x == g.left[p] then g.left[y := x][p := y] else g.left[y := x],
      if p != NULL && x != g.left[p] then g.right[x := b][p := y] else g.right[x := b],
      if b != NULL then up[b := x] else up)
  }

  ghost function RotatedSpans(rk: Spans, x: Ptr, y: Ptr): Spans
    requires x in rk && y in rk
  {
    rk[x := rk[x].(hi := rk[y].pos)][y := Span(rk[x].lo, rk[y].pos, rk[x].hi)]
  }

  ghost function RotatedSpansRight(rk: Spans, x: Ptr, y: Ptr): Spans
    requires x in rk && y in rk
  {
    rk[x := rk[x].(lo := rk[y].pos + 1)][y := Span(rk[x].lo, rk[y].pos, rk[x].hi)]
  }

  lemma Rotatable(g: Links, rk: Spans, nodes: set<Ptr>, top: Ptr, size: int, x: Ptr)
    requires Linked(g, nodes, top) && Spanned(g, rk, nodes, top, size) && x in nodes && g.right[x] != NULL
    ensures CanRotate(g, nodes, x) && x in rk && g.right[x] in rk
  {
    var y := g.right[x];
    assert DownOk(g, nodes, x) && UpOk(g, nodes, top, x) && SpanOk(g, rk, size, x);
    assert DownOk(g, nodes, y) && SpanOk(g, rk, size, y);
    if g.parent[x] != NULL {
      assert SpanOk(g, rk, size, g.parent[x]);
    }
    if g.left[y] != NULL {
      assert SpanOk(g, rk, size, g.left[y]);
    }
  }

  lemma RotatableRight(g: Links, rk: Spans, nodes: set<Ptr>, top: Ptr, size: int, x: Ptr)
    requires Linked(g, nodes, top) && Spanned(g, rk, nodes, top, size) && x in nodes && g.left[x] != NULL
    ensures CanRotate(Mirror(g), nodes, x) && x in rk && g.left[x] in rk
  {
    var y := g.left[x];
    assert DownOk(g, nodes, x) && UpOk(g, nodes, top, x) && SpanOk(g, rk, size, x);
    assert DownOk(g, nodes, y) && SpanOk(g, rk, size, y);
    if g.parent[x] != NULL {
      assert SpanOk(g, rk, size, g.parent[x]);
    }
    if g.right[y] != NULL {
      assert SpanOk(g, rk, size, g.right[y]);
    }
  }

  lemma RotatedDownOk(g: Links, nodes: set<Ptr>, top: Ptr, x: Ptr, n: Ptr)
    requires CanRotate(g, nodes, x) && Linked(g, nodes, top) && n in nodes
    ensures Dom(Rotated(g, x), nodes) && DownOk(Rotated(g, x), nodes, n)
  {
    var y := g.right[x];
    assert DownOk(g, nodes, n) && DownOk(g, nodes, x) && DownOk(g, nodes, y);
    assert g.parent[x] != NULL ==> DownOk(g, nodes, g.parent[x]) && UpOk(g, nodes, top, x);
  }

  lemma RotatedUpOk(g: Links, nodes: set<Ptr>, top: Ptr, x: Ptr, n: Ptr)
    requires CanRotate(g, nodes, x) && Linked(g, nodes, top) && n in nodes
    ensures Dom(Rotated(g, x), nodes)
    ensures UpOk(Rotated(g, x), nodes, if g.parent[x] == NULL then g.right[x] else top, n)
  {
    var y := g.right[x];
    assert DownOk(g, nodes, x) && DownOk(g, nodes, y) && UpOk(g, nodes, top, n) && UpOk(g, nodes, top, x);
    assert g.parent[x] != NULL ==> DownOk(g, nodes, g.parent[x]);
  }

  lemma RotatedLinked(g: Links, nodes: set<Ptr>, top: Ptr, x: Ptr)
    requires CanRotate(g, nodes, x) && Linked(g, nodes, top)
    ensures Linked(Rotated(g, x), nodes, if g.parent[x] == NULL then g.right[x] else top)
  {
    var g', top' := Rotated(g, x), if g.parent[x] == NULL then g.right[x] else top;
    assert DownOk(g, nodes, x) && DownOk(g, nodes, g.right[x]) && UpOk(g, nodes, top, x);
    forall n | n in nodes ensures DownOk(g', nodes, n) && UpOk(g', nodes, top', n) {
      RotatedDownOk(g, nodes, top, x, n);
      RotatedUpOk(g, nodes, top, x, n);
    }
  }

  lemma RotatedSpanOk(g: Links, rk: Spans, nodes: set<Ptr>, top: Ptr, size: int, x: Ptr, n: Ptr)
    requires CanRotate(g, nodes, x) && Linked(g, nodes, top) && Spanned(g, rk, nodes, top, size)
    requires x in rk && g.right[x] in rk && n in nodes
    ensures SpanOk(Rotated(g, x), RotatedSpans(rk, x, g.right[x]), size, n)
  {
    var y := g.right[x];
    var p := g.parent[x];
    assert DownOk(g, nodes, n) && DownOk(g, nodes, x) && DownOk(g, nodes, y);
    assert SpanOk(g, rk, size, n) && SpanOk(g, rk, size, x) && SpanOk(g, rk, size, y);
    assert p != NULL ==> DownOk(g, nodes, p) && UpOk(g, nodes, top, x);
    if n != x && n != y && n != p {
      assert g.left[n] != x && g.right[n] != x && g.left[n] != y && g.right[n] != y;
    }
  }

  lemma RotatedRightSpanOk(g: Links, rk: Spans, nodes: set<Ptr>, top: Ptr, size: int, x: Ptr, n: Ptr)
    requires CanRotate(Mirror(g), nodes, x) && Linked(g, nodes, top) && Spanned(g, rk, nodes, top, size)
    requires x in rk && g.left[x] in rk && n in nodes
    ensures SpanOk(Mirror(Rotated(Mirror(g), x)), RotatedSpansRight(rk, x, g.left[x]), size, n)
  {
    var y := g.left[x];
    var p := g.parent[x];
    assert DownOk(g, nodes, n) && DownOk(g, nodes, x) && DownOk(g, nodes, y);
    assert SpanOk(g, rk, size, n) && SpanOk(g, rk, size, x) && SpanOk(g, rk, size, y);
    assert p != NULL ==> DownOk(g, nodes, p) && UpOk(g, nodes, top, x);
    if n != x && n != y && n != p {
      assert g.left[n] != x && g.right[n] != x && g.left[n] != y && g.right[n] != y;
    }
  }

  lemma RotatedSpanned(g: Links, rk: Spans, nodes: set<Ptr>, top: Ptr, size: int, x: Ptr)
    requires CanRotate(g, nodes, x) && Linked(g, nodes, top) && Spanned(g, rk, nodes, top, size)
    requires x in rk && g.right[x] in rk
    ensures Spanned(Rotated(g, x), RotatedSpans(rk, x, g.right[x]), nodes,
                    if g.parent[x] == NULL then g.right[x] else top, size)
  {
    assert SpanOk(g, rk, size, top) && DownOk(g, nodes, x) && UpOk(g, nodes, top, x) && DownOk(g, nodes, g.right[x]);
    forall n | n in nodes ensures SpanOk(Rotated(g, x), RotatedSpans(rk, x, g.right[x]), size, n) {
      RotatedSpanOk(g, rk, nodes, top, size, x, n);
    }
  }

  lemma RotatedRightSpanned(g: Links, rk: Spans, nodes: set<Ptr>, top: Ptr, size: int, x: Ptr)
    requires CanRotate(Mirror(g), nodes, x) && Linked(g, nodes, top) && Spanned(g, rk, nodes, top, size)
    requires x in rk && g.left[x] in rk
    ensures Spanned(Mirror(Rotated(Mirror(g), x)), RotatedSpansRight(rk, x, g.left[x]), nodes,
                    if g.parent[x] == NULL then g.left[x] else top, size)
  {
    assert SpanOk(g, rk, size, top) && DownOk(g, nodes, x) && UpOk(g, nodes, top, x) && DownOk(g, nodes, g.left[x]);
    forall n | n in nodes
      ensures SpanOk(Mirror(Rotated(Mirror(g), x)), RotatedSpansRight(rk, x, g.left[x]), size, n)
    {
      RotatedRightSpanOk(g, rk, nodes, top, size, x, n);
    }
  }
}
