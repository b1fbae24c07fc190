/** Linking a leaf into a tree and splicing a node out of it, as functions on values. */
module TreeEdits {
  import opened TreeLinks
  import opened TreeColours

  // order lists the nodes by rank.
  ghost predicate RankOk(rk: Spans, order: seq<Ptr>, n: Ptr)
  {
    n in rk && 0 <= rk[n].pos < |order| && order[rk[n].pos] == n
  }

  ghost predicate Ranked(rk: Spans, nodes: set<Ptr>, order: seq<Ptr>)
  {
    && (forall n {:trigger RankOk(rk, order, n)} :: n in nodes ==> RankOk(rk, order, n))
    && (forall i {:trigger order[i]} :: 0 <= i < |order| ==>
         order[i] in nodes && order[i] in rk && rk[order[i]].pos == i)
  }

  lemma FirstIsNode(rk: Spans, nodes: set<Ptr>, order: seq<Ptr>)
    requires Ranked(rk, nodes, order)
    ensures order != [] ==> order[0] in nodes
  {
  }

  // A rotation changes no ranks.
  lemma RotatedRanked(rk: Spans, nodes: set<Ptr>, order: seq<Ptr>, x: Ptr, y: Ptr, rk': Spans)
    requires Ranked(rk, nodes, order) && x in rk && y in rk
    requires rk' == RotatedSpans(rk, x, y) || rk' == RotatedSpansRight(rk, x, y)
    ensures Ranked(rk', nodes, order)
  {
    forall n | n in nodes ensures RankOk(rk', order, n) {
      assert RankOk(rk, order, n);
    }
  }

  // ---- a new leaf ----

  ghost function LeafLinked(g: Links, last: Ptr, onLeft: bool, node: Ptr): Links
  {
    Links(if onLeft then g.left[node := NULL][last := node] else g.left[node := NULL],
          if onLeft then g.right[node := NULL] else g.right[node := NULL][last := node],
          g.parent[node := last])
  }

  // Ranks from k on move up by one; the subtrees that take in the new rank k grow.
  ghost function SpreadSpan(s: Span, k: int, onLeft: bool): Span
  {
    Span(if s.lo > k || (s.lo == k && !onLeft) then s.lo + 1 else s.lo,
         if s.pos >= k then s.pos + 1 else s.pos,
         if s.hi > k || (s.hi == k && !onLeft) then s.hi + 1 else s.hi)
  }

  ghost function SpreadSpans(rk: Spans, k: int, onLeft: bool, node: Ptr): Spans
  {
    (map n | n in rk :: SpreadSpan(rk[n], k, onLeft))[node := Span(k, k, k + 1)]
  }

  ghost predicate CanLink(g: Links, rk: Spans, nodes: set<Ptr>, top: Ptr, size: int, last: Ptr, onLeft: bool, node: Ptr)
  {
    && Linked(g, nodes, top) && Spanned(g, rk, nodes, top, size)
    && last in nodes && last in rk && node !in nodes && node != NULL
    && (if onLeft then g.left[last] == NULL else g.right[last] == NULL)
  }

  ghost function LeafRank(rk: Spans, last: Ptr, onLeft: bool): int
    requires last in rk
  {
    if onLeft then rk[last].pos else rk[last].pos + 1
  }

  lemma LeafKeepsLinks(g: Links, rk: Spans, nodes: set<Ptr>, top: Ptr, size: int, last: Ptr, onLeft: bool, node: Ptr)
    requires CanLink(g, rk, nodes, top, size, last, onLeft, node)
    ensures Linked(LeafLinked(g, last, onLeft, node), nodes + {node}, top)
  {
    var g', nodes' := LeafLinked(g, last, onLeft, node), nodes + {node};
    assert Dom(g', nodes');
    forall n | n in nodes' ensures DownOk(g', nodes', n) && UpOk(g', nodes', top, n) {
      assert DownOk(g, nodes, last);
      if n != node {
        assert DownOk(g, nodes, n) && UpOk(g, nodes, top, n);
      }
    }
  }

  lemma LeafKeepsSpans(g: Links, rk: Spans, nodes: set<Ptr>, top: Ptr, size: int, last: Ptr, onLeft: bool, node: Ptr,
                       order: seq<Ptr>)
    requires CanLink(g, rk, nodes, top, size, last, onLeft, node) && Ranked(rk, nodes, order) && |order| == size
    ensures var k := LeafRank(rk, last, onLeft);
      Spanned(LeafLinked(g, last, onLeft, node), SpreadSpans(rk, k, onLeft, node), nodes + {node}, top, size + 1)
  {
    var k := LeafRank(rk, last, onLeft);
    var g', rk', nodes' := LeafLinked(g, last, onLeft, node), SpreadSpans(rk, k, onLeft, node), nodes + {node};
    forall n | n in nodes' ensures SpanOk(g', rk', size + 1, n) {
      assert SpanOk(g, rk, size, last) && RankOk(rk, order, last);
      if n != node {
        assert SpanOk(g, rk, size, n) && DownOk(g, nodes, n) && RankOk(rk, order, n);
      }
    }
    if top != NULL { assert SpanOk(g, rk, size, top) && SpanOk(g, rk, size, last); }
  }

  lemma LeafKeepsRanks(rk: Spans, nodes: set<Ptr>, order: seq<Ptr>, k: int, onLeft: bool, node: Ptr)
    requires Ranked(rk, nodes, order) && 0 <= k <= |order| && node !in nodes
    ensures Ranked(SpreadSpans(rk, k, onLeft, node), nodes + {node}, order[..k] + [node] + order[k..])
  {
    var rk', order' := SpreadSpans(rk, k, onLeft, node), order[..k] + [node] + order[k..];
    forall n | n in nodes + {node} ensures RankOk(rk', order', n) {
      if n != node { assert RankOk(rk, order, n); }
    }
    forall i {:trigger order'[i]} | 0 <= i < |order'|
      ensures order'[i] in nodes + {node} && order'[i] in rk' && rk'[order'[i]].pos == i
    {
      if i < k { assert order'[i] == order[i]; } else if i > k { assert order'[i] == order[i - 1]; }
    }
  }

  lemma LeafKeepsColours(g: Links, red: Colours, bh: Heights, nodes: set<Ptr>, top: Ptr,
                         last: Ptr, onLeft: bool, node: Ptr)
    requires Linked(g, nodes, top) && last in nodes && node !in nodes && node != NULL
    requires if onLeft then g.left[last] == NULL else g.right[last] == NULL
    requires Coloured(g, red, nodes, NULL, NULL) && Balanced(g, red, bh, nodes, NULL, true)
    ensures var g', red' := LeafLinked(g, last, onLeft, node), red[node := true];
      Coloured(g', red', nodes + {node}, NULL, node) && Balanced(g', red', bh[node := 0], nodes + {node}, NULL, true)
  {
    var g', red' := LeafLinked(g, last, onLeft, node), red[node := true];
    forall n | n in nodes + {node}
      ensures RedOk(g', red', n, NULL, node) && BalOk(g', red', bh[node := 0], n, NULL, true)
    {
      if n != node {
        assert DownOk(g, nodes, n) && RedOk(g, red, n, NULL, NULL) && BalOk(g, red, bh, n, NULL, true);
      }
    }
  }

  // ---- a node with at most one child leaves ----

  function Survivor(g: Links, y: Ptr): Ptr
    requires y in g.left && y in g.right
  {
    if g.left[y] != NULL then g.left[y] else g.right[y]
  }

  ghost predicate CanSplice(g: Links, nodes: set<Ptr>, top: Ptr, y: Ptr)
  {
    Linked(g, nodes, top) && y in nodes && (g.left[y] == NULL || g.right[y] == NULL)
  }

  function Spliced(g: Links, y: Ptr): Links
    requires y in g.left && y in g.right && y in g.parent
    requires g.parent[y] != NULL ==> g.parent[y] in g.left
  {
    var x, q := Survivor(g, y), g.parent[y];
    Links(if q != NULL && g.left[q] == y then g.left[q := x] else g.left,
          if q != NULL && g.left[q] != y then g.right[q := x] else g.right,
          if x != NULL then g.parent[x := q] else g.parent)
  }

  ghost function ShrunkSpan(s: Span, k: int): Span
  {
    Span(if s.lo > k then s.lo - 1 else s.lo,
         if s.pos > k then s.pos - 1 else s.pos,
         if s.hi > k then s.hi - 1 else s.hi)
  }

  ghost function ShrunkSpans(rk: Spans, k: int): Spans
  {
    map n | n in rk :: ShrunkSpan(rk[n], k)
  }

  lemma SpliceKeepsLinks(g: Links, rk: Spans, nodes: set<Ptr>, top: Ptr, order: seq<Ptr>, y: Ptr)
    requires CanSplice(g, nodes, top, y) && Spanned(g, rk, nodes, top, |order|) && Ranked(rk, nodes, order)
    ensures g.parent[y] != NULL ==> g.parent[y] in g.left
    ensures Linked(Spliced(g, y), nodes - {y}, if g.parent[y] == NULL then Survivor(g, y) else top)
  {
    assert UpOk(g, nodes, top, y) && DownOk(g, nodes, y) && SpanOk(g, rk, |order|, y);
    var x, q := Survivor(g, y), g.parent[y];
    var g', nodes', top' := Spliced(g, y), nodes - {y}, if q == NULL then x else top;
    assert q != NULL ==> DownOk(g, nodes, q) && SpanOk(g, rk, |order|, q);
    assert Dom(g', nodes');
    forall n | n in nodes' ensures DownOk(g', nodes', n) && UpOk(g', nodes', top', n) {
      SpliceKeepsNode(g, rk, nodes, top, |order|, y, n);
    }
    forall n | n in nodes' ensures top' != NULL {
      assert RankOk(rk, order, n) && RankOk(rk, order, y);
    }
  }

  lemma SpliceKeepsNode(g: Links, rk: Spans, nodes: set<Ptr>, top: Ptr, size: int, y: Ptr, n: Ptr)
    requires CanSplice(g, nodes, top, y) && Spanned(g, rk, nodes, top, size) && n in nodes && n != y
    ensures g.parent[y] != NULL ==> g.parent[y] in g.left
    ensures Dom(Spliced(g, y), nodes - {y}) && DownOk(Spliced(g, y), nodes - {y}, n)
    ensures UpOk(Spliced(g, y), nodes - {y}, if g.parent[y] == NULL then Survivor(g, y) else top, n)
  {
    assert UpOk(g, nodes, top, y) && DownOk(g, nodes, y) && SpanOk(g, rk, size, y);
    assert DownOk(g, nodes, n) && UpOk(g, nodes, top, n);
    var q := g.parent[y];
    assert q != NULL ==> DownOk(g, nodes, q) && SpanOk(g, rk, size, q);
  }

  lemma SpliceKeepsSpans(g: Links, rk: Spans, nodes: set<Ptr>, top: Ptr, order: seq<Ptr>, y: Ptr)
    requires CanSplice(g, nodes, top, y) && Spanned(g, rk, nodes, top, |order|) && Ranked(rk, nodes, order)
    ensures y in rk && (g.parent[y] != NULL ==> g.parent[y] in g.left)
    ensures Spanned(Spliced(g, y), ShrunkSpans(rk, rk[y].pos), nodes - {y},
                    if g.parent[y] == NULL then Survivor(g, y) else top, |order| - 1)
  {
    assert UpOk(g, nodes, top, y) && DownOk(g, nodes, y) && SpanOk(g, rk, |order|, y);
    var x, q := Survivor(g, y), g.parent[y];
    assert q != NULL ==> DownOk(g, nodes, q);
    assert x != NULL ==> SpanOk(g, rk, |order|, x);
    var g', rk' := Spliced(g, y), ShrunkSpans(rk, rk[y].pos);
    forall n | n in nodes - {y} ensures SpanOk(g', rk', |order| - 1, n) {
      SpliceKeepsSpan(g, rk, nodes, top, order, y, n);
    }
    if top != NULL { assert SpanOk(g, rk, |order|, top); }
  }

  lemma SpliceKeepsSpan(g: Links, rk: Spans, nodes: set<Ptr>, top: Ptr, order: seq<Ptr>, y: Ptr, n: Ptr)
    requires CanSplice(g, nodes, top, y) && Spanned(g, rk, nodes, top, |order|) && Ranked(rk, nodes, order)
    requires n in nodes && n != y
    ensures y in rk && (g.parent[y] != NULL ==> g.parent[y] in g.left)
    ensures SpanOk(Spliced(g, y), ShrunkSpans(rk, rk[y].pos), |order| - 1, n)
  {
    assert UpOk(g, nodes, top, y) && DownOk(g, nodes, y) && SpanOk(g, rk, |order|, y);
    assert DownOk(g, nodes, n) && SpanOk(g, rk, |order|, n);
    assert RankOk(rk, order, n) && RankOk(rk, order, y);
    var x, q := Survivor(g, y), g.parent[y];
    assert q != NULL ==> DownOk(g, nodes, q);
    assert x != NULL ==> SpanOk(g, rk, |order|, x);
  }

  lemma SpliceKeepsRanks(rk: Spans, nodes: set<Ptr>, order: seq<Ptr>, y: Ptr)
    requires Ranked(rk, nodes, order) && y in nodes
    ensures y in rk && 0 <= rk[y].pos < |order|
    ensures Ranked(ShrunkSpans(rk, rk[y].pos), nodes - {y}, order[..rk[y].pos] + order[rk[y].pos + 1..])
  {
    assert RankOk(rk, order, y);
    var k := rk[y].pos;
    var rk', order' := ShrunkSpans(rk, k), order[..k] + order[k + 1..];
    forall n | n in nodes - {y} ensures RankOk(rk', order', n) {
      assert RankOk(rk, order, n);
    }
    forall i {:trigger order'[i]} | 0 <= i < |order'|
      ensures order'[i] in nodes - {y} && order'[i] in rk' && rk'[order'[i]].pos == i
    {
      if i < k { assert order'[i] == order[i]; } else { assert order'[i] == order[i + 1]; }
    }
  }

  // When a black node leaves, its place lacks one black.
  lemma SpliceKeepsColours(g: Links, red: Colours, bh: Heights, rk: Spans, nodes: set<Ptr>, top: Ptr, size: int, y: Ptr)
    requires CanSplice(g, nodes, top, y) && Spanned(g, rk, nodes, top, size)
    requires Coloured(g, red, nodes, NULL, NULL) && Balanced(g, red, bh, nodes, NULL, true)
    ensures g.parent[y] != NULL ==> g.parent[y] in g.left
    ensures var q := g.parent[y];
      && Coloured(Spliced(g, y), red, nodes - {y}, NULL, if IsRed(red, y) then NULL else Survivor(g, y))
      && Balanced(Spliced(g, y), red, bh, nodes - {y}, if IsRed(red, y) then NULL else q,
                  if IsRed(red, y) then true else q in g.left && g.left[q] == y)
  {
    assert UpOk(g, nodes, top, y) && DownOk(g, nodes, y) && SpanOk(g, rk, size, y);
    assert RedOk(g, red, y, NULL, NULL) && BalOk(g, red, bh, y, NULL, true);
    var x, q := Survivor(g, y), g.parent[y];
    assert q != NULL ==> DownOk(g, nodes, q);
    var g', xc := Spliced(g, y), if IsRed(red, y) then NULL else x;
    var dp, dl := if IsRed(red, y) then NULL else q, if IsRed(red, y) then true else q in g.left && g.left[q] == y;
    forall n | n in nodes - {y}
      ensures RedOk(g', red, n, NULL, xc) && BalOk(g', red, bh, n, dp, dl)
    {
      assert DownOk(g, nodes, n) && RedOk(g, red, n, NULL, NULL) && BalOk(g, red, bh, n, NULL, true);
    }
  }

  // ---- one node takes the place of another ----

  function Replaced(g: Links, z: Ptr, y: Ptr): Links
    requires z in g.left && z in g.right && z in g.parent
    requires g.parent[z] != NULL ==> g.parent[z] in g.left
  {
    var l, r, q := g.left[z], g.right[z], g.parent[z];
    var up := g.parent[y := q];
    var up' := if l != NULL then up[l := y] else up;
    Links(if q != NULL && g.left[q] == z then g.left[y := l][q := y] else g.left[y := l],
          if q != NULL && g.left[q] != z then g.right[y := r][q := y] else g.right[y := r],
          if r != NULL then up'[r := y] else up')
  }

  ghost predicate CanReplace(g: Links, rk: Spans, nodes: set<Ptr>, top: Ptr, size: int, z: Ptr, y: Ptr)
  {
    && Linked(g, nodes, top) && Spanned(g, rk, nodes, top, size)
    && z in nodes && z in rk && y !in nodes && y != NULL && y in g.left && y in g.right && y in g.parent
  }

  lemma ReplaceKeepsLinks(g: Links, rk: Spans, nodes: set<Ptr>, top: Ptr, size: int, z: Ptr, y: Ptr)
    requires CanReplace(g, rk, nodes, top, size, z, y)
    ensures g.parent[z] != NULL ==> g.parent[z] in g.left
    ensures Linked(Replaced(g, z, y), nodes - {z} + {y}, if g.parent[z] == NULL then y else top)
  {
    assert UpOk(g, nodes, top, z) && DownOk(g, nodes, z) && SpanOk(g, rk, size, z);
    var q := g.parent[z];
    var g', nodes', top' := Replaced(g, z, y), nodes - {z} + {y}, if q == NULL then y else top;
    assert Dom(g', nodes');
    forall n | n in nodes' ensures DownOk(g', nodes', n) && UpOk(g', nodes', top', n) {
      ReplaceKeepsDown(g, rk, nodes, top, size, z, y, n);
      ReplaceKeepsUp(g, rk, nodes, top, size, z, y, n);
    }
  }

  lemma ReplaceKeepsDown(g: Links, rk: Spans, nodes: set<Ptr>, top: Ptr, size: int, z: Ptr, y: Ptr, n: Ptr)
    requires CanReplace(g, rk, nodes, top, size, z, y) && n in nodes - {z} + {y}
    ensures g.parent[z] != NULL ==> g.parent[z] in g.left
    ensures var g', nodes' := Replaced(g, z, y), nodes - {z} + {y}; Dom(g', nodes') && DownOk(g', nodes', n)
  {
    assert UpOk(g, nodes, top, z) && DownOk(g, nodes, z) && SpanOk(g, rk, size, z);
    var l, r, q := g.left[z], g.right[z], g.parent[z];
    assert q != NULL ==> DownOk(g, nodes, q) && SpanOk(g, rk, size, q);
    assert l != NULL ==> SpanOk(g, rk, size, l);
    assert r != NULL ==> SpanOk(g, rk, size, r);
    assert q != z && l != z && r != z && (q != NULL ==> q != l && q != r);
    if n != y {
      assert DownOk(g, nodes, n);
    }
  }

  lemma ReplaceKeepsUp(g: Links, rk: Spans, nodes: set<Ptr>, top: Ptr, size: int, z: Ptr, y: Ptr, n: Ptr)
    requires CanReplace(g, rk, nodes, top, size, z, y) && n in nodes - {z} + {y}
    ensures g.parent[z] != NULL ==> g.parent[z] in g.left
    ensures var g', nodes' := Replaced(g, z, y), nodes - {z} + {y};
      Dom(g', nodes') && UpOk(g', nodes', if g.parent[z] == NULL then y else top, n)
  {
    assert UpOk(g, nodes, top, z) && DownOk(g, nodes, z);
    var q := g.parent[z];
    assert q != NULL ==> DownOk(g, nodes, q) && SpanOk(g, rk, size, q) && SpanOk(g, rk, size, z);
    if n != y {
      assert UpOk(g, nodes, top, n);
      assert g.parent[n] == z ==> n == g.left[z] || n == g.right[z];
    }
  }

  lemma ReplaceKeepsSpans(g: Links, rk: Spans, nodes: set<Ptr>, top: Ptr, size: int, z: Ptr, y: Ptr)
    requires CanReplace(g, rk, nodes, top, size, z, y)
    ensures g.parent[z] != NULL ==> g.parent[z] in g.left
    ensures Spanned(Replaced(g, z, y), rk[y := rk[z]], nodes - {z} + {y}, if g.parent[z] == NULL then y else top, size)
  {
    assert UpOk(g, nodes, top, z) && DownOk(g, nodes, z) && SpanOk(g, rk, size, z);
    var q := g.parent[z];
    assert q != NULL ==> DownOk(g, nodes, q) && SpanOk(g, rk, size, q);
    var g', rk' := Replaced(g, z, y), rk[y := rk[z]];
    forall n | n in nodes - {z} + {y} ensures SpanOk(g', rk', size, n) {
      if n != y {
        assert DownOk(g, nodes, n) && SpanOk(g, rk, size, n);
      }
    }
    if top != NULL { assert SpanOk(g, rk, size, top); }
  }

  lemma ReplaceKeepsRanks(rk: Spans, nodes: set<Ptr>, order: seq<Ptr>, z: Ptr, y: Ptr)
    requires Ranked(rk, nodes, order) && z in nodes && y !in nodes
    ensures z in rk && 0 <= rk[z].pos < |order|
    ensures Ranked(rk[y := rk[z]], nodes - {z} + {y}, order[rk[z].pos := y])
  {
    assert RankOk(rk, order, z);
    var rk', order' := rk[y := rk[z]], order[rk[z].pos := y];
    forall n | n in nodes - {z} + {y} ensures RankOk(rk', order', n) {
      if n != y { assert RankOk(rk, order, n); }
    }
    forall i {:trigger order'[i]} | 0 <= i < |order'|
      ensures order'[i] in nodes - {z} + {y} && order'[i] in rk' && rk'[order'[i]].pos == i
    {
      if i != rk[z].pos { assert order'[i] == order[i]; }
    }
  }

  lemma ReplaceKeepsColours(g: Links, red: Colours, bh: Heights, rk: Spans, nodes: set<Ptr>, top: Ptr, size: int,
                            z: Ptr, y: Ptr, x: Ptr, dp: Ptr, dl: bool)
    requires CanReplace(g, rk, nodes, top, size, z, y) && z != x && y != x
    requires z in red && z in bh && (dp == NULL || dp in nodes)
    requires Coloured(g, red, nodes, x, x) && Balanced(g, red, bh, nodes, dp, dl)
    ensures g.parent[z] != NULL ==> g.parent[z] in g.left
    ensures Coloured(Replaced(g, z, y), red[y := red[z]], nodes - {z} + {y}, x, x)
    ensures Balanced(Replaced(g, z, y), red[y := red[z]], bh[y := bh[z]], nodes - {z} + {y},
                     if dp == z then y else dp, dl)
  {
    assert UpOk(g, nodes, top, z);
    var g', red', bh', dp' := Replaced(g, z, y), red[y := red[z]], bh[y := bh[z]], if dp == z then y else dp;
    forall n | n in nodes - {z} + {y} ensures RedOk(g', red', n, x, x) {
      ReplaceKeepsRed(g, red, rk, nodes, top, size, z, y, x, n);
    }
    forall n | n in nodes - {z} + {y} ensures BalOk(g', red', bh', n, dp', dl) {
      ReplaceKeepsBal(g, red, bh, rk, nodes, top, size, z, y, dp, dl, n);
    }
  }

  lemma ReplaceKeepsRed(g: Links, red: Colours, rk: Spans, nodes: set<Ptr>, top: Ptr, size: int,
                        z: Ptr, y: Ptr, x: Ptr, n: Ptr)
    requires CanReplace(g, rk, nodes, top, size, z, y) && z != x && y != x && z in red
    requires Coloured(g, red, nodes, x, x) && n in nodes - {z} + {y}
    ensures g.parent[z] != NULL ==> g.parent[z] in g.left
    ensures RedOk(Replaced(g, z, y), red[y := red[z]], n, x, x)
  {
    assert UpOk(g, nodes, top, z) && DownOk(g, nodes, z) && SpanOk(g, rk, size, z) && RedOk(g, red, z, x, x);
    var q := g.parent[z];
    assert q != NULL ==> DownOk(g, nodes, q) && SpanOk(g, rk, size, q);
    if n != y {
      assert DownOk(g, nodes, n) && RedOk(g, red, n, x, x);
      if n != q { assert g.left[n] != z && g.right[n] != z; }
    }
  }

  // Below n after the replacement are the heights that were below it, or below z for the node y itself.
  lemma ReplacedHeights(g: Links, bh: Heights, rk: Spans, nodes: set<Ptr>, top: Ptr, size: int, z: Ptr, y: Ptr, n: Ptr)
    requires CanReplace(g, rk, nodes, top, size, z, y) && z in bh && n in nodes - {z} + {y}
    ensures g.parent[z] != NULL ==> g.parent[z] in g.left
    ensures var g', bh', m := Replaced(g, z, y), bh[y := bh[z]], if n == y then z else n;
      && n in g'.left && n in g'.right
      && BH(bh', g'.left[n]) == BH(bh, g.left[m]) && BH(bh', g'.right[n]) == BH(bh, g.right[m])
  {
    assert UpOk(g, nodes, top, z) && DownOk(g, nodes, z) && SpanOk(g, rk, size, z);
    var q := g.parent[z];
    assert q != NULL ==> DownOk(g, nodes, q) && SpanOk(g, rk, size, q);
    if n != y {
      assert DownOk(g, nodes, n);
    }
  }

  lemma ReplaceKeepsBal(g: Links, red: Colours, bh: Heights, rk: Spans, nodes: set<Ptr>, top: Ptr, size: int,
                        z: Ptr, y: Ptr, dp: Ptr, dl: bool, n: Ptr)
    requires CanReplace(g, rk, nodes, top, size, z, y) && z in red && z in bh && (dp == NULL || dp in nodes)
    requires Balanced(g, red, bh, nodes, dp, dl) && n in nodes - {z} + {y}
    ensures g.parent[z] != NULL ==> g.parent[z] in g.left
    ensures BalOk(Replaced(g, z, y), red[y := red[z]], bh[y := bh[z]], n, if dp == z then y else dp, dl)
  {
    ReplacedHeights(g, bh, rk, nodes, top, size, z, y, n);
    assert BalOk(g, red, bh, if n == y then z else n, dp, dl);
  }

  // ---- the nodes above a node, and subtree sizes ----

  // n and every node on the path from it to the top.
  ghost function Above(g: Links, rk: Spans, nodes: set<Ptr>, top: Ptr, size: int, n: Ptr): (r: set<Ptr>)
    requires Linked(g, nodes, top) && Spanned(g, rk, nodes, top, size) && n in nodes
    ensures n in r && r <= nodes
    decreases assert SpanOk(g, rk, size, n); size - (rk[n].hi - rk[n].lo)
  {
    assert UpOk(g, nodes, top, n) && SpanOk(g, rk, size, n);
    if g.parent[n] == NULL then {n} else
      assert SpanOk(g, rk, size, g.parent[n]);
      {n} + Above(g, rk, nodes, top, size, g.parent[n])
  }

  lemma AboveStep(g: Links, rk: Spans, nodes: set<Ptr>, top: Ptr, size: int, n: Ptr)
    requires Linked(g, nodes, top) && Spanned(g, rk, nodes, top, size) && n in nodes
    ensures n in rk && 0 <= rk[n].hi - rk[n].lo <= size
    ensures g.parent[n] == NULL ==> Above(g, rk, nodes, top, size, n) == {n}
    ensures g.parent[n] != NULL ==>
      && g.parent[n] in nodes && g.parent[n] in rk && rk[g.parent[n]].hi - rk[g.parent[n]].lo > rk[n].hi - rk[n].lo
      && Above(g, rk, nodes, top, size, n) == {n} + Above(g, rk, nodes, top, size, g.parent[n])
      && n !in Above(g, rk, nodes, top, size, g.parent[n])
  {
    assert UpOk(g, nodes, top, n) && SpanOk(g, rk, size, n);
    if g.parent[n] != NULL {
      assert SpanOk(g, rk, size, g.parent[n]);
      if n in Above(g, rk, nodes, top, size, g.parent[n]) {
        AboveHolds(g, rk, nodes, top, size, g.parent[n], n);
      }
    }
  }

  // The nodes above n are exactly the nodes whose subtree holds n's rank.
  lemma {:induction false} AboveHolds(g: Links, rk: Spans, nodes: set<Ptr>, top: Ptr, size: int, n: Ptr, m: Ptr)
    requires Linked(g, nodes, top) && Spanned(g, rk, nodes, top, size) && n in nodes
    requires m in Above(g, rk, nodes, top, size, n)
    ensures m in nodes && m in rk && n in rk && rk[m].lo <= rk[n].lo && rk[n].hi <= rk[m].hi
    ensures g.parent[m] != NULL ==> g.parent[m] in Above(g, rk, nodes, top, size, n)
    decreases assert SpanOk(g, rk, size, n); size - (rk[n].hi - rk[n].lo)
  {
    assert UpOk(g, nodes, top, n) && SpanOk(g, rk, size, n);
    if g.parent[n] != NULL {
      assert SpanOk(g, rk, size, g.parent[n]);
      if m != n {
        AboveHolds(g, rk, nodes, top, size, g.parent[n], m);
      } else if g.parent[m] != NULL {
        assert g.parent[n] in Above(g, rk, nodes, top, size, g.parent[n]);
      }
    }
  }

  lemma {:induction false} HoldersAbove(g: Links, rk: Spans, nodes: set<Ptr>, top: Ptr, order: seq<Ptr>, n: Ptr, m: Ptr)
    requires Linked(g, nodes, top) && Spanned(g, rk, nodes, top, |order|) && Ranked(rk, nodes, order)
    requires n in nodes && m in nodes && n in rk && m in rk && rk[m].lo <= rk[n].pos < rk[m].hi
    ensures m in Above(g, rk, nodes, top, |order|, n)
    decreases rk[m].hi - rk[m].lo
  {
    assert SpanOk(g, rk, |order|, m) && DownOk(g, nodes, m) && RankOk(rk, order, m) && RankOk(rk, order, n);
    if rk[n].pos != rk[m].pos {
      var c := if rk[n].pos < rk[m].pos then g.left[m] else g.right[m];
      HoldersAbove(g, rk, nodes, top, order, n, c);
      AboveHolds(g, rk, nodes, top, |order|, n, c);
    }
  }

  type Sizes = map<Ptr, int>

  ghost predicate SizeOk(cnt: Sizes, rk: Spans, n: Ptr)
  {
    n in cnt && n in rk && cnt[n] == rk[n].hi - rk[n].lo
  }

  // The count is one short on the nodes of path.
  ghost predicate LagOk(cnt: Sizes, rk: Spans, path: set<Ptr>, n: Ptr)
  {
    n in cnt && n in rk && cnt[n] == rk[n].hi - rk[n].lo - (if n in path then 1 else 0)
  }

  ghost predicate Lagging(cnt: Sizes, rk: Spans, nodes: set<Ptr>, path: set<Ptr>)
  {
    forall n {:trigger LagOk(cnt, rk, path, n)} :: n in nodes ==> LagOk(cnt, rk, path, n)
  }

  // The count of every node is its subtree's size, except perhaps on some nodes.
  ghost predicate Sized(cnt: Sizes, rk: Spans, nodes: set<Ptr>, except: set<Ptr>)
  {
    nodes <= cnt.Keys && forall n {:trigger SizeOk(cnt, rk, n)} :: n in nodes && n !in except ==> SizeOk(cnt, rk, n)
  }

  // After a rotation only the counts of x and y are wrong, and the one of x is what y's must become.
  lemma RotatedSizes(cnt: Sizes, rk: Spans, nodes: set<Ptr>, x: Ptr, y: Ptr, rk': Spans)
    requires Sized(cnt, rk, nodes, {}) && x in nodes && x in rk && y in rk && x != y
    requires rk' == RotatedSpans(rk, x, y) || rk' == RotatedSpansRight(rk, x, y)
    ensures Sized(cnt, rk', nodes, {x, y}) && cnt[x] == rk'[y].hi - rk'[y].lo
  {
    assert SizeOk(cnt, rk, x);
    forall n | n in nodes && n !in {x, y} ensures SizeOk(cnt, rk', n) {
      assert SizeOk(cnt, rk, n);
    }
  }

  // Once a leaf is linked, the counts above it, and no others, are one short.
  lemma LeafSizes(g: Links, cnt: Sizes, rk: Spans, nodes: set<Ptr>, top: Ptr, order: seq<Ptr>,
                  last: Ptr, onLeft: bool, node: Ptr)
    requires CanLink(g, rk, nodes, top, |order|, last, onLeft, node) && Ranked(rk, nodes, order)
    requires Sized(cnt, rk, nodes, {})
    requires 0 <= LeafRank(rk, last, onLeft) <= |order|
    ensures var k := LeafRank(rk, last, onLeft);
      var g', nodes', rk' := LeafLinked(g, last, onLeft, node), nodes + {node}, SpreadSpans(rk, k, onLeft, node);
      && Linked(g', nodes', top) && Spanned(g', rk', nodes', top, |order| + 1)
      && Lagging(cnt[node := 1], rk', nodes', Above(g', rk', nodes', top, |order| + 1, last))
  {
    var k := LeafRank(rk, last, onLeft);
    var g', nodes', rk' := LeafLinked(g, last, onLeft, node), nodes + {node}, SpreadSpans(rk, k, onLeft, node);
    var order' := order[..k] + [node] + order[k..];
    LeafKeepsLinks(g, rk, nodes, top, |order|, last, onLeft, node);
    LeafKeepsSpans(g, rk, nodes, top, |order|, last, onLeft, node, order);
    LeafKeepsRanks(rk, nodes, order, k, onLeft, node);
    AboveStep(g', rk', nodes', top, |order'|, node);
    var path := Above(g', rk', nodes', top, |order'|, last);
    forall n | n in nodes' ensures LagOk(cnt[node := 1], rk', path, n) {
      assert SpanOk(g', rk', |order'|, n) && RankOk(rk', order', n);
      if n != node {
        assert SizeOk(cnt, rk, n) && SpanOk(g, rk, |order|, n);
        if n in path {
          AboveHolds(g', rk', nodes', top, |order'|, node, n);
        } else if rk'[n].lo <= k < rk'[n].hi {
          HoldersAbove(g', rk', nodes', top, order', node, n);
        }
      }
    }
  }

  // Once a node is spliced out, only the counts above its place can be wrong.
  lemma SpliceSizes(g: Links, cnt: Sizes, rk: Spans, nodes: set<Ptr>, top: Ptr, order: seq<Ptr>, y: Ptr)
    requires CanSplice(g, nodes, top, y) && Spanned(g, rk, nodes, top, |order|) && Ranked(rk, nodes, order)
    requires Sized(cnt, rk, nodes, {})
    ensures y in rk && (g.parent[y] != NULL ==> g.parent[y] in g.left && g.parent[y] in nodes - {y})
    ensures var top' := if g.parent[y] == NULL then Survivor(g, y) else top;
      var g', nodes', rk' := Spliced(g, y), nodes - {y}, ShrunkSpans(rk, rk[y].pos);
      && Linked(g', nodes', top') && Spanned(g', rk', nodes', top', |order| - 1)
      && Sized(cnt, rk', nodes',
               if g.parent[y] == NULL then {} else Above(g', rk', nodes', top', |order| - 1, g.parent[y]))
  {
    SpliceKeepsLinks(g, rk, nodes, top, order, y);
    SpliceKeepsSpans(g, rk, nodes, top, order, y);
    SpliceKeepsRanks(rk, nodes, order, y);
    AboveStep(g, rk, nodes, top, |order|, y);
    var q := g.parent[y];
    var top' := if q == NULL then Survivor(g, y) else top;
    var g', nodes', rk' := Spliced(g, y), nodes - {y}, ShrunkSpans(rk, rk[y].pos);
    var order' := order[..rk[y].pos] + order[rk[y].pos + 1..];
    var path := if q == NULL then {} else Above(g', rk', nodes', top', |order'|, q);
    assert RankOk(rk, order, y);
    forall n | n in nodes' && n !in path ensures SizeOk(cnt, rk', n) {
      assert SizeOk(cnt, rk, n) && SpanOk(g, rk, |order|, n) && RankOk(rk, order, n);
      if rk[n].lo <= rk[y].pos < rk[n].hi {
        HoldersAbove(g, rk, nodes, top, order, y, n);
        if q != NULL {
          AboveHolds(g, rk, nodes, top, |order|, q, n);
          assert SpanOk(g, rk, |order|, q) && RankOk(rk, order, q);
          HoldersAbove(g', rk', nodes', top', order', q, n);
        }
      }
    }
  }

  // The tree of one black node.
  lemma SingleNode(g: Links, red: Colours, node: Ptr)
    requires node != NULL && node in red && !red[node] && Dom(g, {node})
    requires g.left[node] == NULL && g.right[node] == NULL && g.parent[node] == NULL
    ensures var rk := map[node := Span(0, 0, 1)];
      && Linked(g, {node}, node) && Spanned(g, rk, {node}, node, 1) && Ranked(rk, {node}, [node])
      && Coloured(g, red, {node}, NULL, NULL) && Balanced(g, red, map[node := 1], {node}, NULL, true)
  {
    var rk := map[node := Span(0, 0, 1)];
    assert DownOk(g, {node}, node) && UpOk(g, {node}, node, node) && SpanOk(g, rk, 1, node);
    assert RankOk(rk, [node], node);
    assert RedOk(g, red, node, NULL, NULL) && BalOk(g, red, map[node := 1], node, NULL, true);
  }

  // A node that takes another's place takes its span; the counts of all others stay right.
  lemma ReplaceSizes(cnt: Sizes, rk: Spans, nodes: set<Ptr>, z: Ptr, y: Ptr)
    requires Sized(cnt, rk, nodes, {}) && z in nodes && z in rk && y in cnt
    ensures Sized(cnt, rk[y := rk[z]], nodes - {z} + {y}, {y})
  {
    forall n | n in nodes - {z} + {y} && n != y ensures SizeOk(cnt, rk[y := rk[z]], n) {
      assert SizeOk(cnt, rk, n);
    }
  }
}
