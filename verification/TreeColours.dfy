/** The colours and black heights of the trees of gskrbtreemacros.h: what each fixup step does to them. */
module TreeColours {
  import opened TreeLinks

  type Colours = map<Ptr, bool>
  // The number of black nodes on every path from a node down to a null link.
  type Heights = map<Ptr, int>

  predicate IsRed(red: Colours, n: Ptr)
  {
    n != NULL && n in red && red[n]
  }

  ghost function BH(bh: Heights, n: Ptr): int
  {
    if n != NULL && n in bh then bh[n] else 0
  }

  // A red node has no red child, except that a node xp may have one and a node xc may be one.
  ghost predicate RedOk(g: Links, red: Colours, n: Ptr, xp: Ptr, xc: Ptr)
  {
    && n in g.left && n in g.right && n in red
    && (IsRed(red, n) && n != xp ==>
          (IsRed(red, g.left[n]) ==> g.left[n] == xc) && (IsRed(red, g.right[n]) ==> g.right[n] == xc))
  }

  ghost predicate Coloured(g: Links, red: Colours, nodes: set<Ptr>, xp: Ptr, xc: Ptr)
  {
    forall n {:trigger RedOk(g, red, n, xp, xc)} :: n in nodes ==> RedOk(g, red, n, xp, xc)
  }

  // Both children of n have the same black height, where the left or right child of a node dp
  // is counted as carrying one black more than it does.
  ghost predicate BalOk(g: Links, red: Colours, bh: Heights, n: Ptr, dp: Ptr, dl: bool)
  {
    && n in g.left && n in g.right && n in bh && bh[n] >= 0
    && var l := BH(bh, g.left[n]) + (if n == dp && dl then 1 else 0);
    && var r := BH(bh, g.right[n]) + (if n == dp && !dl then 1 else 0);
    && l == r && bh[n] == l + (if IsRed(red, n) then 0 else 1)
  }

  ghost predicate Balanced(g: Links, red: Colours, bh: Heights, nodes: set<Ptr>, dp: Ptr, dl: bool)
  {
    forall n {:trigger BalOk(g, red, bh, n, dp, dl)} :: n in nodes ==> BalOk(g, red, bh, n, dp, dl)
  }

  lemma MirrorColours(g: Links, red: Colours, bh: Heights, nodes: set<Ptr>, xp: Ptr, xc: Ptr, dp: Ptr, dl: bool)
    requires Coloured(g, red, nodes, xp, xc) && Balanced(g, red, bh, nodes, dp, dl) && NULL !in nodes
    ensures Coloured(Mirror(g), red, nodes, xp, xc) && Balanced(Mirror(g), red, bh, nodes, dp, !dl)
    ensures dp == NULL ==> Balanced(Mirror(g), red, bh, nodes, NULL, dl)
  {
    forall n | n in nodes
      ensures RedOk(Mirror(g), red, n, xp, xc) && BalOk(Mirror(g), red, bh, n, dp, !dl)
      ensures dp == NULL ==> BalOk(Mirror(g), red, bh, n, NULL, dl)
    {
      assert RedOk(g, red, n, xp, xc) && BalOk(g, red, bh, n, dp, dl);
    }
  }

  // ---- insertion: the node at may be a red child of a red node ----

  // The node at, its red parent p and its grandparent.
  ghost predicate RedPair(g: Links, red: Colours, nodes: set<Ptr>, top: Ptr, at: Ptr, p: Ptr, gp: Ptr)
  {
    && Linked(g, nodes, top) && at in nodes && p in nodes && gp in nodes
    && g.parent[at] == p && g.parent[p] == gp && IsRed(red, at) && IsRed(red, p) && !IsRed(red, gp)
    && at != p && p != gp && gp != at
  }

  lemma GrandparentOf(g: Links, rk: Spans, red: Colours, nodes: set<Ptr>, top: Ptr, size: int, at: Ptr)
    requires Linked(g, nodes, top) && Spanned(g, rk, nodes, top, size) && Coloured(g, red, nodes, NULL, at)
    requires at in nodes && IsRed(red, at) && (IsRed(red, top) ==> top == at)
    requires IsRed(red, g.parent[at])
    ensures g.parent[at] in nodes && RedPair(g, red, nodes, top, at, g.parent[at], g.parent[g.parent[at]])
  {
    assert UpOk(g, nodes, top, at);
    var p := g.parent[at];
    assert UpOk(g, nodes, top, p) && DownOk(g, nodes, p) && SpanOk(g, rk, size, p) && SpanOk(g, rk, size, at);
    var gp := g.parent[p];
    assert DownOk(g, nodes, gp) && RedOk(g, red, gp, NULL, at) && SpanOk(g, rk, size, gp);
  }

  lemma Recoloured(g: Links, red: Colours, bh: Heights, nodes: set<Ptr>, top: Ptr, at: Ptr, p: Ptr, gp: Ptr, u: Ptr)
    requires RedPair(g, red, nodes, top, at, p, gp)
    requires Coloured(g, red, nodes, NULL, at) && Balanced(g, red, bh, nodes, NULL, true)
    requires (g.left[gp] == p && g.right[gp] == u) || (g.right[gp] == p && g.left[gp] == u)
    requires IsRed(red, u)
    ensures p in bh && u in bh
    ensures var red' := red[p := false][u := false][gp := true];
      var bh' := bh[p := bh[p] + 1][u := bh[u] + 1];
      Coloured(g, red', nodes, NULL, gp) && Balanced(g, red', bh', nodes, NULL, true)
  {
    assert DownOk(g, nodes, gp) && BalOk(g, red, bh, p, NULL, true) && BalOk(g, red, bh, u, NULL, true);
    var red' := red[p := false][u := false][gp := true];
    var bh' := bh[p := bh[p] + 1][u := bh[u] + 1];
    forall n | n in nodes
      ensures RedOk(g, red', n, NULL, gp) && BalOk(g, red', bh', n, NULL, true)
    {
      assert DownOk(g, nodes, n) && RedOk(g, red, n, NULL, at) && BalOk(g, red, bh, n, NULL, true);
    }
  }

  // The child at is on the inner side: turning its parent p leftwards makes p the lower node of the pair.
  lemma InnerRotation(g: Links, red: Colours, bh: Heights, nodes: set<Ptr>, top: Ptr, at: Ptr, p: Ptr, gp: Ptr)
    requires RedPair(g, red, nodes, top, at, p, gp) && g.right[p] == at && CanRotate(g, nodes, p)
    requires Coloured(g, red, nodes, NULL, at) && Balanced(g, red, bh, nodes, NULL, true)
    ensures Coloured(Rotated(g, p), red, nodes, NULL, p) && Balanced(Rotated(g, p), red, bh, nodes, NULL, true)
    ensures RedPair(Rotated(g, p), red, nodes, top, p, at, gp) && Rotated(g, p).left[at] == p
    ensures g.left[gp] == p ==> Rotated(g, p).left[gp] == at
  {
    RotatedLinked(g, nodes, top, p);
    var g' := Rotated(g, p);
    assert DownOk(g, nodes, p) && DownOk(g, nodes, at) && DownOk(g, nodes, gp) && UpOk(g, nodes, top, p);
    assert RedOk(g, red, p, NULL, at) && RedOk(g, red, at, NULL, at);
    assert BalOk(g, red, bh, p, NULL, true) && BalOk(g, red, bh, at, NULL, true);
    forall n | n in nodes
      ensures RedOk(g', red, n, NULL, p) && BalOk(g', red, bh, n, NULL, true)
    {
      assert DownOk(g, nodes, n) && RedOk(g, red, n, NULL, at) && BalOk(g, red, bh, n, NULL, true);
    }
  }

  // The child at is on the outer side: a rotation of the grandparent away from it ends the fixup.
  lemma OuterRotation(g: Links, red: Colours, bh: Heights, nodes: set<Ptr>, top: Ptr, at: Ptr, p: Ptr, gp: Ptr)
    requires RedPair(g, red, nodes, top, at, p, gp) && g.right[p] == at && g.right[gp] == p && CanRotate(g, nodes, gp)
    requires Coloured(g, red, nodes, NULL, at) && Balanced(g, red, bh, nodes, NULL, true)
    requires !IsRed(red, g.left[gp])
    ensures gp in bh
    ensures var red' := red[p := false][gp := true];
      var bh' := bh[p := bh[gp]][gp := bh[gp] - 1];
      Coloured(Rotated(g, gp), red', nodes, NULL, NULL) && Balanced(Rotated(g, gp), red', bh', nodes, NULL, true)
  {
    assert BalOk(g, red, bh, gp, NULL, true);
    var g', red' := Rotated(g, gp), red[p := false][gp := true];
    var bh' := bh[p := bh[gp]][gp := bh[gp] - 1];
    forall n | n in nodes
      ensures RedOk(g', red', n, NULL, NULL) && BalOk(g', red', bh', n, NULL, true)
    {
      OuterRotationRed(g, red, nodes, top, at, p, gp, n);
      OuterRotationBal(g, red, bh, nodes, top, at, p, gp, n);
    }
  }

  lemma OuterRotationRed(g: Links, red: Colours, nodes: set<Ptr>, top: Ptr, at: Ptr, p: Ptr, gp: Ptr, n: Ptr)
    requires RedPair(g, red, nodes, top, at, p, gp) && g.right[p] == at && g.right[gp] == p && CanRotate(g, nodes, gp)
    requires Coloured(g, red, nodes, NULL, at) && !IsRed(red, g.left[gp]) && n in nodes
    ensures RedOk(Rotated(g, gp), red[p := false][gp := true], n, NULL, NULL)
  {
    assert DownOk(g, nodes, p) && DownOk(g, nodes, gp) && UpOk(g, nodes, top, gp) && DownOk(g, nodes, n);
    assert RedOk(g, red, p, NULL, at) && RedOk(g, red, at, NULL, at) && RedOk(g, red, n, NULL, at);
  }

  lemma OuterRotationBal(g: Links, red: Colours, bh: Heights, nodes: set<Ptr>, top: Ptr, at: Ptr, p: Ptr, gp: Ptr,
                         n: Ptr)
    requires RedPair(g, red, nodes, top, at, p, gp) && g.right[p] == at && g.right[gp] == p && CanRotate(g, nodes, gp)
    requires Balanced(g, red, bh, nodes, NULL, true) && !IsRed(red, g.left[gp]) && n in nodes && gp in bh
    ensures BalOk(Rotated(g, gp), red[p := false][gp := true], bh[p := bh[gp]][gp := bh[gp] - 1], n, NULL, true)
  {
    assert DownOk(g, nodes, p) && DownOk(g, nodes, gp) && UpOk(g, nodes, top, gp) && DownOk(g, nodes, n);
    assert BalOk(g, red, bh, p, NULL, true) && BalOk(g, red, bh, gp, NULL, true) && BalOk(g, red, bh, at, NULL, true);
    assert BalOk(g, red, bh, n, NULL, true);
  }

  lemma WeakenColours(g: Links, red: Colours, nodes: set<Ptr>, at: Ptr)
    ensures Coloured(g, red, nodes, NULL, NULL) ==> Coloured(g, red, nodes, NULL, at)
  {
    if Coloured(g, red, nodes, NULL, NULL) {
      forall n | n in nodes ensures RedOk(g, red, n, NULL, at) { assert RedOk(g, red, n, NULL, NULL); }
    }
  }

  // The fixup loop has stopped below a node that is not red; a red top turns black.
  lemma TopBlackened(g: Links, red: Colours, bh: Heights, nodes: set<Ptr>, top: Ptr, at: Ptr)
    requires Linked(g, nodes, top) && at in nodes && !IsRed(red, g.parent[at])
    requires Coloured(g, red, nodes, NULL, at) && Balanced(g, red, bh, nodes, NULL, true)
    ensures top in bh
    ensures var red', bh' := red[top := false], if IsRed(red, top) then bh[top := bh[top] + 1] else bh;
      Coloured(g, red', nodes, NULL, NULL) && Balanced(g, red', bh', nodes, NULL, true)
  {
    assert BalOk(g, red, bh, top, NULL, true);
    var red', bh' := red[top := false], if IsRed(red, top) then bh[top := bh[top] + 1] else bh;
    forall n | n in nodes ensures RedOk(g, red', n, NULL, NULL) && BalOk(g, red', bh', n, NULL, true) {
      assert DownOk(g, nodes, n) && RedOk(g, red, n, NULL, at) && BalOk(g, red, bh, n, NULL, true);
    }
  }

  // ---- removal: the left child x of p, perhaps a null link, lacks one black ----

  ghost predicate LeftDeficit(g: Links, red: Colours, bh: Heights, nodes: set<Ptr>, top: Ptr, p: Ptr)
  {
    && Linked(g, nodes, top) && p in nodes && !IsRed(red, g.left[p])
    && Coloured(g, red, nodes, NULL, NULL) && Balanced(g, red, bh, nodes, p, true)
  }

  // The sibling w of the deficient child is a node, and if it is red both its children are black nodes.
  lemma SiblingOf(g: Links, red: Colours, bh: Heights, nodes: set<Ptr>, top: Ptr, p: Ptr)
    requires LeftDeficit(g, red, bh, nodes, top, p)
    ensures p in bh && g.right[p] in nodes && g.right[p] in bh && g.left[p] != g.right[p] && g.right[p] != p
    ensures IsRed(red, g.right[p]) ==>
      !IsRed(red, p) && g.left[g.right[p]] in nodes && !IsRed(red, g.left[g.right[p]])
  {
    assert DownOk(g, nodes, p) && BalOk(g, red, bh, p, p, true) && RedOk(g, red, p, NULL, NULL);
    var x := g.left[p];
    if x != NULL { assert BalOk(g, red, bh, x, p, true); }
    var w := g.right[p];
    assert DownOk(g, nodes, w) && BalOk(g, red, bh, w, p, true) && RedOk(g, red, w, NULL, NULL);
    if g.left[w] != NULL { assert DownOk(g, nodes, g.left[w]); }
  }

  lemma RedSibling(g: Links, red: Colours, bh: Heights, nodes: set<Ptr>, top: Ptr, p: Ptr)
    requires LeftDeficit(g, red, bh, nodes, top, p) && CanRotate(g, nodes, p)
    requires IsRed(red, g.right[p]) && p in bh
    ensures var w := g.right[p];
      var red' := red[w := false][p := true];
      var bh' := bh[w := bh[p]][p := bh[p] - 1];
      LeftDeficit(Rotated(g, p), red', bh', nodes, if g.parent[p] == NULL then w else top, p)
      && Rotated(g, p).left[p] == g.left[p] && !IsRed(red', Rotated(g, p).right[p])
  {
    SiblingOf(g, red, bh, nodes, top, p);
    RotatedLinked(g, nodes, top, p);
    var w := g.right[p];
    assert DownOk(g, nodes, p) && DownOk(g, nodes, w) && UpOk(g, nodes, top, p);
    assert BalOk(g, red, bh, p, p, true) && BalOk(g, red, bh, w, p, true) && RedOk(g, red, w, NULL, NULL);
    var g', red' := Rotated(g, p), red[w := false][p := true];
    var bh' := bh[w := bh[p]][p := bh[p] - 1];
    forall n | n in nodes
      ensures RedOk(g', red', n, NULL, NULL) && BalOk(g', red', bh', n, p, true)
    {
      assert DownOk(g, nodes, n) && RedOk(g, red, n, NULL, NULL) && BalOk(g, red, bh, n, p, true);
    }
  }

  // A black sibling with no red child turns red; the deficit moves up to p.
  lemma BlackSibling(g: Links, red: Colours, bh: Heights, nodes: set<Ptr>, top: Ptr, p: Ptr)
    requires LeftDeficit(g, red, bh, nodes, top, p) && p in bh && g.right[p] in bh && g.right[p] in nodes
    requires !IsRed(red, g.right[p])
    requires !IsRed(red, g.left[g.right[p]]) && !IsRed(red, g.right[g.right[p]])
    ensures var w := g.right[p];
      var red' := red[w := true];
      var bh' := bh[w := bh[w] - 1][p := bh[p] - 1];
      var q := g.parent[p];
      && Coloured(g, red', nodes, p, p)
      && Balanced(g, red', bh', nodes, q, q in g.left && g.left[q] == p)
  {
    var w, q := g.right[p], g.parent[p];
    var red', bh' := red[w := true], bh[w := bh[w] - 1][p := bh[p] - 1];
    forall n | n in nodes ensures RedOk(g, red', n, p, p) {
      assert DownOk(g, nodes, n) && DownOk(g, nodes, p) && RedOk(g, red, n, NULL, NULL) && RedOk(g, red, w, NULL, NULL);
    }
    forall n | n in nodes ensures BalOk(g, red', bh', n, q, q in g.left && g.left[q] == p) {
      BlackSiblingBal(g, red, bh, nodes, top, p, w, q, n);
    }
  }

  lemma BlackSiblingBal(g: Links, red: Colours, bh: Heights, nodes: set<Ptr>, top: Ptr, p: Ptr, w: Ptr, q: Ptr, n: Ptr)
    requires LeftDeficit(g, red, bh, nodes, top, p) && p in bh && w in bh && w in nodes && n in nodes
    requires g.right[p] == w && g.parent[p] == q && !IsRed(red, w)
    ensures BalOk(g, red[w := true], bh[w := bh[w] - 1][p := bh[p] - 1], n, q, q in g.left && g.left[q] == p)
  {
    SiblingOf(g, red, bh, nodes, top, p);
    assert DownOk(g, nodes, p) && DownOk(g, nodes, w) && UpOk(g, nodes, top, p);
    assert q != NULL ==> DownOk(g, nodes, q);
    assert BalOk(g, red, bh, p, p, true) && BalOk(g, red, bh, w, p, true);
    if g.left[p] != NULL { assert BalOk(g, red, bh, g.left[p], p, true); }
    assert DownOk(g, nodes, n) && BalOk(g, red, bh, n, p, true);
  }

  // The sibling's inner child is its only red one: a rotation of the sibling brings a red outer child.
  // (Stated with the sibling w itself as the node that is turned, in the mirrored links h.)
  lemma InnerRedNephew(h: Links, red: Colours, bh: Heights, nodes: set<Ptr>, top: Ptr, p: Ptr)
    requires LeftDeficit(Mirror(h), red, bh, nodes, top, p) && h.left[p] in nodes && CanRotate(h, nodes, h.left[p])
    requires !IsRed(red, h.left[p]) && !IsRed(red, h.left[h.left[p]]) && IsRed(red, h.right[h.left[p]])
    requires h.left[p] in bh && Linked(h, nodes, top)
    ensures var w := h.left[p];
      var r := h.right[w];
      var red' := red[r := false][w := true];
      var bh' := bh[r := bh[w]][w := bh[w] - 1];
      && LeftDeficit(Mirror(Rotated(h, w)), red', bh', nodes, top, p)
      && Rotated(h, w).left[p] == r && Rotated(h, w).right[p] == h.right[p]
      && !IsRed(red', r) && Rotated(h, w).left[r] == w
  {
    var w := h.left[p];
    var r := h.right[w];
    assert DownOk(h, nodes, p) && h.parent[w] == p && w != top;
    RotatedLinked(h, nodes, top, w);
    MirrorLinked(Rotated(h, w), nodes, top);
    SiblingOf(Mirror(h), red, bh, nodes, top, p);
    assert DownOk(h, nodes, w) && DownOk(h, nodes, r) && UpOk(h, nodes, top, w);
    var g', red' := Mirror(Rotated(h, w)), red[r := false][w := true];
    var bh' := bh[r := bh[w]][w := bh[w] - 1];
    forall n | n in nodes
      ensures RedOk(g', red', n, NULL, NULL) && BalOk(g', red', bh', n, p, true)
    {
      InnerRedNephewAt(h, red, bh, nodes, top, p, w, r, n);
    }
  }

  lemma InnerRedNephewAt(h: Links, red: Colours, bh: Heights, nodes: set<Ptr>, top: Ptr, p: Ptr, w: Ptr, r: Ptr, n: Ptr)
    requires LeftDeficit(Mirror(h), red, bh, nodes, top, p) && Linked(h, nodes, top) && CanRotate(h, nodes, w)
    requires h.left[p] == w && h.right[w] == r && w in bh && n in nodes
    requires !IsRed(red, w) && !IsRed(red, h.left[w]) && IsRed(red, r)
    ensures RedOk(Mirror(Rotated(h, w)), red[r := false][w := true], n, NULL, NULL)
    ensures BalOk(Mirror(Rotated(h, w)), red[r := false][w := true], bh[r := bh[w]][w := bh[w] - 1], n, p, true)
  {
    assert DownOk(h, nodes, p) && DownOk(h, nodes, w) && DownOk(h, nodes, r) && UpOk(h, nodes, top, w);
    assert BalOk(Mirror(h), red, bh, w, p, true) && BalOk(Mirror(h), red, bh, r, p, true);
    assert RedOk(Mirror(h), red, r, NULL, NULL);
    assert DownOk(h, nodes, n) && RedOk(Mirror(h), red, n, NULL, NULL) && BalOk(Mirror(h), red, bh, n, p, true);
  }

  // The sibling's outer child is red: a rotation of p pays the deficit.
  lemma OuterRedNephew(g: Links, red: Colours, bh: Heights, nodes: set<Ptr>, top: Ptr, p: Ptr)
    requires LeftDeficit(g, red, bh, nodes, top, p) && CanRotate(g, nodes, p)
    requires p in red && p in bh && g.right[p] in bh && !IsRed(red, g.right[p]) && IsRed(red, g.right[g.right[p]])
    ensures g.right[g.right[p]] in bh
    ensures var w := g.right[p];
      var s := g.right[w];
      var red' := red[w := red[p]][p := false][s := false];
      var bh' := bh[w := bh[p]][p := bh[w]][s := bh[s] + 1];
      Coloured(Rotated(g, p), red', nodes, NULL, NULL) && Balanced(Rotated(g, p), red', bh', nodes, NULL, true)
  {
    var w := g.right[p];
    var s := g.right[w];
    assert DownOk(g, nodes, w) && BalOk(g, red, bh, s, p, true);
    var g', red' := Rotated(g, p), red[w := red[p]][p := false][s := false];
    var bh' := bh[w := bh[p]][p := bh[w]][s := bh[s] + 1];
    forall n | n in nodes ensures RedOk(g', red', n, NULL, NULL) {
      OuterRedNephewRed(g, red, bh, nodes, top, p, n);
    }
    forall n | n in nodes ensures BalOk(g', red', bh', n, NULL, true) {
      OuterRedNephewBal(g, red, bh, nodes, top, p, w, s, n);
    }
  }

  lemma OuterRedNephewRed(g: Links, red: Colours, bh: Heights, nodes: set<Ptr>, top: Ptr, p: Ptr, n: Ptr)
    requires LeftDeficit(g, red, bh, nodes, top, p) && CanRotate(g, nodes, p) && n in nodes
    requires p in red && !IsRed(red, g.right[p]) && IsRed(red, g.right[g.right[p]])
    ensures var w := g.right[p];
      RedOk(Rotated(g, p), red[w := red[p]][p := false][g.right[w] := false], n, NULL, NULL)
  {
    var w := g.right[p];
    var s := g.right[w];
    assert DownOk(g, nodes, p) && DownOk(g, nodes, w) && UpOk(g, nodes, top, p);
    assert RedOk(g, red, p, NULL, NULL) && RedOk(g, red, s, NULL, NULL);
    assert DownOk(g, nodes, n) && RedOk(g, red, n, NULL, NULL);
  }

  lemma OuterRedNephewBal(g: Links, red: Colours, bh: Heights, nodes: set<Ptr>, top: Ptr, p: Ptr, w: Ptr, s: Ptr,
                          n: Ptr)
    requires LeftDeficit(g, red, bh, nodes, top, p) && CanRotate(g, nodes, p) && n in nodes
    requires g.right[p] == w && g.right[w] == s && p in red && p in bh && w in bh && s in bh
    requires !IsRed(red, w) && IsRed(red, s)
    ensures BalOk(Rotated(g, p), red[w := red[p]][p := false][s := false], bh[w := bh[p]][p := bh[w]][s := bh[s] + 1],
                  n, NULL, true)
  {
    assert DownOk(g, nodes, p) && DownOk(g, nodes, w) && UpOk(g, nodes, top, p);
    assert BalOk(g, red, bh, p, p, true) && BalOk(g, red, bh, w, p, true) && BalOk(g, red, bh, s, p, true);
    assert DownOk(g, nodes, n) && BalOk(g, red, bh, n, p, true);
  }

  // A node that is not red needs no exemption from the rule against red pairs.
  lemma BlackNeedsNoExemption(g: Links, red: Colours, nodes: set<Ptr>, x: Ptr)
    requires Coloured(g, red, nodes, x, x) && !IsRed(red, x)
    ensures Coloured(g, red, nodes, NULL, NULL)
  {
    forall n | n in nodes ensures RedOk(g, red, n, NULL, NULL) { assert RedOk(g, red, n, x, x); }
  }

  lemma WeakenBoth(g: Links, red: Colours, nodes: set<Ptr>, xp: Ptr, xc: Ptr, x: Ptr)
    requires Coloured(g, red, nodes, xp, xc) && (xp == NULL || xp == x) && (xc == NULL || xc == x) && NULL !in nodes
    ensures Coloured(g, red, nodes, x, x)
  {
    forall n | n in nodes ensures RedOk(g, red, n, x, x) { assert RedOk(g, red, n, xp, xc); }
  }

  // The loop has stopped at the top or at a red node x: turning x black pays what is missing.
  lemma DeficitPaid(g: Links, red: Colours, bh: Heights, nodes: set<Ptr>, top: Ptr, x: Ptr, p: Ptr, dl: bool)
    requires Linked(g, nodes, top) && x in nodes
    requires Coloured(g, red, nodes, x, x) && Balanced(g, red, bh, nodes, p, dl)
    requires p == NULL ==> x == top
    requires p != NULL ==> p in nodes && x == (if dl then g.left[p] else g.right[p]) && IsRed(red, x)
    ensures x in bh
    ensures var red', bh' := red[x := false], if IsRed(red, x) then bh[x := bh[x] + 1] else bh;
      Coloured(g, red', nodes, NULL, NULL) && Balanced(g, red', bh', nodes, NULL, true)
  {
    assert BalOk(g, red, bh, x, p, dl);
    var red', bh' := red[x := false], if IsRed(red, x) then bh[x := bh[x] + 1] else bh;
    forall n | n in nodes ensures RedOk(g, red', n, NULL, NULL) && BalOk(g, red', bh', n, NULL, true) {
      assert DownOk(g, nodes, n) && RedOk(g, red, n, x, x) && BalOk(g, red, bh, n, p, dl);
      assert p != NULL ==> DownOk(g, nodes, p);
    }
  }
}
