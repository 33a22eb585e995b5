/** Insertion into a red-black tree as a value: linking the new node, and the colour fix-up (RB_INSERT_COLOR). */
module RbInsert {
  import opened RbGraph

  /** The other child of a node that has elm as a child. */
  ghost function Sibling(g: Graph, p: Entry, elm: Entry?): Entry?
    requires p in g.rec
  {
    if g.rec[p].left == elm then g.rec[p].right else g.rec[p].left
  }

  /** A valid tree, except that the red node elm may be the root or have a red parent. */
  ghost predicate InsertInv(g: Graph, elm: Entry)
  {
    && Links(g)
    && Red(g, elm) && Good(g, elm)
    && g.root != null && (Red(g, g.root) ==> g.root == elm)
    && GoodBut(g, {g.rec[elm].parent})
    && var p := g.rec[elm].parent;
       p in g.rec ==> Balanced(g, p) && (Red(g, p) ==> !Red(g, Sibling(g, p, elm)))
  }

  /** While elm has a red parent, the grandparent exists and is black. */
  lemma Grandparent(g: Graph, elm: Entry)
    requires InsertInv(g, elm) && Red(g, g.rec[elm].parent)
    ensures var p := g.rec[elm].parent; var gp := g.rec[p].parent;
      && gp in g.rec && !Red(g, gp) && elm != p && p != gp && elm != gp
      && Good(g, gp) && LinkOk(g, p) && LinkOk(g, gp) && LinkOk(g, elm)
  {
    var p: Entry := g.rec[elm].parent;
    assert LinkOk(g, elm) && LinkOk(g, p);
    var gp := g.rec[p].parent;
    assert LinkOk(g, gp);
    assert Good(g, gp);
  }

  ghost function Recolored(g: Graph, u: Entry, p: Entry, gp: Entry): Graph
    requires u in g.rec && p in g.rec && gp in g.rec
  {
    Paint(Paint(Paint(g, u, false, g.rec[u].bh), p, false, g.rec[p].bh), gp, true, g.rec[gp].bh + 1)
  }

  lemma RecolorGood(g: Graph, u: Entry, p: Entry, gp: Entry)
    requires Links(g) && GoodBut(g, {p}) && u in g.rec && p in g.rec && gp in g.rec
    requires g.rec[u].parent == gp == g.rec[p].parent && u != p && u != gp && p != gp
    ensures Links(Recolored(g, u, p, gp))
    ensures GoodBut(Recolored(g, u, p, gp), {u, p, gp, g.rec[gp].parent})
  {
    var g1 := Paint(g, u, false, g.rec[u].bh);
    var g2 := Paint(g1, p, false, g.rec[p].bh);
    PaintLinks(g, u, false, g.rec[u].bh);
    PaintGood(g, u, false, g.rec[u].bh, {p});
    PaintLinks(g1, p, false, g.rec[p].bh);
    PaintGood(g1, p, false, g.rec[p].bh, {p} + {u, gp});
    PaintLinks(g2, gp, true, g.rec[gp].bh + 1);
    PaintGood(g2, gp, true, g.rec[gp].bh + 1, {p} + {u, gp} + {p, gp});
    assert {p} + {u, gp} + {p, gp} + {gp, g.rec[gp].parent} == {u, p, gp, g.rec[gp].parent};
  }

  /** Red uncle: blacken parent and uncle, redden the grandparent, and go on from there. */
  lemma RecolorStep(g: Graph, elm: Entry)
    requires InsertInv(g, elm) && Red(g, g.rec[elm].parent)
    requires var p := g.rec[elm].parent; var gp := g.rec[p].parent; gp in g.rec ==> Red(g, Sibling(g, gp, p))
    ensures var p: Entry := g.rec[elm].parent; var gp := g.rec[p].parent;
      && gp in g.rec && InsertInv(Recolored(g, Sibling(g, gp, p), p, gp), gp)
  {
    Grandparent(g, elm);
    var p: Entry := g.rec[elm].parent;
    var gp: Entry := g.rec[p].parent;
    var u: Entry := Sibling(g, gp, p);
    assert LinkOk(g, u);
    var h := Recolored(g, u, p, gp);
    RecolorGood(g, u, p, gp);
    RecolorFamily(g, h, elm, u, p, gp);
    RecolorAbove(g, h, u, p, gp);
    var q := g.rec[gp].parent;
    assert GoodBut(h, {q}) by {
      assert Good(h, u) && Good(h, p) && Good(h, gp);
    }
  }

  lemma RecolorAbove(g: Graph, h: Graph, u: Entry, p: Entry, gp: Entry)
    requires Links(g) && GoodBut(g, {p}) && u in g.rec && p in g.rec && gp in g.rec
    requires g.rec[u].parent == gp == g.rec[p].parent && u != p && u != gp && p != gp
    requires !Red(g, gp) && (Red(g, g.root) ==> g.root != gp) && h == Recolored(g, u, p, gp)
    ensures var q := g.rec[gp].parent;
      q in g.rec ==> Balanced(h, q) && (Red(h, q) ==> !Red(h, Sibling(h, q, gp)))
  {
    var q := g.rec[gp].parent;
    assert LinkOk(g, gp) && LinkOk(g, u) && LinkOk(g, p);
    if q != null {
      assert LinkOk(g, q);
      assert q != p && q != u && q != gp;
      assert Good(g, q);
      assert BH(h, gp) == BH(g, gp);
      var c := Sibling(g, q, gp);
      assert c != null ==> LinkOk(g, c) && h.rec[c] == g.rec[c];
    }
  }

  ghost predicate LowBut(g: Graph, elm: Entry, bound: nat)
  {
    forall n <- g.rec.Keys :: n != elm ==> g.rec[n].bh <= bound
  }

  /** The fix-up loop climbs: black heights bound the number of recolouring steps. */
  lemma RecolorClimbs(g: Graph, elm: Entry, bound: nat)
    requires InsertInv(g, elm) && Red(g, g.rec[elm].parent) && LowBut(g, elm, bound)
    requires var p := g.rec[elm].parent; var gp := g.rec[p].parent; gp in g.rec ==> Red(g, Sibling(g, gp, p))
    ensures var p: Entry := g.rec[elm].parent; var gp := g.rec[p].parent;
      && gp in g.rec && LowBut(Recolored(g, Sibling(g, gp, p), p, gp), gp, bound)
      && g.rec[elm].bh == g.rec[gp].bh <= bound
  {
    Grandparent(g, elm);
    var p: Entry := g.rec[elm].parent;
    var gp: Entry := g.rec[p].parent;
    assert Balanced(g, p) && Balanced(g, gp);
  }

  lemma RecolorFamily(g: Graph, h: Graph, elm: Entry, u: Entry, p: Entry, gp: Entry)
    requires InsertInv(g, elm) && Red(g, p) && p == g.rec[elm].parent && gp == g.rec[p].parent
    requires gp in g.rec && u == Sibling(g, gp, p) && Red(g, u) && h == Recolored(g, u, p, gp)
    ensures Good(h, u) && Good(h, p) && Good(h, gp)
  {
    Grandparent(g, elm);
    assert LinkOk(g, u) && Good(g, u);
    forall c: Entry? | c != u && c != p && c != gp
      ensures BH(h, c) == BH(g, c) && Red(h, c) == Red(g, c)
    {
    }
  }

  /** elm is an inner grandchild: rotate the parent p down, which makes p an outer grandchild. */
  lemma InnerRotateStep(g: Graph, h: Graph, elm: Entry, l: bool)
    requires InsertInv(g, elm) && Red(g, g.rec[elm].parent)
    requires var p: Entry := g.rec[elm].parent; var gp := g.rec[p].parent;
      gp in g.rec && Kid(g, gp, l) == p && Kid(g, p, !l) == elm && Rotated(g, h, p, l)
    ensures var p: Entry := g.rec[elm].parent; var gp: Entry := g.rec[p].parent;
      && InsertInv(h, p) && Red(h, elm)
      && h.rec[p].parent == elm && h.rec[elm].parent == gp && gp in h.rec
      && Kid(h, gp, l) == elm && Kid(h, elm, l) == p && Kid(h, gp, !l) == Kid(g, gp, !l)
      && (forall c: Entry? :: Red(h, c) == Red(g, c)) && h.root == g.root
  {
    Grandparent(g, elm);
    var p: Entry := g.rec[elm].parent;
    var gp: Entry := g.rec[p].parent;
    RotationDistinct(g, p, l);
    RotatedLinks(g, h, p, l);
    RotatedGood(g, h, p, l, {p});
    forall c: Entry?
      ensures BH(h, c) == BH(g, c) && Red(h, c) == Red(g, c)
    {
    }
    assert Good(h, p) && Balanced(h, elm) && Good(h, gp);
    assert Sibling(h, elm, p) == Kid(g, elm, !l);
  }

  /** elm is an outer grandchild with a black uncle: swap the colours of p and gp and rotate gp down. */
  lemma OuterRotateStep(g: Graph, h: Graph, elm: Entry, l: bool)
    requires InsertInv(g, elm) && Red(g, g.rec[elm].parent)
    requires var p: Entry := g.rec[elm].parent; var gp := g.rec[p].parent;
      && gp in g.rec && Kid(g, gp, l) == p && Kid(g, p, l) == elm && !Red(g, Kid(g, gp, !l))
      && Rotated(Paint(Paint(g, p, false, g.rec[p].bh), gp, true, g.rec[gp].bh), h, gp, !l)
    ensures InsertInv(h, elm) && h.rec[elm].parent == g.rec[elm].parent && !Red(h, h.rec[elm].parent)
  {
    Grandparent(g, elm);
    var p: Entry := g.rec[elm].parent;
    var gp: Entry := g.rec[p].parent;
    var g1 := Paint(g, p, false, g.rec[p].bh);
    var g2 := Paint(g1, gp, true, g.rec[gp].bh);
    PaintLinks(g, p, false, g.rec[p].bh);
    PaintGood(g, p, false, g.rec[p].bh, {p});
    PaintLinks(g1, gp, true, g.rec[gp].bh);
    PaintGood(g1, gp, true, g.rec[gp].bh, {p} + {p, gp});
    RotationDistinct(g2, gp, !l);
    RotatedLinks(g2, h, gp, !l);
    RotatedGood(g2, h, gp, !l, {p} + {p, gp} + {gp, g.rec[gp].parent});
    OuterRotateFamily(g, h, elm, l);
    OuterRotateAbove(g, h, elm, l);
  }

  lemma OuterRotateFamily(g: Graph, h: Graph, elm: Entry, l: bool)
    requires InsertInv(g, elm) && Red(g, g.rec[elm].parent)
    requires var p: Entry := g.rec[elm].parent; var gp := g.rec[p].parent;
      && gp in g.rec && Kid(g, gp, l) == p && Kid(g, p, l) == elm && !Red(g, Kid(g, gp, !l))
      && Rotated(Paint(Paint(g, p, false, g.rec[p].bh), gp, true, g.rec[gp].bh), h, gp, !l)
    ensures var p: Entry := g.rec[elm].parent; var gp: Entry := g.rec[p].parent;
      && h.rec[elm] == g.rec[elm] && Good(h, elm) && Good(h, p) && Good(h, gp) && !Red(h, p) && BH(h, p) == BH(g, gp)
      && (forall c: Entry? :: c != p && c != gp ==> BH(h, c) == BH(g, c) && Red(h, c) == Red(g, c))
  {
    Grandparent(g, elm);
    var p: Entry := g.rec[elm].parent;
    var gp: Entry := g.rec[p].parent;
    var b := Kid(g, p, !l);
    forall c: Entry? | c != p && c != gp
      ensures BH(h, c) == BH(g, c) && Red(h, c) == Red(g, c)
    {
    }
    var g2 := Paint(Paint(g, p, false, g.rec[p].bh), gp, true, g.rec[gp].bh);
    assert b != null ==> LinkOk(g, b);
    assert g.rec[gp].parent != elm by {
      assert g.rec[gp].parent != null ==> LinkOk(g, g.rec[gp].parent);
    }
    assert h.rec[elm] == g2.rec[elm];
  }

  lemma OuterRotateAbove(g: Graph, h: Graph, elm: Entry, l: bool)
    requires InsertInv(g, elm) && Red(g, g.rec[elm].parent)
    requires var p: Entry := g.rec[elm].parent; var gp := g.rec[p].parent;
      && gp in g.rec && Kid(g, gp, l) == p && Kid(g, p, l) == elm && !Red(g, Kid(g, gp, !l))
      && Rotated(Paint(Paint(g, p, false, g.rec[p].bh), gp, true, g.rec[gp].bh), h, gp, !l)
    ensures var q := g.rec[g.rec[g.rec[elm].parent].parent].parent; q in g.rec ==> Good(h, q)
  {
    Grandparent(g, elm);
    OuterRotateFamily(g, h, elm, l);
    var p: Entry := g.rec[elm].parent;
    var gp: Entry := g.rec[p].parent;
    var q := g.rec[gp].parent;
    if q != null {
      assert LinkOk(g, q) && Good(g, q);
    }
  }

  // ---------- Linking the new node ----------

  /** elm hung below p as a red leaf, to the left if l; or as the only node, if p is null. */
  ghost function WithLeaf(g: Graph, p: Entry?, elm: Entry, l: bool): Graph
  {
    if p !in g.rec then Graph(elm, g.rec[elm := Rec(null, null, null, true, elm.at - 1.0, elm.at + 1.0, 0)])
    else
      var r := g.rec[p];
      g.(rec := g.rec[p := if l then r.(left := elm) else r.(right := elm)]
                     [elm := Rec(null, null, p, true, if l then r.lo else p.at, if l then p.at else r.hi, 0)])
  }

  ghost predicate LeafSpot(g: Graph, p: Entry, elm: Entry, l: bool)
  {
    && elm !in g.rec && p in g.rec && Kid(g, p, l) == null
    && if l then g.rec[p].lo < elm.at < p.at else p.at < elm.at < g.rec[p].hi
  }

  lemma LinkLeafElsewhere(g: Graph, p: Entry, elm: Entry, l: bool, n: Entry)
    requires Links(g) && LeafSpot(g, p, elm, l) && n in g.rec && n != p
    ensures LinkOk(WithLeaf(g, p, elm, l), n)
    ensures Good(g, n) ==> Good(WithLeaf(g, p, elm, l), n)
  {
    var h := WithLeaf(g, p, elm, l);
    assert LinkOk(g, n) && LinkOk(g, p);
    assert h.rec[n] == g.rec[n] && n != elm;
    forall c: Entry | c in g.rec
      ensures h.rec[c].parent == g.rec[c].parent && h.rec[c].lo == g.rec[c].lo && h.rec[c].hi == g.rec[c].hi
      ensures h.rec[c].red == g.rec[c].red && h.rec[c].bh == g.rec[c].bh
    {
    }
  }

  lemma LinkLeafNear(g: Graph, p: Entry, elm: Entry, l: bool)
    requires Links(g) && LeafSpot(g, p, elm, l) && Good(g, p)
    ensures var h := WithLeaf(g, p, elm, l);
      LinkOk(h, p) && LinkOk(h, elm) && Balanced(h, p) && Good(h, elm) && (Red(h, p) ==> !Red(h, Kid(h, p, !l)))
  {
    var h := WithLeaf(g, p, elm, l);
    assert LinkOk(g, p);
    var s := Kid(g, p, !l);
    assert s != null ==> LinkOk(g, s) && s != p && h.rec[s] == g.rec[s];
    assert h.rec[p].parent == g.rec[p].parent;
    var q := g.rec[p].parent;
    assert q != null ==> LinkOk(g, q) && q != p && h.rec[q] == g.rec[q];
  }

  /** Hanging a new red leaf at a free spot of a valid tree leaves only its redness to repair. */
  lemma LinkLeaf(g: Graph, p: Entry, elm: Entry, l: bool)
    requires Valid(g) && LeafSpot(g, p, elm, l) && g.root != null
    ensures InsertInv(WithLeaf(g, p, elm, l), elm)
  {
    var h := WithLeaf(g, p, elm, l);
    assert LinkOk(g, p) && Good(g, p);
    forall n | n in h.rec
      ensures LinkOk(h, n)
    {
      if n == p || n == elm { LinkLeafNear(g, p, elm, l); } else { LinkLeafElsewhere(g, p, elm, l, n); }
    }
    forall n | n in h.rec && n !in {h.rec[elm].parent}
      ensures Good(h, n)
    {
      if n == elm { LinkLeafNear(g, p, elm, l); } else { assert Good(g, n); LinkLeafElsewhere(g, p, elm, l, n); }
    }
    LinkLeafNear(g, p, elm, l);
    assert h.root == g.root && h.rec[g.root].red == g.rec[g.root].red;
  }

  /** The first node of an empty tree. */
  lemma LinkFirst(g: Graph, elm: Entry)
    requires g.rec == map[]
    ensures InsertInv(WithLeaf(g, null, elm, false), elm)
  {
  }

  /** The fix-up loop's exit: with no red parent above elm, blackening the root makes the tree valid. */
  lemma BlackenRoot(g: Graph, elm: Entry)
    requires InsertInv(g, elm) && !Red(g, g.rec[elm].parent)
    ensures g.root in g.rec && Valid(Paint(g, g.root, false, g.rec[g.root].bh))
  {
    var h := Paint(g, g.root, false, g.rec[g.root].bh);
    PaintLinks(g, g.root, false, g.rec[g.root].bh);
    assert LinkOk(g, elm);
    if Red(g, g.root) {
      assert GoodBut(g, {});
      PaintGood(g, g.root, false, g.rec[g.root].bh, {});
      assert Good(h, g.root);
    } else {
      assert h.rec == g.rec;
    }
    assert GoodBut(h, {});
  }
}
