/** Removal from a red-black tree as a value: the colour fix-up (RB_REMOVE_COLOR) case by case. */
module RbRemove {
  import opened RbGraph
  import opened RbInsert

  /** The paths through p's child elm are one black node short; p is otherwise in order. */
  ghost predicate Lacking(g: Graph, p: Entry, elm: Entry?)
    requires p in g.rec
  {
    var s := Sibling(g, p, elm);
    && (g.rec[p].left == elm || g.rec[p].right == elm)
    && BH(g, elm) + 1 == g.rec[p].bh == BH(g, s)
    && (Red(g, p) ==> !Red(g, s))
  }

  /** A valid tree, except that paths through elm lack one black node, and elm may be red beside red. */
  ghost predicate RemoveInv(g: Graph, parent: Entry?, elm: Entry?)
  {
    && Links(g)
    && (elm != null ==> elm in g.rec && g.rec[elm].parent == parent && Balanced(g, elm))
    && (parent == null ==> elm == g.root)
    && (parent != null ==> parent in g.rec && g.root != null && Lacking(g, parent, elm))
    && GoodBut(g, {parent, elm})
    && (Red(g, g.root) ==> g.root == elm)
  }

  /** A bound on all black heights; the loop climbs towards it. */
  ghost predicate AllLow(g: Graph, bound: nat)
  {
    forall n <- g.rec.Keys :: g.rec[n].bh <= bound
  }

  /** The loop's exit: blackening elm makes up for the missing black node. */
  lemma RemoveDone(g: Graph, parent: Entry?, elm: Entry?)
    requires RemoveInv(g, parent, elm) && (Red(g, elm) || elm == g.root)
    ensures if elm == null then Valid(g) else Valid(Paint(g, elm, false, g.rec[elm].bh))
  {
    if elm == null {
      assert GoodBut(g, {});
    } else {
      var h := Paint(g, elm, false, g.rec[elm].bh);
      PaintLinks(g, elm, false, g.rec[elm].bh);
      PaintGood(g, elm, false, g.rec[elm].bh, {parent, elm});
      assert LinkOk(g, elm);
      assert Good(h, elm);
      if parent != null {
        assert LinkOk(g, parent);
        assert Good(h, parent);
      }
      assert GoodBut(h, {});
    }
  }

  /** While paths through a black elm are short, its sibling is a real node: the fix-up never dereferences null. */
  lemma SiblingExists(g: Graph, parent: Entry?, elm: Entry?)
    requires RemoveInv(g, parent, elm) && !Red(g, elm) && elm != g.root
    ensures parent in g.rec && LinkOk(g, parent)
    ensures var s := Sibling(g, parent, elm);
      s in g.rec && s != elm && s != parent && g.rec[s].parent == parent && LinkOk(g, s) && Good(g, s) && elm != parent
  {
    var s := Sibling(g, parent, elm);
    assert LinkOk(g, parent);
    assert s in g.rec;
    assert LinkOk(g, s);
    assert elm != null ==> LinkOk(g, elm);
    assert Good(g, s);
  }

  ghost function Lowered(g: Graph, t: Entry, p: Entry): Graph
    requires t in g.rec && p in g.rec && g.rec[p].bh >= 1
  {
    Paint(Paint(g, t, true, g.rec[t].bh), p, g.rec[p].red, g.rec[p].bh - 1)
  }

  lemma PushUpLow(g: Graph, p: Entry, t: Entry, bound: nat)
    requires t in g.rec && p in g.rec && g.rec[p].bh >= 1 && AllLow(g, bound)
    ensures AllLow(Lowered(g, t, p), bound)
  {
  }

  /** Black sibling with two black children: redden it and move the shortage up to the parent. */
  lemma PushUpStep(g: Graph, p: Entry, elm: Entry?)
    requires RemoveInv(g, p, elm) && !Red(g, elm) && elm != g.root
    requires var t := Sibling(g, p, elm);
               !Red(g, t)
               && (t in g.rec ==> !Red(g, g.rec[t].left) && !Red(g, g.rec[t].right))
    ensures var t := Sibling(g, p, elm);
      && t in g.rec && g.rec[p].bh >= 1
      && RemoveInv(Lowered(g, t, p), g.rec[p].parent, p)
  {
    SiblingExists(g, p, elm);
    var t: Entry := Sibling(g, p, elm);
    var g1 := Paint(g, t, true, g.rec[t].bh);
    var h := Lowered(g, t, p);
    var q := g.rec[p].parent;
    PaintLinks(g, t, true, g.rec[t].bh);
    PaintGood(g, t, true, g.rec[t].bh, {p, elm});
    PaintLinks(g1, p, g.rec[p].red, g.rec[p].bh - 1);
    PaintGood(g1, p, g.rec[p].red, g.rec[p].bh - 1, {p, elm} + {t, p});
    assert elm != null ==> h.rec[elm] == g.rec[elm] && Good(g, elm) by {
      assert elm != null ==> LinkOk(g, elm);
    }
    PushUpNear(g, p, elm, t, h);
    assert GoodBut(h, {q, p});
  }

  lemma PushUpNear(g: Graph, p: Entry, elm: Entry?, t: Entry, h: Graph)
    requires RemoveInv(g, p, elm) && !Red(g, elm) && elm != g.root && p in g.rec && t == Sibling(g, p, elm)
    requires t in g.rec
    requires !Red(g, t) && !Red(g, g.rec[t].left) && !Red(g, g.rec[t].right) && g.rec[p].bh >= 1
    requires h == Lowered(g, t, p)
    ensures Balanced(h, p) && Good(h, t) && (elm != null ==> Good(h, elm))
    ensures g.rec[p].parent != null ==> g.rec[p].parent in h.rec && Lacking(h, g.rec[p].parent, p)
  {
    SiblingExists(g, p, elm);
    forall c: Entry? | c != t && c != p
      ensures BH(h, c) == BH(g, c) && Red(h, c) == Red(g, c)
    {
    }
    if elm != null {
      assert LinkOk(g, elm);
      var r := g.rec[elm];
      assert h.rec[elm] == r;
      assert r.left != null ==> LinkOk(g, r.left);
      assert r.right != null ==> LinkOk(g, r.right);
    }
    PushUpTop(g, p, elm, t, h);
  }

  lemma PushUpTop(g: Graph, p: Entry, elm: Entry?, t: Entry, h: Graph)
    requires RemoveInv(g, p, elm) && !Red(g, elm) && elm != g.root && p in g.rec && t == Sibling(g, p, elm)
    requires t in g.rec
    requires !Red(g, t) && g.rec[p].bh >= 1
    requires h == Lowered(g, t, p)
    ensures g.rec[p].parent != null ==> g.rec[p].parent in h.rec && Lacking(h, g.rec[p].parent, p)
  {
    SiblingExists(g, p, elm);
    var q := g.rec[p].parent;
    if q != null {
      assert LinkOk(g, q);
      assert q != elm by {
        assert elm != null ==> LinkOk(g, elm);
      }
      assert Good(g, q);
      assert q != p && q != t && h.rec[q] == g.rec[q];
      var c := Sibling(g, q, p);
      assert c != null ==> LinkOk(g, c) && c != t && c != p;
    }
  }

  /** Facts about p, its short child elm on side l, and the sibling t. */
  ghost predicate At(g: Graph, p: Entry, elm: Entry?, l: bool, t: Entry)
  {
    && RemoveInv(g, p, elm) && !Red(g, elm) && elm != g.root
    && p in g.rec && t in g.rec && Kid(g, p, l) == elm && Kid(g, p, !l) == t && t == Sibling(g, p, elm)
  }

  /** Changing colours at p, at its child t and below t leaves elm itself in order. */
  lemma ElmUndisturbed(g: Graph, h: Graph, p: Entry, elm: Entry?, t: Entry)
    requires RemoveInv(g, p, elm) && !Red(g, elm) && elm != g.root && p in g.rec && t in g.rec
    requires t == Sibling(g, p, elm)
    requires elm != null ==> elm in h.rec && h.rec[elm] == g.rec[elm]
    requires forall c: Entry? :: c != p && c != t && !(c in g.rec && g.rec[c].parent == t) ==>
               BH(h, c) == BH(g, c)
               && Red(h, c) == Red(g, c)
    ensures elm != null ==> Good(h, elm)
  {
    SiblingExists(g, p, elm);
    if elm != null {
      assert LinkOk(g, elm);
      var r := g.rec[elm];
      assert r.left != null ==> LinkOk(g, r.left);
      assert r.right != null ==> LinkOk(g, r.right);
    }
  }

  /** Replacing p by t of the same black height and colour leaves p's parent in order. */
  lemma AboveUndisturbed(g: Graph, h: Graph, p: Entry, q: Entry, t: Entry)
    requires LinkOk(g, p) && q == g.rec[p].parent && q in g.rec && Good(g, q) && q in h.rec
    requires h.rec[q].red == g.rec[q].red && h.rec[q].bh == g.rec[q].bh
    requires if g.rec[q].left == p then h.rec[q].left == t && h.rec[q].right == g.rec[q].right
               else h.rec[q].left == g.rec[q].left && h.rec[q].right == t
    requires BH(h, t) == BH(g, p) && (Red(h, t) ==> Red(g, p))
    requires var s := Sibling(g, q, p); BH(h, s) == BH(g, s) && Red(h, s) == Red(g, s)
    ensures Good(h, q)
  {
  }

  // ----- Red sibling -----

  ghost function Swapped(g: Graph, t: Entry, p: Entry): Graph
    requires t in g.rec && p in g.rec
  {
    Paint(Paint(g, t, false, g.rec[t].bh), p, true, g.rec[p].bh)
  }

  /** Red sibling: rotate it above the parent, which leaves a black sibling beside elm. */
  lemma RedSiblingStep(g: Graph, h: Graph, p: Entry, elm: Entry?, l: bool, t: Entry)
    requires At(g, p, elm, l, t) && Red(g, t) && Rotated(Swapped(g, t, p), h, p, l)
    ensures RemoveInv(h, p, elm) && At(h, p, elm, l, Kid(g, t, l)) && !Red(h, Kid(h, p, !l)) && Red(h, p)
  {
    SiblingExists(g, p, elm);
    var g1 := Paint(g, t, false, g.rec[t].bh);
    var g2 := Swapped(g, t, p);
    PaintLinks(g, t, false, g.rec[t].bh);
    PaintGood(g, t, false, g.rec[t].bh, {p, elm});
    PaintLinks(g1, p, true, g.rec[p].bh);
    PaintGood(g1, p, true, g.rec[p].bh, {p, elm} + {t, p});
    var q := g.rec[p].parent;
    RotationDistinct(g2, p, l);
    RotatedLinks(g2, h, p, l);
    RotatedGood(g2, h, p, l, {p, elm} + {t, p} + {p, q});
    RedSiblingNear(g, h, p, elm, l, t);
    RedSiblingAbove(g, h, p, elm, l, t);
    assert GoodBut(h, {p, elm});
  }

  lemma RedSiblingLow(g: Graph, h: Graph, p: Entry, elm: Entry?, l: bool, t: Entry, bound: nat)
    requires At(g, p, elm, l, t) && Red(g, t) && Rotated(Swapped(g, t, p), h, p, l) && AllLow(g, bound)
    ensures AllLow(h, bound)
  {
    forall n | n in h.rec
      ensures h.rec[n].bh <= bound
    {
      assert h.rec[n].bh == Swapped(g, t, p).rec[n].bh;
    }
  }

  lemma RedSiblingNear(g: Graph, h: Graph, p: Entry, elm: Entry?, l: bool, t: Entry)
    requires At(g, p, elm, l, t) && Red(g, t) && Rotated(Swapped(g, t, p), h, p, l)
    ensures Kid(g, t, l) in g.rec && Kid(h, p, l) == elm && Kid(h, p, !l) == Kid(g, t, l)
    ensures Lacking(h, p, elm) && Good(h, t) && Red(h, p) && !Red(h, Kid(h, p, !l))
    ensures Kid(h, p, !l) == Sibling(h, p, elm)
    ensures forall c: Entry? :: c != p && c != t ==> BH(h, c) == BH(g, c) && Red(h, c) == Red(g, c)
    ensures BH(h, t) == BH(g, p) && !Red(g, p) && elm != Kid(g, t, l)
    ensures elm != null ==> h.rec[elm] == g.rec[elm]
  {
    SiblingExists(g, p, elm);
    var k := Kid(g, t, l);
    assert k in g.rec;
    assert LinkOk(g, k);
    forall c: Entry? | c != p && c != t
      ensures BH(h, c) == BH(g, c) && Red(h, c) == Red(g, c)
    {
    }
    if elm != null {
      assert LinkOk(g, elm);
      assert g.rec[p].parent != elm by {
        assert g.rec[p].parent != null ==> LinkOk(g, g.rec[p].parent);
      }
      assert h.rec[elm] == Swapped(g, t, p).rec[elm];
    }
  }

  lemma RedSiblingAbove(g: Graph, h: Graph, p: Entry, elm: Entry?, l: bool, t: Entry)
    requires At(g, p, elm, l, t) && Red(g, t) && Rotated(Swapped(g, t, p), h, p, l)
    ensures var q := g.rec[p].parent; q in g.rec ==> Good(h, q)
    ensures elm != null ==> Good(h, elm)
    ensures h.root != null && !Red(h, h.root)
  {
    SiblingExists(g, p, elm);
    RedSiblingNear(g, h, p, elm, l, t);
    var q := g.rec[p].parent;
    if q != null {
      assert LinkOk(g, q);
      assert elm != null ==> LinkOk(g, elm);
      assert Good(g, q);
    }
    ElmUndisturbed(g, h, p, elm, t);
  }

  // ----- Black sibling, red inner nephew -----

  /** Only the inner nephew is red: rotate it above the sibling, which makes the outer nephew red. */
  lemma InnerNephewStep(g: Graph, h: Graph, p: Entry, elm: Entry?, l: bool, t: Entry, k: Entry)
    requires At(g, p, elm, l, t) && !Red(g, t) && k == Kid(g, t, l) && Red(g, k) && !Red(g, Kid(g, t, !l))
    requires Rotated(Swapped(g, k, t), h, t, !l)
    ensures RemoveInv(h, p, elm) && At(h, p, elm, l, k) && !Red(h, k) && Kid(h, k, !l) == t && Red(h, t)
  {
    SiblingExists(g, p, elm);
    var g1 := Paint(g, k, false, g.rec[k].bh);
    var g2 := Swapped(g, k, t);
    assert LinkOk(g, k);
    PaintLinks(g, k, false, g.rec[k].bh);
    PaintGood(g, k, false, g.rec[k].bh, {p, elm});
    PaintLinks(g1, t, true, g.rec[t].bh);
    PaintGood(g1, t, true, g.rec[t].bh, {p, elm} + {k, t});
    RotationDistinct(g2, t, !l);
    RotatedLinks(g2, h, t, !l);
    RotatedGood(g2, h, t, !l, {p, elm} + {k, t} + {t, p});
    InnerNephewNear(g, h, p, elm, l, t, k);
    assert GoodBut(h, {p, elm});
  }

  lemma InnerNephewNear(g: Graph, h: Graph, p: Entry, elm: Entry?, l: bool, t: Entry, k: Entry)
    requires At(g, p, elm, l, t) && !Red(g, t) && k == Kid(g, t, l) && Red(g, k) && !Red(g, Kid(g, t, !l))
    requires Rotated(Swapped(g, k, t), h, t, !l)
    ensures p in h.rec && Kid(h, p, l) == elm && Kid(h, p, !l) == k && Lacking(h, p, elm) && Sibling(h, p, elm) == k
    ensures k != elm
    ensures k in h.rec && t in h.rec && Good(h, k) && Good(h, t) && !Red(h, k) && Red(h, t) && Kid(h, k, !l) == t
    ensures elm != null ==> h.rec[elm] == g.rec[elm] && Good(h, elm)
    ensures h.root == g.root
    ensures (h.root == p || h.root == null || Red(h, h.root) == Red(g, h.root) || h.root == t || h.root == k)
  {
    SiblingExists(g, p, elm);
    assert LinkOk(g, k) && Good(g, k);
    forall c: Entry? | c != t && c != k
      ensures BH(h, c) == BH(g, c) && Red(h, c) == Red(g, c)
    {
    }
    if elm != null {
      assert LinkOk(g, elm);
      var m := Kid(g, k, !l);
      assert m != null ==> LinkOk(g, m);
      assert h.rec[elm] == Swapped(g, k, t).rec[elm];
    }
    ElmUndisturbed(g, h, p, elm, t);
  }

  // ----- Black sibling, red outer nephew -----

  ghost function Shifted(g: Graph, t: Entry, p: Entry, o: Entry): Graph
    requires t in g.rec && p in g.rec && o in g.rec && g.rec[p].bh >= 1
  {
    Paint(Paint(Paint(g, t, g.rec[p].red, g.rec[p].bh), p, false, g.rec[p].bh - 1), o, false, g.rec[o].bh)
  }

  lemma ShiftedGood(g: Graph, t: Entry, p: Entry, o: Entry, elm: Entry?)
    requires Links(g) && GoodBut(g, {p, elm}) && t in g.rec && p in g.rec && o in g.rec && g.rec[p].bh >= 1
    requires g.rec[t].parent == p && g.rec[o].parent == t && t != p && o != p && o != t
    ensures Links(Shifted(g, t, p, o)) && GoodBut(Shifted(g, t, p, o), {p, elm, t, o, g.rec[p].parent})
  {
    var g1 := Paint(g, t, g.rec[p].red, g.rec[p].bh);
    var g2 := Paint(g1, p, false, g.rec[p].bh - 1);
    PaintLinks(g, t, g.rec[p].red, g.rec[p].bh);
    PaintGood(g, t, g.rec[p].red, g.rec[p].bh, {p, elm});
    PaintLinks(g1, p, false, g.rec[p].bh - 1);
    PaintGood(g1, p, false, g.rec[p].bh - 1, {p, elm} + {t, p});
    PaintLinks(g2, o, false, g.rec[o].bh);
    PaintGood(g2, o, false, g.rec[o].bh, {p, elm} + {t, p} + {p, g.rec[p].parent});
  }

  ghost predicate OuterCase(g: Graph, h: Graph, p: Entry, elm: Entry?, l: bool, t: Entry, o: Entry)
  {
    && At(g, p, elm, l, t) && !Red(g, t) && o == Kid(g, t, !l) && Red(g, o) && g.rec[p].bh >= 1
    && Rotated(Shifted(g, t, p, o), h, p, l)
  }

  /** The outer nephew is red: one rotation supplies the missing black node and ends the fix-up. */
  lemma OuterNephewStep(g: Graph, h: Graph, p: Entry, elm: Entry?, l: bool, t: Entry, o: Entry)
    requires OuterCase(g, h, p, elm, l, t, o)
    ensures Valid(h) && RemoveInv(h, null, h.root) && h.root != null
  {
    SiblingExists(g, p, elm);
    var g3 := Shifted(g, t, p, o);
    assert LinkOk(g, o);
    var q := g.rec[p].parent;
    ShiftedGood(g, t, p, o, elm);
    RotationDistinct(g3, p, l);
    RotatedLinks(g3, h, p, l);
    RotatedGood(g3, h, p, l, {p, elm, t, o, q});
    OuterNephewParent(g, h, p, elm, l, t, o);
    OuterNephewFamily(g, h, p, elm, l, t, o);
    OuterNephewAbove(g, h, p, elm, l, t, o);
    OuterNephewElm(g, h, p, elm, l, t, o);
    assert GoodBut(h, {});
    assert LinkOk(h, h.root) && Good(h, h.root);
  }

  lemma OuterNephewColours(g: Graph, h: Graph, p: Entry, elm: Entry?, l: bool, t: Entry, o: Entry)
    requires OuterCase(g, h, p, elm, l, t, o)
    ensures p in h.rec && t in h.rec && o in h.rec
    ensures h.rec[t].red == g.rec[p].red && h.rec[t].bh == g.rec[p].bh && !h.rec[p].red
    ensures h.rec[p].bh == g.rec[p].bh - 1
    ensures !h.rec[o].red && h.rec[o].bh == g.rec[o].bh
    ensures forall c: Entry? :: c != p && c != t && c != o ==> BH(h, c) == BH(g, c) && Red(h, c) == Red(g, c)
  {
    SiblingExists(g, p, elm);
    assert LinkOk(g, o);
    var k := Kid(g, t, l);
    assert k != null ==> LinkOk(g, k);
    forall c: Entry? | c != p && c != t && c != o
      ensures BH(h, c) == BH(g, c) && Red(h, c) == Red(g, c)
    {
    }
  }

  lemma OuterNephewParent(g: Graph, h: Graph, p: Entry, elm: Entry?, l: bool, t: Entry, o: Entry)
    requires OuterCase(g, h, p, elm, l, t, o)
    ensures p in h.rec && Good(h, p)
  {
    OuterNephewColours(g, h, p, elm, l, t, o);
    SiblingExists(g, p, elm);
    assert LinkOk(g, o);
    var k := Kid(g, t, l);
    assert k != null ==> LinkOk(g, k);
    assert Kid(h, p, l) == elm && Kid(h, p, !l) == k;
  }

  lemma OuterNephewFamily(g: Graph, h: Graph, p: Entry, elm: Entry?, l: bool, t: Entry, o: Entry)
    requires OuterCase(g, h, p, elm, l, t, o)
    ensures t in h.rec && o in h.rec && Good(h, t) && Good(h, o)
  {
    OuterNephewColours(g, h, p, elm, l, t, o);
    SiblingExists(g, p, elm);
    assert LinkOk(g, o) && Good(g, o);
    var r := g.rec[o];
    assert h.rec[o].left == r.left && h.rec[o].right == r.right by {
      assert g.rec[p].parent != null ==> LinkOk(g, g.rec[p].parent);
    }
    assert r.left != null ==> LinkOk(g, r.left);
    assert r.right != null ==> LinkOk(g, r.right);
    assert Kid(h, t, l) == p && Kid(h, t, !l) == o;
  }

  /** The grandparent of elm, and its other child, are none of the nodes the last case touches. */
  lemma OuterNephewApart(g: Graph, p: Entry, elm: Entry?, l: bool, t: Entry, o: Entry)
    requires At(g, p, elm, l, t) && !Red(g, t) && o == Kid(g, t, !l) && Red(g, o)
    ensures LinkOk(g, p)
    ensures var q := g.rec[p].parent; q != null ==>
      q in g.rec && Good(g, q) && q != p && q != t && q != o && var s := Sibling(g, q, p); s != p && s != t && s != o
  {
    SiblingExists(g, p, elm);
    assert LinkOk(g, o);
    var q := g.rec[p].parent;
    if q != null {
      assert LinkOk(g, q);
      assert elm != null ==> LinkOk(g, elm);
      assert Good(g, q);
      var s := Sibling(g, q, p);
      assert s != null ==> LinkOk(g, s);
    }
  }

  lemma OuterNephewAbove(g: Graph, h: Graph, p: Entry, elm: Entry?, l: bool, t: Entry, o: Entry)
    requires OuterCase(g, h, p, elm, l, t, o)
    ensures var q := g.rec[p].parent; q in g.rec ==> Good(h, q)
    ensures h.root != null && !Red(h, h.root)
  {
    OuterNephewColours(g, h, p, elm, l, t, o);
    OuterNephewApart(g, p, elm, l, t, o);
    var q := g.rec[p].parent;
    if q != null {
      AboveUndisturbed(g, h, p, q, t);
    }
  }

  lemma OuterNephewElm(g: Graph, h: Graph, p: Entry, elm: Entry?, l: bool, t: Entry, o: Entry)
    requires OuterCase(g, h, p, elm, l, t, o)
    ensures elm != null ==> Good(h, elm)
  {
    SiblingExists(g, p, elm);
    OuterNephewColours(g, h, p, elm, l, t, o);
    assert LinkOk(g, o);
    if elm != null {
      assert LinkOk(g, elm);
      assert g.rec[p].parent != elm by {
        assert g.rec[p].parent != null ==> LinkOk(g, g.rec[p].parent);
      }
      assert h.rec[elm] == g.rec[elm];
    }
    ElmUndisturbed(g, h, p, elm, t);
  }
}
