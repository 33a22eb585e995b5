/**
 * Removal from a red-black tree as a value: unlinking a node with at most one child, and putting its successor in
 * its place.
 */
module RbSplice {
  import opened RbGraph
  import opened RbInsert
  import opened RbOrder
  import opened RbRemove

  /** The child of a node that has at most one. */
  ghost function OnlyChild(g: Graph, elm: Entry): Entry?
    requires elm in g.rec
  {
    if g.rec[elm].left == null then g.rec[elm].right else g.rec[elm].left
  }

  /** h is g without elm, elm's only child c in its place. */
  ghost predicate Spliced(g: Graph, h: Graph, elm: Entry)
  {
    && elm in g.rec && (g.rec[elm].left == null || g.rec[elm].right == null)
    && var c, p := OnlyChild(g, elm), g.rec[elm].parent;
    && h.rec.Keys == g.rec.Keys - {elm}
    && h.root == (if p == null then c else g.root)
    && (c in h.rec ==> h.rec[c] == g.rec[c].(parent := p))
    && (p in h.rec ==> h.rec[p] == if g.rec[p].left == elm then g.rec[p].(left := c) else g.rec[p].(right := c))
    && (forall n {:trigger h.rec[n]} | n in h.rec && n != c && n != p :: h.rec[n] == g.rec[n])
  }

  lemma SpliceDistinct(g: Graph, elm: Entry)
    requires Links(g) && elm in g.rec && (g.rec[elm].left == null || g.rec[elm].right == null)
    ensures var c, p := OnlyChild(g, elm), g.rec[elm].parent;
      && elm != c && elm != p && (c != null ==> c != p) && (c != null ==> c in g.rec && LinkOk(g, c))
          && (p != null ==> p in g.rec && LinkOk(g, p)) && LinkOk(g, elm)
  {
    var c, p := OnlyChild(g, elm), g.rec[elm].parent;
    assert LinkOk(g, elm);
    assert c != null ==> LinkOk(g, c);
    assert p != null ==> LinkOk(g, p);
  }

  lemma SplicedAtChild(g: Graph, h: Graph, elm: Entry)
    requires Links(g) && Spliced(g, h, elm) && OnlyChild(g, elm) != null
    ensures LinkOk(h, OnlyChild(g, elm))
  {
    SpliceDistinct(g, elm);
    var c: Entry := OnlyChild(g, elm);
    var r := g.rec[c];
    var p := g.rec[elm].parent;
    assert r.left != null ==> LinkOk(g, r.left) && r.left != p && h.rec[r.left] == g.rec[r.left];
    assert r.right != null ==> LinkOk(g, r.right) && r.right != p && h.rec[r.right] == g.rec[r.right];
  }

  lemma SplicedAtParent(g: Graph, h: Graph, elm: Entry)
    requires Links(g) && Spliced(g, h, elm) && g.rec[elm].parent != null
    ensures LinkOk(h, g.rec[elm].parent)
  {
    SpliceDistinct(g, elm);
    var p: Entry := g.rec[elm].parent;
    var r := g.rec[p];
    var c := OnlyChild(g, elm);
    assert r.left != null && r.left != elm ==> LinkOk(g, r.left) && r.left != c && h.rec[r.left] == g.rec[r.left];
    assert r.right != null && r.right != elm ==> LinkOk(g, r.right) && r.right != c && h.rec[r.right] == g.rec[r.right];
    assert r.parent != null ==>
        LinkOk(g, r.parent) && r.parent != elm && r.parent != c
        && h.rec[r.parent] == g.rec[r.parent];
  }

  lemma SplicedElsewhere(g: Graph, h: Graph, elm: Entry, n: Entry)
    requires Links(g) && Spliced(g, h, elm) && n in h.rec
    requires n != OnlyChild(g, elm) && n != g.rec[elm].parent
    ensures LinkOk(h, n)
  {
    SpliceDistinct(g, elm);
    assert LinkOk(g, n);
    var r := g.rec[n];
    assert h.rec[n] == r && r.left != elm && r.right != elm && r.parent != elm;
    assert OnlyChild(g, elm) != null ==> r.left != OnlyChild(g, elm) && r.right != OnlyChild(g, elm);
  }

  lemma SplicedLinks(g: Graph, h: Graph, elm: Entry)
    requires Links(g) && Spliced(g, h, elm)
    ensures Links(h)
  {
    forall n | n in h.rec
      ensures LinkOk(h, n)
    {
      if n == OnlyChild(g, elm) {
        SplicedAtChild(g, h, elm);
      } else if n == g.rec[elm].parent {
        SplicedAtParent(g, h, elm);
      } else {
        SplicedElsewhere(g, h, elm, n);
      }
    }
    SpliceDistinct(g, elm);
  }

  /**
   * Unlinking a red node leaves the tree valid; unlinking a black one leaves one black node missing above its
   * child.
   */
  lemma SplicedInv(g: Graph, h: Graph, elm: Entry)
    requires Valid(g) && Spliced(g, h, elm)
    ensures Red(g, elm) ==> Valid(h)
    ensures !Red(g, elm) ==> RemoveInv(h, g.rec[elm].parent, OnlyChild(g, elm))
  {
    InOrderComplete(g, elm);
    SplicedLinks(g, h, elm);
    SpliceDistinct(g, elm);
    var c, p := OnlyChild(g, elm), g.rec[elm].parent;
    forall n: Entry? | n != elm
      ensures BH(h, n) == BH(g, n) && Red(h, n) == Red(g, n)
    {
    }
    assert Good(g, elm);
    assert c != null ==> Good(g, c);
    assert p != null ==> Good(g, p);
    forall n | n in h.rec && n != p
      ensures Good(h, n)
    {
      SplicedGoodAt(g, h, elm, n);
    }
  }

  lemma SplicedGoodAt(g: Graph, h: Graph, elm: Entry, n: Entry)
    requires Valid(g) && Spliced(g, h, elm) && n in h.rec && n != g.rec[elm].parent
    ensures Good(h, n)
  {
    SpliceDistinct(g, elm);
    assert Good(g, n) && LinkOk(g, n);
    assert h.rec[n].left == g.rec[n].left != elm && h.rec[n].right == g.rec[n].right != elm;
    assert h.rec[n].red == g.rec[n].red && h.rec[n].bh == g.rec[n].bh;
    forall m: Entry? | m != elm
      ensures BH(h, m) == BH(g, m) && Red(h, m) == Red(g, m)
    {
    }
  }

  // ---------- Raising lower bounds ----------

  ghost function Raised(g: Graph, s: set<Entry>, lo: real): Graph
  {
    g.(rec := map n | n in g.rec :: if n in s then g.rec[n].(lo := lo) else g.rec[n])
  }

  ghost predicate CanRaise(g: Graph, s: set<Entry>, lo: real)
  {
    && Links(g) && s <= g.rec.Keys
    && (forall n <- s :: g.rec[n].lo <= lo < n.at)
    && (forall n <- s :: var c := g.rec[n].left; c in g.rec ==> c in s || lo <= g.rec[c].lo)
  }

  lemma RaisedLinkAt(g: Graph, s: set<Entry>, lo: real, n: Entry)
    requires CanRaise(g, s, lo) && n in g.rec
    ensures LinkOk(Raised(g, s, lo), n)
  {
    var h := Raised(g, s, lo);
    assert LinkOk(g, n);
    forall m | m in g.rec
      ensures h.rec[m] == if m in s then g.rec[m].(lo := lo) else g.rec[m]
    {
    }
  }

  lemma RaisedLinks(g: Graph, s: set<Entry>, lo: real)
    requires CanRaise(g, s, lo)
    ensures Links(Raised(g, s, lo))
  {
    forall n | n in g.rec
      ensures LinkOk(Raised(g, s, lo), n)
    {
      RaisedLinkAt(g, s, lo, n);
    }
  }

  lemma RaisedShape(g: Graph, s: set<Entry>, lo: real)
    ensures Shape(Raised(g, s, lo)) == Shape(g)
  {
    assert Shape(Raised(g, s, lo)).rec == Shape(g).rec;
  }

  /** The fix-up invariant says nothing about bounds beyond `Links`. */
  lemma ShapeInv(g: Graph, h: Graph, parent: Entry?, elm: Entry?)
    requires Shape(g) == Shape(h) && Links(h)
    ensures RemoveInv(g, parent, elm) ==> RemoveInv(h, parent, elm)
    ensures Valid(g) ==> Valid(h)
  {
    assert h.rec.Keys == Shape(h).rec.Keys == g.rec.Keys;
    forall n | n in g.rec
      ensures h.rec[n].(lo := 0.0, hi := 0.0) == g.rec[n].(lo := 0.0, hi := 0.0)
    {
      assert Shape(g).rec[n] == Shape(h).rec[n];
    }
    forall n: Entry?
      ensures BH(h, n) == BH(g, n) && Red(h, n) == Red(g, n)
    {
    }
    forall n | n in g.rec && Good(g, n)
      ensures Good(h, n)
    {
    }
  }

  // ---------- Replacing a node by another ----------

  /** h is g with the new node e in the place of old, with old's links and colour. */
  ghost predicate Replaced(g: Graph, h: Graph, was: Entry, e: Entry)
  {
    && was in g.rec && e !in g.rec
    && var r := g.rec[was];
    && h.rec.Keys == g.rec.Keys - {was} + {e}
    && h.root == (if r.parent == null then e else g.root)
    && h.rec[e] == r
    && (r.left in g.rec && r.left != was ==> h.rec[r.left] == g.rec[r.left].(parent := e))
    && (r.right in g.rec && r.right != was ==> h.rec[r.right] == g.rec[r.right].(parent := e))
    && (r.parent in g.rec && r.parent != was ==>
          h.rec[r.parent] == if g.rec[r.parent].left == was then g.rec[r.parent].(left := e)
              else g.rec[r.parent].(right := e))
    && (forall n {:trigger h.rec[n]} | n in h.rec && n != e && n != r.left && n != r.right && n != r.parent ::
        h.rec[n] == g.rec[n])
  }

  /** e fits between the subtrees of old. */
  ghost predicate Fits(g: Graph, was: Entry, e: Entry)
  {
    && was in g.rec && e !in g.rec && g.rec[was].lo < e.at < g.rec[was].hi
    && (g.rec[was].left in g.rec ==> g.rec[g.rec[was].left].hi <= e.at)
    && (g.rec[was].right in g.rec ==> e.at <= g.rec[g.rec[was].right].lo)
  }

  lemma ReplaceDistinct(g: Graph, was: Entry)
    requires Links(g) && was in g.rec
    ensures var r := g.rec[was];
      && LinkOk(g, was) && r.left != was && r.right != was && r.parent != was
      && (r.left != null ==> LinkOk(g, r.left) && r.left != r.right && r.left != r.parent)
      && (r.right != null ==> LinkOk(g, r.right) && r.right != r.parent)
      && (r.parent != null ==> LinkOk(g, r.parent))
  {
    var r := g.rec[was];
    assert LinkOk(g, was);
    assert r.left != null ==> LinkOk(g, r.left);
    assert r.right != null ==> LinkOk(g, r.right);
    assert r.parent != null ==> LinkOk(g, r.parent);
  }

  lemma ReplacedAtNew(g: Graph, h: Graph, was: Entry, e: Entry)
    requires Links(g) && Replaced(g, h, was, e) && Fits(g, was, e)
    ensures LinkOk(h, e)
  {
    ReplaceDistinct(g, was);
  }

  lemma ReplacedAtChild(g: Graph, h: Graph, was: Entry, e: Entry, c: Entry)
    requires Links(g) && Replaced(g, h, was, e) && Fits(g, was, e) && (c == g.rec[was].left || c == g.rec[was].right)
    ensures LinkOk(h, c)
  {
    ReplaceDistinct(g, was);
    var r := g.rec[was];
    var k := g.rec[c];
    assert k.left != null ==>
        LinkOk(g, k.left) && k.left != r.left && k.left != r.right && k.left != r.parent
        && h.rec[k.left] == g.rec[k.left];
    assert k.right != null ==>
        LinkOk(g, k.right) && k.right != r.left && k.right != r.right && k.right != r.parent
        && h.rec[k.right] == g.rec[k.right];
  }

  lemma ReplacedAtParent(g: Graph, h: Graph, was: Entry, e: Entry)
    requires Links(g) && Replaced(g, h, was, e) && Fits(g, was, e) && g.rec[was].parent != null
    ensures LinkOk(h, g.rec[was].parent)
  {
    ReplaceDistinct(g, was);
    var r := g.rec[was];
    var p: Entry := r.parent;
    var k := g.rec[p];
    forall m: Entry | m != was && (m == k.left || m == k.right || m == k.parent)
      ensures m in g.rec && LinkOk(g, m) && h.rec[m] == g.rec[m]
    {
      assert LinkOk(g, m);
      assert m != r.left && m != r.right && m != p;
    }
  }

  lemma ReplacedElsewhere(g: Graph, h: Graph, was: Entry, e: Entry, n: Entry)
    requires Links(g) && Replaced(g, h, was, e) && n in h.rec && n != e
    requires n != g.rec[was].left && n != g.rec[was].right && n != g.rec[was].parent
    ensures LinkOk(h, n)
  {
    ReplaceDistinct(g, was);
    assert LinkOk(g, n);
    var k := g.rec[n];
    assert h.rec[n] == k && k.left != was && k.right != was && k.parent != was;
    forall m: Entry | m == k.left || m == k.right
      ensures h.rec[m].parent == n && h.rec[m].lo == g.rec[m].lo && h.rec[m].hi == g.rec[m].hi
    {
      assert LinkOk(g, m);
      assert m != g.rec[was].left && m != g.rec[was].right;
    }
  }

  lemma ReplacedLinks(g: Graph, h: Graph, was: Entry, e: Entry)
    requires Links(g) && Replaced(g, h, was, e) && Fits(g, was, e)
    ensures Links(h)
  {
    forall n | n in h.rec
      ensures LinkOk(h, n)
    {
      if n == e {
        ReplacedAtNew(g, h, was, e);
      } else if n == g.rec[was].left || n == g.rec[was].right {
        ReplacedAtChild(g, h, was, e, n);
      } else if n == g.rec[was].parent {
        ReplacedAtParent(g, h, was, e);
      } else {
        ReplacedElsewhere(g, h, was, e, n);
      }
    }
    ReplaceDistinct(g, was);
  }

  ghost function Renamed(n: Entry?, was: Entry, e: Entry): Entry?
  {
    if n == was then e else n
  }

  /** The replaced tree has the same links, with was read as e, and the same colours and black heights. */
  lemma ReplacedRec(g: Graph, h: Graph, was: Entry, e: Entry, n: Entry)
    requires Links(g) && Replaced(g, h, was, e) && n in g.rec
    ensures var m: Entry := Renamed(n, was, e);
      && m in h.rec && h.rec[m].red == g.rec[n].red && h.rec[m].bh == g.rec[n].bh
      && h.rec[m].left == Renamed(g.rec[n].left, was, e) && h.rec[m].right == Renamed(g.rec[n].right, was, e)
      && h.rec[m].parent == Renamed(g.rec[n].parent, was, e)
  {
    ReplaceDistinct(g, was);
    assert LinkOk(g, n);
  }

  lemma ReplacedBH(g: Graph, h: Graph, was: Entry, e: Entry, n: Entry?)
    requires Links(g) && Replaced(g, h, was, e) && n != e
    ensures BH(h, Renamed(n, was, e)) == BH(g, n) && Red(h, Renamed(n, was, e)) == Red(g, n)
  {
    if n in g.rec {
      ReplacedRec(g, h, was, e, n);
    }
  }

  lemma ReplacedGood(g: Graph, h: Graph, was: Entry, e: Entry, n: Entry)
    requires Links(g) && Replaced(g, h, was, e) && n in g.rec
    ensures var m: Entry := Renamed(n, was, e);
              m in h.rec && Balanced(h, m) == Balanced(g, n)
              && Good(h, m) == Good(g, n)
  {
    assert LinkOk(g, n);
    ReplacedRec(g, h, was, e, n);
    ReplacedBH(g, h, was, e, g.rec[n].left);
    ReplacedBH(g, h, was, e, g.rec[n].right);
  }

  /** Replacing keeps the tree's state: valid, or short of one black node below parent. */
  lemma ReplacedInv(g: Graph, h: Graph, was: Entry, e: Entry, parent: Entry?, elm: Entry?)
    requires Links(g) && Replaced(g, h, was, e) && Fits(g, was, e) && parent != e && elm != was && elm != e
    ensures Valid(g) ==> Valid(h)
    ensures RemoveInv(g, parent, elm) ==> RemoveInv(h, Renamed(parent, was, e), elm)
  {
    ReplacedLinks(g, h, was, e);
    assert LinkOk(g, was);
    ReplacedBH(g, h, was, e, g.root);
    forall m | m in h.rec
      ensures var n := if m == e then was else m; n in g.rec && Good(h, m) == Good(g, n)
    {
      ReplacedGood(g, h, was, e, if m == e then was else m);
    }
    if RemoveInv(g, parent, elm) {
      if elm != null {
        ReplacedGood(g, h, was, e, elm);
        ReplacedRec(g, h, was, e, elm);
      }
      if parent != null {
        ReplacedLacking(g, h, was, e, parent, elm);
      }
    }
  }

  lemma ReplacedLacking(g: Graph, h: Graph, was: Entry, e: Entry, p: Entry, elm: Entry?)
    requires Links(g) && Replaced(g, h, was, e) && p in g.rec && elm != was && elm != e && Lacking(g, p, elm)
    ensures var m: Entry := Renamed(p, was, e); m in h.rec && Lacking(h, m, elm)
  {
    assert LinkOk(g, p);
    ReplacedRec(g, h, was, e, p);
    ReplacedBH(g, h, was, e, elm);
    ReplacedBH(g, h, was, e, Sibling(g, p, elm));
    ReplacedBH(g, h, was, e, p);
  }

  // ---------- The way down to the in-order successor ----------

  /** elm is reached from was by one step right and then steps left through the nodes of s. */
  ghost predicate SpineInv(g: Graph, was: Entry, elm: Entry, s: set<Entry>)
  {
    && Valid(g) && was in g.rec && elm in g.rec && elm != was && was !in s && elm !in s && s <= g.rec.Keys
    && g.rec[was].left != null && (g.rec[was].right in s || g.rec[was].right == elm)
    && (g.rec[elm].parent == was || g.rec[elm].parent in s)
    && was.at <= g.rec[elm].lo && g.rec[elm].hi <= g.rec[was].hi
    && (forall n <- s ::
        g.rec[n].lo <= g.rec[elm].lo && g.rec[elm].hi <= n.at
        && (g.rec[n].left in s || g.rec[n].left == elm))
  }

  lemma SpineStart(g: Graph, was: Entry)
    requires Valid(g) && was in g.rec && g.rec[was].left != null && g.rec[was].right != null
    ensures g.rec[was].right in g.rec && SpineInv(g, was, g.rec[was].right, {})
  {
    ReplaceDistinct(g, was);
  }

  lemma SpineStep(g: Graph, was: Entry, elm: Entry, s: set<Entry>)
    requires SpineInv(g, was, elm, s) && g.rec[elm].left != null
    ensures g.rec[elm].left in g.rec && SpineInv(g, was, g.rec[elm].left, s + {elm})
  {
    assert LinkOk(g, elm);
    var c: Entry := g.rec[elm].left;
    assert LinkOk(g, c);
    forall n | n in s + {elm}
      ensures g.rec[n].lo <= g.rec[c].lo && g.rec[c].hi <= n.at && n != c
    {
    }
  }

  /** At the successor elm: once elm is spliced out and the bounds on the way are raised, elm fits in was's place. */
  lemma SpineEnd(g: Graph, h: Graph, was: Entry, elm: Entry, s: set<Entry>)
    requires SpineInv(g, was, elm, s) && g.rec[elm].left == null && Spliced(g, h, elm)
    ensures s <= h.rec.Keys && var k := Raised(h, s, elm.at);
      Links(k) && Fits(k, was, elm) && was in k.rec && k.rec[was].left != null
  {
    SplicedLinks(g, h, elm);
    SpineRaise(g, h, was, elm, s);
    SpineFits(g, h, was, elm, s);
    RaisedLinks(h, s, elm.at);
  }

  /** Moving the successor into was's place: the tree is valid, or one black node short where the successor was. */
  lemma SpineDone(g: Graph, h: Graph, m: Graph, was: Entry, elm: Entry, s: set<Entry>)
    requires SpineInv(g, was, elm, s) && g.rec[elm].left == null && Spliced(g, h, elm)
    requires Replaced(Raised(h, s, elm.at), m, was, elm)
    ensures if Red(g, elm) then Valid(m) else RemoveInv(m, Renamed(g.rec[elm].parent, was, elm), g.rec[elm].right)
  {
    var p, c := g.rec[elm].parent, g.rec[elm].right;
    SpineEnd(g, h, was, elm, s);
    SpineFits(g, h, was, elm, s);
    SpliceDistinct(g, elm);
    SplicedInv(g, h, elm);
    RaisedShape(h, s, elm.at);
    ShapeInv(h, Raised(h, s, elm.at), p, c);
    ReplacedInv(Raised(h, s, elm.at), m, was, elm, p, c);
  }

  lemma SpineRaise(g: Graph, h: Graph, was: Entry, elm: Entry, s: set<Entry>)
    requires SpineInv(g, was, elm, s) && g.rec[elm].left == null && Spliced(g, h, elm) && Links(h)
    ensures CanRaise(h, s, elm.at)
  {
    SpliceDistinct(g, elm);
    forall n | n in s
      ensures h.rec[n].lo <= elm.at < n.at && var c := h.rec[n].left; c in h.rec ==> c in s || elm.at <= h.rec[c].lo
    {
      assert LinkOk(g, n);
    }
  }

  lemma SpineFits(g: Graph, h: Graph, was: Entry, elm: Entry, s: set<Entry>)
    requires SpineInv(g, was, elm, s) && g.rec[elm].left == null && Spliced(g, h, elm)
    ensures Fits(Raised(h, s, elm.at), was, elm)
    ensures g.rec[elm].parent != null && g.rec[elm].right != was && h.rec[was].left != null
  {
    SpliceDistinct(g, elm);
    var k := Raised(h, s, elm.at);
    SpineLeft(g, h, was, elm, s);
    SpineRight(g, h, was, elm, s);
    assert k.rec[was] == h.rec[was];
  }

  lemma SpineLeft(g: Graph, h: Graph, was: Entry, elm: Entry, s: set<Entry>)
    requires SpineInv(g, was, elm, s) && g.rec[elm].left == null && Spliced(g, h, elm)
    ensures g.rec[elm].right != was && was in h.rec && h.rec[was].left == g.rec[was].left != null
    ensures h.rec[was].lo == g.rec[was].lo < elm.at < g.rec[was].hi == h.rec[was].hi
    ensures h.rec[was].left in h.rec && h.rec[h.rec[was].left].hi <= elm.at
  {
    SpliceDistinct(g, elm);
    ReplaceDistinct(g, was);
  }

  lemma SpineRight(g: Graph, h: Graph, was: Entry, elm: Entry, s: set<Entry>)
    requires SpineInv(g, was, elm, s) && g.rec[elm].left == null && Spliced(g, h, elm) && was in h.rec
    requires g.rec[elm].right != was
    ensures var r := h.rec[was].right; r in h.rec ==> r in s || elm.at <= h.rec[r].lo
  {
    SpliceDistinct(g, elm);
    ReplaceDistinct(g, was);
  }
}
