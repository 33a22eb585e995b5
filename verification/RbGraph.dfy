/**
 * Red-black trees as values: the link fields of every node, the invariant on them, and what each
 * re-linking and re-colouring step of libxhook/tree.h does to that invariant.
 * Mirror-image cases are one case here, with `l` telling whether the side in question is the left.
 */
module RbGraph {
  import opened CString

  /** A map entry with its tree links. `lo`, `hi` and `bh` exist for the proof only. */
  class Entry {
    const pathname: CStr
    ghost const at: real := Rank(pathname)   // position of the key in `strcmp` order
    var baseAddr: int

    var left: Entry?
    var right: Entry?
    var parent: Entry?
    var red: bool

    ghost var lo: real    // every key from this node down lies strictly between lo and hi
    ghost var hi: real
    ghost var bh: nat     // number of black nodes on each path below this node

    constructor (pathname: CStr, baseAddr: int)
      ensures this.pathname == pathname && this.baseAddr == baseAddr
    {
      this.pathname := pathname;
      this.baseAddr := baseAddr;
      left, right, parent, red := null, null, null, false;
    }
  }

  datatype Rec = Rec(left: Entry?, right: Entry?, parent: Entry?, red: bool, lo: real, hi: real, bh: nat)

  datatype Graph = Graph(root: Entry?, rec: map<Entry, Rec>)

  ghost function Kid(g: Graph, n: Entry, l: bool): Entry?
    requires n in g.rec
  {
    if l then g.rec[n].left else g.rec[n].right
  }

  // ---------- Shape and search order ----------

  /** c is a well-linked child of n whose keys lie between lo and hi. */
  ghost predicate ChildOk(g: Graph, n: Entry, c: Entry, lo: real, hi: real)
  {
    c in g.rec && g.rec[c].parent == n && lo <= g.rec[c].lo && g.rec[c].hi <= hi
  }

  /** The pointers of n agree with those of its neighbours, and n lies in search order. */
  ghost predicate LinkOk(g: Graph, n: Entry)
  {
    && n in g.rec
    && var r := g.rec[n];
    && r.lo < n.at < r.hi
    && (r.left != null ==> ChildOk(g, n, r.left, r.lo, n.at))
    && (r.right != null ==> ChildOk(g, n, r.right, n.at, r.hi))
    && (r.parent == null ==> n == g.root)
    && (r.parent != null ==> r.parent in g.rec && (g.rec[r.parent].left == n || g.rec[r.parent].right == n))
  }

  ghost predicate Links(g: Graph)
  {
    && (g.root != null ==> g.root in g.rec && g.rec[g.root].parent == null)
    && (forall n {:trigger LinkOk(g, n)} | n in g.rec :: LinkOk(g, n))
  }

  // ---------- Colours and black heights ----------

  ghost predicate Red(g: Graph, n: Entry?)
  {
    n in g.rec && g.rec[n].red
  }

  /** Black height of a possibly empty subtree, its root included. */
  ghost function BH(g: Graph, n: Entry?): nat
  {
    if n in g.rec then g.rec[n].bh + (if g.rec[n].red then 0 else 1) else 0
  }

  /** Both subtrees of n have the black height recorded at n. */
  ghost predicate Balanced(g: Graph, n: Entry)
    requires n in g.rec
  {
    BH(g, g.rec[n].left) == g.rec[n].bh == BH(g, g.rec[n].right)
  }

  ghost predicate Good(g: Graph, n: Entry)
    requires n in g.rec
  {
    Balanced(g, n) && (g.rec[n].red ==> !Red(g, g.rec[n].left) && !Red(g, g.rec[n].right))
  }

  /** Every node outside e is balanced and, if red, has no red child. */
  ghost predicate GoodBut(g: Graph, e: set<Entry?>)
  {
    forall n {:trigger Good(g, n)} | n in g.rec && n !in e :: Good(g, n)
  }

  /** The red-black tree invariant. */
  ghost predicate Valid(g: Graph)
  {
    Links(g) && GoodBut(g, {}) && !Red(g, g.root)
  }

  // ---------- Re-colouring ----------

  ghost function Paint(g: Graph, n: Entry, red: bool, bh: nat): Graph
    requires n in g.rec
  {
    g.(rec := g.rec[n := g.rec[n].(red := red, bh := bh)])
  }

  lemma PaintLinks(g: Graph, n: Entry, red: bool, bh: nat)
    requires n in g.rec && Links(g)
    ensures Links(Paint(g, n, red, bh))
  {
    var h := Paint(g, n, red, bh);
    forall m | m in h.rec
      ensures LinkOk(h, m)
    {
      assert LinkOk(g, m);
    }
  }

  /** Painting n disturbs n and its parent only; and the parent only if n's black height or redness changes. */
  lemma PaintGood(g: Graph, n: Entry, red: bool, bh: nat, e: set<Entry?>)
    requires n in g.rec && Links(g) && GoodBut(g, e)
    ensures GoodBut(Paint(g, n, red, bh), e + {n, g.rec[n].parent})
  {
    var h := Paint(g, n, red, bh);
    forall m | m in h.rec && m !in e + {n, g.rec[n].parent}
      ensures Good(h, m)
    {
      assert LinkOk(g, m) && Good(g, m);
    }
  }

  // ---------- Rotation ----------

  /** h is g with x rotated down to the left (l) or right (!l), its other child y taking its place. */
  ghost predicate Rotated(g: Graph, h: Graph, x: Entry, l: bool)
  {
    && x in g.rec && Kid(g, x, !l) in g.rec
    && var y: Entry := Kid(g, x, !l);
    var b, p := Kid(g, y, l), g.rec[x].parent;
    && h.rec.Keys == g.rec.Keys
    && h.root == (if p == null then y else g.root)
    && h.rec[x] == (if l then g.rec[x].(right := b, parent := y, hi := y.at)
                    else g.rec[x].(left := b, parent := y, lo := y.at))
    && h.rec[y] == (if l then g.rec[y].(left := x)
                    else g.rec[y].(right := x)).(parent := p, lo := g.rec[x].lo, hi := g.rec[x].hi)
    && (b in g.rec ==> h.rec[b] == g.rec[b].(parent := x))
    && (p in g.rec ==> h.rec[p] == if g.rec[p].left == x then g.rec[p].(left := y) else g.rec[p].(right := y))
    && (forall n {:trigger h.rec[n]} | n in h.rec && n != x && n != y && n != b && n != p :: h.rec[n] == g.rec[n])
  }

  /** The four nodes a rotation touches are different nodes. */
  lemma RotationDistinct(g: Graph, x: Entry, l: bool)
    requires Links(g) && x in g.rec && Kid(g, x, !l) in g.rec
    ensures var y := Kid(g, x, !l); var b, p := Kid(g, y, l), g.rec[x].parent;
      && x != y && x != b && x != p && y != b && y != p && (b != null ==> b != p)
      && (b != null ==> b in g.rec) && (p != null ==> p in g.rec) && g.rec[y].parent == x
  {
    var y := Kid(g, x, !l);
    var b, p := Kid(g, y, l), g.rec[x].parent;
    assert LinkOk(g, x) && LinkOk(g, y);
    assert b != null ==> LinkOk(g, b);
    assert p != null ==> LinkOk(g, p);
  }

  lemma RotatedElsewhere(g: Graph, h: Graph, x: Entry, l: bool, n: Entry)
    requires Links(g) && x in g.rec && Kid(g, x, !l) in g.rec && Rotated(g, h, x, l)
    requires n in g.rec && n != x && n != Kid(g, x, !l) && n != g.rec[x].parent && n != Kid(g, Kid(g, x, !l), l)
    ensures LinkOk(h, n)
  {
    var y: Entry := Kid(g, x, !l);
    assert LinkOk(g, x) && LinkOk(g, y) && LinkOk(g, n);
    var r := g.rec[n];
    assert h.rec[n] == r;
    assert r.left != x && r.right != x && r.left != y && r.right != y;
    assert r.left != null ==>
        h.rec[r.left].parent == n && h.rec[r.left].lo == g.rec[r.left].lo
        && h.rec[r.left].hi == g.rec[r.left].hi;
    assert r.right != null ==>
        h.rec[r.right].parent == n && h.rec[r.right].lo == g.rec[r.right].lo
        && h.rec[r.right].hi == g.rec[r.right].hi;
  }

  lemma RotatedAtXY(g: Graph, h: Graph, x: Entry, l: bool)
    requires Links(g) && x in g.rec && Kid(g, x, !l) in g.rec && Rotated(g, h, x, l)
    ensures LinkOk(h, x) && LinkOk(h, Kid(g, x, !l))
  {
    var y: Entry := Kid(g, x, !l);
    RotationDistinct(g, x, l);
    assert LinkOk(g, x) && LinkOk(g, y);
    if g.rec[x].parent != null {
      assert LinkOk(g, g.rec[x].parent);
    }
    var a, c := Kid(g, x, l), Kid(g, y, !l);
    if a != null {
      assert LinkOk(g, a);
      assert h.rec[a] == g.rec[a];
    }
    if c != null {
      assert LinkOk(g, c);
      assert h.rec[c] == g.rec[c];
    }
  }

  lemma RotatedAtB(g: Graph, h: Graph, x: Entry, l: bool)
    requires Links(g) && x in g.rec && Kid(g, x, !l) in g.rec && Rotated(g, h, x, l)
    requires Kid(g, Kid(g, x, !l), l) != null
    ensures LinkOk(h, Kid(g, Kid(g, x, !l), l))
  {
    var y: Entry := Kid(g, x, !l);
    RotationDistinct(g, x, l);
    var b: Entry := Kid(g, y, l);
    assert LinkOk(g, x) && LinkOk(g, y) && LinkOk(g, b);
    assert g.rec[x].parent != null ==> LinkOk(g, g.rec[x].parent);
    forall c: Entry | c == g.rec[b].left || c == g.rec[b].right
      ensures h.rec[c] == g.rec[c]
    {
      assert LinkOk(g, c);
    }
  }

  lemma RotatedNearP(g: Graph, h: Graph, x: Entry, l: bool, p: Entry, c: Entry)
    requires Links(g) && x in g.rec && Kid(g, x, !l) in g.rec && Rotated(g, h, x, l)
    requires p == g.rec[x].parent && p in g.rec && c != x
    requires c == g.rec[p].left || c == g.rec[p].right || c == g.rec[p].parent
    ensures c in g.rec && h.rec[c] == g.rec[c] && LinkOk(g, c)
  {
    var y: Entry := Kid(g, x, !l);
    var b := Kid(g, y, l);
    assert LinkOk(g, x) && LinkOk(g, p) && LinkOk(g, y);
    assert b != null ==> LinkOk(g, b);
    assert LinkOk(g, c);
    assert c != y && c != b && c != p;
  }

  lemma RotatedAtP(g: Graph, h: Graph, x: Entry, l: bool)
    requires Links(g) && x in g.rec && Kid(g, x, !l) in g.rec && Rotated(g, h, x, l)
    requires g.rec[x].parent != null
    ensures LinkOk(h, g.rec[x].parent)
  {
    RotationDistinct(g, x, l);
    var p: Entry := g.rec[x].parent;
    assert LinkOk(g, x) && LinkOk(g, p);
    forall c: Entry | c != x && (c == g.rec[p].left || c == g.rec[p].right || c == g.rec[p].parent)
      ensures c in g.rec && h.rec[c] == g.rec[c] && LinkOk(g, c)
    {
      RotatedNearP(g, h, x, l, p, c);
    }
  }

  /** Rotation keeps the links and the search order. */
  lemma RotatedLinks(g: Graph, h: Graph, x: Entry, l: bool)
    requires Links(g) && x in g.rec && Kid(g, x, !l) in g.rec && Rotated(g, h, x, l)
    ensures Links(h)
  {
    RotationDistinct(g, x, l);
    forall n | n in h.rec
      ensures LinkOk(h, n)
    {
      if n == x || n == Kid(g, x, !l) {
        RotatedAtXY(g, h, x, l);
      } else if n == Kid(g, Kid(g, x, !l), l) {
        RotatedAtB(g, h, x, l);
      } else if n == g.rec[x].parent {
        RotatedAtP(g, h, x, l);
      } else {
        RotatedElsewhere(g, h, x, l, n);
      }
    }
    assert LinkOk(g, Kid(g, x, !l));
  }

  /** A rotation disturbs only the two rotated nodes and their parent. */
  lemma RotatedGood(g: Graph, h: Graph, x: Entry, l: bool, e: set<Entry?>)
    requires Links(g) && x in g.rec && Kid(g, x, !l) in g.rec && Rotated(g, h, x, l) && GoodBut(g, e)
    ensures GoodBut(h, e + {x, Kid(g, x, !l), g.rec[x].parent})
  {
    RotationDistinct(g, x, l);
    forall n | n in h.rec && n !in e + {x, Kid(g, x, !l), g.rec[x].parent}
      ensures Good(h, n)
    {
      assert Good(g, n) && LinkOk(g, n);
      forall c | c in g.rec
        ensures BH(h, c) == BH(g, c) && Red(h, c) == Red(g, c)
      {
      }
    }
  }
}
