/** The red-black tree of libxhook/tree.h on the heap: rotations, insertion and removal change nodes in place. */
module RbTree {
  import opened CString
  import opened RbGraph
  import opened RbInsert
  import opened RbOrder
  import opened RbRemove
  import opened RbSplice

  class Tree {
    var root: Entry?
    ghost var nodes: set<Entry>

    /** The link fields of all nodes, as a value. */
    ghost function View(): Graph
      reads this`root, this`nodes, nodes`left, nodes`right, nodes`parent, nodes`red, nodes`lo, nodes`hi, nodes`bh
    {
      Graph(root, map n | n in nodes :: Rec(n.left, n.right, n.parent, n.red, n.lo, n.hi, n.bh))
    }

    constructor ()
      ensures nodes == {} && root == null && Valid(View())
    {
      root := null;
      nodes := {};
    }

    /** RB_ROTATE_LEFT: the exact fields written. */
    method RotateLeft(x: Entry)
      requires x in nodes && x.right != null && x.right in nodes && x.right != x
      requires x.parent != null ==> x.parent in nodes && x.parent != x && x.parent != x.right
      requires x.right.left != null ==>
                 x.right.left in nodes && x.right.left != x && x.right.left != x.right
                 && x.right.left != x.parent
      modifies this`root, nodes`left, nodes`right, nodes`parent, nodes`lo, nodes`hi
      ensures var y, k, p := old(x.right), old(x.right.left), old(x.parent);
        && x.right == k && x.left == old(x.left) && x.parent == y && x.hi == y.at && x.lo == old(x.lo)
        && y.left == x && y.right == old(y.right) && y.parent == p && y.lo == old(x.lo) && y.hi == old(x.hi)
        && root == (if p == null then y else old(root))
        && (p != null ==>
              if old(p.left) == x then p.left == y && p.right == old(p.right)
              else p.left == old(p.left) && p.right == y)
        && (forall n <- nodes :: n != x && n != y && n != p ==> n.left == old(n.left) && n.right == old(n.right))
        && (forall n <- nodes :: n != x && n != y ==> n.parent == (if n == k then x else old(n.parent)))
        && (forall n <- nodes :: n != x && n != y ==> n.lo == old(n.lo) && n.hi == old(n.hi))
    {
      var y := x.right;
      x.right := y.left;
      if x.right != null {
        y.left.parent := x;
      }
      y.parent := x.parent;
      if y.parent != null {
        if x == x.parent.left {
          x.parent.left := y;
        } else {
          x.parent.right := y;
        }
      } else {
        root := y;
      }
      y.left := x;
      x.parent := y;
      y.lo, y.hi := x.lo, x.hi;
      x.hi := y.at;
    }

    method RotateLeftInTree(x: Entry)
      requires x in nodes && x.right != null && Links(View())
      modifies this`root, nodes`left, nodes`right, nodes`parent, nodes`lo, nodes`hi
      ensures Rotated(old(View()), View(), x, true) && Links(View())
    {
      ghost var g := View();
      assert LinkOk(g, x) && LinkOk(g, x.right);
      RotationDistinct(g, x, true);
      RotateLeft(x);
      RotatedLinks(g, View(), x, true);
    }

    /** RB_ROTATE_RIGHT: the exact fields written. */
    method RotateRight(x: Entry)
      requires x in nodes && x.left != null && x.left in nodes && x.left != x
      requires x.parent != null ==> x.parent in nodes && x.parent != x && x.parent != x.left
      requires x.left.right != null ==>
                 x.left.right in nodes && x.left.right != x && x.left.right != x.left
                 && x.left.right != x.parent
      modifies this`root, nodes`left, nodes`right, nodes`parent, nodes`lo, nodes`hi
      ensures var y, k, p := old(x.left), old(x.left.right), old(x.parent);
        && x.left == k && x.right == old(x.right) && x.parent == y && x.lo == y.at && x.hi == old(x.hi)
        && y.right == x && y.left == old(y.left) && y.parent == p && y.lo == old(x.lo) && y.hi == old(x.hi)
        && root == (if p == null then y else old(root))
        && (p != null ==>
              if old(p.left) == x then p.left == y && p.right == old(p.right)
              else p.left == old(p.left) && p.right == y)
        && (forall n <- nodes :: n != x && n != y && n != p ==> n.left == old(n.left) && n.right == old(n.right))
        && (forall n <- nodes :: n != x && n != y ==> n.parent == (if n == k then x else old(n.parent)))
        && (forall n <- nodes :: n != x && n != y ==> n.lo == old(n.lo) && n.hi == old(n.hi))
    {
      var y := x.left;
      x.left := y.right;
      if x.left != null {
        y.right.parent := x;
      }
      y.parent := x.parent;
      if y.parent != null {
        if x == x.parent.left {
          x.parent.left := y;
        } else {
          x.parent.right := y;
        }
      } else {
        root := y;
      }
      y.right := x;
      x.parent := y;
      y.lo, y.hi := x.lo, x.hi;
      x.lo := y.at;
    }

    method RotateRightInTree(x: Entry)
      requires x in nodes && x.left != null && Links(View())
      modifies this`root, nodes`left, nodes`right, nodes`parent, nodes`lo, nodes`hi
      ensures Rotated(old(View()), View(), x, false) && Links(View())
    {
      ghost var g := View();
      assert LinkOk(g, x) && LinkOk(g, x.left);
      RotationDistinct(g, x, false);
      RotateRight(x);
      RotatedLinks(g, View(), x, false);
    }

    method SetColor(n: Entry, red: bool, ghost bh: nat)
      requires n in nodes && Links(View())
      modifies n`red, n`bh
      ensures View() == Paint(old(View()), n, red, bh) && Links(View())
    {
      ghost var g := View();
      n.red := red;
      n.bh := bh;
      PaintLinks(g, n, red, bh);
    }

    /** RB_SET_BLACKRED */
    method SetBlackRed(black: Entry, red: Entry, ghost redBh: nat)
      requires black in nodes && red in nodes && black != red && Links(View())
      modifies black`red, black`bh, red`red, red`bh
      ensures View() == Paint(Paint(old(View()), black, false, old(View()).rec[black].bh), red, true, redBh)
      ensures Links(View())
    {
      SetColor(black, false, black.bh);
      SetColor(red, true, redBh);
    }

    /** Red uncle: recolour the three nodes above elm. */
    method InsertRecolor(elm: Entry, parent: Entry, gparent: Entry, uncle: Entry)
      requires InsertInv(View(), elm) && parent == elm.parent && parent in nodes && parent.red
      requires gparent == parent.parent && gparent in nodes && uncle == Sibling(View(), gparent, parent)
      requires uncle in nodes && uncle.red
      modifies nodes`red, nodes`bh
      ensures InsertInv(View(), gparent) && View() == Recolored(old(View()), uncle, parent, gparent)
    {
      ghost var g := View();
      Grandparent(g, elm);
      RecolorStep(g, elm);
      SetColor(uncle, false, g.rec[uncle].bh);
      assert View().rec[parent] == g.rec[parent];
      SetBlackRed(parent, gparent, g.rec[gparent].bh + 1);
    }

    /** Black uncle, parent on the left: one or two rotations end the fix-up. */
    method InsertRotateLeft(elm0: Entry, parent0: Entry, gparent: Entry) returns (elm: Entry)
      requires InsertInv(View(), elm0) && parent0 == elm0.parent && parent0 in nodes && parent0.red
      requires gparent == parent0.parent && gparent in nodes && gparent.left == parent0 && !Red(View(), gparent.right)
      modifies this`root, nodes`left, nodes`right, nodes`parent, nodes`red, nodes`lo, nodes`hi, nodes`bh
      ensures InsertInv(View(), elm) && !Red(View(), View().rec[elm].parent)
    {
      var parent := parent0;
      elm := elm0;
      ghost var g := View();
      Grandparent(g, elm);
      if parent.right == elm {
        RotateLeftInTree(parent);
        InnerRotateStep(g, View(), elm, true);
        parent, elm := elm, parent;
        g := View();
        Grandparent(g, elm);
      }
      SetBlackRed(parent, gparent, g.rec[gparent].bh);
      RotateRightInTree(gparent);
      OuterRotateStep(g, View(), elm, true);
    }

    /** Black uncle, parent on the right: one or two rotations end the fix-up. */
    method InsertRotateRight(elm0: Entry, parent0: Entry, gparent: Entry) returns (elm: Entry)
      requires InsertInv(View(), elm0) && parent0 == elm0.parent && parent0 in nodes && parent0.red
      requires gparent == parent0.parent && gparent in nodes && gparent.right == parent0 && !Red(View(), gparent.left)
      modifies this`root, nodes`left, nodes`right, nodes`parent, nodes`red, nodes`lo, nodes`hi, nodes`bh
      ensures InsertInv(View(), elm) && !Red(View(), View().rec[elm].parent)
    {
      var parent := parent0;
      elm := elm0;
      ghost var g := View();
      Grandparent(g, elm);
      if parent.left == elm {
        RotateRightInTree(parent);
        InnerRotateStep(g, View(), elm, false);
        parent, elm := elm, parent;
        g := View();
        Grandparent(g, elm);
      }
      SetBlackRed(parent, gparent, g.rec[gparent].bh);
      RotateLeftInTree(gparent);
      OuterRotateStep(g, View(), elm, false);
    }

    /** RB_INSERT_COLOR */
    method InsertColor(elm0: Entry)
      requires InsertInv(View(), elm0)
      modifies this`root, nodes`left, nodes`right, nodes`parent, nodes`red, nodes`lo, nodes`hi, nodes`bh
      ensures Valid(View())
    {
      var elm: Entry := elm0;
      ghost var bound := BoundExists(View(), View().rec.Keys);
      while elm.parent != null && elm.parent.red
        invariant InsertInv(View(), elm)
        invariant Red(View(), elm.parent) ==> LowBut(View(), elm, bound)
        decreases if elm.parent != null && elm.parent.red then bound + 2 - elm.bh else 0
      {
        ghost var g := View();
        assert LinkOk(g, elm);
        Grandparent(g, elm);
        assert Balanced(g, elm.parent) && elm.bh <= bound;
        var parent := elm.parent;
        var gparent := parent.parent;
        if parent == gparent.left {
          var tmp := gparent.right;
          if tmp != null && tmp.red {
            RecolorClimbs(g, elm, bound);
            InsertRecolor(elm, parent, gparent, tmp);
            assert View().rec[gparent].bh == g.rec[gparent].bh + 1;
            elm := gparent;
          } else {
            elm := InsertRotateLeft(elm, parent, gparent);
            assert LinkOk(View(), elm);
          }
        } else {
          var tmp := gparent.left;
          if tmp != null && tmp.red {
            RecolorClimbs(g, elm, bound);
            InsertRecolor(elm, parent, gparent, tmp);
            assert View().rec[gparent].bh == g.rec[gparent].bh + 1;
            elm := gparent;
          } else {
            elm := InsertRotateRight(elm, parent, gparent);
            assert LinkOk(View(), elm);
          }
        }
      }
      BlackenRoot(View(), elm);
      SetColor(root, false, root.bh);
    }

    ghost method WidenTo(c: Entry, lo: real, hi: real)
      requires Valid(View()) && c in nodes && lo <= c.lo && c.hi <= hi
      requires c.parent != null ==> c.parent in nodes
      requires c.parent != null && c.parent.left == c ==> c.parent.lo <= lo && hi <= c.parent.at
      requires c.parent != null && c.parent.right == c ==> c.parent.at <= lo && hi <= c.parent.hi
      modifies c`lo, c`hi
      ensures Valid(View()) && Shape(View()) == Shape(old(View())) && c.lo == lo && c.hi == hi
    {
      Widen(View(), c, lo, hi);
      ghost var g := View();
      c.lo, c.hi := lo, hi;
      assert View() == g.(rec := g.rec[c := g.rec[c].(lo := lo, hi := hi)]);
    }

    /** RB_SET and the linking of the new node below parent. */
    method AddLeaf(elm: Entry, parent: Entry?, comp: int)
      requires elm !in nodes && (parent != null ==> parent in nodes)
      modifies this`root, this`nodes, elm`left, elm`right, elm`parent, elm`red, elm`lo, elm`hi, elm`bh
      modifies if parent == null then {} else {parent}`left
      modifies if parent == null then {} else {parent}`right
      ensures nodes == old(nodes) + {elm} && elm.left == null == elm.right && elm.parent == parent && elm.red
      ensures elm.bh == 0
      ensures if parent == null then elm.lo == elm.at - 1.0 && elm.hi == elm.at + 1.0 && root == elm
              else elm.lo == (if comp < 0 then parent.lo else parent.at)
                   && elm.hi == (if comp < 0 then parent.at else parent.hi) && root == old(root)
      ensures parent != null ==> if comp < 0 then parent.left == elm && parent.right == old(parent.right)
                                 else parent.left == old(parent.left) && parent.right == elm
    {
      elm.parent := parent;
      elm.left, elm.right := null, null;
      elm.red, elm.bh := true, 0;
      elm.lo, elm.hi := elm.at - 1.0, elm.at + 1.0;
      if parent != null {
        if comp < 0 {
          elm.lo, elm.hi := parent.lo, parent.at;
          parent.left := elm;
        } else {
          elm.lo, elm.hi := parent.at, parent.hi;
          parent.right := elm;
        }
      } else {
        root := elm;
      }
      nodes := nodes + {elm};
    }

    method AddLeafToTree(elm: Entry, parent: Entry?, comp: int)
      requires elm !in nodes && (parent == null ==> nodes == {}) && (parent != null ==> parent in nodes)
      modifies this`root, this`nodes, elm`left, elm`right, elm`parent, elm`red, elm`lo, elm`hi, elm`bh, nodes`left
      modifies nodes`right
      ensures nodes == old(nodes) + {elm} && View() == WithLeaf(old(View()), parent, elm, comp < 0)
    {
      ghost var g := View();
      AddLeaf(elm, parent, comp);
      ghost var h := WithLeaf(g, parent, elm, comp < 0);
      assert View().rec.Keys == h.rec.Keys;
      forall n | n in nodes
        ensures View().rec[n] == h.rec[n]
      {
      }
    }

    /** Widens the bounds of p's child on one side to all that p allows there. */
    ghost method WidenChild(p: Entry, l: bool)
      requires Valid(View()) && p in nodes
      modifies nodes`lo, nodes`hi
      ensures Valid(View()) && Shape(View()) == Shape(old(View())) && p.lo == old(p.lo) && p.hi == old(p.hi)
      ensures var c := if l then p.left else p.right; c != null ==> c in nodes && if l then c.lo == p.lo
                && c.hi == p.at else c.lo == p.at && c.hi == p.hi
    {
      ChildBelow(View(), p);
      var c := if l then p.left else p.right;
      if c != null {
        if l {
          WidenTo(c, p.lo, p.at);
        } else {
          WidenTo(c, p.at, p.hi);
        }
      }
    }

    /** The search loop of RB_INSERT: an equal node, or the free place (parent and side) where elm belongs. */
    method FindSpot(elm: Entry) returns (existing: Entry?, parent: Entry?, comp: int)
      requires Valid(View()) && elm !in nodes
      modifies nodes`lo, nodes`hi
      ensures Valid(View()) && Shape(View()) == Shape(old(View()))
      ensures existing != null ==> existing in nodes && existing.pathname == elm.pathname
      ensures existing == null ==> SearchBelow(old(View()), elm.at, null)
      ensures existing == null && parent == null ==> root == null
      ensures existing == null && parent != null ==> root != null && LeafSpot(View(), parent, elm, comp < 0)
    {
      ghost var g := View();
      var tmp := root;
      parent := null;
      comp := 0;
      SearchStart(g, elm.at);
      if root != null {
        WidenTo(root, if root.lo < elm.at then root.lo else elm.at - 1.0,
                if elm.at < root.hi then root.hi else elm.at + 1.0);
      }
      while tmp != null
        invariant Valid(View()) && Shape(View()) == Shape(g) && SearchBelow(g, elm.at, tmp)
        invariant tmp != null ==> tmp in nodes && tmp.lo < elm.at < tmp.hi
        invariant parent == null ==> tmp == root
        invariant parent != null ==> root != null && parent in nodes && parent.lo < elm.at < parent.hi
        invariant parent != null ==>
                    if comp < 0 then elm.at < parent.at && tmp == parent.left
                    else parent.at < elm.at && tmp == parent.right
        decreases Level(g, tmp)
      {
        assert Shape(g).rec[tmp] == Shape(View()).rec[tmp];
        ChildBelow(g, tmp);
        SearchStep(g, elm.at, tmp);
        StrcmpIsRankOrder(elm.pathname, tmp.pathname);
        parent := tmp;
        comp := Strcmp(elm.pathname, parent.pathname);
        if comp < 0 {
          WidenChild(tmp, true);
          tmp := tmp.left;
        } else if comp > 0 {
          WidenChild(tmp, false);
          tmp := tmp.right;
        } else {
          existing := tmp;
          return;
        }
      }
      existing := null;
    }

    /** RB_INSERT: returns the node that already has elm's key, or links elm in and returns null. */
    method Insert(elm: Entry) returns (existing: Entry?)
      requires Valid(View()) && elm !in nodes
      modifies this, nodes`left, nodes`right, nodes`parent, nodes`red, nodes`lo, nodes`hi, nodes`bh
      modifies elm`left, elm`right, elm`parent, elm`red, elm`lo, elm`hi, elm`bh
      ensures Valid(View())
      ensures existing != null ==>
                existing in nodes && existing.pathname == elm.pathname && nodes == old(nodes)
                && Shape(View()) == Shape(old(View()))
      ensures existing == null ==> nodes == old(nodes) + {elm} && forall n <- old(nodes) :: n.pathname != elm.pathname
    {
      var parent, comp;
      existing, parent, comp := FindSpot(elm);
      if existing != null {
        return;
      }
      forall n | n in nodes
        ensures n.pathname != elm.pathname
      {
        assert n in old(View()).rec.Keys;
        assert n.at != elm.at;
      }
      ghost var g := View();
      if parent == null {
        EmptyTree(g);
        assert g.rec.Keys == nodes;
        LinkFirst(g, elm);
      } else {
        LinkLeaf(g, parent, elm, comp < 0);
      }
      AddLeafToTree(elm, parent, comp);
      InsertColor(elm);
    }

    /** Red sibling on the right: the parent is rotated below it. */
    method RemoveRedSiblingLeft(parent: Entry, elm: Entry?, tmp: Entry, ghost bound: nat)
      requires At(View(), parent, elm, true, tmp) && Red(View(), tmp) && AllLow(View(), bound)
      modifies this`root, nodes`left, nodes`right, nodes`parent, nodes`red, nodes`lo, nodes`hi, nodes`bh
      ensures parent.right != null && At(View(), parent, elm, true, parent.right) && !Red(View(), parent.right)
      ensures AllLow(View(), bound)
      ensures Red(View(), parent)
    {
      ghost var g := View();
      SiblingExists(g, parent, elm);
      SetBlackRed(tmp, parent, g.rec[parent].bh);
      RotateLeftInTree(parent);
      RedSiblingLow(g, View(), parent, elm, true, tmp, bound);
      RedSiblingStep(g, View(), parent, elm, true, tmp);
    }

    /** Black sibling on the right with only its inner child red: the sibling is rotated below that child. */
    method RemoveInnerNephewLeft(parent: Entry, elm: Entry?, tmp: Entry)
      requires At(View(), parent, elm, true, tmp) && !Red(View(), tmp) && Red(View(), tmp.left)
      requires !Red(View(), tmp.right)
      modifies this`root, nodes`left, nodes`right, nodes`parent, nodes`red, nodes`lo, nodes`hi, nodes`bh
      ensures parent.right != null && At(View(), parent, elm, true, parent.right) && !Red(View(), parent.right)
      ensures Red(View(), parent.right.right)
    {
      ghost var g := View();
      SiblingExists(g, parent, elm);
      var inner := tmp.left;
      SetBlackRed(inner, tmp, g.rec[tmp].bh);
      RotateRightInTree(tmp);
      InnerNephewStep(g, View(), parent, elm, true, tmp, inner);
    }

    /** Black sibling on the right with its outer child red: the last rotation of the fix-up. */
    method RemoveOuterNephewLeft(parent: Entry, elm: Entry?, tmp: Entry)
      requires At(View(), parent, elm, true, tmp) && !Red(View(), tmp) && Red(View(), tmp.right)
      modifies this`root, nodes`left, nodes`right, nodes`parent, nodes`red, nodes`lo, nodes`hi, nodes`bh
      ensures root != null && RemoveInv(View(), null, root)
    {
      ghost var g := View();
      SiblingExists(g, parent, elm);
      var outer := tmp.right;
      assert LinkOk(g, outer);
      ShiftColours(tmp, parent, outer);
      RotateLeftInTree(parent);
      OuterNephewStep(g, View(), parent, elm, true, tmp, outer);
    }

    /** One pass of the loop body for a short left child. */
    method RemoveStepLeft(parent0: Entry, elm0: Entry?, ghost bound: nat) returns (parent: Entry?, elm: Entry?)
      requires RemoveInv(View(), parent0, elm0) && !Red(View(), elm0) && elm0 != root && parent0.left == elm0
      requires AllLow(View(), bound)
      modifies this`root, nodes`left, nodes`right, nodes`parent, nodes`red, nodes`lo, nodes`hi, nodes`bh
      ensures RemoveInv(View(), parent, elm)
      ensures Red(View(), elm) || elm == root
                || (AllLow(View(), bound) && parent in nodes
                    && View().rec[parent].bh == old(View()).rec[parent0].bh + 1)
    {
      ghost var g := View();
      SiblingExists(g, parent0, elm0);
      parent, elm := parent0, elm0;
      var tmp := parent.right;
      if tmp.red {
        RemoveRedSiblingLeft(parent, elm, tmp, bound);
        tmp := parent.right;
      }
      SiblingExists(View(), parent, elm);
      if (tmp.left == null || !tmp.left.red) && (tmp.right == null || !tmp.right.red) {
        RemovePushUp(parent, elm, tmp, bound);
        elm := parent;
        parent := elm.parent;
      } else {
        if tmp.right == null || !tmp.right.red {
          RemoveInnerNephewLeft(parent, elm, tmp);
          tmp := parent.right;
        }
        RemoveOuterNephewLeft(parent, elm, tmp);
        elm := root;
        parent := null;
      }
    }

    /** Red sibling on the left: the parent is rotated below it. */
    method RemoveRedSiblingRight(parent: Entry, elm: Entry?, tmp: Entry, ghost bound: nat)
      requires At(View(), parent, elm, false, tmp) && Red(View(), tmp) && AllLow(View(), bound)
      modifies this`root, nodes`left, nodes`right, nodes`parent, nodes`red, nodes`lo, nodes`hi, nodes`bh
      ensures parent.left != null && At(View(), parent, elm, false, parent.left) && !Red(View(), parent.left)
      ensures AllLow(View(), bound)
      ensures Red(View(), parent)
    {
      ghost var g := View();
      SiblingExists(g, parent, elm);
      SetBlackRed(tmp, parent, g.rec[parent].bh);
      RotateRightInTree(parent);
      RedSiblingLow(g, View(), parent, elm, false, tmp, bound);
      RedSiblingStep(g, View(), parent, elm, false, tmp);
    }

    /** Black sibling on the left with only its inner child red: the sibling is rotated below that child. */
    method RemoveInnerNephewRight(parent: Entry, elm: Entry?, tmp: Entry)
      requires At(View(), parent, elm, false, tmp) && !Red(View(), tmp) && Red(View(), tmp.right)
      requires !Red(View(), tmp.left)
      modifies this`root, nodes`left, nodes`right, nodes`parent, nodes`red, nodes`lo, nodes`hi, nodes`bh
      ensures parent.left != null && At(View(), parent, elm, false, parent.left) && !Red(View(), parent.left)
      ensures Red(View(), parent.left.left)
    {
      ghost var g := View();
      SiblingExists(g, parent, elm);
      var inner := tmp.right;
      SetBlackRed(inner, tmp, g.rec[tmp].bh);
      RotateLeftInTree(tmp);
      InnerNephewStep(g, View(), parent, elm, false, tmp, inner);
    }

    /** Black sibling on the left with its outer child red: the last rotation of the fix-up. */
    method RemoveOuterNephewRight(parent: Entry, elm: Entry?, tmp: Entry)
      requires At(View(), parent, elm, false, tmp) && !Red(View(), tmp) && Red(View(), tmp.left)
      modifies this`root, nodes`left, nodes`right, nodes`parent, nodes`red, nodes`lo, nodes`hi, nodes`bh
      ensures root != null && RemoveInv(View(), null, root)
    {
      ghost var g := View();
      SiblingExists(g, parent, elm);
      var outer := tmp.left;
      assert LinkOk(g, outer);
      ShiftColours(tmp, parent, outer);
      RotateRightInTree(parent);
      OuterNephewStep(g, View(), parent, elm, false, tmp, outer);
    }

    /** One pass of the loop body for a short right child. */
    method RemoveStepRight(parent0: Entry, elm0: Entry?, ghost bound: nat) returns (parent: Entry?, elm: Entry?)
      requires RemoveInv(View(), parent0, elm0) && !Red(View(), elm0) && elm0 != root && parent0.right == elm0
      requires AllLow(View(), bound)
      requires parent0.left != elm0
      modifies this`root, nodes`left, nodes`right, nodes`parent, nodes`red, nodes`lo, nodes`hi, nodes`bh
      ensures RemoveInv(View(), parent, elm)
      ensures Red(View(), elm) || elm == root
                || (AllLow(View(), bound) && parent in nodes
                    && View().rec[parent].bh == old(View()).rec[parent0].bh + 1)
    {
      ghost var g := View();
      SiblingExists(g, parent0, elm0);
      parent, elm := parent0, elm0;
      var tmp := parent.left;
      if tmp.red {
        RemoveRedSiblingRight(parent, elm, tmp, bound);
        tmp := parent.left;
      }
      SiblingExists(View(), parent, elm);
      if (tmp.left == null || !tmp.left.red) && (tmp.right == null || !tmp.right.red) {
        RemovePushUp(parent, elm, tmp, bound);
        elm := parent;
        parent := elm.parent;
      } else {
        if tmp.left == null || !tmp.left.red {
          RemoveInnerNephewRight(parent, elm, tmp);
          tmp := parent.left;
        }
        RemoveOuterNephewRight(parent, elm, tmp);
        elm := root;
        parent := null;
      }
    }

    /** The colour changes before the last rotation. */
    method ShiftColours(tmp: Entry, parent: Entry, outer: Entry)
      requires Links(View()) && tmp in nodes && parent in nodes && outer in nodes && View().rec[parent].bh >= 1
      requires tmp != parent && tmp != outer && parent != outer
      modifies nodes`red, nodes`bh
      ensures View() == Shifted(old(View()), tmp, parent, outer) && Links(View())
    {
      ghost var g := View();
      var colour := parent.red;
      assert colour == g.rec[parent].red;
      SetColor(tmp, colour, g.rec[parent].bh);
      SetColor(parent, false, g.rec[parent].bh - 1);
      SetColor(outer, false, g.rec[outer].bh);
    }

    /** The sibling turns red, so the parent's black height drops by one. */
    method LowerColours(tmp: Entry, parent: Entry)
      requires Links(View()) && tmp in nodes && parent in nodes && tmp != parent && View().rec[parent].bh >= 1
      modifies nodes`red, nodes`bh
      ensures View() == Lowered(old(View()), tmp, parent) && Links(View())
    {
      ghost var g := View();
      var colour := parent.red;
      assert colour == g.rec[parent].red;
      SetColor(tmp, true, g.rec[tmp].bh);
      SetColor(parent, colour, g.rec[parent].bh - 1);
    }

    /** Black sibling with black children: redden it and go on from the parent. */
    method RemovePushUp(parent: Entry, elm: Entry?, tmp: Entry, ghost bound: nat)
      requires RemoveInv(View(), parent, elm) && !Red(View(), elm) && elm != root && AllLow(View(), bound)
      requires tmp == Sibling(View(), parent, elm) && tmp in nodes && !tmp.red && !Red(View(), tmp.left)
      requires !Red(View(), tmp.right)
      modifies nodes`red, nodes`bh
      ensures RemoveInv(View(), parent.parent, parent) && AllLow(View(), bound)
      ensures View().rec[parent].bh == old(View()).rec[parent].bh - 1 && Red(View(), parent) == Red(old(View()), parent)
    {
      ghost var g := View();
      SiblingExists(g, parent, elm);
      PushUpStep(g, parent, elm);
      PushUpLow(g, parent, tmp, bound);
      LowerColours(tmp, parent);
    }

    /** RB_REMOVE_COLOR */
    method RemoveColor(parent0: Entry?, elm0: Entry?)
      requires RemoveInv(View(), parent0, elm0)
      modifies this`root, nodes`left, nodes`right, nodes`parent, nodes`red, nodes`lo, nodes`hi, nodes`bh
      ensures Valid(View())
    {
      var parent, elm := parent0, elm0;
      ghost var bound := BoundExists(View(), View().rec.Keys);
      while (elm == null || !elm.red) && elm != root
        invariant RemoveInv(View(), parent, elm) && (Red(View(), elm) || elm == root || AllLow(View(), bound))
        decreases if !Red(View(), elm) && elm != root && parent != null then bound + 1 - View().rec[parent].bh else 0
      {
        SiblingExists(View(), parent, elm);
        if parent.left == elm {
          parent, elm := RemoveStepLeft(parent, elm, bound);
        } else {
          parent, elm := RemoveStepRight(parent, elm, bound);
        }
      }
      RemoveDone(View(), parent, elm);
      if elm != null {
        SetColor(elm, false, elm.bh);
      }
    }

    /** Unlinks elm, whose only child, if any, is child: the exact fields written. */
    method SpliceOut(elm: Entry, child: Entry?)
      requires elm in nodes && child != elm && elm.parent != elm
      requires (child != null ==> child in nodes && child != elm.parent)
      requires elm.parent != null ==> elm.parent in nodes
      modifies this`root, this`nodes, nodes`left, nodes`right, nodes`parent
      ensures var p := old(elm.parent);
        && nodes == old(nodes) - {elm} && root == (if p == null then child else old(root))
        && elm.left == old(elm.left) && elm.right == old(elm.right) && elm.parent == p
        && (forall n <- nodes :: n.left == old(if n == elm.parent && n.left == elm then child else n.left))
        && (forall n <- nodes :: n.right == old(if n == elm.parent && n.left != elm then child else n.right))
        && (forall n <- nodes :: n.parent == if n == child then p else old(n.parent))
    {
      var parent := elm.parent;
      if child != null {
        child.parent := parent;
      }
      if parent != null {
        if parent.left == elm {
          parent.left := child;
        } else {
          parent.right := child;
        }
      } else {
        root := child;
      }
      nodes := nodes - {elm};
    }

    method SpliceOutOfTree(elm: Entry, child: Entry?)
      requires Links(View()) && elm in nodes && (elm.left == null || elm.right == null)
      requires child == OnlyChild(View(), elm)
      modifies this`root, this`nodes, nodes`left, nodes`right, nodes`parent
      ensures nodes == old(nodes) - {elm} && Spliced(old(View()), View(), elm)
      ensures elm.left == old(elm.left) && elm.right == old(elm.right) && elm.parent == old(elm.parent)
    {
      SpliceDistinct(View(), elm);
      SpliceOut(elm, child);
    }

    /** Gives elm, which is not linked, the links and the colour of was: the exact fields written. */
    method ReplaceBy(was: Entry, elm: Entry)
      requires was in nodes && elm !in nodes && was.left != null && was.left in nodes
      requires (was.right != null ==> was.right in nodes)
      requires was.parent != null ==> was.parent in nodes
      requires was.left != was && was.right != was && was.parent != was && was.left != was.right
      requires was.left != was.parent
      requires was.right != null ==> was.right != was.parent
      modifies this`root, this`nodes, nodes`left, nodes`right, nodes`parent
      modifies elm`left, elm`right, elm`parent, elm`red, elm`lo, elm`hi, elm`bh
      ensures nodes == old(nodes) - {was} + {elm} && root == (if old(was.parent) == null then elm else old(root))
      ensures elm.left == old(was.left) && elm.right == old(was.right) && elm.parent == old(was.parent)
      ensures elm.red == was.red && elm.lo == was.lo && elm.hi == was.hi && elm.bh == was.bh
      ensures forall n <- nodes :: n != elm ==> n.left == if n == old(was.parent) && old(n.left) == was then elm
                else old(n.left)
      ensures forall n <- nodes :: n != elm ==> n.right == if n == old(was.parent) && old(n.left) != was then elm
                else old(n.right)
      ensures forall n <- nodes :: n != elm ==> n.parent == if n == old(was.left) || n == old(was.right) then elm
                else old(n.parent)
    {
      elm.left, elm.right, elm.parent, elm.red := was.left, was.right, was.parent, was.red;
      elm.lo, elm.hi, elm.bh := was.lo, was.hi, was.bh;
      if was.parent != null {
        if was.parent.left == was {
          was.parent.left := elm;
        } else {
          was.parent.right := elm;
        }
      } else {
        root := elm;
      }
      was.left.parent := elm;
      if was.right != null {
        was.right.parent := elm;
      }
      nodes := nodes - {was} + {elm};
    }

    method ReplaceInTree(was: Entry, elm: Entry)
      requires Links(View()) && was in nodes && elm !in nodes && was.left != null
      modifies this`root, this`nodes, nodes`left, nodes`right, nodes`parent
      modifies elm`left, elm`right, elm`parent, elm`red, elm`lo, elm`hi, elm`bh
      ensures nodes == old(nodes) - {was} + {elm} && Replaced(old(View()), View(), was, elm)
    {
      ReplaceDistinct(View(), was);
      ReplaceBy(was, elm);
    }

    ghost method RaiseAll(s: set<Entry>, lo: real)
      requires s <= nodes
      modifies s`lo
      ensures View() == Raised(old(View()), s, lo)
    {
      ghost var g := View();
      forall n | n in s {
        n.lo := lo;
      }
      assert View().rec == Raised(g, s, lo).rec;
    }

    /** Splices out was's in-order successor elm, found at the end of spine. */
    method LiftSuccessor(was: Entry, elm: Entry, ghost spine: set<Entry>) returns (ghost h: Graph)
      requires elm in nodes && SpineInv(View(), was, elm, spine) && elm.left == null
      modifies this`root, this`nodes, nodes`left, nodes`right, nodes`parent, nodes`lo
      ensures nodes == old(nodes) - {elm} && was in nodes && was.left != null
      ensures Spliced(old(View()), h, elm) && View() == Raised(h, spine, elm.at) && Links(View())
    {
      ghost var g := View();
      SpliceOutOfTree(elm, elm.right);
      h := View();
      SpineEnd(g, h, was, elm, spine);
      assert h.rec.Keys == nodes;
      RaiseAll(spine, elm.at);
      assert View().rec[was].left == was.left;
    }

    /** Moves was's in-order successor elm into was's place. */
    method MoveSuccessor(was: Entry, elm: Entry, ghost spine: set<Entry>)
        returns (parent: Entry?, child: Entry?, colour: bool)
      requires elm in nodes && SpineInv(View(), was, elm, spine) && elm.left == null
      modifies this`root, this`nodes, nodes`left, nodes`right, nodes`parent, nodes`red, nodes`lo, nodes`hi, nodes`bh
      ensures nodes == old(nodes) - {was}
      ensures if colour then Valid(View()) else RemoveInv(View(), parent, child)
    {
      ghost var g := View();
      child := elm.right;
      parent := elm.parent;
      colour := elm.red;
      assert g.rec[elm].right == child && g.rec[elm].parent == parent && Red(g, elm) == colour;
      assert (nodes - {elm}) - {was} + {elm} == nodes - {was};
      ghost var h := LiftSuccessor(was, elm, spine);
      if parent == was {
        parent := elm;
      }
      ReplaceInTree(was, elm);
      SpineDone(g, h, View(), was, elm, spine);
    }

    /** RB_REMOVE of a node with two children: its in-order successor is unlinked and takes its place. */
    method RemoveInner(was: Entry) returns (parent: Entry?, child: Entry?, colour: bool)
      requires Valid(View()) && was in nodes && was.left != null && was.right != null
      modifies this`root, this`nodes, nodes`left, nodes`right, nodes`parent, nodes`red, nodes`lo, nodes`hi, nodes`bh
      ensures nodes == old(nodes) - {was}
      ensures if colour then Valid(View()) else RemoveInv(View(), parent, child)
    {
      ghost var g := View();
      ghost var spine: set<Entry> := {};
      SpineStart(g, was);
      var elm: Entry := was.right;
      while elm.left != null
        invariant elm in nodes && SpineInv(g, was, elm, spine)
        decreases Level(g, elm)
        modifies {}
      {
        ChildBelow(g, elm);
        SpineStep(g, was, elm, spine);
        spine := spine + {elm};
        elm := elm.left;
      }
      parent, child, colour := MoveSuccessor(was, elm, spine);
    }

    /** RB_REMOVE */
    method Remove(elm: Entry) returns (removed: Entry)
      requires Valid(View()) && elm in nodes
      modifies this`root, this`nodes, nodes`left, nodes`right, nodes`parent, nodes`red, nodes`lo, nodes`hi, nodes`bh
      ensures removed == elm && nodes == old(nodes) - {elm} && Valid(View())
    {
      var parent, child, colour;
      if elm.left != null && elm.right != null {
        parent, child, colour := RemoveInner(elm);
      } else {
        child := if elm.left == null then elm.right else elm.left;
        parent := elm.parent;
        colour := elm.red;
        ghost var g := View();
        SpliceOutOfTree(elm, child);
        SplicedInv(g, View(), elm);
      }
      if !colour {
        RemoveColor(parent, child);
      }
      removed := elm;
    }

    // ---------- Queries ----------

    /** RB_FIND: the node with the given key, or null exactly when the tree has none. */
    method Find(key: CStr) returns (r: Entry?)
      requires Valid(View())
      ensures r != null ==> r in nodes && r.pathname == key
      ensures r == null ==> forall n <- nodes :: n.pathname != key
    {
      ghost var g := View();
      r := root;
      SearchStart(g, Rank(key));
      while r != null
        invariant SearchBelow(g, Rank(key), r)
        decreases Level(g, r)
      {
        ChildBelow(g, r);
        SearchStep(g, Rank(key), r);
        StrcmpIsRankOrder(key, r.pathname);
        var comp := Strcmp(key, r.pathname);
        if comp < 0 {
          r := r.left;
        } else if comp > 0 {
          r := r.right;
        } else {
          return;
        }
      }
      forall n | n in nodes
        ensures n.pathname != key
      {
        assert n in g.rec.Keys;
        assert n.at != Rank(key);
      }
    }

    /** RB_NEXT: the node that follows elm in key order. */
    method Next(elm: Entry) returns (r: Entry?)
      requires Valid(View()) && elm in nodes
      ensures IsNext(View(), elm, r)
    {
      ghost var g := View();
      if elm.right != null {
        StartDown(g, elm);
        r := elm.right;
        while r.left != null
          invariant r != null && NextIsBelow(g, elm, r)
          decreases Level(g, r)
        {
          ChildBelow(g, r);
          StepDown(g, elm, r);
          r := r.left;
        }
        StepDown(g, elm, r);
      } else {
        StartUp(g, elm);
        r := elm;
        ghost var bound := BoundExists(g, g.rec.Keys);
        while r.parent != null && r == r.parent.right
          invariant r != null && NextIsAbove(g, elm, r)
          decreases 2 * bound + 2 - Level(g, r)
        {
          StepUp(g, elm, r);
          ChildBelow(g, r.parent);
          r := r.parent;
        }
        StepUp(g, elm, r);
        r := r.parent;
      }
    }

    /** RB_MINMAX with a negative direction: the first node in key order. */
    method Min() returns (r: Entry?)
      requires Valid(View())
      ensures r == null <==> nodes == {}
      ensures r != null ==> r in nodes && forall n <- nodes :: r.at <= n.at
    {
      ghost var g := View();
      assert g.rec.Keys == nodes;
      r := null;
      var tmp := root;
      if root == null {
        EmptyTree(g);
      } else {
        MinStart(g);
      }
      while tmp != null
        invariant tmp != null ==> MinIsBelow(g, tmp)
        invariant tmp == null ==> if r == null then nodes == {} else r in nodes && forall n <- nodes :: r.at <= n.at
        decreases Level(g, tmp)
      {
        ChildBelow(g, tmp);
        MinStep(g, tmp);
        r := tmp;
        tmp := tmp.left;
      }
    }
  }
}
