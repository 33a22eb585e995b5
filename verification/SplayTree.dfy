/** The splay tree of tree.h: the top-down splay loop, insertion, removal and search, on nodes with integer keys. */
module SplayTree {

  class SplayNode {
    const key: int
    var left: SplayNode?
    var right: SplayNode?

    constructor (key: int)
      ensures this.key == key && left == null && right == null
    {
      this.key, left, right := key, null, null;
    }

    function Child(r: bool): SplayNode?
      reads this
    {
      if r then right else left
    }
  }

  // ---------- Shapes ----------

  /** The nodes of a tree and how they hang together. */
  datatype Shape = Leaf | Node(left: Shape, n: SplayNode, right: Shape)

  ghost function Nodes(s: Shape): set<SplayNode>
  {
    match s case Leaf => {} case Node(l, n, r) => Nodes(l) + {n} + Nodes(r)
  }

  /** The nodes in order. */
  ghost function Walk(s: Shape): seq<SplayNode>
  {
    match s case Leaf => [] case Node(l, n, r) => Walk(l) + [n] + Walk(r)
  }

  /** The pointer p leads to a tree of the shape s. */
  ghost predicate Tree(p: SplayNode?, s: Shape)
    reads Nodes(s)
  {
    match s
    case Leaf => p == null
    case Node(l, n, r) => p == n && Tree(n.left, l) && Tree(n.right, r)
  }

  ghost predicate Ascending(w: seq<SplayNode>)
  {
    forall i, j | 0 <= i < j < |w| :: w[i].key < w[j].key
  }

  ghost predicate Below(s: Shape, k: int) { forall x <- Nodes(s) :: x.key < k }

  ghost predicate Above(s: Shape, k: int) { forall x <- Nodes(s) :: k < x.key }

  ghost predicate Ordered(s: Shape)
  {
    match s case Leaf => true case Node(l, n, r) => Below(l, n.key) && Above(r, n.key) && Ordered(l) && Ordered(r)
  }

  lemma {:induction false} WalkHasNodes(s: Shape)
    ensures (forall x <- Walk(s) :: x in Nodes(s)) && (forall x <- Nodes(s) :: x in Walk(s))
  {
    match s
    case Leaf =>
    case Node(l, n, r) =>
      WalkHasNodes(l);
      WalkHasNodes(r);
  }

  lemma AscendingParts(a: seq<SplayNode>, n: SplayNode, b: seq<SplayNode>)
    ensures Ascending(a + [n] + b) <==>
              Ascending(a) && Ascending(b) && (forall x <- a :: x.key < n.key)
              && (forall x <- b :: n.key < x.key)
  {
    var w := a + [n] + b;
    if Ascending(w) {
      forall i, j | 0 <= i < j < |a|
        ensures a[i].key < a[j].key
      {
        assert w[i] == a[i] && w[j] == a[j];
      }
      forall i, j | 0 <= i < j < |b|
        ensures b[i].key < b[j].key
      {
        assert w[|a| + 1 + i] == b[i] && w[|a| + 1 + j] == b[j];
      }
      forall x <- a
        ensures x.key < n.key
      {
        var i :| 0 <= i < |a| && a[i] == x;
        assert w[i] == x && w[|a|] == n;
      }
      forall x <- b
        ensures n.key < x.key
      {
        var i :| 0 <= i < |b| && b[i] == x;
        assert w[|a| + 1 + i] == x && w[|a|] == n;
      }
    }
    if Ascending(a) && Ascending(b) && (forall x <- a :: x.key < n.key) && (forall x <- b :: n.key < x.key) {
      forall i, j | 0 <= i < j < |w| ensures w[i].key < w[j].key {
        if i < |a| { assert w[i] in a; }
        if j > |a| { assert w[j] in b; }
      }
    }
  }

  lemma AscendingNone()
    ensures Ascending([])
  {
  }

  lemma {:induction false} OrderedIsAscending(s: Shape)
    ensures Ordered(s) <==> Ascending(Walk(s))
  {
    hide Ascending;
    match s
    case Leaf => assert Ascending([]) by { AscendingNone(); }
    case Node(l, n, r) =>
      OrderedIsAscending(l);
      OrderedIsAscending(r);
      WalkHasNodes(l);
      WalkHasNodes(r);
      AscendingParts(Walk(l), n, Walk(r));
      assert Below(l, n.key) <==> forall x <- Walk(l) :: x.key < n.key;
      assert Above(r, n.key) <==> forall x <- Walk(r) :: n.key < x.key;
  }

  // ---------- Spines ----------

  /** A node of a tree under construction, and the finished subtree at its outer side. */
  datatype Rib = Rib(n: SplayNode, sub: Shape)

  ghost function SpineNodes(sp: seq<Rib>): set<SplayNode>
  {
    (set i | 0 <= i < |sp| :: sp[i].n) + (set i, x | 0 <= i < |sp| && x in Nodes(sp[i].sub) :: x)
  }

  /** The nodes of a spine that runs to the right if r, in order. */
  ghost function SpineWalk(r: bool, sp: seq<Rib>): seq<SplayNode>
  {
    if sp == [] then []
    else if r then Walk(sp[0].sub) + [sp[0].n] + SpineWalk(r, sp[1..])
    else SpineWalk(r, sp[1..]) + [sp[0].n] + Walk(sp[0].sub)
  }

  /** The tree that a spine becomes when s is hung to its end; the spine runs to the right if r. */
  ghost function Build(r: bool, sp: seq<Rib>, s: Shape): Shape
  {
    if sp == [] then s
    else if r then Node(sp[0].sub, sp[0].n, Build(r, sp[1..], s))
    else Node(Build(r, sp[1..], s), sp[0].n, sp[0].sub)
  }

  /** The node to whose child the rest of the tree is hung. */
  function End(head: SplayNode, sp: seq<Rib>): SplayNode
  {
    if sp == [] then head else sp[|sp| - 1].n
  }

  /** From the pointer p on, the nodes of the spine are linked. */
  ghost predicate Linked(r: bool, p: SplayNode?, sp: seq<Rib>)
    reads SpineNodes(sp)
  {
    && (sp != [] ==> p == sp[0].n)
    && (forall i | 0 < i < |sp| :: sp[i - 1].n.Child(r) == sp[i].n)
    && (forall i | 0 <= i < |sp| :: SubTree(r, sp[i]))
  }

  ghost predicate SubTree(r: bool, rib: Rib)
    reads rib.n, Nodes(rib.sub)
  {
    Tree(rib.n.Child(!r), rib.sub)
  }

  /** The nodes of a spine are different, and none is in a subtree. */
  ghost predicate Apart(head: SplayNode, sp: seq<Rib>)
  {
    && head !in SpineNodes(sp)
    && (forall i, j | 0 <= i < j < |sp| :: sp[i].n != sp[j].n)
    && (forall i, j | 0 <= i < |sp| && 0 <= j < |sp| :: sp[i].n !in Nodes(sp[j].sub))
  }

  lemma {:induction false} BuildTree(r: bool, head: SplayNode, sp: seq<Rib>, s: Shape)
    requires Linked(r, head.Child(r), sp) && Tree(End(head, sp).Child(r), s)
    ensures Tree(head.Child(r), Build(r, sp, s))
  {
    if sp != [] {
      assert forall i | 0 < i < |sp[1..]| ::
          sp[1..][i - 1] == sp[i] && sp[1..][i] == sp[i + 1] && sp[i + 1 - 1] == sp[i];
      assert SubTree(r, sp[0]);
      BuildTree(r, sp[0].n, sp[1..], s);
    }
  }

  lemma {:induction false} BuildNodes(r: bool, sp: seq<Rib>, s: Shape)
    ensures Nodes(Build(r, sp, s)) == SpineNodes(sp) + Nodes(s)
  {
    if sp != [] {
      BuildNodes(r, sp[1..], s);
      SpineNodesFirst(sp);
    } else {
      assert SpineNodes(sp) == {};
    }
  }

  lemma SpineNodesFirst(sp: seq<Rib>)
    requires sp != []
    ensures SpineNodes(sp) == {sp[0].n} + Nodes(sp[0].sub) + SpineNodes(sp[1..])
  {
    forall x | x in SpineNodes(sp)
      ensures x in {sp[0].n} + Nodes(sp[0].sub) + SpineNodes(sp[1..])
    {
      if i :| 0 <= i < |sp| && sp[i].n == x {
        assert i > 0 ==> sp[1..][i - 1].n == x;
      } else {
        var i :| 0 <= i < |sp| && x in Nodes(sp[i].sub);
        assert i > 0 ==> x in Nodes(sp[1..][i - 1].sub);
      }
    }
    forall x | x in SpineNodes(sp[1..])
      ensures x in SpineNodes(sp)
    {
      if i :| 0 <= i < |sp[1..]| && sp[1..][i].n == x {
        assert sp[i + 1].n == x;
      } else {
        var i :| 0 <= i < |sp[1..]| && x in Nodes(sp[1..][i].sub);
        assert x in Nodes(sp[i + 1].sub);
      }
    }
    assert sp[0].n in SpineNodes(sp);
  }

  lemma SpineNodesLast(sp: seq<Rib>, rib: Rib)
    ensures SpineNodes(sp + [rib]) == SpineNodes(sp) + {rib.n} + Nodes(rib.sub)
  {
    var t := sp + [rib];
    assert t[|sp|] == rib;
    forall x | x in SpineNodes(sp)
      ensures x in SpineNodes(t)
    {
      if i :| 0 <= i < |sp| && sp[i].n == x {
        assert t[i].n == x;
      } else {
        var i :| 0 <= i < |sp| && x in Nodes(sp[i].sub);
        assert x in Nodes(t[i].sub);
      }
    }
  }

  lemma {:induction false} BuildWalk(r: bool, sp: seq<Rib>, s: Shape)
    ensures Walk(Build(r, sp, s)) == if r then SpineWalk(r, sp) + Walk(s) else Walk(s) + SpineWalk(r, sp)
  {
    if sp != [] {
      BuildWalk(r, sp[1..], s);
    }
  }

  lemma {:induction false} SpineWalkLast(r: bool, sp: seq<Rib>, rib: Rib)
    ensures SpineWalk(r, sp + [rib]) ==
      if r then SpineWalk(r, sp) + (Walk(rib.sub) + [rib.n]) else ([rib.n] + Walk(rib.sub)) + SpineWalk(r, sp)
  {
    if sp == [] {
      assert sp + [rib] == [rib];
    } else {
      assert (sp + [rib])[1..] == sp[1..] + [rib];
      SpineWalkLast(r, sp[1..], rib);
    }
  }

  /** All nodes in order, while the tree is split into two spines and what is between them. */
  ghost function WalkOf(ls: seq<Rib>, t: Shape, rs: seq<Rib>): seq<SplayNode>
  {
    SpineWalk(true, ls) + Walk(t) + SpineWalk(false, rs)
  }

  lemma Regroup<T>(a: seq<T>, b: seq<T>, n: seq<T>, c: seq<T>, d: seq<T>)
    ensures (a + b) + n + (c + d) == a + (b + n + c) + d
    ensures (a + (b + n)) + c + d == a + (b + n + c) + d
    ensures a + b + ((n + c) + d) == a + (b + n + c) + d
  {
  }

  lemma WalkOfAll(t: Shape)
    ensures WalkOf([], t, []) == Walk(t)
  {
    assert [] + Walk(t) + [] == Walk(t);
  }

  /** Moving the root and one of its subtrees to a spine keeps the order. */
  lemma LinkedWalk(ls: seq<Rib>, t: Shape, rs: seq<Rib>)
    requires t.Node?
    ensures WalkOf(ls + [Rib(t.n, t.left)], t.right, rs) == WalkOf(ls, t, rs)
    ensures WalkOf(ls, t.left, rs + [Rib(t.n, t.right)]) == WalkOf(ls, t, rs)
  {
    SpineWalkLast(true, ls, Rib(t.n, t.left));
    SpineWalkLast(false, rs, Rib(t.n, t.right));
    Regroup(SpineWalk(true, ls), Walk(t.left), [t.n], Walk(t.right), SpineWalk(false, rs));
  }

  lemma AssembledWalk(ls: seq<Rib>, t: Shape, rs: seq<Rib>)
    requires t.Node?
    ensures Walk(Node(Build(true, ls, t.left), t.n, Build(false, rs, t.right))) == WalkOf(ls, t, rs)
  {
    BuildWalk(true, ls, t.left);
    BuildWalk(false, rs, t.right);
    Regroup(SpineWalk(true, ls), Walk(t.left), [t.n], Walk(t.right), SpineWalk(false, rs));
  }

  // ---------- Proper shapes ----------

  /** No node occurs twice. */
  ghost predicate Proper(s: Shape)
  {
    match s
    case Leaf => true
    case Node(l, n, r) => n !in Nodes(l) && n !in Nodes(r) && Nodes(l) !! Nodes(r) && Proper(l) && Proper(r)
  }

  lemma {:induction false} OrderedIsProper(s: Shape)
    requires Ordered(s)
    ensures Proper(s)
  {
    match s
    case Leaf =>
    case Node(l, n, r) =>
      OrderedIsProper(l);
      OrderedIsProper(r);
  }

  // ---------- The tree ----------

  class Splay {
    var root: SplayNode?
    ghost var shape: Shape
    ghost var nodes: set<SplayNode>

    constructor ()
      ensures Valid() && nodes == {}
    {
      root, shape, nodes := null, Leaf, {};
    }

    ghost predicate Valid()
      reads this, nodes
    {
      nodes == Nodes(shape) && Tree(root, shape) && Ordered(shape)
    }

    /** SPLAY_ROTATE_RIGHT, with tmp the left child of the root */
    method RotateRight(tmp: SplayNode, ghost t: Shape) returns (ghost t': Shape)
      requires Tree(root, t) && Ordered(t) && t.Node? && t.left.Node? && tmp == t.left.n
      modifies this`root, t.n, t.left.n
      ensures t' == Node(t.left.left, t.left.n, Node(t.left.right, t.n, t.right))
      ensures Tree(root, t') && Ordered(t') && Walk(t') == Walk(t) && Nodes(t') == Nodes(t)
    {
      OrderedIsProper(t);
      t' := Node(t.left.left, t.left.n, Node(t.left.right, t.n, t.right));
      root.left := tmp.right;
      tmp.right := root;
      root := tmp;
    }

    /** SPLAY_ROTATE_LEFT, with tmp the right child of the root */
    method RotateLeft(tmp: SplayNode, ghost t: Shape) returns (ghost t': Shape)
      requires Tree(root, t) && Ordered(t) && t.Node? && t.right.Node? && tmp == t.right.n
      modifies this`root, t.n, t.right.n
      ensures t' == Node(Node(t.left, t.n, t.right.left), t.right.n, t.right.right)
      ensures Tree(root, t') && Ordered(t') && Walk(t') == Walk(t) && Nodes(t') == Nodes(t)
    {
      OrderedIsProper(t);
      t' := Node(Node(t.left, t.n, t.right.left), t.right.n, t.right.right);
      root.right := tmp.left;
      tmp.left := root;
      root := tmp;
    }

    /**
     * The state of the splay loop for the key k: nodes before k are in the spine ls, those behind k in rs, and t is
     * still to be split.
     */
    ghost predicate Split(header: SplayNode, ls: seq<Rib>, t: Shape, rs: seq<Rib>, k: int, all: set<SplayNode>)
      reads this`root, header, all
    {
      && all == SpineNodes(ls) + Nodes(t) + SpineNodes(rs)
      && t.Node? && Tree(root, t) && Ordered(t) && header !in Nodes(t)
      && Linked(true, header.right, ls) && Apart(header, ls) && (forall x <- SpineNodes(ls) :: x.key < k)
      && Linked(false, header.left, rs) && Apart(header, rs) && (forall x <- SpineNodes(rs) :: k < x.key)
      && SpineNodes(ls) !! Nodes(t) && SpineNodes(rs) !! Nodes(t)
    }

    /** Stores n as the right child of the end of the left spine. */
    method HangRight(left: SplayNode, n: SplayNode, ghost header: SplayNode, ghost ls: seq<Rib>, ghost sub: Shape)
      requires Linked(true, header.right, ls) && Apart(header, ls) && left == End(header, ls)
      requires SubTree(true, Rib(n, sub)) && left != n && left !in Nodes(sub)
      modifies left`right
      ensures left.right == n && Linked(true, header.right, ls + [Rib(n, sub)])
    {
      hide Tree;
      ghost var ls' := ls + [Rib(n, sub)];
      left.right := n;
      forall i | 0 <= i < |ls'|
        ensures SubTree(true, ls'[i])
      {
        assert i < |ls| ==> ls'[i] == ls[i] && SubTree(true, ls[i]);
      }
      forall i | 0 < i < |ls'|
        ensures ls'[i - 1].n.right == ls'[i].n
      {
        assert i < |ls| ==> ls[i - 1].n.Child(true) == ls[i].n;
      }
    }

    /** SPLAY_LINKRIGHT: the root and its left subtree go to the end of the left spine. */
    method LinkRight(left: SplayNode, header: SplayNode, ghost ls: seq<Rib>, ghost t: Shape, ghost rs: seq<Rib>,
                     ghost k: int, ghost all: set<SplayNode>)
      returns (left': SplayNode, ghost ls': seq<Rib>)
      requires Split(header, ls, t, rs, k, all) && left == End(header, ls) && t.right.Node? && t.n.key < k
      modifies this`root, left`right
      ensures ls' == ls + [Rib(t.n, t.left)] && left' == t.n && Split(header, ls', t.right, rs, k, all)
    {
      hide Below, Above, Linked, Apart;
      ls' := ls + [Rib(t.n, t.left)];
      ApartLast(header, ls, t);
      SpineNodesLast(ls, Rib(t.n, t.left));
      BelowNodes(t.left, t.n.key);
      EndIn(header, ls);
      assert left !in SpineNodes(rs) && header !in SpineNodes(rs) by { EndIn(header, rs); }
      assert Tree(root.right, t.right) && left !in Nodes(t.right);
      assert Linked(false, header.left, rs);
      HangRight(left, root, header, ls, t.left);
      left' := root;
      root := root.right;
    }

    /** Stores n as the left child of the end of the right spine. */
    method HangLeft(right: SplayNode, n: SplayNode, ghost header: SplayNode, ghost rs: seq<Rib>, ghost sub: Shape)
      requires Linked(false, header.left, rs) && Apart(header, rs) && right == End(header, rs)
      requires SubTree(false, Rib(n, sub)) && right != n && right !in Nodes(sub)
      modifies right`left
      ensures right.left == n && Linked(false, header.left, rs + [Rib(n, sub)])
    {
      hide Tree;
      ghost var rs' := rs + [Rib(n, sub)];
      right.left := n;
      forall i | 0 <= i < |rs'|
        ensures SubTree(false, rs'[i])
      {
        assert i < |rs| ==> rs'[i] == rs[i] && SubTree(false, rs[i]);
      }
      forall i | 0 < i < |rs'|
        ensures rs'[i - 1].n.left == rs'[i].n
      {
        assert i < |rs| ==> rs[i - 1].n.Child(false) == rs[i].n;
      }
    }

    /** SPLAY_LINKLEFT: the root and its right subtree go to the end of the right spine. */
    method LinkLeft(right: SplayNode, header: SplayNode, ghost ls: seq<Rib>, ghost t: Shape, ghost rs: seq<Rib>,
                    ghost k: int, ghost all: set<SplayNode>)
      returns (right': SplayNode, ghost rs': seq<Rib>)
      requires Split(header, ls, t, rs, k, all) && right == End(header, rs) && t.left.Node? && k < t.n.key
      modifies this`root, right`left
      ensures rs' == rs + [Rib(t.n, t.right)] && right' == t.n && Split(header, ls, t.left, rs', k, all)
    {
      hide Below, Above, Linked, Apart;
      rs' := rs + [Rib(t.n, t.right)];
      ApartLast(header, rs, t);
      SpineNodesLast(rs, Rib(t.n, t.right));
      AboveNodes(t.right, t.n.key);
      EndIn(header, rs);
      assert right !in SpineNodes(ls) && header !in SpineNodes(ls) by { EndIn(header, ls); }
      assert Tree(root.left, t.left) && right !in Nodes(t.left);
      assert Linked(true, header.right, ls);
      HangLeft(right, root, header, rs, t.right);
      right' := root;
      root := root.left;
    }

    // ---------- Putting the tree together ----------

    /** Hangs p, a tree of the shape s, to the end of the left spine. */
    method CloseRight(left: SplayNode, p: SplayNode?, ghost header: SplayNode, ghost ls: seq<Rib>, ghost s: Shape)
      requires Linked(true, header.right, ls) && Apart(header, ls) && left == End(header, ls)
      requires Tree(p, s) && left !in Nodes(s)
      modifies left`right
      ensures Tree(header.right, Build(true, ls, s))
    {
      hide Tree;
      left.right := p;
      forall i | 0 <= i < |ls|
        ensures SubTree(true, ls[i])
      {
      }
      forall i | 0 < i < |ls|
        ensures ls[i - 1].n.Child(true) == ls[i].n
      {
      }
      BuildTree(true, header, ls, s);
    }

    /** Hangs p, a tree of the shape s, to the end of the right spine. */
    method CloseLeft(right: SplayNode, p: SplayNode?, ghost header: SplayNode, ghost rs: seq<Rib>, ghost s: Shape)
      requires Linked(false, header.left, rs) && Apart(header, rs) && right == End(header, rs)
      requires Tree(p, s) && right !in Nodes(s)
      modifies right`left
      ensures Tree(header.left, Build(false, rs, s))
    {
      hide Tree;
      right.left := p;
      forall i | 0 <= i < |rs|
        ensures SubTree(false, rs[i])
      {
      }
      forall i | 0 < i < |rs|
        ensures rs[i - 1].n.Child(false) == rs[i].n
      {
      }
      BuildTree(false, header, rs, s);
    }

    /** The first two stores of SPLAY_ASSEMBLE, which finish the left and the right tree. */
    method CloseSpines(header: SplayNode, left: SplayNode, right: SplayNode, ghost ls: seq<Rib>, ghost t: Shape,
                       ghost rs: seq<Rib>, ghost k: int, ghost all: set<SplayNode>)
      requires Split(header, ls, t, rs, k, all) && left == End(header, ls) && right == End(header, rs)
      modifies left`right, right`left
      ensures Tree(header.right, Build(true, ls, t.left)) && Tree(header.left, Build(false, rs, t.right))
    {
      hide Below, Above, Linked, Apart, Ordered;
      SplitApart(header, ls, t, rs, k, all);
      BuildNodes(true, ls, t.left);
      CloseRight(left, root.left, header, ls, t.left);
      CloseLeft(right, root.right, header, rs, t.right);
    }

    /** SPLAY_ASSEMBLE */
    method Assemble(header: SplayNode, left: SplayNode, right: SplayNode, ghost ls: seq<Rib>, ghost t: Shape,
                    ghost rs: seq<Rib>, ghost k: int, ghost all: set<SplayNode>)
      requires Split(header, ls, t, rs, k, all) && left == End(header, ls) && right == End(header, rs)
      modifies header, all
      ensures Tree(root, Node(Build(true, ls, t.left), t.n, Build(false, rs, t.right)))
    {
      hide Below, Above, Linked, Apart, Ordered;
      SplitApart(header, ls, t, rs, k, all);
      BuildNodes(true, ls, t.left);
      BuildNodes(false, rs, t.right);
      CloseSpines(header, left, right, ls, t, rs, k, all);
      root.left := header.right;
      root.right := header.left;
    }

    lemma SplitApart(header: SplayNode, ls: seq<Rib>, t: Shape, rs: seq<Rib>, k: int, all: set<SplayNode>)
      requires Split(header, ls, t, rs, k, all)
      ensures t.n !in Nodes(t.left) && t.n !in Nodes(t.right) && Nodes(t.left) !! Nodes(t.right)
      ensures header !in all && SpineNodes(ls) !! SpineNodes(rs)
      ensures End(header, ls) == header || End(header, ls) in SpineNodes(ls)
      ensures End(header, rs) == header || End(header, rs) in SpineNodes(rs)
    {
      OrderedIsProper(t);
      EndIn(header, ls);
      EndIn(header, rs);
    }

    // ---------- Splaying ----------

    lemma RootOf(header: SplayNode, ls: seq<Rib>, t: Shape, rs: seq<Rib>, k: int, all: set<SplayNode>)
      requires Split(header, ls, t, rs, k, all)
      ensures t.Node? && root == t.n && t.n in all
      ensures (t.n.left == null <==> t.left == Leaf) && (t.n.left != null ==> t.n.left == t.left.n)
      ensures (t.n.right == null <==> t.right == Leaf) && (t.n.right != null ==> t.n.right == t.right.n)
      ensures End(header, ls) == header || End(header, ls) in all
      ensures End(header, rs) == header || End(header, rs) in all
    {
      EndIn(header, ls);
      EndIn(header, rs);
      NullIsLeaf(t.n.left, t.left);
      NullIsLeaf(t.n.right, t.right);
    }

    /** Rotating the root to the right keeps the state of the loop. */
    method ZigRight(k: int, tmp: SplayNode, header: SplayNode, ghost ls: seq<Rib>, ghost t: Shape, ghost rs: seq<Rib>,
                    ghost all: set<SplayNode>)
      returns (ghost t': Shape)
      requires Split(header, ls, t, rs, k, all) && t.left.Node? && tmp == t.left.n
      modifies this`root, all
      ensures t' == Node(t.left.left, t.left.n, Node(t.left.right, t.n, t.right))
      ensures Split(header, ls, t', rs, k, all) && Walk(t') == Walk(t)
    {
      hide Below, Above, Linked, Apart, Ordered;
      assert t.left.n in Nodes(t.left) && t.n in Nodes(t);
      t' := RotateRight(tmp, t);
    }

    method ZigLeft(k: int, tmp: SplayNode, header: SplayNode, ghost ls: seq<Rib>, ghost t: Shape, ghost rs: seq<Rib>,
                   ghost all: set<SplayNode>)
      returns (ghost t': Shape)
      requires Split(header, ls, t, rs, k, all) && t.right.Node? && tmp == t.right.n
      modifies this`root, all
      ensures t' == Node(Node(t.left, t.n, t.right.left), t.right.n, t.right.right)
      ensures Split(header, ls, t', rs, k, all) && Walk(t') == Walk(t)
    {
      hide Below, Above, Linked, Apart, Ordered;
      assert t.right.n in Nodes(t.right) && t.n in Nodes(t);
      t' := RotateLeft(tmp, t);
    }

    /** One turn of the splay loop to the left; done if it ends the loop. */
    method TurnLeft(k: int, right: SplayNode, header: SplayNode, ghost ls: seq<Rib>, ghost t: Shape,
                    ghost rs: seq<Rib>, ghost all: set<SplayNode>)
      returns (done: bool, right': SplayNode, ghost t': Shape, ghost rs': seq<Rib>)
      requires Split(header, ls, t, rs, k, all) && right == End(header, rs) && k < t.n.key
      modifies this`root, header, all
      ensures Split(header, ls, t', rs', k, all) && t'.Node? && right' == End(header, rs')
      ensures WalkOf(ls, t', rs') == WalkOf(ls, t, rs)
      ensures if done then k < t'.n.key && t'.left == Leaf else t decreases to t'
    {
      hide Split, SpineWalk;
      RootOf(header, ls, t, rs, k, all);
      done, right', t', rs' := true, right, t, rs;
      var tmp := root.left;
      if tmp == null {
        return;
      }
      if k < tmp.key {
        t' := ZigRight(k, tmp, header, ls, t, rs, all);
        RootOf(header, ls, t', rs, k, all);
        if root.left == null {
          return;
        }
      }
      ghost var u := t';
      right', rs' := LinkLeft(right, header, ls, u, rs, k, all);
      t', done := u.left, false;
      LinkedWalk(ls, u, rs);
    }

    /** One turn of the splay loop to the right. */
    method TurnRight(k: int, left: SplayNode, header: SplayNode, ghost ls: seq<Rib>, ghost t: Shape,
                     ghost rs: seq<Rib>, ghost all: set<SplayNode>)
      returns (done: bool, left': SplayNode, ghost t': Shape, ghost ls': seq<Rib>)
      requires Split(header, ls, t, rs, k, all) && left == End(header, ls) && t.n.key < k
      modifies this`root, header, all
      ensures Split(header, ls', t', rs, k, all) && t'.Node? && left' == End(header, ls')
      ensures WalkOf(ls', t', rs) == WalkOf(ls, t, rs)
      ensures if done then t'.n.key < k && t'.right == Leaf else t decreases to t'
    {
      hide Split, SpineWalk;
      RootOf(header, ls, t, rs, k, all);
      done, left', t', ls' := true, left, t, ls;
      var tmp := root.right;
      if tmp == null {
        return;
      }
      if tmp.key < k {
        t' := ZigLeft(k, tmp, header, ls, t, rs, all);
        RootOf(header, ls, t', rs, k, all);
        if root.right == null {
          return;
        }
      }
      ghost var u := t';
      left', ls' := LinkRight(left, header, ls, u, rs, k, all);
      t', done := u.right, false;
      LinkedWalk(ls, u, rs);
    }

    /** The loop of SPLAY. */
    method SplitAt(k: int, header: SplayNode, ghost s: Shape, ghost all: set<SplayNode>)
      returns (left: SplayNode, right: SplayNode, ghost ls: seq<Rib>, ghost t: Shape, ghost rs: seq<Rib>)
      requires Split(header, [], s, [], k, all) && s.Node?
      modifies this`root, header, all
      ensures Split(header, ls, t, rs, k, all) && t.Node? && left == End(header, ls) && right == End(header, rs)
      ensures WalkOf(ls, t, rs) == Walk(s)
      ensures t.n.key == k || (k < t.n.key && t.left == Leaf) || (t.n.key < k && t.right == Leaf)
    {
      hide Split, WalkOf;
      left, right := header, header;
      ls, t, rs := [], s, [];
      RootOf(header, ls, t, rs, k, all);
      assert WalkOf(ls, t, rs) == Walk(s) by { WalkOfAll(s); }
      while k != root.key
        invariant Split(header, ls, t, rs, k, all) && left == End(header, ls) && right == End(header, rs) && t.Node?
        invariant root == t.n
        invariant WalkOf(ls, t, rs) == Walk(s)
        decreases t
      {
        var done;
        if k < root.key {
          done, right, t, rs := TurnLeft(k, right, header, ls, t, rs, all);
        } else {
          done, left, t, ls := TurnRight(k, left, header, ls, t, rs, all);
        }
        RootOf(header, ls, t, rs, k, all);
        if done {
          break;
        }
      }
    }

    /** SPLAY: brings the node with the key k to the root, or a neighbour of where k would be. */
    method SplayTo(k: int)
      requires Valid() && root != null
      modifies this`root, this`shape, nodes
      ensures Valid() && Walk(shape) == old(Walk(shape))
      ensures shape.Node? && root == shape.n && Below(shape.left, k) && Above(shape.right, k)
    {
      hide Ordered, Split, WalkOf, Below, Above;
      NullIsLeaf(root, shape);
      OrderedIsAscending(shape);
      var node := new SplayNode(0);
      assert Split(node, [], shape, [], k, nodes) by { SplitStart(node, shape, k, nodes); }
      var left, right;
      ghost var ls, t, rs;
      left, right, ls, t, rs := SplitAt(k, node, shape, nodes);
      SplitEnds(node, ls, t, rs, k, nodes);
      AssembledWalk(ls, t, rs);
      ghost var now := Node(Build(true, ls, t.left), t.n, Build(false, rs, t.right));
      Assemble(node, left, right, ls, t, rs, k, nodes);
      OrderedIsAscending(now);
      shape := now;
    }

    // ---------- The set of nodes ----------

    /** The part of SPLAY_INSERT that puts elm above the root, which goes to its right. */
    method PutLeftOf(elm: SplayNode)
      requires Valid() && elm !in nodes && shape.Node? && root == shape.n && elm.key < root.key
      requires Below(shape.left, elm.key)
      modifies this, nodes, elm
      ensures Valid() && nodes == old(nodes) + {elm}
    {
      OrderedIsProper(shape);
      elm.left := root.left;
      elm.right := root;
      root.left := null;
      root := elm;
      assert Nodes(Node(Leaf, shape.n, shape.right)) == {shape.n} + Nodes(shape.right);
      shape := Node(shape.left, elm, Node(Leaf, shape.n, shape.right));
      nodes := nodes + {elm};
    }

    /** The part of SPLAY_INSERT that puts elm above the root, which goes to its left. */
    method PutRightOf(elm: SplayNode)
      requires Valid() && elm !in nodes && shape.Node? && root == shape.n && elm.key > root.key
      requires Above(shape.right, elm.key)
      modifies this, nodes, elm
      ensures Valid() && nodes == old(nodes) + {elm}
    {
      OrderedIsProper(shape);
      elm.right := root.right;
      elm.left := root;
      root.right := null;
      root := elm;
      assert Nodes(Node(shape.left, shape.n, Leaf)) == Nodes(shape.left) + {shape.n};
      shape := Node(Node(shape.left, shape.n, Leaf), elm, shape.right);
      nodes := nodes + {elm};
    }

    /** SPLAY_INSERT: adds elm, or gives back the node that has its key. */
    method Insert(elm: SplayNode) returns (r: SplayNode?)
      requires Valid() && elm !in nodes
      modifies this, nodes, elm
      ensures Valid()
      ensures if HasKey(old(nodes), elm.key) then r in nodes && r.key == elm.key && nodes == old(nodes)
                && Walk(shape) == old(Walk(shape))
        else r == null && nodes == old(nodes) + {elm}
    {
      hide Ordered, Below, Above;
      NullIsLeaf(root, shape);
      if root == null {
        elm.left, elm.right := null, null;
        root, shape, nodes := elm, Node(Leaf, elm, Leaf), {elm};
        assert Ordered(shape) by { OneIsOrdered(elm); }
        return null;
      }
      SplayTo(elm.key);
      KeyAtRoot(shape, elm.key);
      if elm.key < root.key {
        PutLeftOf(elm);
      } else if elm.key > root.key {
        PutRightOf(elm);
      } else {
        return root;
      }
      r := null;
    }

    /**
     * The part of SPLAY_REMOVE that takes the root away; all nodes to its left come before the key k, and all to
     * its right behind it.
     */
    method RemoveRoot(k: int)
      requires Valid() && shape.Node? && root == shape.n && root.key == k
      modifies this, nodes
      ensures Valid() && nodes == old(nodes) - {old(root)}
    {
      ghost var l, x, right := shape.left, shape.n, shape.right;
      OrderedIsProper(shape);
      NullIsLeaf(root.left, l);
      nodes := nodes - {x};
      if root.left == null {
        root := root.right;
        shape := right;
        assert nodes == Nodes(shape);
      } else {
        var tmp := root.right;
        root := root.left;
        JoinRight(tmp, k, l, right);
      }
    }

    /** The part of SPLAY_REMOVE that joins the left subtree, now at the root, and the right one. */
    method JoinRight(tmp: SplayNode?, k: int, ghost l: Shape, ghost right: Shape)
      requires root != null && Tree(root, l) && Tree(tmp, right) && Ordered(l) && Ordered(right) && Below(l, k)
      requires Above(right, k)
      requires nodes == Nodes(l) + Nodes(right)
      modifies this, nodes
      ensures Valid() && nodes == old(nodes)
    {
      hide Ordered;
      ghost var all, rest := nodes, nodes - Nodes(l);
      assert rest == Nodes(right);
      shape, nodes := l, nodes - rest;
      SplayTo(k);
      assert Tree(tmp, right);
      assert nodes == Nodes(l) by { SameNodes(shape, l); }
      LastHasNoRight(shape, k);
      OrderedIsProper(shape);
      assert shape.n in Nodes(l);
      root.right := tmp;
      JoinOrdered(shape, right, k);
      shape, nodes := Node(shape.left, shape.n, right), all;
    }

    /** SPLAY_REMOVE: removes the node with the key of elm; elm itself is given back if there was one. */
    method Remove(elm: SplayNode) returns (r: SplayNode?)
      requires Valid()
      modifies this, nodes
      ensures Valid()
      ensures if HasKey(old(nodes), elm.key)
              then r == elm && exists x <- old(nodes) :: x.key == elm.key && nodes == old(nodes) - {x}
              else r == null && nodes == old(nodes) && Walk(shape) == old(Walk(shape))
    {
      hide Ordered, Below, Above;
      NullIsLeaf(root, shape);
      if root == null {
        return null;
      }
      SplayTo(elm.key);
      KeyAtRoot(shape, elm.key);
      if elm.key != root.key {
        return null;
      }
      RemoveRoot(elm.key);
      r := elm;
    }

    /** SPLAY_FIND */
    method Find(elm: SplayNode) returns (r: SplayNode?)
      requires Valid()
      modifies this, nodes
      ensures Valid() && nodes == old(nodes) && Walk(shape) == old(Walk(shape))
      ensures if HasKey(nodes, elm.key) then r in nodes && r.key == elm.key else r == null
    {
      if root == null {
        NullIsLeaf(root, shape);
        return null;
      }
      SplayTo(elm.key);
      KeyAtRoot(shape, elm.key);
      r := if elm.key == root.key then root else null;
    }

    lemma SplitStart(header: SplayNode, t: Shape, k: int, all: set<SplayNode>)
      requires Tree(root, t) && t.Node? && Ordered(t) && all == Nodes(t) && header !in all
      ensures Split(header, [], t, [], k, all)
    {
      assert SpineNodes([]) == {};
    }

    /** At the end of the loop the nodes before k are on the left, and those behind k on the right. */
    lemma SplitEnds(header: SplayNode, ls: seq<Rib>, t: Shape, rs: seq<Rib>, k: int, all: set<SplayNode>)
      requires Split(header, ls, t, rs, k, all)
      requires t.n.key == k || (k < t.n.key && t.left == Leaf) || (t.n.key < k && t.right == Leaf)
      ensures Below(Build(true, ls, t.left), k) && Above(Build(false, rs, t.right), k)
      ensures Nodes(Node(Build(true, ls, t.left), t.n, Build(false, rs, t.right))) == all
    {
      BuildNodes(true, ls, t.left);
      BuildNodes(false, rs, t.right);
    }
  }

  ghost predicate HasKey(nodes: set<SplayNode>, k: int)
  {
    exists x <- nodes :: x.key == k
  }

  /** In a tree split at k the key k is at the root or nowhere. */
  lemma KeyAtRoot(s: Shape, k: int)
    requires s.Node? && Below(s.left, k) && Above(s.right, k)
    ensures HasKey(Nodes(s), k) <==> s.n.key == k
  {
    assert s.n in Nodes(s);
  }

  lemma LastHasNoRight(s: Shape, k: int)
    requires s.Node? && Below(s, k) && Above(s.right, k)
    ensures s.right == Leaf
  {
    RightChildIsNode(s);
  }

  lemma RightChildIsNode(s: Shape)
    requires s.Node?
    ensures s.right.Node? ==> s.right.n in Nodes(s.right) && s.right.n in Nodes(s)
  {
  }

  lemma SameNodes(s: Shape, t: Shape)
    requires Walk(s) == Walk(t)
    ensures Nodes(s) == Nodes(t)
  {
    WalkHasNodes(s);
    WalkHasNodes(t);
  }

  lemma OneIsOrdered(n: SplayNode)
    ensures Ordered(Node(Leaf, n, Leaf))
  {
  }

  lemma JoinOrdered(s: Shape, right: Shape, k: int)
    requires s.Node? && Ordered(s) && Ordered(right) && Below(s, k) && Above(right, k) && s.right == Leaf
    ensures Ordered(Node(s.left, s.n, right)) && Nodes(Node(s.left, s.n, right)) == Nodes(s) + Nodes(right)
    ensures Nodes(s) !! Nodes(right)
  {
    assert s.n in Nodes(s);
  }

  lemma NullIsLeaf(p: SplayNode?, s: Shape)
    requires Tree(p, s)
    ensures p == null <==> s == Leaf
    ensures p != null ==> p == s.n
  {
  }

  lemma EndIn(header: SplayNode, sp: seq<Rib>)
    requires Apart(header, sp)
    ensures header !in SpineNodes(sp) && (End(header, sp) == header || End(header, sp) in SpineNodes(sp))
  {
  }

  lemma BelowNodes(s: Shape, k: int)
    requires Below(s, k)
    ensures forall x <- Nodes(s) :: x.key < k
  {
  }

  lemma AboveNodes(s: Shape, k: int)
    requires Above(s, k)
    ensures forall x <- Nodes(s) :: k < x.key
  {
  }

  lemma ApartLast(header: SplayNode, sp: seq<Rib>, t: Shape)
    requires Apart(header, sp) && t.Node? && Ordered(t) && header !in Nodes(t) && SpineNodes(sp) !! Nodes(t)
    ensures Apart(header, sp + [Rib(t.n, t.left)]) && Apart(header, sp + [Rib(t.n, t.right)])
    ensures Proper(t)
  {
    OrderedIsProper(t);
    SpineNodesLast(sp, Rib(t.n, t.left));
    SpineNodesLast(sp, Rib(t.n, t.right));
    forall i | 0 <= i < |sp|
      ensures sp[i].n in SpineNodes(sp) && Nodes(sp[i].sub) <= SpineNodes(sp)
    {
    }
  }
}
