/** What the red-black invariant means: the in-order walk, its completeness, search, successors and height. */
module RbOrder {
  import opened Prelude
  import opened RbGraph

  /** Decreases along every child pointer of a valid tree. */
  ghost function Level(g: Graph, n: Entry?): nat
  {
    if n in g.rec then 1 + 2 * g.rec[n].bh + (if g.rec[n].red then 0 else 1) else 0
  }

  lemma ChildBelow(g: Graph, n: Entry)
    requires Valid(g) && n in g.rec
    ensures LinkOk(g, n)
    ensures var r := g.rec[n];
      Level(g, r.left) < Level(g, n) && Level(g, r.right) < Level(g, n) &&
      (r.left != null ==> r.left in g.rec && LinkOk(g, r.left))
          && (r.right != null ==> r.right in g.rec && LinkOk(g, r.right))
  {
    var r := g.rec[n];
    assert LinkOk(g, n) && Good(g, n);
    assert r.left != null ==> LinkOk(g, r.left);
    assert r.right != null ==> LinkOk(g, r.right);
  }

  ghost predicate In(g: Graph, n: Entry?)
  {
    Valid(g) && (n != null ==> n in g.rec)
  }

  /** The nodes from n down, in search order. */
  ghost function InOrder(g: Graph, n: Entry?): (s: seq<Entry>)
    requires In(g, n)
    ensures forall i | 0 <= i < |s| :: s[i] in g.rec
    decreases Level(g, n)
  {
    if n == null then []
    else
      ChildBelow(g, n);
      InOrder(g, g.rec[n].left) + [n] + InOrder(g, g.rec[n].right)
  }

  ghost predicate Ascending(s: seq<Entry>)
  {
    forall i, j | 0 <= i < j < |s| :: s[i].at < s[j].at
  }

  lemma AscendingConcat(a: seq<Entry>, n: Entry, b: seq<Entry>)
    requires Ascending(a) && Ascending(b)
    requires (forall m <- a :: m.at < n.at) && (forall m <- b :: n.at < m.at)
    ensures Ascending(a + [n] + b)
  {
    assert forall i | 0 <= i < |a| :: a[i].at < n.at;
    assert forall i | 0 <= i < |b| :: n.at < b[i].at;
  }

  /** The walk visits keys in strictly ascending order, all within the node's bounds. */
  lemma {:induction false} InOrderAscends(g: Graph, n: Entry)
    requires Valid(g) && n in g.rec
    ensures Ascending(InOrder(g, n))
    ensures forall m <- InOrder(g, n) :: g.rec[n].lo < m.at < g.rec[n].hi
    decreases Level(g, n)
  {
    ChildBelow(g, n);
    var r := g.rec[n];
    if r.left != null {
      InOrderAscends(g, r.left);
    }
    if r.right != null {
      InOrderAscends(g, r.right);
    }
    AscendingConcat(InOrder(g, r.left), n, InOrder(g, r.right));
  }

  lemma {:induction false} BoundExists(g: Graph, s: set<Entry>) returns (m: nat)
    requires s <= g.rec.Keys
    ensures forall n <- s :: g.rec[n].bh <= m
  {
    if s == {} {
      m := 0;
    } else {
      var n :| n in s;
      m := BoundExists(g, s - {n});
      if m < g.rec[n].bh {
        m := g.rec[n].bh;
      }
    }
  }

  /** Below n, the walk of every descendant is part of the walk of n. */
  lemma InOrderChild(g: Graph, p: Entry, n: Entry, m: Entry)
    requires Valid(g) && p in g.rec && n in g.rec && (n == g.rec[p].left || n == g.rec[p].right) && m in InOrder(g, n)
    ensures m in InOrder(g, p)
  {
    ChildBelow(g, p);
  }

  /** Every node of the tree is met on the walk from the root. */
  lemma {:induction false} InOrderComplete(g: Graph, n: Entry)
    requires Valid(g) && n in g.rec
    ensures g.root != null && n in InOrder(g, g.root)
  {
    var bound := BoundExists(g, g.rec.Keys);
    Reach(g, n, n, bound);
  }

  lemma {:induction false} Reach(g: Graph, n: Entry, m: Entry, bound: nat)
    requires Valid(g) && n in g.rec && m in InOrder(g, n)
    requires forall k <- g.rec.Keys :: g.rec[k].bh <= bound
    ensures g.root != null && m in InOrder(g, g.root)
    decreases 2 * bound + 2 - Level(g, n)
  {
    assert LinkOk(g, n);
    var p := g.rec[n].parent;
    if p != null {
      ChildBelow(g, p);
      InOrderChild(g, p, n, m);
      Reach(g, p, m, bound);
    }
  }

  /** Any other node of the tree is met below n, or its key lies outside n's bounds. */
  lemma {:induction false} Locate(g: Graph, n: Entry, m: Entry, bound: nat)
    requires Valid(g) && n in g.rec && m in g.rec
    requires forall k <- g.rec.Keys :: g.rec[k].bh <= bound
    ensures m in InOrder(g, n) || m.at <= g.rec[n].lo || m.at >= g.rec[n].hi
    decreases 2 * bound + 2 - Level(g, n)
  {
    assert LinkOk(g, n);
    var p := g.rec[n].parent;
    if p == null {
      InOrderComplete(g, m);
    } else {
      ChildBelow(g, p);
      Locate(g, p, m, bound);
      if m in InOrder(g, p) && m !in InOrder(g, n) {
        InOrderAscends(g, p);
        if g.rec[p].left == n && g.rec[p].right != null {
          InOrderAscends(g, g.rec[p].right);
        }
        if g.rec[p].right == n && g.rec[p].left != null {
          InOrderAscends(g, g.rec[p].left);
        }
      }
    }
  }

  lemma EmptyTree(g: Graph)
    requires Valid(g) && g.root == null
    ensures g.rec == map[]
  {
    if n :| n in g.rec {
      InOrderComplete(g, n);
    }
  }

  /** No two nodes have the same key. */
  lemma KeysDistinct(g: Graph)
    requires Valid(g)
    ensures forall n <- g.rec.Keys, m <- g.rec.Keys :: n != m ==> n.at != m.at
  {
    if g.root == null {
      EmptyTree(g);
    } else {
      InOrderAscends(g, g.root);
      var s := InOrder(g, g.root);
      forall n, m | n in g.rec && m in g.rec && n != m
        ensures n.at != m.at
      {
        InOrderComplete(g, n);
        InOrderComplete(g, m);
        var i :| 0 <= i < |s| && s[i] == n;
        var j :| 0 <= j < |s| && s[j] == m;
      }
    }
  }

  // ---------- Search ----------

  /** A node with key position `at`, if the tree has one, is met below n. */
  ghost predicate SearchBelow(g: Graph, at: real, n: Entry?)
  {
    In(g, n) && forall m <- g.rec.Keys :: m.at == at ==> m in InOrder(g, n)
  }

  lemma SearchStart(g: Graph, at: real)
    requires Valid(g)
    ensures SearchBelow(g, at, g.root)
  {
    forall m | m in g.rec
      ensures m in InOrder(g, g.root)
    {
      InOrderComplete(g, m);
    }
  }

  lemma SearchStep(g: Graph, at: real, n: Entry)
    requires SearchBelow(g, at, n) && n in g.rec
    ensures at < n.at ==> SearchBelow(g, at, g.rec[n].left)
    ensures at > n.at ==> SearchBelow(g, at, g.rec[n].right)
  {
    ChildBelow(g, n);
    var l, r := g.rec[n].left, g.rec[n].right;
    if l != null {
      InOrderAscends(g, l);
    }
    if r != null {
      InOrderAscends(g, r);
    }
    forall m | m in g.rec && m.at == at
      ensures at < n.at ==> m in InOrder(g, l)
      ensures at > n.at ==> m in InOrder(g, r)
    {
      assert m in InOrder(g, n);
    }
  }

  /** Nodes, pointers and colours, without the bounds kept for the proof. */
  ghost function Shape(g: Graph): Graph
  {
    Graph(g.root, map n | n in g.rec :: g.rec[n].(lo := 0.0, hi := 0.0))
  }

  /** Widening the bounds kept at c, within what its parent allows, keeps the tree valid. */
  lemma Widen(g: Graph, c: Entry, lo: real, hi: real)
    requires Valid(g) && c in g.rec && lo <= g.rec[c].lo && g.rec[c].hi <= hi
    requires var p := g.rec[c].parent; p in g.rec ==>
      (g.rec[p].left == c ==> g.rec[p].lo <= lo && hi <= p.at)
          && (g.rec[p].right == c ==> p.at <= lo && hi <= g.rec[p].hi)
    ensures var h := g.(rec := g.rec[c := g.rec[c].(lo := lo, hi := hi)]); Valid(h) && Shape(h) == Shape(g)
  {
    var h := g.(rec := g.rec[c := g.rec[c].(lo := lo, hi := hi)]);
    assert Shape(h).rec == Shape(g).rec;
    forall n | n in h.rec
      ensures LinkOk(h, n) && Good(h, n)
    {
      assert LinkOk(g, n) && Good(g, n);
    }
  }

  // ---------- Successors ----------

  /** r is the node after elm in key order; null if elm is the last. */
  ghost predicate IsNext(g: Graph, elm: Entry, r: Entry?)
  {
    && (r != null ==> r in g.rec && elm.at < r.at)
    && (forall k <- g.rec.Keys :: elm.at < k.at ==> r != null && r.at <= k.at)
  }

  /** Every key between elm and m hangs below m. */
  ghost predicate NextIsBelow(g: Graph, elm: Entry, m: Entry)
  {
    && Valid(g) && m in g.rec && elm.at <= g.rec[m].lo && elm.at < m.at
    && (forall k <- g.rec.Keys :: elm.at < k.at < m.at ==> k in InOrder(g, m))
  }

  /** Every key met below n is at most elm, and elm is met there. */
  ghost predicate NextIsAbove(g: Graph, elm: Entry, n: Entry)
  {
    && Valid(g) && n in g.rec && elm in InOrder(g, n)
    && (forall k <- InOrder(g, n) :: k.at <= elm.at)
  }

  lemma StartDown(g: Graph, elm: Entry)
    requires Valid(g) && elm in g.rec && g.rec[elm].right != null
    ensures NextIsBelow(g, elm, g.rec[elm].right)
  {
    ChildBelow(g, elm);
    InOrderAscends(g, elm);
    var m: Entry := g.rec[elm].right;
    var bound := BoundExists(g, g.rec.Keys);
    forall k | k in g.rec && elm.at < k.at < m.at
      ensures k in InOrder(g, m)
    {
      Locate(g, elm, k, bound);
      if g.rec[elm].left != null {
        InOrderAscends(g, g.rec[elm].left);
      }
    }
  }

  lemma StepDown(g: Graph, elm: Entry, m: Entry)
    requires NextIsBelow(g, elm, m)
    ensures if g.rec[m].left == null then IsNext(g, elm, m) else NextIsBelow(g, elm, g.rec[m].left)
  {
    ChildBelow(g, m);
    var l, r := g.rec[m].left, g.rec[m].right;
    if r != null {
      InOrderAscends(g, r);
    }
    forall k | k in g.rec && elm.at < k.at < m.at
      ensures k in InOrder(g, l)
    {
      assert k in InOrder(g, m);
    }
  }

  lemma StepUp(g: Graph, elm: Entry, n: Entry)
    requires NextIsAbove(g, elm, n)
    ensures var p := g.rec[n].parent;
      if p == null then IsNext(g, elm, null)
      else p in g.rec && if g.rec[p].right == n then NextIsAbove(g, elm, p) else g.rec[p].left == n && IsNext(g, elm, p)
  {
    assert LinkOk(g, n);
    InOrderAscends(g, n);
    var p := g.rec[n].parent;
    var bound := BoundExists(g, g.rec.Keys);
    if p == null {
      forall k | k in g.rec
        ensures k.at <= elm.at
      {
        InOrderComplete(g, k);
      }
    } else {
      ChildBelow(g, p);
      InOrderAscends(g, p);
      if g.rec[p].right == n {
        StepUpRight(g, elm, n, p);
      } else {
        forall k | k in g.rec && elm.at < k.at
          ensures p.at <= k.at
        {
          Locate(g, p, k, bound);
          if g.rec[p].right != null {
            InOrderAscends(g, g.rec[p].right);
          }
        }
      }
    }
  }

  lemma StepUpRight(g: Graph, elm: Entry, n: Entry, p: Entry)
    requires NextIsAbove(g, elm, n) && p in g.rec && g.rec[p].right == n
    ensures NextIsAbove(g, elm, p)
  {
    ChildBelow(g, p);
    InOrderAscends(g, n);
    if g.rec[p].left != null {
      InOrderAscends(g, g.rec[p].left);
    }
    InOrderChild(g, p, n, elm);
  }

  lemma StartUp(g: Graph, elm: Entry)
    requires Valid(g) && elm in g.rec && g.rec[elm].right == null
    ensures NextIsAbove(g, elm, elm)
  {
    ChildBelow(g, elm);
    if g.rec[elm].left != null {
      InOrderAscends(g, g.rec[elm].left);
    }
  }

  // ---------- The least key ----------

  /** Every node with a key below n's hangs below n. */
  ghost predicate MinIsBelow(g: Graph, n: Entry)
  {
    Valid(g) && n in g.rec && forall k <- g.rec.Keys :: k.at < n.at ==> k in InOrder(g, n)
  }

  lemma MinStart(g: Graph)
    requires Valid(g) && g.root != null
    ensures MinIsBelow(g, g.root)
  {
    forall k | k in g.rec
      ensures k in InOrder(g, g.root)
    {
      InOrderComplete(g, k);
    }
  }

  lemma MinStep(g: Graph, n: Entry)
    requires MinIsBelow(g, n)
    ensures if g.rec[n].left == null then forall k <- g.rec.Keys :: n.at <= k.at else MinIsBelow(g, g.rec[n].left)
  {
    ChildBelow(g, n);
    var l, r := g.rec[n].left, g.rec[n].right;
    if l != null {
      InOrderAscends(g, l);
    }
    if r != null {
      InOrderAscends(g, r);
    }
    forall k | k in g.rec && k.at < n.at
      ensures k in InOrder(g, l)
    {
      assert k in InOrder(g, n);
    }
  }

  // ---------- Height ----------

  lemma {:induction false} Pow2Mono(a: nat, b: nat)
    requires a <= b
    ensures Pow2(a) <= Pow2(b)
    decreases b
  {
    if a < b {
      Pow2Mono(a, b - 1);
    }
  }

  lemma {:induction false} Pow2Double(k: nat)
    ensures Pow2(2 * k) == Pow2(k) * Pow2(k)
  {
    if k > 0 {
      Pow2Double(k - 1);
      assert Pow2(2 * k) == 4 * Pow2(2 * k - 2);
      assert Pow2(k) * Pow2(k) == (2 * Pow2(k - 1)) * (2 * Pow2(k - 1));
    }
  }

  /** Number of nodes on the longest path from n down. */
  ghost function Height(g: Graph, n: Entry?): nat
    requires In(g, n)
    decreases Level(g, n)
  {
    if n == null then 0
    else
      ChildBelow(g, n);
      var a, b := Height(g, g.rec[n].left), Height(g, g.rec[n].right);
      1 + if a < b then b else a
  }

  lemma {:induction false} HeightAndSize(g: Graph, n: Entry?)
    requires In(g, n)
    ensures Height(g, n) <= 2 * BH(g, n) + if Red(g, n) then 1 else 0
    ensures Pow2(BH(g, n)) <= |InOrder(g, n)| + 1
    decreases Level(g, n)
  {
    if n != null {
      ChildBelow(g, n);
      assert Good(g, n);
      HeightAndSize(g, g.rec[n].left);
      HeightAndSize(g, g.rec[n].right);
    }
  }

  lemma {:induction false} DistinctCount(s: seq<Entry>, keys: set<Entry>)
    requires Ascending(s) && forall e <- s :: e in keys
    ensures |s| <= |keys|
  {
    if s != [] {
      assert forall i | 0 <= i < |s[1..]| :: s[1..][i] == s[i + 1];
      forall e | e in s[1..]
        ensures e in keys - {s[0]}
      {
        var i :| 0 <= i < |s[1..]| && s[1..][i] == e;
        assert s[0].at < s[i + 1].at;
      }
      DistinctCount(s[1..], keys - {s[0]});
    }
  }

  /** The height h of a tree of n nodes is at most 2 lg (n+1). */
  lemma HeightBound(g: Graph)
    requires Valid(g)
    ensures In(g, g.root)
    ensures Pow2(Height(g, g.root)) <= (|g.rec| + 1) * (|g.rec| + 1)
  {
    var b := BH(g, g.root);
    var size := |InOrder(g, g.root)|;
    HeightAndSize(g, g.root);
    Pow2Mono(Height(g, g.root), 2 * b);
    Pow2Double(b);
    if g.root != null {
      InOrderAscends(g, g.root);
      DistinctCount(InOrder(g, g.root), g.rec.Keys);
    }
    assert size <= |g.rec.Keys|;
    MulMono(Pow2(b), |g.rec| + 1);
  }

  lemma MulMono(a: nat, b: nat)
    requires a <= b
    ensures a * a <= b * b
  {
    assert b * b - a * a == (b - a) * (b + a);
  }
}
