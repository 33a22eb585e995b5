/** The refresh of xh_core.c: rebuilding the map-entry tree from the lines of the process map, and releasing it. */
module XhCore {
  import opened CString
  import opened Prelude
  import opened RbGraph
  import opened RbOrder
  import opened RbTree
  import opened RefreshSpec

  class Core {
    var hookInfo: seq<HookInfo>
    var ignoreInfo: seq<IgnoreInfo>
    const regexec: (nat, CStr) -> bool
    const initOk: (int, CStr) -> bool
    var mapInfo: Tree
    var hooked: seq<HookRun>   // the calls of xh_core_hook, in order
    var freed: seq<Entry>      // the entries released, in order
    var created: seq<Entry>    // the entries created, in order

    constructor (regexec: (nat, CStr) -> bool, initOk: (int, CStr) -> bool)
      ensures fresh(mapInfo) && mapInfo.nodes == {} && Valid(mapInfo.View())
      ensures this.regexec == regexec && this.initOk == initOk && hookInfo == [] && ignoreInfo == []
      ensures Logged() == Log([], [], [])
    {
      this.regexec, this.initOk := regexec, initOk;
      hookInfo, ignoreInfo, hooked, freed, created := [], [], [], [], [];
      mapInfo := new Tree();
    }

    ghost function Logged(): Log
      reads this`hooked, this`freed, this`created
    {
      Log(hooked, freed, created)
    }

    function Cfg(): Config
      reads this`hookInfo, this`ignoreInfo
    {
      Config(hookInfo, ignoreInfo, regexec, initOk)
    }

    /** The search for an ignore entry, as both loops over the ignore list perform it. */
    method FindIgnore(path: CStr, symbol: CStr) returns (v: Option<Symbol>)
      ensures v == Verdict(Cfg(), ignoreInfo, path, symbol)
    {
      var i := 0;
      while i < |ignoreInfo|
        invariant 0 <= i <= |ignoreInfo|
        invariant Verdict(Cfg(), ignoreInfo[i..], path, symbol) == Verdict(Cfg(), ignoreInfo, path, symbol)
      {
        var ii := ignoreInfo[i];
        if regexec(ii.regex, path) {
          if ii.symbol == All {
            return Some(All);
          }
          if ii.symbol.name == symbol {
            return Some(ii.symbol);
          }
        }
        i := i + 1;
      }
      v := None;
    }

    /** The pathname check of the refresh. */
    method Match(path: CStr) returns (match_: bool)
      ensures match_ == Matches(Cfg(), hookInfo, path)
    {
      var i := 0;
      while i < |hookInfo|
        invariant 0 <= i <= |hookInfo| && Matches(Cfg(), hookInfo[i..], path) == Matches(Cfg(), hookInfo, path)
      {
        var hi := hookInfo[i];
        if regexec(hi.regex, path) {
          var v := FindIgnore(path, hi.symbol);
          return v == None;
        }
        i := i + 1;
      }
      match_ := false;
    }

    /** xh_core_hook, with its implementation inlined. */
    method Hook(mi: Entry)
      modifies this`hooked
      ensures hooked == old(hooked) + [HookRun(mi, mi.baseAddr, CallsFor(Cfg(), mi.baseAddr, mi.pathname))]
    {
      var calls: seq<HookInfo> := [];
      if initOk(mi.baseAddr, mi.pathname) {
        calls := HookImpl(mi);
      }
      hooked := hooked + [HookRun(mi, mi.baseAddr, calls)];
    }

    /** The hooks xh_core_hook_impl passes to xh_elf_hook. */
    method HookImpl(mi: Entry) returns (calls: seq<HookInfo>)
      ensures calls == Calls(Cfg(), hookInfo, mi.pathname)
    {
      calls := [];
      var i := 0;
      while i < |hookInfo|
        invariant 0 <= i <= |hookInfo|
        invariant calls + Calls(Cfg(), hookInfo[i..], mi.pathname) == Calls(Cfg(), hookInfo, mi.pathname)
      {
        var hi := hookInfo[i];
        if regexec(hi.regex, mi.pathname) {
          var v := FindIgnore(mi.pathname, hi.symbol);
          if v == Some(All) {
            return;
          }
          if v == None {
            calls := calls + [hi];
          }
        }
        i := i + 1;
      }
    }

    ghost function Bases(nodes: set<Entry>): map<Entry, int>
      reads nodes`baseAddr
    {
      map n | n in nodes :: n.baseAddr
    }

    /** base lists the base addresses of the nodes. */
    ghost predicate Holds(nodes: set<Entry>, base: map<Entry, int>)
      reads nodes`baseAddr
    {
      base.Keys == nodes && forall n <- nodes :: n.baseAddr == base[n]
    }

    lemma HoldsBases(nodes: set<Entry>, base: map<Entry, int>)
      requires Holds(nodes, base)
      ensures Bases(nodes) == base
    {
    }

    /** Moves an entry from the old tree to the new one. */
    method MoveEntry(mi: Entry, tree: Tree, refreshed: Tree)
      requires Valid(tree.View()) && Valid(refreshed.View()) && tree != refreshed
      requires tree.nodes !! refreshed.nodes && mi in tree.nodes
      requires forall n <- refreshed.nodes :: n.pathname != mi.pathname
      modifies tree, tree.nodes`left, tree.nodes`right, tree.nodes`parent, tree.nodes`red
      modifies tree.nodes`lo, tree.nodes`hi, tree.nodes`bh
      modifies refreshed, refreshed.nodes`left, refreshed.nodes`right, refreshed.nodes`parent, refreshed.nodes`red
      modifies refreshed.nodes`lo, refreshed.nodes`hi, refreshed.nodes`bh
      ensures Valid(tree.View()) && Valid(refreshed.View())
      ensures tree.nodes == old(tree.nodes) - {mi} && refreshed.nodes == old(refreshed.nodes) + {mi}
    {
      ghost var g := refreshed.View();
      var removed := tree.Remove(mi);
      assert refreshed.View() == g;
      ghost var h := tree.View();
      var repeated := refreshed.Insert(mi);
      if repeated != null {
        assert false;  // "repeated map info when update" cannot happen
      }
      assert tree.View() == h;
    }

    /** Re-hook if the base address changed. */
    method Rebase(mi: Entry, baseAddr: int)
      modifies this`hooked, mi`baseAddr
      ensures mi.baseAddr == baseAddr
      ensures hooked == old(hooked)
                        + if old(mi.baseAddr) == baseAddr then []
                          else [HookRun(mi, baseAddr, CallsFor(Cfg(), baseAddr, mi.pathname))]
    {
      if mi.baseAddr != baseAddr {
        mi.baseAddr := baseAddr;
        Hook(mi);
      }
    }

    /** An accepted line whose path is still in the old tree: its entry moves over, and is hooked again if it moved. */
    method UpdateEntry(mi: Entry, refreshed: Tree, baseAddr: int)
      requires Valid(mapInfo.View()) && Valid(refreshed.View()) && mapInfo != refreshed
      requires mapInfo.nodes !! refreshed.nodes && mi in mapInfo.nodes
      requires forall n <- refreshed.nodes :: n.pathname != mi.pathname
      modifies this`hooked, mapInfo, refreshed, mi`baseAddr
      modifies mapInfo.nodes`left, mapInfo.nodes`right, mapInfo.nodes`parent, mapInfo.nodes`red
      modifies mapInfo.nodes`lo, mapInfo.nodes`hi, mapInfo.nodes`bh
      modifies refreshed.nodes`left, refreshed.nodes`right, refreshed.nodes`parent, refreshed.nodes`red
      modifies refreshed.nodes`lo, refreshed.nodes`hi, refreshed.nodes`bh
      ensures Valid(mapInfo.View()) && Valid(refreshed.View())
      ensures mapInfo.nodes == old(mapInfo.nodes) - {mi} && refreshed.nodes == old(refreshed.nodes) + {mi}
      ensures mi.baseAddr == baseAddr
      ensures hooked == old(hooked)
                        + if old(mi.baseAddr) == baseAddr then []
                          else [HookRun(mi, baseAddr, CallsFor(Cfg(), baseAddr, mi.pathname))]
    {
      MoveEntry(mi, mapInfo, refreshed);
      ghost var g, k := mapInfo.View(), refreshed.View();
      Rebase(mi, baseAddr);
      assert mapInfo.View() == g && refreshed.View() == k;
    }

    /** An accepted line whose path is not in the old tree: a new entry, kept only if the path is new. */
    method CreateEntry(path: CStr, refreshed: Tree, baseAddr: int) returns (mi: Entry, repeated: Entry?)
      requires Valid(refreshed.View()) && mapInfo != refreshed
      modifies this`hooked, this`freed, this`created, refreshed
      modifies refreshed.nodes`left, refreshed.nodes`right, refreshed.nodes`parent, refreshed.nodes`red
      modifies refreshed.nodes`lo, refreshed.nodes`hi, refreshed.nodes`bh
      ensures Valid(refreshed.View()) && fresh(mi) && mi.pathname == path && mi.baseAddr == baseAddr
      ensures created == old(created) + [mi]
      ensures if repeated != null
              then repeated in refreshed.nodes && repeated.pathname == path
                   && refreshed.nodes == old(refreshed.nodes) && freed == old(freed) + [mi] && hooked == old(hooked)
              else (forall n <- old(refreshed.nodes) :: n.pathname != path)
                   && refreshed.nodes == old(refreshed.nodes) + {mi}
                   && freed == old(freed)
                   && hooked == old(hooked) + [HookRun(mi, baseAddr, CallsFor(Cfg(), baseAddr, path))]
    {
      mi := new Entry(path, baseAddr);
      created := created + [mi];
      repeated := refreshed.Insert(mi);
      ghost var g := refreshed.View();
      if repeated != null {
        freed := freed + [mi];
      } else {
        Hook(mi);
      }
      assert refreshed.View() == g;
    }

    /** Half-way through a refresh: what has been done for the lines seen. The logs count from `start` on. */
    ghost predicate Halfway(refreshed: Tree, base: map<Entry, int>, seen: seq<MapLine>, before: map<Entry, int>,
                            start: Log)
      reads this, mapInfo, mapInfo.nodes, refreshed, refreshed.nodes
    {
      && Valid(mapInfo.View()) && Valid(refreshed.View()) && mapInfo != refreshed && Grown(start, Logged())
      && RefreshInv(Cfg(), seen, before, mapInfo.nodes, base, Since(start, Logged()))
      && Holds(refreshed.nodes, base) && (forall n <- mapInfo.nodes :: n.baseAddr == before[n])
    }

    /** An accepted line of a path whose old entry is still to be met. */
    method RefreshKnown(x: MapLine, mi: Entry, refreshed: Tree, ghost base: map<Entry, int>, ghost seen: seq<MapLine>,
                        ghost before: map<Entry, int>, ghost start: Log)
      requires Halfway(refreshed, base, seen, before, start) && Accepted(Cfg(), x)
      requires mi in mapInfo.nodes && mi.pathname == x.pathname
      modifies this`hooked, mapInfo, mapInfo.nodes, refreshed, refreshed.nodes
      ensures Halfway(refreshed, base[mi := x.baseAddr], seen + [x], before, start)
      ensures Grown(old(Logged()), Logged())
      ensures refreshed.nodes == old(refreshed.nodes) + {mi} && mapInfo.nodes == old(mapInfo.nodes) - {mi}
    {
      hide RefreshInv, Valid, Tree.View, CallsFor;
      AddKnown(Cfg(), seen, x, before, mapInfo.nodes, base, Since(start, Logged()), mi);
      assert mapInfo.nodes !! refreshed.nodes;
      UpdateEntry(mi, refreshed, x.baseAddr);
      SliceAppend(old(hooked), RunFor(Cfg(), before, mi, x.baseAddr), |start.hooked|);
    }

    /** An accepted line of a path without an old entry to meet. */
    method RefreshUnknown(x: MapLine, refreshed: Tree, ghost base: map<Entry, int>, ghost seen: seq<MapLine>,
                          ghost before: map<Entry, int>, ghost start: Log) returns (ghost base': map<Entry, int>)
      requires Halfway(refreshed, base, seen, before, start) && Accepted(Cfg(), x)
      requires forall n <- mapInfo.nodes :: n.pathname != x.pathname
      modifies this`hooked, this`freed, this`created, refreshed, refreshed.nodes
      ensures Halfway(refreshed, base', seen + [x], before, start)
      ensures Grown(old(Logged()), Logged())
      ensures fresh(refreshed.nodes - old(refreshed.nodes))
    {
      hide RefreshInv, Valid, Tree.View, CallsFor, Accepted;
      ghost var was, g := Logged(), mapInfo.View();
      InvNodes(Cfg(), seen, before, mapInfo.nodes, base, Since(start, was));
      var mi, repeated := CreateEntry(x.pathname, refreshed, x.baseAddr);
      assert mapInfo.View() == g;
      base' := if repeated == null then base[mi := x.baseAddr] else base;
      StepUnknown(Cfg(), seen, x, before, mapInfo.nodes, base, start, was, Logged(), mi, repeated);
    }

    /** The loop body of the refresh: one line of the process map. */
    method RefreshLine(x: MapLine, refreshed: Tree, ghost base: map<Entry, int>, ghost seen: seq<MapLine>,
                       ghost before: map<Entry, int>, ghost start: Log) returns (ghost base': map<Entry, int>)
      requires Halfway(refreshed, base, seen, before, start)
      modifies this`hooked, this`freed, this`created, mapInfo, mapInfo.nodes, refreshed, refreshed.nodes
      ensures Halfway(refreshed, base', seen + [x], before, start) && mapInfo.nodes <= old(mapInfo.nodes)
      ensures Grown(old(Logged()), Logged())
      ensures fresh(refreshed.nodes - old(refreshed.nodes) - old(mapInfo.nodes))
    {
      hide RefreshInv, Valid, Tree.View, CallsFor;
      base' := base;
      var match_ := false;
      if x.parsed && x.readable && x.private && x.offset == 0 && x.pathname != [] && x.pathname[0] != BRACKET {
        match_ := Match(x.pathname);
      }
      if !match_ || !x.elfOk {
        SkipLine(Cfg(), seen, x, before, mapInfo.nodes, base, Since(start, Logged()));
        return;
      }
      var mi := mapInfo.Find(x.pathname);
      if mi != null {
        RefreshKnown(x, mi, refreshed, base, seen, before, start);
        base' := base[mi := x.baseAddr];
      } else {
        base' := RefreshUnknown(x, refreshed, base, seen, before, start);
      }
    }

    /** xh_core_refresh_impl */
    method Refresh(lines: seq<MapLine>)
      requires Valid(mapInfo.View())
      modifies this`hooked, this`freed, this`created, this`mapInfo, mapInfo, mapInfo.nodes
      ensures Valid(mapInfo.View())
      ensures Grown(old(Logged()), Logged())
      ensures Refreshed(Cfg(), lines, old(Bases(mapInfo.nodes)), Bases(mapInfo.nodes), Since(old(Logged()), Logged()))
    {
      hide RefreshInv, Refreshed, Valid;
      ghost var before, start := Bases(mapInfo.nodes), Logged();
      PathsDistinct(mapInfo.View());
      assert mapInfo.View().rec.Keys == mapInfo.nodes;
      InvStart(Cfg(), before);
      var refreshed := new Tree();
      ghost var base: map<Entry, int> := map[];
      var i := 0;
      assert lines[..0] == [] && Since(start, Logged()) == Log([], [], []);
      while i < |lines|
        invariant 0 <= i <= |lines| && mapInfo == old(mapInfo)
        invariant Halfway(refreshed, base, lines[..i], before, start)
        invariant mapInfo.nodes <= before.Keys && fresh(refreshed) && fresh(refreshed.nodes - before.Keys)
      {
        base := RefreshLine(lines[i], refreshed, base, lines[..i], before, start);
        assert lines[..i] + [lines[i]] == lines[..i + 1];
        i := i + 1;
      }
      assert lines[..i] == lines;
      FinishRefresh(lines, refreshed, base, before, start);
      HoldsBases(mapInfo.nodes, base);
    }

    /** The end of the refresh: release what is left of the old tree and install the new one. */
    method FinishRefresh(lines: seq<MapLine>, refreshed: Tree, ghost base: map<Entry, int>,
                         ghost before: map<Entry, int>, ghost start: Log)
      requires Halfway(refreshed, base, lines, before, start)
      modifies this`freed, this`mapInfo, mapInfo, mapInfo.nodes
      ensures mapInfo == refreshed && Valid(mapInfo.View()) && Grown(start, Logged())
      ensures Holds(mapInfo.nodes, base) && Refreshed(Cfg(), lines, before, base, Since(start, Logged()))
    {
      hide RefreshInv, Refreshed, Valid, Tree.View, Ascending, NoRepeat;
      ghost var log, tree := Since(start, Logged()), mapInfo.nodes;
      ghost var g := refreshed.View();
      InvNodes(Cfg(), lines, before, tree, base, log);
      ReleaseAll(mapInfo);
      assert refreshed.View() == g;
      ghost var left := freed[|old(freed)|..];
      assert freed == old(freed) + left;
      SliceAppend(old(freed), left, |start.freed|);
      AscendingOnce(left);
      Finish(Cfg(), lines, before, tree, base, log, left);
      mapInfo := refreshed;
    }

    /** The body of the clean-up loops, with the step of RB_FOREACH_SAFE taken before the removal. */
    method ReleaseOne(t: Tree, mi: Entry) returns (tmp: Entry?)
      requires Valid(t.View()) && mi in t.nodes && Least(t.nodes, mi)
      modifies this`freed, t, t.nodes`left, t.nodes`right, t.nodes`parent, t.nodes`red
      modifies t.nodes`lo, t.nodes`hi, t.nodes`bh
      ensures Valid(t.View()) && t.nodes == old(t.nodes) - {mi} && Least(t.nodes, tmp)
      ensures freed == old(freed) + [mi]
      ensures forall n <- t.nodes :: mi.at < n.at
    {
      ghost var g := t.View();
      assert g.rec.Keys == t.nodes;
      tmp := t.Next(mi);
      LeastNext(g, mi, tmp);
      KeysDistinct(g);
      var removed := t.Remove(mi);
      freed := freed + [mi];
    }

    /** RB_FOREACH_SAFE with removal and release of each visited node: every node once, in key order. */
    method ReleaseAll(t: Tree)
      requires Valid(t.View())
      modifies this`freed, t, t.nodes`left, t.nodes`right, t.nodes`parent, t.nodes`red
      modifies t.nodes`lo, t.nodes`hi, t.nodes`bh
      ensures Valid(t.View()) && t.nodes == {} && t.root == null
      ensures old(freed) <= freed
      ensures Ascending(freed[|old(freed)|..]) && Elems(freed[|old(freed)|..]) == old(t.nodes)
    {
      var mi := t.Min();
      ghost var s: seq<Entry> := [];
      while mi != null
        invariant Valid(t.View()) && t.nodes <= old(t.nodes) && Least(t.nodes, mi)
        invariant freed == old(freed) + s && Walked(s, old(t.nodes), t.nodes)
        decreases t.nodes
      {
        var node: Entry := mi;
        WalkStep(s, old(t.nodes), t.nodes, node);
        mi := ReleaseOne(t, node);
        s := s + [node];
      }
      assert freed[|old(freed)|..] == s;
      assert t.View().rec.Keys == {};
      EmptyRoot(t.View());
    }

    /** The freeing part of xh_core_clear: every entry released once, and no hook or ignore left. */
    method Clear()
      requires Valid(mapInfo.View())
      modifies this`freed, this`hookInfo, this`ignoreInfo, mapInfo, mapInfo.nodes
      ensures Valid(mapInfo.View()) && mapInfo == old(mapInfo) && mapInfo.nodes == {}
      ensures hookInfo == [] && ignoreInfo == []
      ensures old(freed) <= freed && Ascending(freed[|old(freed)|..])
      ensures Elems(freed[|old(freed)|..]) == old(mapInfo.nodes)
    {
      ReleaseAll(mapInfo);
      hookInfo, ignoreInfo := [], [];
    }
  }

  lemma SliceAppend<T>(a: seq<T>, b: seq<T>, h: nat)
    requires h <= |a|
    ensures (a + b)[h..] == a[h..] + b
  {
  }

  /** AddUnknown on logs that started earlier. */
  lemma StepUnknown(c: Config, seen: seq<MapLine>, x: MapLine, before: map<Entry, int>, tree: set<Entry>,
                    refreshed: map<Entry, int>, start: Log, was: Log, now: Log, mi: Entry, repeated: Entry?)
    requires Grown(start, was) && RefreshInv(c, seen, before, tree, refreshed, Since(start, was))
    requires Accepted(c, x) && mi.pathname == x.pathname
    requires mi !in before && mi !in refreshed && mi !in was.freed && mi !in was.created
    requires forall n <- tree :: n.pathname != x.pathname
    requires if repeated != null then repeated in refreshed && repeated.pathname == x.pathname
             else forall n <- refreshed.Keys :: n.pathname != x.pathname
    requires now == LogUnknown(c, before, was, mi, x.baseAddr, repeated != null)
    ensures Grown(start, now) && Grown(was, now)
    ensures RefreshInv(c, seen + [x], before, tree, if repeated != null then refreshed else refreshed[mi := x.baseAddr],
                       Since(start, now))
  {
    hide RefreshInv, Accepted, CallsFor;
    SliceAppend(was.hooked, RunFor(c, before, mi, x.baseAddr), |start.hooked|);
    SliceAppend(was.freed, [mi], |start.freed|);
    SliceAppend(was.created, [mi], |start.created|);
    AddUnknown(c, seen, x, before, tree, refreshed, Since(start, was), mi, repeated);
  }

  /** mi is the node with the least key; null if there is none. */
  ghost predicate Least(nodes: set<Entry>, mi: Entry?)
  {
    if mi == null then nodes == {} else mi in nodes && forall n <- nodes :: mi.at <= n.at
  }

  /** s lists, in key order, the nodes of all that are gone from rest; what is left comes after them. */
  ghost predicate Walked(s: seq<Entry>, all: set<Entry>, rest: set<Entry>)
  {
    Ascending(s) && Elems(s) == all - rest && forall i, n | 0 <= i < |s| && n in rest :: s[i].at < n.at
  }

  lemma LeastNext(g: Graph, mi: Entry, next: Entry?)
    requires Valid(g) && Least(g.rec.Keys, mi) && IsNext(g, mi, next)
    ensures Least(g.rec.Keys - {mi}, next)
  {
    KeysDistinct(g);
    assert next == null ==> g.rec.Keys - {mi} == {};
  }

  lemma WalkStep(s: seq<Entry>, all: set<Entry>, rest: set<Entry>, mi: Entry)
    requires Walked(s, all, rest) && rest <= all && mi in rest
    ensures forall left: set<Entry> ::
              left == rest - {mi} && (forall n <- left :: mi.at < n.at) ==> Walked(s + [mi], all, left)
  {
    assert Elems(s + [mi]) == Elems(s) + {mi};
  }

  lemma AscendingOnce(s: seq<Entry>)
    requires Ascending(s)
    ensures NoRepeat(s)
  {
  }

  lemma PathsDistinct(g: Graph)
    requires Valid(g)
    ensures DistinctPaths(g.rec.Keys)
  {
    KeysDistinct(g);
    forall n, m | n in g.rec && m in g.rec && n != m
      ensures n.pathname != m.pathname
    {
      assert n.at != m.at;
    }
  }

  lemma EmptyRoot(g: Graph)
    requires Valid(g) && g.rec.Keys == {}
    ensures g.root == null
  {
  }
}
