/**
 * What a refresh of xh_core.c must do, on values: the filter on map lines, the hooks to run, and the effect of each
 * accepted line.
 */
module RefreshSpec {
  import opened CString
  import opened Prelude
  import opened RbGraph

  /** A registered hook; `regex` stands for its compiled pathname pattern. */
  datatype HookInfo = HookInfo(regex: nat, symbol: CStr, newFunc: int)

  datatype Symbol = All | Only(name: CStr)

  datatype IgnoreInfo = IgnoreInfo(regex: nat, symbol: Symbol)

  /** The registered hooks and ignores; the regex engine and xh_elf_init are parameters. */
  datatype Config = Config(hooks: seq<HookInfo>, ignores: seq<IgnoreInfo>, regexec: (nat, CStr) -> bool,
                           initOk: (int, CStr) -> bool)

  /** One line of the process map; parsed and elfOk are the outcomes of sscanf and of the ELF header check. */
  datatype MapLine = MapLine(parsed: bool, baseAddr: int, readable: bool, private: bool, offset: nat, pathname: CStr,
                             elfOk: bool)

  /** One call of xh_core_hook: the entry, its base address then, and the hooks passed on to xh_elf_hook. */
  datatype HookRun = HookRun(entry: Entry, baseAddr: int, calls: seq<HookInfo>)

  const BRACKET: NonZeroByte := 91

  // ---------- Hooks and ignores ----------

  predicate Stops(c: Config, ii: IgnoreInfo, path: CStr, symbol: CStr)
  {
    c.regexec(ii.regex, path) && (ii.symbol == All || ii.symbol == Only(symbol))
  }

  /** The first ignore entry that applies to a symbol of a library. */
  function Verdict(c: Config, ignores: seq<IgnoreInfo>, path: CStr, symbol: CStr): Option<Symbol>
  {
    if ignores == [] then None
    else if Stops(c, ignores[0], path, symbol) then Some(ignores[0].symbol)
    else Verdict(c, ignores[1..], path, symbol)
  }

  /** The hooks xh_core_hook_impl applies to a library: an ignore-all entry ends the list. */
  function Calls(c: Config, hooks: seq<HookInfo>, path: CStr): seq<HookInfo>
  {
    if hooks == [] then []
    else if !c.regexec(hooks[0].regex, path) then Calls(c, hooks[1..], path)
    else
      match Verdict(c, c.ignores, path, hooks[0].symbol)
      case Some(All) => []
      case Some(Only(_)) => Calls(c, hooks[1..], path)
      case None => [hooks[0]] + Calls(c, hooks[1..], path)
  }

  /** The filter of the refresh: the first hook whose pattern matches the path decides. */
  function Matches(c: Config, hooks: seq<HookInfo>, path: CStr): bool
  {
    if hooks == [] then false
    else if !c.regexec(hooks[0].regex, path) then Matches(c, hooks[1..], path)
    else Verdict(c, c.ignores, path, hooks[0].symbol) == None
  }

  /** Ignore entry i matches the path and is for all symbols or this one; no entry in front of it does and is. */
  ghost predicate FirstIgnore(c: Config, ignores: seq<IgnoreInfo>, path: CStr, symbol: CStr, i: nat)
  {
    && i < |ignores| && c.regexec(ignores[i].regex, path)
    && (ignores[i].symbol.Only? ==> ignores[i].symbol.name == symbol)
    && forall k | 0 <= k < i ::
       c.regexec(ignores[k].regex, path) ==> ignores[k].symbol.Only? && ignores[k].symbol.name != symbol
  }

  /** Whether an ignore entry applies to a symbol of a library, and for what: the first one in the list decides. */
  lemma {:induction false} VerdictIsFirst(c: Config, ignores: seq<IgnoreInfo>, path: CStr, symbol: CStr)
      returns (i: nat)
    ensures match Verdict(c, ignores, path, symbol)
            case Some(v) => FirstIgnore(c, ignores, path, symbol, i) && v == ignores[i].symbol
            case None =>
              forall k | 0 <= k < |ignores| ::
                c.regexec(ignores[k].regex, path) ==> ignores[k].symbol.Only? && ignores[k].symbol.name != symbol
  {
    i := 0;
    if ignores != [] && !Stops(c, ignores[0], path, symbol) {
      var rest := ignores[1..];
      var j := VerdictIsFirst(c, rest, path, symbol);
      i := j + 1;
      assert forall k | 0 < k < |ignores| :: ignores[k] == rest[k - 1];
    }
  }

  /** The pattern of hook j matches the path, and the first ignore entry that applies to it is v. */
  ghost predicate Judged(c: Config, hooks: seq<HookInfo>, path: CStr, j: nat, v: Option<Symbol>)
  {
    j < |hooks| && c.regexec(hooks[j].regex, path) && Verdict(c, c.ignores, path, hooks[j].symbol) == v
  }

  /** Hook j matches and is not ignored, and no hook in front of it is ignored with its whole library. */
  ghost predicate Applied(c: Config, hooks: seq<HookInfo>, path: CStr, j: nat)
  {
    Judged(c, hooks, path, j, None) && forall k: nat | k < j :: !Judged(c, hooks, path, k, Some(All))
  }

  ghost predicate FirstMatch(c: Config, hooks: seq<HookInfo>, path: CStr, i: nat)
  {
    i < |hooks| && c.regexec(hooks[i].regex, path) && forall k: nat | k < i :: !c.regexec(hooks[k].regex, path)
  }

  lemma AppliedTail(c: Config, hooks: seq<HookInfo>, path: CStr, j: nat)
    requires hooks != [] && !Judged(c, hooks, path, 0, Some(All))
    ensures Applied(c, hooks[1..], path, j) <==> Applied(c, hooks, path, j + 1)
  {
    var rest := hooks[1..];
    assert forall k: nat, v :: Judged(c, rest, path, k, v) <==> Judged(c, hooks, path, k + 1, v);
    if Applied(c, rest, path, j) {
      forall k: nat | k < j + 1
        ensures !Judged(c, hooks, path, k, Some(All))
      {
        if k > 0 {
          assert !Judged(c, rest, path, k - 1, Some(All));
        }
      }
    }
  }

  /** The hooks passed on are those at the positions that apply, each position once and in registration order. */
  lemma {:induction false} CallsPicked(c: Config, hooks: seq<HookInfo>, path: CStr) returns (at: seq<nat>)
    ensures forall a, b :: 0 <= a < b < |at| ==> at[a] < at[b]
    ensures forall j :: j in at <==> Applied(c, hooks, path, j)
    ensures |Calls(c, hooks, path)| == |at|
    ensures forall a :: 0 <= a < |at| ==> at[a] < |hooks| && Calls(c, hooks, path)[a] == hooks[at[a]]
  {
    if hooks == [] || Judged(c, hooks, path, 0, Some(All)) {
      return [];
    }
    var rest := CallsPicked(c, hooks[1..], path);
    var shifted := seq(|rest|, a requires 0 <= a < |rest| => rest[a] + 1);
    at := if Judged(c, hooks, path, 0, None) then [0] + shifted else shifted;
    hide Applied, Judged;
    forall j: nat
      ensures j in at <==> Applied(c, hooks, path, j)
    {
      if j > 0 {
        AppliedTail(c, hooks, path, j - 1);
        InShifted(rest, shifted, j);
        assert j in at <==> j in shifted;
      } else {
        AppliedFirst(c, hooks, path);
        NoneFirst(shifted);
      }
    }
  }

  lemma AppliedFirst(c: Config, hooks: seq<HookInfo>, path: CStr)
    ensures Applied(c, hooks, path, 0) <==> Judged(c, hooks, path, 0, None)
  {
  }

  lemma NoneFirst(shifted: seq<nat>)
    requires forall a | 0 <= a < |shifted| :: shifted[a] > 0
    ensures 0 !in shifted
  {
  }

  lemma InShifted(rest: seq<nat>, shifted: seq<nat>, j: nat)
    requires |shifted| == |rest| && j > 0 && forall a | 0 <= a < |rest| :: shifted[a] == rest[a] + 1
    ensures j in shifted <==> j - 1 in rest
  {
    if j - 1 in rest {
      var a :| 0 <= a < |rest| && rest[a] == j - 1;
      assert shifted[a] == j;
    }
    if j in shifted {
      var a :| 0 <= a < |shifted| && shifted[a] == j;
      assert rest[a] == j - 1;
    }
  }

  lemma {:induction false} MatchesFirst(c: Config, hooks: seq<HookInfo>, path: CStr)
    ensures Matches(c, hooks, path) <==> exists i :: FirstMatch(c, hooks, path, i) && Judged(c, hooks, path, i, None)
  {
    if hooks == [] {
    } else if c.regexec(hooks[0].regex, path) {
      assert FirstMatch(c, hooks, path, 0);
      assert Judged(c, hooks, path, 0, Verdict(c, c.ignores, path, hooks[0].symbol));
    } else {
      var rest := hooks[1..];
      MatchesFirst(c, rest, path);
      assert forall i: nat :: FirstMatch(c, rest, path, i) <==> FirstMatch(c, hooks, path, i + 1);
      assert forall i: nat :: Judged(c, rest, path, i, None) <==> Judged(c, hooks, path, i + 1, None);
      if i: nat :| FirstMatch(c, hooks, path, i) && Judged(c, hooks, path, i, None) {
        assert FirstMatch(c, rest, path, i - 1);
      }
    }
  }

  /** The first matching hook i is ignored by its symbol, and a later hook j applies. */
  ghost predicate Shadowed(c: Config, hooks: seq<HookInfo>, path: CStr, i: nat, j: nat)
  {
    && i < j && FirstMatch(c, hooks, path, i) && Applied(c, hooks, path, j)
    && exists name :: Judged(c, hooks, path, i, Some(Only(name)))
  }

  /**
   * Every library that passes the filter is hooked somewhere. The filter drops a library that xh_core_hook_impl
   * would hook exactly when the first matching hook is ignored by its symbol, and a later matching hook is not
   * ignored and no matching hook in front of that one is ignored with its whole library.
   */
  lemma FilterAgainstCalls(c: Config, hooks: seq<HookInfo>, path: CStr)
    ensures Matches(c, hooks, path) ==> Calls(c, hooks, path) != []
    ensures !Matches(c, hooks, path) && Calls(c, hooks, path) != [] <==> exists i, j :: Shadowed(c, hooks, path, i, j)
  {
    MatchesFirst(c, hooks, path);
    var at := CallsPicked(c, hooks, path);
    if i :| FirstMatch(c, hooks, path, i) {
      FilterAtFirst(c, hooks, path, i, at);
    } else if at != [] {
      assert Applied(c, hooks, path, at[0]);
      FirstExists(c, hooks, path, at[0]);
    }
  }

  lemma FilterAtFirst(c: Config, hooks: seq<HookInfo>, path: CStr, i: nat, at: seq<nat>)
    requires FirstMatch(c, hooks, path, i)
    requires forall j :: j in at <==> Applied(c, hooks, path, j)
    ensures Judged(c, hooks, path, i, None) ==> at != []
    ensures !Judged(c, hooks, path, i, None) && at != [] <==> exists j :: Shadowed(c, hooks, path, i, j)
  {
    var v := Verdict(c, c.ignores, path, hooks[i].symbol);
    assert Judged(c, hooks, path, i, v);
    if v == None {
      assert Applied(c, hooks, path, i);
    } else if at != [] {
      var j := at[0];
      assert Applied(c, hooks, path, j);
      assert i < j && v != Some(All);
      assert Judged(c, hooks, path, i, Some(Only(v.value.name)));
      assert Shadowed(c, hooks, path, i, j);
    }
  }

  lemma {:induction false} FirstExists(c: Config, hooks: seq<HookInfo>, path: CStr, j: nat)
    requires j < |hooks| && c.regexec(hooks[j].regex, path)
    ensures exists i :: FirstMatch(c, hooks, path, i)
  {
    var i := 0;
    while !c.regexec(hooks[i].regex, path)
      invariant i <= j && forall k: nat | k < i :: !c.regexec(hooks[k].regex, path)
      decreases j - i
    {
      i := i + 1;
    }
    assert FirstMatch(c, hooks, path, i);
  }

  /** Two hooks on one library, the first ignored by name: the refresh drops the library although the second applies. */
  lemma FilterDropsHookedLibrary()
    ensures exists c: Config, path: CStr :: !Matches(c, c.hooks, path) && Calls(c, c.hooks, path) != []
  {
    var a, b := HookInfo(0, [1], 1), HookInfo(0, [2], 2);
    var c := Config([a, b], [IgnoreInfo(0, Only([1]))], (r, p) => true, (x, p) => true);
    assert !Matches(c, c.hooks, [1]);
    assert c.hooks[1..] == [b];
    assert c.ignores[1..] == [];
    assert Verdict(c, c.ignores, [1], [2]) == None;
    assert Calls(c, [b], [1]) == [b] + Calls(c, [b][1..], [1]);
    assert Calls(c, c.hooks, [1]) == Calls(c, [b], [1]);
  }

  // ---------- Lines ----------

  predicate Accepted(c: Config, x: MapLine)
  {
    && x.parsed && x.readable && x.private && x.offset == 0
    && x.pathname != [] && x.pathname[0] != BRACKET
    && Matches(c, c.hooks, x.pathname) && x.elfOk
  }

  /** Base address on the first accepted line of a path. */
  ghost function First(c: Config, lines: seq<MapLine>, path: CStr): Option<int>
  {
    if lines == [] then None
    else
      var before := First(c, lines[..|lines| - 1], path);
      var x := lines[|lines| - 1];
      if before.Some? then before
      else if Accepted(c, x) && x.pathname == path then Some(x.baseAddr)
      else None
  }

  lemma FirstSnoc(c: Config, lines: seq<MapLine>, x: MapLine, path: CStr)
    ensures First(c, lines + [x], path) ==
      if First(c, lines, path).Some? then First(c, lines, path)
      else if Accepted(c, x) && x.pathname == path then Some(x.baseAddr) else None
  {
    assert (lines + [x])[..|lines|] == lines;
  }

  // ---------- The state of a refresh ----------

  ghost predicate DistinctPaths(s: set<Entry>)
  {
    forall n <- s, m <- s :: n != m ==> n.pathname != m.pathname
  }

  ghost predicate HasPath(s: set<Entry>, path: CStr)
  {
    exists n <- s :: n.pathname == path
  }

  ghost predicate NoRepeat<T>(s: seq<T>)
  {
    forall i, j :: 0 <= i < j < |s| ==> s[i] != s[j]
  }

  ghost function Elems(s: seq<Entry>): set<Entry>
  {
    set n | n in s
  }

  ghost function Entries(runs: seq<HookRun>): seq<Entry>
  {
    seq(|runs|, i requires 0 <= i < |runs| => runs[i].entry)
  }

  ghost function CallsFor(c: Config, base: int, path: CStr): seq<HookInfo>
  {
    if c.initOk(base, path) then Calls(c, c.hooks, path) else []
  }

  /** n is new, or its base address is no longer the one it had before. */
  ghost predicate Changed(before: map<Entry, int>, after: map<Entry, int>, n: Entry)
  {
    n in after && (n !in before || before[n] != after[n])
  }

  /** xh_core_hook ran once on every changed entry, with its new address, and on no other. */
  ghost predicate RunsOk(c: Config, before: map<Entry, int>, after: map<Entry, int>, runs: seq<HookRun>)
  {
    && NoRepeat(Entries(runs))
    && (forall i | 0 <= i < |runs| :: var r := runs[i];
          && Changed(before, after, r.entry) && r.baseAddr == after[r.entry]
          && r.calls == CallsFor(c, r.baseAddr, r.entry.pathname))
    && (forall n <- after.Keys :: Changed(before, after, n) ==> n in Entries(runs))
  }

  /**
   * What a refresh has done, in order: the calls of xh_core_hook, the entries released, and the entries created.
   */
  datatype Log = Log(hooked: seq<HookRun>, freed: seq<Entry>, created: seq<Entry>)

  ghost predicate Grown(was: Log, now: Log)
  {
    was.hooked <= now.hooked && was.freed <= now.freed && was.created <= now.created
  }

  /** What came after `was`. */
  ghost function Since(was: Log, now: Log): Log
    requires Grown(was, now)
  {
    Log(now.hooked[|was.hooked|..], now.freed[|was.freed|..], now.created[|was.created|..])
  }

  /**
   * The entries created so far are new, each was created once, and it is now either in the refreshed tree or
   * released; what is in the refreshed tree is old or was created, and only entries created were released, once.
   */
  ghost predicate MadeOk(before: map<Entry, int>, refreshed: map<Entry, int>, log: Log)
  {
    && NoRepeat(log.created) && NoRepeat(log.freed)
    && (forall n <- log.created :: n !in before && (n in log.freed <==> n !in refreshed))
    && (forall n <- refreshed.Keys :: n in before || n in log.created)
    && (forall n <- log.freed :: n in log.created)
  }

  /** An accepted line creates an entry if its path has no old entry, or had an accepted line before. */
  ghost predicate Creates(c: Config, seen: seq<MapLine>, before: set<Entry>, x: MapLine)
  {
    Accepted(c, x) && (First(c, seen, x.pathname).Some? || !HasPath(before, x.pathname))
  }

  /** The paths of the lines that create an entry. */
  ghost function NewPaths(c: Config, lines: seq<MapLine>, before: set<Entry>): seq<CStr>
  {
    if lines == [] then []
    else
      var seen, x := lines[..|lines| - 1], lines[|lines| - 1];
      NewPaths(c, seen, before) + if Creates(c, seen, before, x) then [x.pathname] else []
  }

  lemma NewPathsSnoc(c: Config, seen: seq<MapLine>, x: MapLine, before: set<Entry>)
    ensures NewPaths(c, seen + [x], before)
         == NewPaths(c, seen, before) + if Creates(c, seen, before, x) then [x.pathname] else []
  {
    assert (seen + [x])[..|seen|] == seen;
  }

  ghost function Paths(s: seq<Entry>): seq<CStr>
  {
    seq(|s|, i requires 0 <= i < |s| => s[i].pathname)
  }

  /** After the lines seen: tree holds old entries not met yet, refreshed the entries of accepted lines. */
  ghost predicate RefreshInv(c: Config, seen: seq<MapLine>, before: map<Entry, int>, tree: set<Entry>,
                             refreshed: map<Entry, int>, log: Log)
  {
    && tree !! refreshed.Keys && tree <= before.Keys <= tree + refreshed.Keys
    && DistinctPaths(tree) && DistinctPaths(refreshed.Keys)
    && (forall n <- tree :: First(c, seen, n.pathname) == None)
    && (forall n <- refreshed.Keys :: First(c, seen, n.pathname) == Some(refreshed[n]))
    && (forall p :: First(c, seen, p).Some? ==> HasPath(refreshed.Keys, p))
    && RunsOk(c, before, refreshed, log.hooked)
    && MadeOk(before, refreshed, log) && Paths(log.created) == NewPaths(c, seen, before.Keys)
  }

  /**
   * The promise about memory: no entry is created or released twice, the entries created are new, and exactly
   * the entries that were there before or were created, and are not in the tree afterwards, have been released.
   */
  ghost predicate NoLeak(before: map<Entry, int>, after: map<Entry, int>, log: Log)
  {
    && NoRepeat(log.created) && NoRepeat(log.freed)
    && (forall n <- log.created :: n !in before)
    && (forall n <- after.Keys :: n in before || n in log.created)
    && (forall n <- log.freed :: n !in after && (n in before || n in log.created))
    && (forall n <- before.Keys :: n !in after ==> n in log.freed)
    && (forall n <- log.created :: n !in after ==> n in log.freed)
  }

  /** The promise of a refresh. */
  ghost predicate Refreshed(c: Config, lines: seq<MapLine>, before: map<Entry, int>, after: map<Entry, int>, log: Log)
  {
    // the new tree has one entry for each path with an accepted line, at the address of the first such line
    && DistinctPaths(after.Keys)
    && (forall n <- after.Keys :: First(c, lines, n.pathname) == Some(after[n]))
    && (forall p :: First(c, lines, p).Some? ==> HasPath(after.Keys, p))
    // an old entry survives, as the same entry, exactly when its path has an accepted line
    && (forall n <- before.Keys :: n in after <==> First(c, lines, n.pathname).Some?)
    // new and moved libraries are hooked once, the others not at all
    && RunsOk(c, before, after, log.hooked)
    // one entry was created, in line order, for each accepted line that did not meet an old entry
    && Paths(log.created) == NewPaths(c, lines, before.Keys)
    // every entry that does not survive, old or created for a repeated path, is released exactly once
    && NoLeak(before, after, log)
  }

  lemma InvStart(c: Config, before: map<Entry, int>)
    requires DistinctPaths(before.Keys)
    ensures RefreshInv(c, [], before, before.Keys, map[], Log([], [], []))
  {
  }

  lemma InvNodes(c: Config, seen: seq<MapLine>, before: map<Entry, int>, tree: set<Entry>,
                 refreshed: map<Entry, int>, log: Log)
    requires RefreshInv(c, seen, before, tree, refreshed, log)
    ensures tree !! refreshed.Keys && tree <= before.Keys <= tree + refreshed.Keys
  {
  }

  lemma SkipLine(c: Config, seen: seq<MapLine>, x: MapLine, before: map<Entry, int>, tree: set<Entry>,
                 refreshed: map<Entry, int>, log: Log)
    requires RefreshInv(c, seen, before, tree, refreshed, log) && !Accepted(c, x)
    ensures RefreshInv(c, seen + [x], before, tree, refreshed, log)
  {
    SameFirst(c, seen, x);
    NewPathsSnoc(c, seen, x, before.Keys);
  }

  lemma SameFirst(c: Config, seen: seq<MapLine>, x: MapLine)
    requires !Accepted(c, x) || First(c, seen, x.pathname).Some?
    ensures forall p :: First(c, seen + [x], p) == First(c, seen, p)
  {
    forall p
      ensures First(c, seen + [x], p) == First(c, seen, p)
    {
      FirstSnoc(c, seen, x, p);
    }
  }

  lemma AddFirst(c: Config, seen: seq<MapLine>, x: MapLine, tree: set<Entry>, refreshed: map<Entry, int>, mi: Entry)
    requires Accepted(c, x) && First(c, seen, x.pathname) == None && mi.pathname == x.pathname && mi !in refreshed
    requires forall n <- tree :: First(c, seen, n.pathname) == None
    requires forall n <- tree :: n != mi ==> n.pathname != x.pathname
    requires forall n <- refreshed.Keys :: First(c, seen, n.pathname) == Some(refreshed[n])
    requires DistinctPaths(refreshed.Keys)
    ensures forall n <- tree - {mi} :: First(c, seen + [x], n.pathname) == None
    ensures forall n <- refreshed.Keys + {mi} ::
              First(c, seen + [x], n.pathname) == Some(refreshed[mi := x.baseAddr][n])
    ensures DistinctPaths(refreshed[mi := x.baseAddr].Keys)
  {
    forall n | n in tree - {mi}
      ensures First(c, seen + [x], n.pathname) == None
    {
      FirstSnoc(c, seen, x, n.pathname);
    }
    forall n | n in refreshed.Keys + {mi}
      ensures First(c, seen + [x], n.pathname) == Some(refreshed[mi := x.baseAddr][n])
    {
      FirstSnoc(c, seen, x, n.pathname);
    }
  }

  lemma AddPaths(c: Config, seen: seq<MapLine>, x: MapLine, refreshed: map<Entry, int>, mi: Entry)
    requires forall p :: First(c, seen, p).Some? ==> HasPath(refreshed.Keys, p)
    requires mi.pathname == x.pathname
    ensures forall p :: First(c, seen + [x], p).Some? ==> HasPath(refreshed[mi := x.baseAddr].Keys, p)
  {
    var after := refreshed[mi := x.baseAddr];
    forall p | First(c, seen + [x], p).Some?
      ensures HasPath(after.Keys, p)
    {
      FirstSnoc(c, seen, x, p);
      if p == x.pathname {
        assert mi in after.Keys;
      } else {
        var n :| n in refreshed.Keys && n.pathname == p;
        assert n in after.Keys;
      }
    }
  }

  /** The hook run of an entry that gets this base address. */
  ghost function RunFor(c: Config, before: map<Entry, int>, mi: Entry, base: int): seq<HookRun>
  {
    if mi in before && before[mi] == base then [] else [HookRun(mi, base, CallsFor(c, base, mi.pathname))]
  }

  lemma AddRun(c: Config, before: map<Entry, int>, refreshed: map<Entry, int>, runs: seq<HookRun>, mi: Entry,
               base: int)
    requires RunsOk(c, before, refreshed, runs) && mi !in refreshed
    ensures RunsOk(c, before, refreshed[mi := base], runs + RunFor(c, before, mi, base))
  {
    var after, all := refreshed[mi := base], runs + RunFor(c, before, mi, base);
    assert forall i | 0 <= i < |runs| :: Entries(all)[i] == Entries(runs)[i] != mi;
    forall n | n in after && Changed(before, after, n)
      ensures n in Entries(all)
    {
      if n == mi {
        assert Entries(all)[|runs|] == mi;
      } else {
        assert Changed(before, refreshed, n);
        var i :| 0 <= i < |runs| && Entries(runs)[i] == n;
        assert Entries(all)[i] == n;
      }
    }
  }

  /** The log after an old entry was moved and, if its address changed, hooked. */
  ghost function LogKnown(c: Config, before: map<Entry, int>, log: Log, mi: Entry, base: int): Log
  {
    log.(hooked := log.hooked + RunFor(c, before, mi, base))
  }

  /** The log after an entry was created and then either hooked or, its path being repeated, released. */
  ghost function LogUnknown(c: Config, before: map<Entry, int>, log: Log, mi: Entry, base: int, repeated: bool): Log
  {
    if repeated then log.(created := log.created + [mi], freed := log.freed + [mi])
    else log.(created := log.created + [mi], hooked := log.hooked + RunFor(c, before, mi, base))
  }

  /** An accepted line of a path whose old entry mi is still in the old tree. */
  lemma AddKnown(c: Config, seen: seq<MapLine>, x: MapLine, before: map<Entry, int>, tree: set<Entry>,
                 refreshed: map<Entry, int>, log: Log, mi: Entry)
    requires RefreshInv(c, seen, before, tree, refreshed, log)
    requires Accepted(c, x) && mi in tree && mi.pathname == x.pathname
    ensures tree !! refreshed.Keys && mi in before && forall n <- refreshed.Keys :: n.pathname != mi.pathname
    ensures RefreshInv(c, seen + [x], before, tree - {mi}, refreshed[mi := x.baseAddr],
                       LogKnown(c, before, log, mi, x.baseAddr))
  {
    hide MadeOk;
    NewPathsSnoc(c, seen, x, before.Keys);
    assert HasPath(before.Keys, x.pathname);
    AddFirst(c, seen, x, tree, refreshed, mi);
    AddPaths(c, seen, x, refreshed, mi);
    AddRun(c, before, refreshed, log.hooked, mi, x.baseAddr);
    MadeKnown(before, refreshed, log, mi, x.baseAddr, LogKnown(c, before, log, mi, x.baseAddr));
  }

  lemma MadeKnown(before: map<Entry, int>, refreshed: map<Entry, int>, log: Log, mi: Entry, base: int, log': Log)
    requires MadeOk(before, refreshed, log) && mi in before
    requires log'.created == log.created && log'.freed == log.freed
    ensures MadeOk(before, refreshed[mi := base], log')
  {
  }

  /** An accepted line of a path with no old entry left: mi is new, kept if the path is, and released otherwise. */
  lemma AddUnknown(c: Config, seen: seq<MapLine>, x: MapLine, before: map<Entry, int>, tree: set<Entry>,
                   refreshed: map<Entry, int>, log: Log, mi: Entry, repeated: Entry?)
    requires RefreshInv(c, seen, before, tree, refreshed, log)
    requires Accepted(c, x) && mi.pathname == x.pathname
    requires mi !in before && mi !in refreshed && mi !in log.freed && mi !in log.created
    requires forall n <- tree :: n.pathname != x.pathname
    requires if repeated != null then repeated in refreshed && repeated.pathname == x.pathname
             else forall n <- refreshed.Keys :: n.pathname != x.pathname
    ensures RefreshInv(c, seen + [x], before, tree, if repeated != null then refreshed else refreshed[mi := x.baseAddr],
                       LogUnknown(c, before, log, mi, x.baseAddr, repeated != null))
  {
    hide MadeOk, NewPaths;
    NewPathsSnoc(c, seen, x, before.Keys);
    assert Creates(c, seen, before.Keys, x);
    assert Paths(log.created + [mi]) == Paths(log.created) + [x.pathname];
    if repeated != null {
      MadeUnknown(before, refreshed, log, mi, refreshed, LogUnknown(c, before, log, mi, x.baseAddr, true));
      SameFirst(c, seen, x);
    } else {
      AddFirst(c, seen, x, tree, refreshed, mi);
      AddPaths(c, seen, x, refreshed, mi);
      AddRun(c, before, refreshed, log.hooked, mi, x.baseAddr);
      assert tree - {mi} == tree;
      MadeUnknown(before, refreshed, log, mi, refreshed[mi := x.baseAddr],
                  LogUnknown(c, before, log, mi, x.baseAddr, false));
    }
  }

  /** A created entry is either kept or released. */
  lemma MadeUnknown(before: map<Entry, int>, refreshed: map<Entry, int>, log: Log, mi: Entry,
                    after: map<Entry, int>, log': Log)
    requires MadeOk(before, refreshed, log)
    requires mi !in before && mi !in refreshed && mi !in log.freed && mi !in log.created
    requires log'.created == log.created + [mi]
    requires || (after.Keys == refreshed.Keys && log'.freed == log.freed + [mi])
             || (after.Keys == refreshed.Keys + {mi} && log'.freed == log.freed)
    ensures MadeOk(before, after, log')
  {
  }

  /** Releasing what is left of the old tree completes the refresh. */
  lemma Finish(c: Config, lines: seq<MapLine>, before: map<Entry, int>, tree: set<Entry>, refreshed: map<Entry, int>,
               log: Log, left: seq<Entry>)
    requires RefreshInv(c, lines, before, tree, refreshed, log)
    requires NoRepeat(left) && Elems(left) == tree
    ensures Refreshed(c, lines, before, refreshed, log.(freed := log.freed + left))
  {
    hide MadeOk, NoLeak;
    MadeFinish(before, tree, refreshed, log, left);
  }

  lemma MadeFinish(before: map<Entry, int>, tree: set<Entry>, refreshed: map<Entry, int>, log: Log, left: seq<Entry>)
    requires MadeOk(before, refreshed, log) && tree !! refreshed.Keys && tree <= before.Keys <= tree + refreshed.Keys
    requires NoRepeat(left) && Elems(left) == tree
    ensures NoLeak(before, refreshed, log.(freed := log.freed + left))
  {
    assert forall n :: n in left <==> n in Elems(left);
    assert forall i | 0 <= i < |left| :: left[i] in before;
    assert forall i | 0 <= i < |log.freed| :: log.freed[i] in log.created;
  }

  /**
   * The line is read in full and maps its file readable, private and from offset 0; the path is not empty and does not
   * begin with a bracket; the first hook whose pattern matches it is not ignored; and the file begins like an ELF.
   */
  ghost predicate Maps(c: Config, x: MapLine, path: CStr)
  {
    && x.parsed && x.readable && x.private && x.offset == 0 && x.elfOk
    && x.pathname == path != [] && path[0] as int != 0x5b
    && exists i: nat ::
       && i < |c.hooks| && c.regexec(c.hooks[i].regex, path)
       && (forall k | 0 <= k < i :: !c.regexec(c.hooks[k].regex, path))
       && forall k | 0 <= k < |c.ignores| ::
          c.regexec(c.ignores[k].regex, path) ==>
            c.ignores[k].symbol.Only? && c.ignores[k].symbol.name != c.hooks[i].symbol
  }

  lemma MapsIsAccepted(c: Config, x: MapLine)
    ensures Maps(c, x, x.pathname) <==> Accepted(c, x)
  {
    var path := x.pathname;
    MatchesFirst(c, c.hooks, path);
    forall i: nat | FirstMatch(c, c.hooks, path, i)
      ensures Judged(c, c.hooks, path, i, None) <==>
              forall k | 0 <= k < |c.ignores| ::
                c.regexec(c.ignores[k].regex, path) ==>
                  c.ignores[k].symbol.Only? && c.ignores[k].symbol.name != c.hooks[i].symbol
    {
      var j := VerdictIsFirst(c, c.ignores, path, c.hooks[i].symbol);
    }
  }

  /** Line i maps the path, and no line in front of it does. */
  ghost predicate FirstMaps(c: Config, lines: seq<MapLine>, path: CStr, i: nat)
  {
    i < |lines| && Maps(c, lines[i], path) && forall k | 0 <= k < i :: !Maps(c, lines[k], path)
  }

  lemma {:induction false} FirstIsFirst(c: Config, lines: seq<MapLine>, path: CStr) returns (i: nat)
    ensures match First(c, lines, path)
            case Some(base) => FirstMaps(c, lines, path, i) && base == lines[i].baseAddr
            case None => forall k | 0 <= k < |lines| :: !Maps(c, lines[k], path)
  {
    hide Maps, Accepted;
    i := 0;
    if lines != [] {
      var n := |lines| - 1;
      var before := lines[..n];
      i := FirstIsFirst(c, before, path);
      MapsIsAccepted(c, lines[n]);
      MapsOnly(c, lines[n], path);
      if First(c, before, path) == None && First(c, lines, path).Some? {
        i := n;
      }
    }
  }

  lemma MapsOnly(c: Config, x: MapLine, path: CStr)
    ensures Maps(c, x, path) ==> x.pathname == path
  {
  }

  /**
   * What a refresh leaves, on the lines themselves: an entry for each path that a line maps and for no other, at the
   * address of the first such line; and each run of xh_core_hook passed on the hooks that apply, or none if xh_elf_init
   * failed.
   */
  lemma RefreshedLines(c: Config, lines: seq<MapLine>, before: map<Entry, int>, after: map<Entry, int>, log: Log)
    requires Refreshed(c, lines, before, after, log)
    ensures forall n <- after.Keys ::
              exists i: nat :: FirstMaps(c, lines, n.pathname, i) && after[n] == lines[i].baseAddr
    ensures forall x <- lines :: Maps(c, x, x.pathname) ==> exists n <- after.Keys :: n.pathname == x.pathname
    ensures forall i | 0 <= i < |log.hooked| ::
              var r := log.hooked[i];
              r.calls == if c.initOk(r.baseAddr, r.entry.pathname) then Calls(c, c.hooks, r.entry.pathname) else []
  {
    hide Maps, NoLeak, NewPaths, Paths;
    forall n | n in after.Keys
      ensures exists i: nat :: FirstMaps(c, lines, n.pathname, i) && after[n] == lines[i].baseAddr
    {
      var i := FirstIsFirst(c, lines, n.pathname);
    }
    forall x | x in lines && Maps(c, x, x.pathname)
      ensures exists n <- after.Keys :: n.pathname == x.pathname
    {
      var i := FirstIsFirst(c, lines, x.pathname);
      assert First(c, lines, x.pathname).Some?;
      assert HasPath(after.Keys, x.pathname);
    }
  }

  lemma RunChanges(c: Config, before: map<Entry, int>, after: map<Entry, int>, runs: seq<HookRun>)
    requires RunsOk(c, before, after, runs)
    ensures runs != [] ==> Changed(before, after, runs[0].entry)
  {
  }

  /**
   * Refreshing again on an unchanged process map keeps every entry as it is, hooks nothing, and releases exactly
   * the entries it created itself.
   */
  lemma RefreshTwice(c: Config, lines: seq<MapLine>, before: map<Entry, int>, first: map<Entry, int>,
                     second: map<Entry, int>, log1: Log, log2: Log)
    requires Refreshed(c, lines, before, first, log1) && Refreshed(c, lines, first, second, log2)
    ensures second == first && log2.hooked == [] && Elems(log2.freed) == Elems(log2.created)
  {
    hide NewPaths, Paths;
    forall n | n in second
      ensures n in first
    {
      assert HasPath(first.Keys, n.pathname);
      var m :| m in first.Keys && m.pathname == n.pathname;
      assert m in second;
    }
    assert second.Keys == first.Keys;
    assert second == first;
    RunChanges(c, first, second, log2.hooked);
  }
}
