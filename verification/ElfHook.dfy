/**
 * Finding and patching the slots of a symbol: xh_elf_hook of xh_elf.c on a 64-bit ELF. Each address names a word of
 * memory.
 */
module ElfHook {
  import opened CString
  import opened Prelude
  import opened Sleb128
  import opened PackedReloc
  import opened ElfSymbols

  datatype Errno = Ok | Inval | Format | ElfInit

  /** The relocation types of the machine that a hook looks for. */
  datatype RelocTypes = RelocTypes(jumpSlot: nat, globDat: nat, abs: nat)

  function Sym(info: nat): nat { info / 0x1_0000_0000 }

  function Type(info: nat): nat { info % 0x1_0000_0000 }

  // ---------- Patching as a function on memory ----------

  /** Memory after newFunc is stored in every slot of s. */
  function Patched(mem: map<nat, nat>, s: seq<nat>, newFunc: nat): (m: map<nat, nat>)
    ensures m.Keys == mem.Keys
    ensures forall a | a in mem :: m[a] == if a in s then newFunc else mem[a]
  {
    map a | a in mem :: if a in s then newFunc else mem[a]
  }

  /** The i-th slot of s is changed at step i: it neither held newFunc at first nor was met before. */
  predicate Changes(mem: map<nat, nat>, s: seq<nat>, newFunc: nat, i: nat)
    requires i < |s| && forall a <- s :: a in mem
  {
    mem[s[i]] != newFunc && s[i] !in s[..i]
  }

  /** What old_func holds in the end: the first content of the last slot changed, or what it held if none was. */
  ghost predicate Saved(mem: map<nat, nat>, s: seq<nat>, newFunc: nat, before: nat, after: nat)
    requires forall a <- s :: a in mem
  {
    if forall i | 0 <= i < |s| :: !Changes(mem, s, newFunc, i) then after == before
    else exists i | 0 <= i < |s| ::
      Changes(mem, s, newFunc, i) && after == mem[s[i]] && forall j | i < j < |s| :: !Changes(mem, s, newFunc, j)
  }

  lemma PatchedExtends(mem: map<nat, nat>, s: seq<nat>, a: nat, newFunc: nat)
    requires a in mem
    ensures Patched(mem, s, newFunc)[a := newFunc] == Patched(mem, s + [a], newFunc)
  {
  }

  lemma SavedExtends(mem: map<nat, nat>, s: seq<nat>, a: nat, newFunc: nat, before: nat, middle: nat)
    requires a in mem && (forall x <- s :: x in mem)
    requires Saved(mem, s, newFunc, before, middle)
    ensures Saved(mem, s + [a], newFunc, before, if mem[a] == newFunc || a in s then middle else mem[a])
  {
    var t := s + [a];
    forall i | 0 <= i < |s|
      ensures Changes(mem, t, newFunc, i) == Changes(mem, s, newFunc, i)
    {
      assert t[..i] == s[..i];
    }
    assert t[..|s|] == s;
    assert Changes(mem, t, newFunc, |s|) == !(mem[a] == newFunc || a in s);
    if mem[a] == newFunc || a in s {
      if i :| 0 <= i < |s| && Changes(mem, s, newFunc, i) && middle == mem[s[i]]
              && forall j | i < j < |s| :: !Changes(mem, s, newFunc, j) {
        assert Changes(mem, t, newFunc, i);
      }
    }
  }

  /** What is saved is never the new function. */
  lemma SavedNeverNew(mem: map<nat, nat>, s: seq<nat>, newFunc: nat, before: nat, after: nat)
    requires forall a <- s :: a in mem
    requires Saved(mem, s, newFunc, before, after)
    ensures after == newFunc ==> after == before
  {
  }

  /** Hooking again the same way changes neither memory nor old_func. */
  lemma PatchedTwice(mem: map<nat, nat>, s: seq<nat>, newFunc: nat, before: nat, after: nat)
    requires forall a <- s :: a in mem
    ensures var m := Patched(mem, s, newFunc);
      Patched(m, s, newFunc) == m && (Saved(m, s, newFunc, before, after) <==> after == before)
  {
    var m := Patched(mem, s, newFunc);
    forall i | 0 <= i < |s|
      ensures !Changes(m, s, newFunc, i)
    {
      assert s[i] in s;
    }
  }

  /** When all slots held the same function, hooking with what was saved undoes the hook. */
  lemma RehookUndoes(mem: map<nat, nat>, s: seq<nat>, newFunc: nat, original: nat, before: nat, after: nat)
    requires forall a <- s :: a in mem && mem[a] == original
    requires s != [] && original != newFunc && Saved(mem, s, newFunc, before, after)
    ensures Patched(Patched(mem, s, newFunc), s, after) == mem
  {
    assert Changes(mem, s, newFunc, 0);
  }

  // ---------- The ELF ----------

  class Cell {
    var value: nat

    constructor (v: nat)
      ensures value == v
    {
      value := v;
    }
  }

  class Elf {
    const inited: bool
    const types: RelocTypes
    const baseAddr: nat
    const biasAddr: nat
    const useRela: bool
    const useGnuHash: bool
    const sysv: SysvTable
    const gnu: GnuTable
    const names: seq<CStr>
    const relplt: seq<Reloc>
    const reldyn: seq<Reloc>
    const relandroid: Packed
    ghost const rank: seq<nat>
    var mem: map<nat, nat>

    constructor (types: RelocTypes, baseAddr: nat, biasAddr: nat, useRela: bool, useGnuHash: bool, sysv: SysvTable,
                 gnu: GnuTable, names: seq<CStr>, relplt: seq<Reloc>, reldyn: seq<Reloc>, relandroid: Packed,
                 mem: map<nat, nat>, ghost rank: seq<nat>, inited: bool)
      ensures this.inited == inited && this.types == types && this.baseAddr == baseAddr && this.biasAddr == biasAddr
      ensures this.useRela == useRela
      ensures this.useGnuHash == useGnuHash && this.sysv == sysv && this.gnu == gnu && this.names == names
      ensures this.relplt == relplt && this.reldyn == reldyn && this.relandroid == relandroid && this.mem == mem
      ensures this.rank == rank
    {
      this.inited, this.types, this.baseAddr, this.biasAddr, this.useRela := inited, types, baseAddr, biasAddr, useRela;
      this.useGnuHash, this.sysv, this.gnu, this.names := useGnuHash, sysv, gnu, names;
      this.relplt, this.reldyn, this.relandroid, this.mem, this.rank := relplt, reldyn, relandroid, mem, rank;
    }

    ghost predicate TablesOk()
    {
      if useGnuHash then GnuOk(gnu, names) else SysvOk(sysv, rank, names)
    }

    /** The lowest index a lookup considers: a SysV chain ends at index 0. */
    ghost function FirstIndex(): nat { if useGnuHash then 0 else 1 }

    predicate Matches(isPlt: bool, symidx: nat, x: Reloc)
    {
      && Sym(x.info) == symidx
      && if isPlt then Type(x.info) == types.jumpSlot else Type(x.info) == types.globDat || Type(x.info) == types.abs
    }

    function Slot(x: Reloc): nat { Wrap(biasAddr + x.offset) }

    /** The slots of all matching relocations, in order. */
    ghost function Slots(isPlt: bool, symidx: nat, rels: seq<Reloc>): seq<nat>
    {
      if rels == [] then []
      else (if Matches(isPlt, symidx, rels[0]) then [Slot(rels[0])] else []) + Slots(isPlt, symidx, rels[1..])
    }

    ghost function UpTo1(s: seq<nat>): seq<nat> { if s == [] then [] else s[..1] }

    /** The slots a hook goes for: the first match in the PLT section, and all matches in the two others. */
    ghost function Plan(symidx: nat): seq<nat>
    {
      UpTo1(Slots(true, symidx, relplt)) + Slots(false, symidx, reldyn)
          + Slots(false, symidx, SectionRelocs(relandroid, useRela))
    }

    /** The slots up to the first one that lies below the base address. */
    ghost function Reached(s: seq<nat>): (r: seq<nat>)
      ensures r <= s && forall a <- r :: a >= baseAddr
    {
      if s == [] || s[0] < baseAddr then [] else [s[0]] + Reached(s[1..])
    }

    lemma {:induction false} ReachedConcat(p: seq<nat>, q: seq<nat>)
      ensures Reached(p + q) == if Reached(p) == p then p + Reached(q) else Reached(p)
    {
      if p == [] {
        assert p + q == q;
      } else {
        assert (p + q)[1..] == p[1..] + q;
        ReachedConcat(p[1..], q);
      }
    }

    /** One step of a run over the slots s, of which `now` is done and `rest` is left. */
    lemma Progress(s: seq<nat>, now: seq<nat>, rest: seq<nat>)
      requires s == now + rest && Reached(now) == now
      ensures rest == [] ==> Reached(s) == s == now
      ensures rest != [] && rest[0] < baseAddr ==> Reached(s) == now != s
      ensures rest != [] && rest[0] >= baseAddr ==> (
        var more := now + [rest[0]];
        rest[0] in Reached(s) && Reached(more) == more && s == more + rest[1..])
    {
      hide Reached;
      ReachedConcat(now, rest);
      ReachedFront(rest);
      if rest == [] {
        assert s == now;
      } else if rest[0] >= baseAddr {
        ReachedConcat(now, [rest[0]]);
      }
    }

    lemma ReachedFront(rest: seq<nat>)
      ensures rest == [] || rest[0] < baseAddr ==> Reached(rest) == []
      ensures rest != [] && rest[0] >= baseAddr ==> rest[0] in Reached(rest) && Reached([rest[0]]) == [rest[0]]
    {
      assert rest != [] ==> [rest[0]][1..] == [];
    }

    /**
     * x is a relocation of one of these types for the symbol: the upper half of its information word is the index of
     * the symbol, and the lower half the type.
     */
    ghost predicate Relocates(x: Reloc, symidx: nat, kinds: set<nat>)
    {
      exists t <- kinds :: t < 0x1_0000_0000 && x.info == symidx * 0x1_0000_0000 + t
    }

    /** The types a hook looks for in the PLT section, and in the two others. */
    function Kinds(isPlt: bool): set<nat>
    {
      if isPlt then {types.jumpSlot} else {types.globDat, types.abs}
    }

    /** x lies at the address a of memory. */
    ghost predicate LiesAt(x: Reloc, a: nat)
    {
      a == (biasAddr + x.offset) % 0x1_0000_0000_0000_0000
    }

    lemma MatchesRelocates(isPlt: bool, symidx: nat, x: Reloc)
      ensures Matches(isPlt, symidx, x) <==> Relocates(x, symidx, Kinds(isPlt))
    {
      var t := x.info % 0x1_0000_0000;
      assert x.info == x.info / 0x1_0000_0000 * 0x1_0000_0000 + t;
      if Matches(isPlt, symidx, x) {
        assert t in Kinds(isPlt);
      }
      if t' :| t' in Kinds(isPlt) && t' < 0x1_0000_0000 && x.info == symidx * 0x1_0000_0000 + t' {
        assert t' == t;
      }
    }

    /** The slots gone for in a section are those of the relocations of its types for the symbol. */
    lemma {:induction false} SlotsAreMatches(isPlt: bool, symidx: nat, rels: seq<Reloc>)
      ensures forall a :: a in Slots(isPlt, symidx, rels) <==>
                          exists x <- rels :: Relocates(x, symidx, Kinds(isPlt)) && LiesAt(x, a)
    {
      hide Matches, Relocates;
      if rels != [] {
        SlotsAreMatches(isPlt, symidx, rels[1..]);
        MatchesRelocates(isPlt, symidx, rels[0]);
        assert rels == [rels[0]] + rels[1..];
      }
    }

    /** The slots come in the order of their relocations, one for each. */
    lemma {:induction false} SlotsConcat(isPlt: bool, symidx: nat, a: seq<Reloc>, b: seq<Reloc>)
      ensures Slots(isPlt, symidx, a + b) == Slots(isPlt, symidx, a) + Slots(isPlt, symidx, b)
    {
      hide Matches, Slot;
      if a == [] {
        assert a + b == b;
      } else {
        assert (a + b)[1..] == a[1..] + b;
        SlotsConcat(isPlt, symidx, a[1..], b);
        var head := if Matches(isPlt, symidx, a[0]) then [Slot(a[0])] else [];
        SlotsFront(isPlt, symidx, a, head);
        SlotsFront(isPlt, symidx, a + b, head);
        hide Slots;
        var more, other := Slots(isPlt, symidx, a[1..]), Slots(isPlt, symidx, b);
        assert head + (more + other) == (head + more) + other;
      }
    }

    lemma SlotsFront(isPlt: bool, symidx: nat, rels: seq<Reloc>, head: seq<nat>)
      requires rels != [] && head == if Matches(isPlt, symidx, rels[0]) then [Slot(rels[0])] else []
      ensures Slots(isPlt, symidx, rels) == head + Slots(isPlt, symidx, rels[1..])
    {
    }

    lemma SlotsOne(isPlt: bool, symidx: nat, x: Reloc)
      ensures if Relocates(x, symidx, Kinds(isPlt))
              then |Slots(isPlt, symidx, [x])| == 1 && LiesAt(x, Slots(isPlt, symidx, [x])[0])
              else Slots(isPlt, symidx, [x]) == []
    {
      MatchesRelocates(isPlt, symidx, x);
      assert [x][1..] == [];
    }

    /** The k-th of these relocations is the first for the symbol. */
    ghost predicate FirstFor(rels: seq<Reloc>, symidx: nat, kinds: set<nat>, k: nat)
    {
      k < |rels| && Relocates(rels[k], symidx, kinds) && forall j | 0 <= j < k :: !Relocates(rels[j], symidx, kinds)
    }

    lemma {:induction false} FirstSlot(isPlt: bool, symidx: nat, rels: seq<Reloc>) returns (k: nat)
      ensures Slots(isPlt, symidx, rels) != [] ==>
                FirstFor(rels, symidx, Kinds(isPlt), k) && LiesAt(rels[k], Slots(isPlt, symidx, rels)[0])
    {
      hide Matches, Relocates;
      k := 0;
      if rels != [] {
        MatchesRelocates(isPlt, symidx, rels[0]);
        if !Matches(isPlt, symidx, rels[0]) {
          var l := FirstSlot(isPlt, symidx, rels[1..]);
          k := l + 1;
        }
      }
    }

    /**
     * A hook goes first for the slot of the first jump-slot relocation for the symbol in the PLT section, if there is
     * one, then for all slots of its other relocations in the dynamic section, and then in the packed section.
     */
    lemma PlanInOrder(symidx: nat) returns (p: seq<nat>, q: seq<nat>, t: seq<nat>)
      ensures Plan(symidx) == p + q + t
      ensures if exists x <- relplt :: Relocates(x, symidx, {types.jumpSlot})
              then |p| == 1 && exists k: nat :: FirstFor(relplt, symidx, {types.jumpSlot}, k) && LiesAt(relplt[k], p[0])
              else p == []
      ensures forall a :: a in q <==>
                          exists x <- reldyn :: Relocates(x, symidx, {types.globDat, types.abs}) && LiesAt(x, a)
      ensures forall a :: a in t <==>
                          exists x <- SectionRelocs(relandroid, useRela) ::
                            Relocates(x, symidx, {types.globDat, types.abs}) && LiesAt(x, a)
    {
      hide Slots, SectionRelocs, Relocates, LiesAt;
      q, t := Slots(false, symidx, reldyn), Slots(false, symidx, SectionRelocs(relandroid, useRela));
      SlotsAreMatches(false, symidx, reldyn);
      SlotsAreMatches(false, symidx, SectionRelocs(relandroid, useRela));
      var s := Slots(true, symidx, relplt);
      p := UpTo1(s);
      SlotsAreMatches(true, symidx, relplt);
      var k := FirstSlot(true, symidx, relplt);
      if x :| x in relplt && Relocates(x, symidx, {types.jumpSlot}) {
        var a := (biasAddr + x.offset) % 0x1_0000_0000_0000_0000;
        assert a in s by { Lies(x); }
      } else {
        NoneFor(relplt, symidx, {types.jumpSlot}, k);
      }
    }

    lemma NoneFor(rels: seq<Reloc>, symidx: nat, kinds: set<nat>, k: nat)
      requires forall x <- rels :: !Relocates(x, symidx, kinds)
      ensures !FirstFor(rels, symidx, kinds, k)
    {
    }

    lemma Lies(x: Reloc)
      ensures LiesAt(x, (biasAddr + x.offset) % 0x1_0000_0000_0000_0000)
    {
    }

    /** All slots are reached unless one lies below the base address; otherwise those in front of the first such one. */
    lemma {:induction false} ReachedIsAll(s: seq<nat>)
      ensures Reached(s) == s <==> forall a <- s :: a >= baseAddr
      ensures Reached(s) != s ==> |Reached(s)| < |s| && s[|Reached(s)|] < baseAddr
    {
      if s != [] {
        ReachedIsAll(s[1..]);
        assert s == [s[0]] + s[1..];
        assert s[0] in s && forall a <- s[1..] :: a in s;
        if Reached(s) == s {
          assert Reached(s)[1..] == s[1..];
        }
      }
    }

    // ---------- One slot ----------

    /** xh_elf_replace_function, where changing the protection succeeds. */
    method ReplaceFunction(addr: nat, newFunc: nat, oldFunc: Cell?)
      requires addr in mem
      modifies this`mem, oldFunc
      ensures mem == old(mem)[addr := newFunc]
      ensures oldFunc != null ==> oldFunc.value == if old(mem)[addr] == newFunc then old(oldFunc.value)
                else old(mem)[addr]
    {
      if mem[addr] == newFunc {
        return;
      }
      var oldAddr := mem[addr];
      if oldFunc != null {
        oldFunc.value := oldAddr;
      }
      mem := mem[addr := newFunc];
    }

    /** xh_elf_find_and_replace_func */
    method FindAndReplace(isPlt: bool, symidx: nat, x: Reloc, newFunc: nat, oldFunc: Cell?)
        returns (r: Errno, found: bool)
      requires Matches(isPlt, symidx, x) && Slot(x) >= baseAddr ==> Slot(x) in mem
      modifies this`mem, oldFunc
      ensures found == Matches(isPlt, symidx, x) == Relocates(x, symidx, Kinds(isPlt)) && LiesAt(x, Slot(x))
      ensures r == if found && Slot(x) < baseAddr then Format else Ok
      ensures mem == if found && r == Ok then old(mem)[Slot(x) := newFunc] else old(mem)
      ensures oldFunc != null ==> oldFunc.value == if found && r == Ok && old(mem)[Slot(x)] != newFunc
                then old(mem)[Slot(x)] else old(oldFunc.value)
    {
      MatchesRelocates(isPlt, symidx, x);
      found := false;
      if Sym(x.info) != symidx {
        return Ok, found;
      }
      var kind := Type(x.info);
      if isPlt && kind != types.jumpSlot {
        return Ok, found;
      }
      if !isPlt && kind != types.globDat && kind != types.abs {
        return Ok, found;
      }
      found := true;
      var addr := Slot(x);
      if addr < baseAddr {
        return Format, found;
      }
      ReplaceFunction(addr, newFunc, oldFunc);
      r := Ok;
    }

    // ---------- Runs of slots ----------

    /** The slots of `done` have been patched since memory was mem0 and old_func held `before`. */
    ghost predicate Effect(mem0: map<nat, nat>, done: seq<nat>, newFunc: nat, oldFunc: Cell?, before: nat)
      reads this`mem, oldFunc
    {
      && (forall a <- done :: a in mem0)
      && mem == Patched(mem0, done, newFunc)
      && (oldFunc != null ==> Saved(mem0, done, newFunc, before, oldFunc.value))
    }

    /** One relocation more: FindAndReplace extends the slots patched so far by the slot of x, if x matches. */
    method Step(isPlt: bool, symidx: nat, x: Reloc, newFunc: nat, oldFunc: Cell?, ghost mem0: map<nat, nat>,
                ghost done: seq<nat>, ghost before: nat)
      returns (r: Errno, found: bool)
      requires Effect(mem0, done, newFunc, oldFunc, before)
      requires Matches(isPlt, symidx, x) && Slot(x) >= baseAddr ==> Slot(x) in mem0
      modifies this`mem, oldFunc
      ensures found == Matches(isPlt, symidx, x)
      ensures r == if found && Slot(x) < baseAddr then Format else Ok
      ensures Effect(mem0, if found && r == Ok then done + [Slot(x)] else done, newFunc, oldFunc, before)
    {
      hide Patched, Saved, Changes, Matches, Slot;
      ghost var middle := if oldFunc == null then 0 else oldFunc.value;
      r, found := FindAndReplace(isPlt, symidx, x, newFunc, oldFunc);
      if found && r == Ok {
        PatchedExtends(mem0, done, Slot(x), newFunc);
        if oldFunc != null {
          SavedExtends(mem0, done, Slot(x), newFunc, before, middle);
        }
      }
    }

    /** The loop over .rel(a).plt, which ends at the first match. */
    method PatchPlt(symidx: nat, newFunc: nat, oldFunc: Cell?, ghost mem0: map<nat, nat>, ghost before: nat)
        returns (r: Errno)
      requires Effect(mem0, [], newFunc, oldFunc, before)
      requires forall a <- Reached(UpTo1(Slots(true, symidx, relplt))) :: a in mem0
      modifies this`mem, oldFunc
      ensures var s := UpTo1(Slots(true, symidx, relplt));
        r == (if Reached(s) == s then Ok else Format) && Effect(mem0, Reached(s), newFunc, oldFunc, before)
    {
      var i := 0;
      assert relplt[0..] == relplt;
      while i < |relplt|
        invariant 0 <= i <= |relplt| && Slots(true, symidx, relplt[i..]) == Slots(true, symidx, relplt)
        invariant Effect(mem0, [], newFunc, oldFunc, before)
      {
        var found;
        assert relplt[i..][1..] == relplt[i + 1..];
        r, found := Step(true, symidx, relplt[i], newFunc, oldFunc, mem0, [], before);
        if found {
          ghost var s := UpTo1(Slots(true, symidx, relplt));
          assert s == [Slot(relplt[i])];
          assert s[1..] == [];
          return;
        }
        i := i + 1;
      }
      r := Ok;
    }

    /**
     * Step within a run over the slots s of a section of the second kind: `now` is done, and the relocations rels
     * are left.
     */
    method StepRun(symidx: nat, x: Reloc, newFunc: nat, oldFunc: Cell?, ghost mem0: map<nat, nat>,
                   ghost done: seq<nat>, ghost before: nat,
                   ghost s: seq<nat>, ghost now: seq<nat>, ghost rels: seq<Reloc>)
      returns (r: Errno, ghost now': seq<nat>)
      requires Effect(mem0, done + now, newFunc, oldFunc, before)
      requires rels != [] && x == rels[0] && s == now + Slots(false, symidx, rels) && Reached(now) == now
      requires forall a <- Reached(s) :: a in mem0
      modifies this`mem, oldFunc
      ensures r == Ok || r == Format
      ensures r == Ok ==> s == now' + Slots(false, symidx, rels[1..]) && Reached(now') == now'
      ensures r == Format ==> Reached(s) == now' != s
      ensures Effect(mem0, done + now', newFunc, oldFunc, before)
    {
      hide Effect, Matches, Slot, Reached;
      now' := now;
      ghost var rest := Slots(false, symidx, rels);
      Progress(s, now, rest);
      var found;
      r, found := Step(false, symidx, x, newFunc, oldFunc, mem0, done + now, before);
      if found && r == Ok {
        now' := now + [rest[0]];
        assert done + now' == (done + now) + [rest[0]];
      }
    }

    /** The loop over .rel(a).dyn. */
    method PatchDyn(symidx: nat, newFunc: nat, oldFunc: Cell?, ghost mem0: map<nat, nat>, ghost done: seq<nat>,
                    ghost before: nat)
      returns (r: Errno)
      requires Effect(mem0, done, newFunc, oldFunc, before)
      requires forall a <- Reached(Slots(false, symidx, reldyn)) :: a in mem0
      modifies this`mem, oldFunc
      ensures var s := Slots(false, symidx, reldyn);
        r == (if Reached(s) == s then Ok else Format) && Effect(mem0, done + Reached(s), newFunc, oldFunc, before)
    {
      hide Effect, Matches, Slot;
      var i := 0;
      ghost var s, now := Slots(false, symidx, reldyn), [];
      assert reldyn[0..] == reldyn && done + now == done;
      while i < |reldyn|
        invariant 0 <= i <= |reldyn| && s == now + Slots(false, symidx, reldyn[i..]) && Reached(now) == now
        invariant Effect(mem0, done + now, newFunc, oldFunc, before)
      {
        hide Reached;
        assert reldyn[i..][1..] == reldyn[i + 1..];
        r, now := StepRun(symidx, reldyn[i], newFunc, oldFunc, mem0, done, before, s, now, reldyn[i..]);
        if r != Ok {
          return;
        }
        i := i + 1;
      }
      Progress(s, now, []);
      r := Ok;
    }

    /** The loop over what the iterator still yields. */
    method PatchItems(it: Iterator, symidx: nat, newFunc: nat, oldFunc: Cell?, ghost mem0: map<nat, nat>,
                      ghost done: seq<nat>, ghost before: nat)
      returns (r: Errno)
      requires it.decoder.data == relandroid && it.decoder.cur <= |relandroid.bytes| && it.rela == useRela
      requires Effect(mem0, done, newFunc, oldFunc, before)
      requires forall a <- Reached(Slots(false, symidx, Drain(relandroid, it.View(), useRela))) :: a in mem0
      modifies this`mem, oldFunc, it, it.decoder
      ensures var s := Slots(false, symidx, old(Drain(relandroid, it.View(), useRela)));
        r == (if Reached(s) == s then Ok else Format) && Effect(mem0, done + Reached(s), newFunc, oldFunc, before)
    {
      hide Effect, Matches, Slot, NextReloc, Drain;
      ghost var left := Drain(relandroid, it.View(), useRela);
      ghost var s, now := Slots(false, symidx, left), [];
      assert done + now == done;
      var x := it.Next();
      while x.Some?
        invariant it.decoder.cur <= |relandroid.bytes|
        invariant left == if x == None then [] else [x.value] + Drain(relandroid, it.View(), useRela)
        invariant s == now + Slots(false, symidx, left) && Reached(now) == now
        invariant Effect(mem0, done + now, newFunc, oldFunc, before)
        decreases |left|
      {
        hide Reached;
        r, now := StepRun(symidx, x.value, newFunc, oldFunc, mem0, done, before, s, now, left);
        if r != Ok {
          return;
        }
        left := left[1..];
        x := it.Next();
      }
      Progress(s, now, []);
      r := Ok;
    }

    /** The walk over .rel(a).android; whether the iterator could be set up is not asked. */
    method PatchPacked(symidx: nat, newFunc: nat, oldFunc: Cell?, ghost mem0: map<nat, nat>, ghost done: seq<nat>,
                       ghost before: nat)
      returns (r: Errno)
      requires Effect(mem0, done, newFunc, oldFunc, before)
      requires forall a <- Reached(Slots(false, symidx, SectionRelocs(relandroid, useRela))) :: a in mem0
      modifies this`mem, oldFunc
      ensures var s := Slots(false, symidx, SectionRelocs(relandroid, useRela));
        r == (if Reached(s) == s then Ok else Format) && Effect(mem0, done + Reached(s), newFunc, oldFunc, before)
    {
      hide Effect, Matches, Slot, Slots, Reached, NextReloc, InitIt, SectionRelocs, Drain;
      var it := new Iterator(relandroid, useRela);
      var _ := it.Init();
      r := PatchItems(it, symidx, newFunc, oldFunc, mem0, done, before);
    }

    // ---------- The hook ----------

    /** xh_elf_find_symidx_by_name */
    method FindSymidx(symbol: CStr) returns (r: Option<nat>)
      requires TablesOk()
      ensures Finds(names, FirstIndex(), symbol, r)
    {
      if useGnuHash {
        r := GnuLookup(gnu, names, symbol);
      } else {
        r := HashLookup(sysv, names, symbol, rank);
      }
    }

    /** xh_elf_hook: a null symbol is None and a null pointer 0. The index the lookup found is given back as well. */
    method Hook(symbol: Option<CStr>, newFunc: nat, oldFunc: Cell?) returns (r: Errno, ghost symidx: Option<nat>)
      requires TablesOk()
      requires symbol.Some? ==> forall i, a | 0 <= i < |names| && names[i] == symbol.value && a in Reached(Plan(i)) ::
                 a in mem
      modifies this`mem, oldFunc
      ensures inited && symbol.Some? && newFunc != 0 ==> Finds(names, FirstIndex(), symbol.value, symidx)
      ensures if inited && symbol.Some? && newFunc != 0 && symidx.Some?
        then
          var s := Plan(symidx.value);
          && r == (if Reached(s) == s then Ok else Format)
          && Effect(old(mem), Reached(s), newFunc, oldFunc, if oldFunc == null then 0 else old(oldFunc.value))
        else
          && r == (if !inited then ElfInit else if symbol == None || newFunc == 0 then Inval else Ok)
          && mem == old(mem) && (oldFunc != null ==> oldFunc.value == old(oldFunc.value))
    {
      hide Reached, Slots, SectionRelocs, Saved, Changes, Finds, GnuOk, SysvOk;
      symidx := None;
      if !inited {
        return ElfInit, symidx;
      }
      if symbol == None || newFunc == 0 {
        return Inval, symidx;
      }
      var index := FindSymidx(symbol.value);
      symidx := index;
      if index == None {
        return Ok, symidx;
      }
      var i := index.value;
      ghost var mem0, before := mem, if oldFunc == null then 0 else oldFunc.value;
      ghost var p, q, t := UpTo1(Slots(true, i, relplt)), Slots(false, i, reldyn),
          Slots(false, i, SectionRelocs(relandroid, useRela));
      ReachedConcat(p + q, t);
      ReachedConcat(p, q);
      assert Patched(mem, [], newFunc) == mem;
      r := PatchPlt(i, newFunc, oldFunc, mem0, before);
      if r != Ok {
        return;
      }
      r := PatchDyn(i, newFunc, oldFunc, mem0, p, before);
      if r != Ok {
        return;
      }
      r := PatchPacked(i, newFunc, oldFunc, mem0, p + q, before);
    }
  }
}
