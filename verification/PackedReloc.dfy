/**
 * The iterator over Android's packed relocations (xh_elf.c), for 64-bit ELF, against an encoder of relocation groups.
 */
module PackedReloc {
  import opened Prelude
  import opened Sleb128

  /** A relocation; its parts are 64-bit words. Without addends (REL) the addend is 0. */
  datatype Reloc = Reloc(offset: nat, info: nat, addend: nat)

  // ---------- Group flags ----------

  predicate ByInfo(flags: nat) { flags % 2 == 1 }

  predicate ByOffset(flags: nat) { flags / 2 % 2 == 1 }

  predicate ByAddend(flags: nat) { flags / 4 % 2 == 1 }

  predicate HasAddend(flags: nat) { flags / 8 % 2 == 1 }

  // ---------- The iterator as a value ----------

  datatype It = It(cur: nat, count: nat, groupSize: nat, flags: nat, delta: nat, index: nat, groupIndex: nat,
                   offset: nat, info: nat, addend: nat)

  /** The number at position cur as a word, and the position after it. */
  ghost function Word(data: Packed, cur: nat): (r: Option<(nat, nat)>)
    ensures r.Some? ==> r.value.0 < WORD && cur < r.value.1 <= |data.bytes|
  {
    if cur > |data.bytes| then None
    else
      GatheredWord(data, cur, 0, 0);
      Gathered(data, cur, 0, 0)
  }

  ghost function InitIt(data: Packed): Option<It>
  {
    match Word(data, 0)
    case None => None
    case Some((count, p)) =>
      match Word(data, p)
      case None => None
      case Some((offset, q)) => Some(It(q, count, 0, 0, 0, 0, 0, offset, 0, 0))
  }

  /** Reads a word into a field when the group has it, and leaves the field otherwise. */
  ghost function Maybe(data: Packed, cur: nat, present: bool, otherwise: nat): Option<(nat, nat)>
  {
    if present then Word(data, cur) else Some((otherwise, cur))
  }

  /** The header of a group: its size, its flags, and what its relocations share. */
  ghost function GroupHeader(data: Packed, it: It, rela: bool): Option<It>
  {
    match Word(data, it.cur)
    case None => None
    case Some((size, p)) =>
    match Word(data, p)
    case None => None
    case Some((flags, q)) =>
    match Maybe(data, q, ByOffset(flags), it.delta)
    case None => None
    case Some((delta, s)) =>
    match Maybe(data, s, ByInfo(flags), it.info)
    case None => None
    case Some((info, t)) =>
      if HasAddend(flags) && ByAddend(flags) then
        if !rela then None
        else
          match Word(data, t)
          case None => None
          case Some((a, u)) => Some(It(u, it.count, size, flags, delta, it.index, 0, it.offset, info,
                                       Wrap(it.addend + a)))
      else
        Some(It(t, it.count, size, flags, delta, it.index, 0, it.offset, info, if HasAddend(flags) then it.addend
                else 0))
  }

  /** One relocation of the current group. */
  ghost function GroupItem(data: Packed, it: It, rela: bool): Option<(Reloc, It)>
  {
    match Maybe(data, it.cur, !ByOffset(it.flags), it.delta)
    case None => None
    case Some((step, p)) =>
    match Maybe(data, p, !ByInfo(it.flags), it.info)
    case None => None
    case Some((info, q)) =>
    var some := rela && HasAddend(it.flags) && !ByAddend(it.flags);
    match Maybe(data, q, some, 0)
    case None => None
    case Some((more, s)) =>
      var offset, addend := Wrap(it.offset + step), if some then Wrap(it.addend + more) else it.addend;
      Some((Reloc(offset, info, if rela then addend else 0),
            It(s, it.count, it.groupSize, it.flags, it.delta, it.index + 1, it.groupIndex + 1, offset, info, addend)))
  }

  ghost function NextReloc(data: Packed, it: It, rela: bool): Option<(Reloc, It)>
  {
    if it.index >= it.count then None
    else if it.groupIndex == it.groupSize then
      match GroupHeader(data, it, rela)
      case None => None
      case Some(header) => GroupItem(data, header, rela)
    else GroupItem(data, it, rela)
  }

  lemma NextCounts(data: Packed, it: It, rela: bool)
    ensures var r := NextReloc(data, it, rela); r.Some? ==>
              r.value.1.index == it.index + 1
              && r.value.1.count == it.count && it.index < it.count
  {
  }

  /** All that repeated calls of next yield until the first null. */
  ghost function Drain(data: Packed, it: It, rela: bool): (s: seq<Reloc>)
    ensures |s| <= if it.index < it.count then it.count - it.index else 0
    decreases it.count - it.index
  {
    match NextReloc(data, it, rela)
    case None => []
    case Some((x, next)) =>
      NextCounts(data, it, rela);
      [x] + Drain(data, next, rela)
  }

  /** The relocations of a packed section, as the loop over the iterator sees them. */
  ghost function SectionRelocs(data: Packed, rela: bool): seq<Reloc>
  {
    match InitIt(data)
    case None => []
    case Some(it) => Drain(data, it, rela)
  }

  /** Where the data has ended, next yields nothing. */
  lemma EndYieldsNothing(data: Packed, it: It, rela: bool)
    requires it.index >= it.count || (it.cur == |data.bytes| && it.groupIndex == it.groupSize)
    ensures Drain(data, it, rela) == []
  {
  }

  // ---------- The encoding ----------

  /**
   * A run of relocations, with what they share: the info, the distance of offsets, the addend; and whether they have
   * addends. delta, info and addend are the shared values. The bits of the flags above these four have no meaning.
   */
  datatype Group = Group(byInfo: bool, byOffset: bool, byAddend: bool, hasAddend: bool, other: nat,
                         delta: int, info: nat, addend: nat, relocs: seq<Reloc>)

  /** The flags of a group as they are stored. */
  function Flags(g: Group): nat
  {
    (if g.byInfo then 1 else 0) + (if g.byOffset then 2 else 0) + (if g.byAddend then 4 else 0)
    + (if g.hasAddend then 8 else 0) + 16 * g.other
  }

  lemma Halved(b: nat, q: nat)
    requires b < 2
    ensures (b + 2 * q) % 2 == b && (b + 2 * q) / 2 == q
  {
  }

  lemma FourBits(a: nat, b: nat, c: nat, d: nat, q: nat)
    requires a < 2 && b < 2 && c < 2 && d < 2
    ensures var f := a + 2 * b + 4 * c + 8 * d + 16 * q;
            f % 2 == a && f / 2 % 2 == b && f / 4 % 2 == c && f / 8 % 2 == d
  {
    var f := a + 2 * b + 4 * c + 8 * d + 16 * q;
    Halved(a, b + 2 * c + 4 * d + 8 * q);
    Halved(b, c + 2 * d + 4 * q);
    Halved(c, d + 2 * q);
    Halved(d, q);
    assert f / 4 == f / 2 / 2 && f / 8 == f / 2 / 2 / 2;
  }

  lemma FlagsRead(g: Group)
    ensures ByInfo(Flags(g)) == g.byInfo && ByOffset(Flags(g)) == g.byOffset
    ensures ByAddend(Flags(g)) == g.byAddend && HasAddend(Flags(g)) == g.hasAddend
  {
    FourBits(if g.byInfo then 1 else 0, if g.byOffset then 1 else 0, if g.byAddend then 1 else 0,
             if g.hasAddend then 1 else 0, g.other);
  }

  ghost predicate IsWords(x: Reloc)
  {
    x.offset < WORD && x.info < WORD && x.addend < WORD
  }

  /** The relocations of a group fit its flags, coming after a relocation at offset. */
  ghost predicate BodyLegal(g: Group, rela: bool, relocs: seq<Reloc>, offset: nat)
  {
    if relocs == [] then true
    else
      var x := relocs[0];
      && IsWords(x)
      && (g.byOffset ==> x.offset == Wrap(offset + g.delta))
      && (g.byInfo ==> x.info == g.info)
      && (g.hasAddend && g.byAddend ==> x.addend == g.addend)
      && (!rela || !g.hasAddend ==> x.addend == 0)
      && BodyLegal(g, rela, relocs[1..], x.offset)
  }

  ghost predicate GroupLegal(g: Group, rela: bool, offset: nat)
  {
    && Flags(g) < WORD && Fits(g.delta) && g.info < WORD && g.addend < WORD && 0 < |g.relocs| < WORD
    && (rela || !(g.hasAddend && g.byAddend))
    && BodyLegal(g, rela, g.relocs, offset)
  }

  ghost function EndOffset(relocs: seq<Reloc>, offset: nat): nat
  {
    if relocs == [] then offset else relocs[|relocs| - 1].offset
  }

  ghost function EndAddend(relocs: seq<Reloc>, addend: nat): nat
  {
    if relocs == [] then addend else relocs[|relocs| - 1].addend
  }

  ghost predicate Legal(groups: seq<Group>, rela: bool, offset: nat)
  {
    groups != [] ==>
        GroupLegal(groups[0], rela, offset)
        && Legal(groups[1..], rela, EndOffset(groups[0].relocs, offset))
  }

  /** The encoding of v, if present, followed by rest. */
  ghost function Put(present: bool, v: int, rest: seq<Byte>): seq<Byte>
  {
    if present then Encoded(v) + rest else rest
  }

  /** The relocations of a group coming after one at offset with addend, followed by more. */
  ghost function PutBody(g: Group, rela: bool, relocs: seq<Reloc>, offset: nat, addend: nat,
                         more: seq<Byte>): seq<Byte>
  {
    if relocs == [] then more
    else
      var x := relocs[0];
      Put(!g.byOffset, x.offset - offset,
      Put(!g.byInfo, x.info,
      Put(rela && g.hasAddend && !g.byAddend, x.addend - addend,
      PutBody(g, rela, relocs[1..], x.offset, x.addend, more))))
  }

  ghost function PutGroup(g: Group, rela: bool, offset: nat, addend: nat, more: seq<Byte>): seq<Byte>
  {
    Put(true, |g.relocs|,
    Put(true, Flags(g),
    Put(g.byOffset, g.delta,
    Put(g.byInfo, g.info,
    Put(g.hasAddend && g.byAddend, g.addend - addend,
    PutBody(g, rela, g.relocs, offset, addend, more))))))
  }

  ghost function PutGroups(groups: seq<Group>, rela: bool, offset: nat, addend: nat, more: seq<Byte>): seq<Byte>
  {
    if groups == [] then more
    else
      var g := groups[0];
      PutGroup(g, rela, offset, addend,
               PutGroups(groups[1..], rela, EndOffset(g.relocs, offset), EndAddend(g.relocs, addend), more))
  }

  ghost function All(groups: seq<Group>): seq<Reloc>
  {
    if groups == [] then [] else groups[0].relocs + All(groups[1..])
  }

  /** The packed section: the number of relocations, the start offset, and the groups, followed by more. */
  ghost function Section(groups: seq<Group>, rela: bool, offset: nat, more: seq<Byte>): seq<Byte>
  {
    Put(true, |All(groups)|, Put(true, offset, PutGroups(groups, rela, offset, 0, more)))
  }

  // ---------- Decoding undoes encoding ----------

  ghost predicate Rest(data: Packed, cur: nat, s: seq<Byte>)
  {
    cur <= |data.bytes| && data.bytes[cur..] == s
  }

  /** Where the data goes on with an encoded number, if present, that number is read and the rest follows. */
  lemma ReadPut(data: Packed, cur: nat, present: bool, v: int, otherwise: nat, rest: seq<Byte>)
    requires Rest(data, cur, Put(present, v, rest)) && Fits(v)
    ensures |rest| <= |data.bytes| && Rest(data, |data.bytes| - |rest|, rest)
    ensures Maybe(data, cur, present, otherwise)
         == Some((if present then Wrap(v) else otherwise, |data.bytes| - |rest|))
  {
    if present {
      DecodeEncoded(v, rest);
      FitsShortly(v);
      GatheredFromStart(data, cur);
      assert data.bytes[|data.bytes| - |rest|..] == data.bytes[cur..][|Encoded(v)|..];
    }
  }

  lemma AddSub(a: nat, b: nat)
    requires b < WORD
    ensures Wrap(a + Wrap(b - a)) == b
  {
    AddMod2(a, b - a);
    ModUnique(b, WORD, 0, b);
  }

  lemma AddMod2(a: int, b: int)
    ensures Wrap(a + Wrap(b)) == Wrap(a + b)
  {
    AddMod(a + Wrap(b), b - Wrap(b), WORD);
  }

  lemma WrapSame(a: nat)
    requires a < WORD
    ensures Wrap(a) == a
  {
  }

  /** The iterator stands within group g, with the relocations of tail still to come, and more after them. */
  ghost predicate Within(data: Packed, it: It, rela: bool, g: Group, tail: seq<Reloc>, more: seq<Byte>)
  {
    && Rest(data, it.cur, PutBody(g, rela, tail, it.offset, it.addend, more))
    && it.flags == Flags(g) && it.groupSize == it.groupIndex + |tail| && it.offset < WORD && it.addend < WORD
    && (g.byOffset ==> it.delta == Wrap(g.delta)) && (g.byInfo ==> it.info == g.info)
    && (!rela || !g.hasAddend ==> it.addend == 0)
    && (g.hasAddend && g.byAddend ==> rela && it.addend == g.addend)
    && Fits(g.delta) && BodyLegal(g, rela, tail, it.offset)
  }

  /** One call of next within a group yields the group's next relocation. */
  lemma ItemStep(data: Packed, it: It, rela: bool, g: Group, tail: seq<Reloc>, more: seq<Byte>)
    requires Within(data, it, rela, g, tail, more) && tail != []
    ensures var r := GroupItem(data, it, rela);
              r.Some? && r.value.0 == tail[0]
              && Within(data, r.value.1, rela, g, tail[1..], more)
    ensures var r := GroupItem(data, it, rela).value.1;
      r.offset == tail[0].offset && r.addend == tail[0].addend && r.count == it.count && r.index == it.index + 1
  {
    hide Wrap, ByInfo, ByOffset, ByAddend, HasAddend, Put, Rest, Word, Flags;
    FlagsRead(g);
    var x := tail[0];
    var some := rela && g.hasAddend && !g.byAddend;
    var s2 := PutBody(g, rela, tail[1..], x.offset, x.addend, more);
    var s1 := Put(some, x.addend - it.addend, s2);
    var s0 := Put(!g.byInfo, x.info, s1);
    ReadPut(data, it.cur, !g.byOffset, x.offset - it.offset, it.delta, s0);
    ReadPut(data, |data.bytes| - |s0|, !g.byInfo, x.info, it.info, s1);
    ReadPut(data, |data.bytes| - |s1|, some, x.addend - it.addend, 0, s2);
    ItemOffset(it, g, x);
    AddSub(it.addend, x.addend);
    WrapSame(x.info);
  }

  lemma ItemOffset(it: It, g: Group, x: Reloc)
    requires x.offset < WORD
    requires (g.byOffset ==> x.offset == Wrap(it.offset + g.delta) && it.delta == Wrap(g.delta))
    ensures Wrap(it.offset + if g.byOffset then it.delta else Wrap(x.offset - it.offset)) == x.offset
  {
    if g.byOffset {
      AddMod2(it.offset, g.delta);
    } else {
      AddSub(it.offset, x.offset);
    }
  }

  /** Without addend deltas, the encoding of the relocations does not depend on the addend before them. */
  lemma BodyNoAddend(g: Group, rela: bool, relocs: seq<Reloc>, offset: nat, a: nat, b: nat, more: seq<Byte>)
    requires !(rela && g.hasAddend && !g.byAddend)
    ensures PutBody(g, rela, relocs, offset, a, more) == PutBody(g, rela, relocs, offset, b, more)
  {
  }

  /** What reading the header of an encoded group gives, field by field. */
  lemma HeaderRead(data: Packed, it: It, rela: bool, g: Group, body: seq<Byte>)
    requires Rest(data, it.cur,
                  Put(true, |g.relocs|, Put(true, Flags(g), Put(g.byOffset, g.delta, Put(g.byInfo, g.info,
                  Put(g.hasAddend && g.byAddend, g.addend - it.addend, body))))))
    requires Flags(g) < WORD && Fits(g.delta) && g.info < WORD && g.addend < WORD && 0 < |g.relocs| < WORD
    requires (rela || !(g.hasAddend && g.byAddend)) && it.addend < WORD
    ensures |body| <= |data.bytes| && Rest(data, |data.bytes| - |body|, body)
    ensures GroupHeader(data, it, rela) ==
            Some(It(|data.bytes| - |body|, it.count, |g.relocs|, Flags(g),
                    if g.byOffset then Wrap(g.delta) else it.delta, it.index, 0, it.offset,
                    if g.byInfo then g.info else it.info,
                    if g.hasAddend && g.byAddend then g.addend else if g.hasAddend then it.addend else 0))
  {
    hide Wrap, ByInfo, ByOffset, ByAddend, HasAddend, Put, Rest, Word, Flags;
    FlagsRead(g);
    var shared := g.hasAddend && g.byAddend;
    var s3 := Put(shared, g.addend - it.addend, body);
    var s2 := Put(g.byInfo, g.info, s3);
    var s1 := Put(g.byOffset, g.delta, s2);
    var s0 := Put(true, Flags(g), s1);
    ReadPut(data, it.cur, true, |g.relocs|, 0, s0);
    ReadPut(data, |data.bytes| - |s0|, true, Flags(g), 0, s1);
    ReadPut(data, |data.bytes| - |s1|, g.byOffset, g.delta, it.delta, s2);
    ReadPut(data, |data.bytes| - |s2|, g.byInfo, g.info, it.info, s3);
    ReadPut(data, |data.bytes| - |s3|, shared, g.addend - it.addend, 0, body);
    AddSub(it.addend, g.addend);
    WrapSame(|g.relocs|);
    WrapSame(Flags(g));
    WrapSame(g.info);
  }

  /** Reading the header of an encoded group brings the iterator to the group's relocations. */
  lemma HeaderStep(data: Packed, it: It, rela: bool, g: Group, more: seq<Byte>)
    requires Rest(data, it.cur, PutGroup(g, rela, it.offset, it.addend, more))
    requires GroupLegal(g, rela, it.offset) && it.offset < WORD && it.addend < WORD && (!rela ==> it.addend == 0)
    ensures var r := GroupHeader(data, it, rela);
      && r.Some? && r.value.index == it.index && r.value.count == it.count && r.value.offset == it.offset
      && r.value.groupIndex == 0 && Within(data, r.value, rela, g, g.relocs, more)
  {
    hide Wrap, Put, Rest, BodyLegal, PutBody, Flags, GroupHeader;
    HeaderRead(data, it, rela, g, PutBody(g, rela, g.relocs, it.offset, it.addend, more));
    var after := if g.hasAddend && g.byAddend then g.addend else if g.hasAddend then it.addend else 0;
    if after != it.addend {
      BodyNoAddend(g, rela, g.relocs, it.offset, it.addend, after, more);
    }
  }

  /** From within a group on, the calls of next yield the rest of the group and then the groups that follow. */
  lemma {:induction false} DrainFrom(data: Packed, it: It, rela: bool, g: Group, tail: seq<Reloc>, groups: seq<Group>,
                                     more: seq<Byte>)
    requires Legal(groups, rela, EndOffset(tail, it.offset)) && it.count == it.index + |tail| + |All(groups)|
    requires Within(data, it, rela, g, tail,
                    PutGroups(groups, rela, EndOffset(tail, it.offset), EndAddend(tail, it.addend), more))
    ensures Drain(data, it, rela) == tail + All(groups)
    decreases |groups|, |tail|, 1
  {
    hide Wrap, ByInfo, ByOffset, ByAddend, HasAddend, Put, Rest, Word, Flags;
    if tail != [] {
      var rest := PutGroups(groups, rela, EndOffset(tail, it.offset), EndAddend(tail, it.addend), more);
      ItemStep(data, it, rela, g, tail, rest);
      var next := GroupItem(data, it, rela).value.1;
      assert NextReloc(data, it, rela) == Some((tail[0], next));
      assert EndOffset(tail[1..], next.offset) == EndOffset(tail, it.offset)
          && EndAddend(tail[1..], next.addend) == EndAddend(tail, it.addend);
      DrainFrom(data, next, rela, g, tail[1..], groups, more);
      assert tail + All(groups) == [tail[0]] + (tail[1..] + All(groups));
    } else if groups != [] {
      DrainGroup(data, it, rela, groups, more);
    }
  }

  /** At the end of a group, or at the start, the calls of next yield the groups that follow. */
  lemma {:induction false} DrainGroup(data: Packed, it: It, rela: bool, groups: seq<Group>, more: seq<Byte>)
    requires groups != [] && Legal(groups, rela, it.offset) && it.count == it.index + |All(groups)|
    requires it.groupIndex == it.groupSize && it.offset < WORD && it.addend < WORD && (!rela ==> it.addend == 0)
    requires Rest(data, it.cur, PutGroups(groups, rela, it.offset, it.addend, more))
    ensures Drain(data, it, rela) == All(groups)
    decreases |groups|, 0, 0
  {
    hide Wrap, ByInfo, ByOffset, ByAddend, HasAddend, Put, Rest, Word, Flags, GroupHeader, GroupItem, NextReloc, Within,
        GroupLegal, BodyLegal, PutGroup;
    hide PutGroups, EndOffset, EndAddend, Legal, All;
    var g := groups[0];
    var end, last := EndOffset(g.relocs, it.offset), EndAddend(g.relocs, it.addend);
    var rest := PutGroups(groups[1..], rela, end, last, more);
    FirstGroup(groups, rela, it.offset, it.addend, more);
    FirstOfGroup(data, it, rela, g, rest);
    var next := NextReloc(data, it, rela).value.1;
    DrainFrom(data, next, rela, g, g.relocs[1..], groups[1..], more);
    assert All(groups) == [g.relocs[0]] + (g.relocs[1..] + All(groups[1..]));
  }

  /** The parts of a list of groups, of its encoding, and of its legality. */
  lemma FirstGroup(groups: seq<Group>, rela: bool, offset: nat, addend: nat, more: seq<Byte>)
    requires groups != [] && Legal(groups, rela, offset)
    ensures var g := groups[0];
      && GroupLegal(g, rela, offset) && g.relocs != [] && All(groups) == g.relocs + All(groups[1..])
      && Legal(groups[1..], rela, EndOffset(g.relocs, offset))
      && EndOffset(g.relocs, offset) == EndOffset(g.relocs[1..], g.relocs[0].offset)
      && EndAddend(g.relocs, addend) == EndAddend(g.relocs[1..], g.relocs[0].addend)
      && PutGroups(groups, rela, offset, addend, more) ==
        PutGroup(g, rela, offset, addend,
                 PutGroups(groups[1..], rela, EndOffset(g.relocs, offset), EndAddend(g.relocs, addend), more))
  {
    hide BodyLegal, PutGroup;
  }

  /** At the start of a group the call of next yields its first relocation. */
  lemma FirstOfGroup(data: Packed, it: It, rela: bool, g: Group, rest: seq<Byte>)
    requires GroupLegal(g, rela, it.offset) && it.groupIndex == it.groupSize && it.index < it.count
    requires it.offset < WORD && it.addend < WORD && (!rela ==> it.addend == 0)
    requires Rest(data, it.cur, PutGroup(g, rela, it.offset, it.addend, rest))
    ensures var r := NextReloc(data, it, rela);
              r.Some? && r.value.0 == g.relocs[0]
              && Within(data, r.value.1, rela, g, g.relocs[1..], rest)
    ensures var r := NextReloc(data, it, rela).value.1;
      r.offset == g.relocs[0].offset && r.addend == g.relocs[0].addend && r.count == it.count && r.index == it.index + 1
  {
    hide Wrap, ByInfo, ByOffset, ByAddend, HasAddend, Put, Rest, Word, Flags, GroupHeader, GroupItem, Within, BodyLegal,
        PutGroup;
    HeaderStep(data, it, rela, g, rest);
    ItemStep(data, GroupHeader(data, it, rela).value, rela, g, g.relocs, rest);
  }

  /**
   * Decoding a packed section, whatever follows it, yields exactly the relocations encoded in it, on any machine:
   * no number of it is so long that a shift by 64 or more would be made.
   */
  lemma DecodeSection(groups: seq<Group>, rela: bool, offset: nat, more: seq<Byte>, overshift: (nat, nat) -> nat)
    requires offset < WORD && |All(groups)| < WORD && Legal(groups, rela, offset)
    ensures SectionRelocs(Packed(Section(groups, rela, offset, more), overshift), rela) == All(groups)
  {
    hide Wrap, ByInfo, ByOffset, ByAddend, HasAddend, Put, Rest, Word, Flags;
    var data := Packed(Section(groups, rela, offset, more), overshift);
    var s1 := PutGroups(groups, rela, offset, 0, more);
    var s0 := Put(true, offset, s1);
    assert data.bytes[0..] == data.bytes;
    ReadPut(data, 0, true, |All(groups)|, 0, s0);
    ReadPut(data, |data.bytes| - |s0|, true, offset, 0, s1);
    WrapSame(|All(groups)|);
    WrapSame(offset);
    if groups != [] {
      DrainGroup(data, InitIt(data).value, rela, groups, more);
    }
  }

  // ---------- The iterator ----------

  class Iterator {
    const decoder: Decoder
    const rela: bool
    var relocationCount: nat
    var groupSize: nat
    var groupFlags: nat
    var groupOffsetDelta: nat
    var relocationIndex: nat
    var relocationGroupIndex: nat
    var rOffset: nat
    var rInfo: nat
    var rAddend: nat

    constructor (data: Packed, rela: bool)
      ensures fresh(decoder) && decoder.data == data && decoder.cur == 0 && this.rela == rela
      ensures View() == It(0, 0, 0, 0, 0, 0, 0, 0, 0, 0)
    {
      decoder := new Decoder(data);
      this.rela := rela;
      relocationCount, groupSize, groupFlags, groupOffsetDelta := 0, 0, 0, 0;
      relocationIndex, relocationGroupIndex, rOffset, rInfo, rAddend := 0, 0, 0, 0, 0;
    }

    ghost function View(): It
      reads this, decoder
    {
      It(decoder.cur, relocationCount, groupSize, groupFlags, groupOffsetDelta, relocationIndex, relocationGroupIndex,
         rOffset, rInfo, rAddend)
    }

    /** xh_elf_packed_reloc_iterator_init, after the fields are cleared. */
    method Init() returns (ok: bool)
      requires View() == It(0, 0, 0, 0, 0, 0, 0, 0, 0, 0)
      modifies this`relocationCount, this`rOffset, decoder
      ensures match InitIt(decoder.data)
        case None => !ok
        case Some(it) => ok && View() == it
      ensures decoder.cur <= |decoder.data.bytes|
      ensures Drain(decoder.data, View(), rela) == SectionRelocs(decoder.data, rela)
    {
      var count := decoder.Next();
      if count == None {
        EndYieldsNothing(decoder.data, View(), rela);
        return false;
      }
      relocationCount := count.value;
      var offset := decoder.Next();
      if offset == None {
        EndYieldsNothing(decoder.data, View(), rela);
        return false;
      }
      rOffset := offset.value;
      ok := true;
    }

    /** A field that is read only if present, and otherwise keeps its value. */
    method ReadIf(present: bool, field: nat) returns (r: Option<nat>)
      requires decoder.cur <= |decoder.data.bytes|
      modifies decoder
      ensures decoder.cur <= |decoder.data.bytes|
      ensures match Maybe(decoder.data, old(decoder.cur), present, field)
        case None => r == None
        case Some((v, p)) => r == Some(v) && decoder.cur == p
    {
      r := Some(field);
      if present {
        r := decoder.Next();
      }
    }

    /** xh_elf_packed_reloc_iterator_read_group_fields */
    method ReadGroupFields() returns (ok: bool)
      requires decoder.cur <= |decoder.data.bytes|
      modifies this`groupSize, this`groupFlags, this`groupOffsetDelta, this`rInfo, this`rAddend
      modifies this`relocationGroupIndex, decoder
      ensures match GroupHeader(decoder.data, old(View()), rela)
        case None => !ok
        case Some(it) => ok && View() == it
      ensures decoder.cur <= |decoder.data.bytes|
    {
      hide Wrap, ByInfo, ByOffset, ByAddend, HasAddend, Word, Decoded;
      var val := ReadIf(true, 0);
      if val == None { return false; }
      groupSize := val.value;
      val := ReadIf(true, 0);
      if val == None { return false; }
      groupFlags := val.value;
      val := ReadIf(ByOffset(groupFlags), groupOffsetDelta);
      if val == None { return false; }
      groupOffsetDelta := val.value;
      val := ReadIf(ByInfo(groupFlags), rInfo);
      if val == None { return false; }
      rInfo := val.value;
      if HasAddend(groupFlags) && ByAddend(groupFlags) {
        if !rela { return false; }
        val := ReadIf(true, 0);
        if val == None { return false; }
        rAddend := Wrap(rAddend + val.value);
      } else if !HasAddend(groupFlags) {
        rAddend := 0;
      }
      relocationGroupIndex := 0;
      ok := true;
    }

    /** The part of xh_elf_packed_reloc_iterator_next that reads one relocation of the current group. */
    method ReadItem() returns (r: Option<Reloc>)
      requires decoder.cur <= |decoder.data.bytes|
      modifies this`rOffset, this`rInfo, this`rAddend, this`relocationIndex, this`relocationGroupIndex, decoder
      ensures match GroupItem(decoder.data, old(View()), rela)
        case None => r == None && relocationIndex == old(relocationIndex)
        case Some((x, it)) => r == Some(x) && View() == it
      ensures decoder.cur <= |decoder.data.bytes|
    {
      hide Wrap, ByInfo, ByOffset, ByAddend, HasAddend, Word, Decoded;
      var val := ReadIf(!ByOffset(groupFlags), groupOffsetDelta);
      if val == None { return None; }
      rOffset := Wrap(rOffset + val.value);
      val := ReadIf(!ByInfo(groupFlags), rInfo);
      if val == None { return None; }
      rInfo := val.value;
      if rela && HasAddend(groupFlags) && !ByAddend(groupFlags) {
        val := ReadIf(true, 0);
        if val == None { return None; }
        rAddend := Wrap(rAddend + val.value);
      }
      relocationIndex := relocationIndex + 1;
      relocationGroupIndex := relocationGroupIndex + 1;
      r := Some(Reloc(rOffset, rInfo, if rela then rAddend else 0));
    }

    /** xh_elf_packed_reloc_iterator_next; None stands for the null result. */
    method Next() returns (r: Option<Reloc>)
      requires decoder.cur <= |decoder.data.bytes|
      modifies this, decoder
      ensures match NextReloc(decoder.data, old(View()), rela)
        case None => r == None && relocationIndex == old(relocationIndex)
        case Some((x, it)) => r == Some(x) && View() == it
      ensures Drain(decoder.data, old(View()), rela) == if r == None then []
                else [r.value] + Drain(decoder.data, View(), rela)
      ensures decoder.cur <= |decoder.data.bytes| && relocationCount == old(relocationCount)
    {
      if relocationIndex >= relocationCount {
        return None;
      }
      if relocationGroupIndex == groupSize {
        var ok := ReadGroupFields();
        if !ok {
          return None;
        }
      }
      r := ReadItem();
    }
  }
}
