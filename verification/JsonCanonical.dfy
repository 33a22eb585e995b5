/** What the reader gives is canonical: written and read again, an accepted text gives the same value. */
module JsonCanonical {
  import opened Prelude
  import opened JsonString
  import opened JsonNumber
  import opened JsonValue
  import opened JsonGrammar
  import opened JsonFastWriter
  import opened JsonRoundTrip

  /** Members in order, and integers in range under the tag that the reader picks. */
  predicate Canonical(v: Value)
    decreases v
  {
    match v
    case Int(i) => MIN_INT <= i <= MAX_INT
    case UInt(u) => MAX_INT < u <= MAX_UINT
    case Arr(items) => forall x <- items :: Canonical(x)
    case Obj(members) => Ascending(members) && forall m <- members :: Canonical(m.value)
    case _ => true
  }

  /** Doubles aside, all text is well-formed UTF-8. */
  predicate PlainText(v: Value)
    decreases v
  {
    match v
    case Real(_) => false
    case Str(s) => WellFormed(s)
    case Arr(items) => forall x <- items :: PlainText(x)
    case Obj(members) => forall m <- members :: WellFormed(m.name) && PlainText(m.value)
    case _ => true
  }

  // ---------- Putting keeps members in order ----------

  predicate LessThanAll(name: Bytes, members: seq<Member>)
  {
    members == [] || Less(name, members[0].name)
  }

  lemma AscendingCons(m: Member, members: seq<Member>)
    ensures Ascending([m] + members) <==> Ascending(members) && LessThanAll(m.name, members)
  {
    var all := [m] + members;
    assert all[1..] == members;
    assert members != [] ==> all[1] == members[0] && all[1 - 1] == m;
    if Ascending(all) {
      forall i | 0 < i < |members|
        ensures Less(members[i - 1].name, members[i].name)
      {
        assert members[i - 1] == all[i] && members[i] == all[i + 1] && all[i + 1 - 1] == all[i];
      }
    }
    if Ascending(members) && LessThanAll(m.name, members) {
      forall i | 0 < i < |all|
        ensures Less(all[i - 1].name, all[i].name)
      {
        assert all[i] == members[i - 1];
        if i > 1 { assert all[i - 1] == members[i - 1 - 1]; }
      }
    }
  }

  lemma {:induction false} PutAscends(members: seq<Member>, name: Bytes, v: Value)
    requires Ascending(members)
    ensures Ascending(Put(members, name, v))
    ensures forall low | LessThanAll(low, members) && Less(low, name) :: LessThanAll(low, Put(members, name, v))
  {
    hide Ascending, Less;
    var added := Member(name, v);
    if members == [] {
      AscendingCons(added, []);
      assert [added] + [] == [added];
      assert Ascending([]) by { AscendingNone(); }
    } else {
      var first, more := members[0], members[1..];
      assert members == [first] + more;
      AscendingCons(first, more);
      if first.name == name {
        AscendingCons(added, more);
      } else if Less(name, first.name) {
        AscendingCons(added, members);
      } else {
        LessIsStrict(first.name, name);
        PutAscends(more, name, v);
        AscendingCons(first, Put(more, name, v));
      }
    }
  }

  lemma AscendingNone()
    ensures Ascending([])
  {
  }

  lemma {:induction false} PutValues(members: seq<Member>, name: Bytes, v: Value)
    ensures forall m <- Put(members, name, v) :: m in members || m.value == v
  {
    if members != [] {
      PutValues(members[1..], name, v);
      assert members == [members[0]] + members[1..];
    }
  }

  // ---------- The reader's values ----------

  lemma ScalarIsCanonical(t: Token, cf: Config)
    requires t.kind == StringToken ==> |t.text| >= 2
    ensures ScalarOf(t, cf).Some? ==> Canonical(ScalarOf(t, cf).value)
  {
  }

  predicate AllCanonical(items: seq<Value>)
  {
    forall x <- items :: Canonical(x)
  }

  predicate MembersCanonical(members: seq<Member>)
  {
    Ascending(members) && forall m <- members :: Canonical(m.value)
  }

  lemma {:induction false} ReadIsCanonical(s: Bytes, depth: nat, cf: Config)
    ensures ReadValue(s, depth, cf).Done? ==> Canonical(ReadValue(s, depth, cf).value)
    decreases |s|, 0
  {
    hide Tok, TokSkip, ScalarOf;
    if depth <= STACK_LIMIT {
      var t := FirstToken(s, cf);
      ScalarIsCanonical(t, cf);
      if t.kind == ObjectBegin {
        ReadMembersIsCanonical(t.rest, depth, [], [], cf);
      } else if t.kind == ArrayBegin {
        var u := SkipSpaces(t.rest);
        ReadItemsIsCanonical(u, depth, [], cf);
      }
    }
  }

  lemma {:induction false} ReadItemsIsCanonical(s: Bytes, depth: nat, items: seq<Value>, cf: Config)
    requires AllCanonical(items)
    ensures ReadItems(s, depth, items, cf).Done? ==> Canonical(ReadItems(s, depth, items, cf).value)
    decreases |s|, 1
  {
    hide Tok, TokSkip, ReadValue;
    ReadIsCanonical(s, depth + 1, cf);
    var v := ReadValue(s, depth + 1, cf);
    if v.Done? {
      var t := TokSkip(v.rest);
      if t.kind == ArraySeparator {
        ReadItemsIsCanonical(t.rest, depth, items + [v.value], cf);
      }
    }
  }

  lemma {:induction false} ReadMembersIsCanonical(s: Bytes, depth: nat, members: seq<Member>, name: Bytes, cf: Config)
    requires MembersCanonical(members)
    ensures ReadMembers(s, depth, members, name, cf).Done? ==> Canonical(ReadMembers(s, depth, members, name, cf).value)
    decreases |s|, 1
  {
    hide Tok, TokSkip, ReadValue, NameOf, Put, Ascending;
    assert Canonical(Obj(members));
    var t := TokSkip(s);
    var key := NameOf(t, cf);
    if !(t.kind == ObjectEnd && name == []) && key.Some? {
      var colon := Tok(t.rest);
      var v := EntryValue(t.rest, depth, cf);
      if v.Done? {
        ReadIsCanonical(colon.rest, depth + 1, cf);
        PutAscends(members, key.value, v.value);
        PutValues(members, key.value, v.value);
        var now := Put(members, key.value, v.value);
        assert MembersCanonical(now) && Canonical(Obj(now));
        var comma, after := Tok(v.rest), TokSkip(v.rest);
        if (comma.kind == ObjectEnd || comma.kind == ArraySeparator || comma.kind == Comment)
            && after.kind != ObjectEnd {
          ReadMembersIsCanonical(after.rest, depth, now, key.value, cf);
        }
      }
    }
  }

  // ---------- The reader's values are within its stack limit ----------

  lemma {:induction false} HeightAppend(items: seq<Value>, v: Value)
    ensures HeightOfItems(items + [v]) == Max(HeightOfItems(items), 1 + Height(v))
  {
    if items == [] {
      assert [] + [v] == [v];
    } else {
      HeightAppend(items[1..], v);
      assert (items + [v])[1..] == items[1..] + [v];
    }
  }

  lemma {:induction false} HeightPut(members: seq<Member>, name: Bytes, v: Value)
    ensures HeightOfMembers(Put(members, name, v)) <= Max(HeightOfMembers(members), 1 + Height(v))
  {
    if members != [] {
      var first, more := members[0], members[1..];
      HeightPut(more, name, v);
      HeightCons(Member(name, v), more);
      HeightCons(Member(name, v), members);
      HeightCons(first, Put(more, name, v));
    }
  }

  lemma HeightCons(m: Member, members: seq<Member>)
    ensures HeightOfMembers([m] + members) == Max(1 + Height(m.value), HeightOfMembers(members))
  {
    assert ([m] + members)[1..] == members;
  }

  lemma {:induction false} ReadWithinLimit(s: Bytes, depth: nat, cf: Config)
    ensures ReadValue(s, depth, cf).Done? ==> depth + Height(ReadValue(s, depth, cf).value) <= STACK_LIMIT
    decreases |s|, 0
  {
    hide Tok, TokSkip;
    if depth <= STACK_LIMIT {
      var t := FirstToken(s, cf);
      if t.kind == ObjectBegin {
        ReadMembersWithinLimit(t.rest, depth, [], [], cf);
      } else if t.kind == ArrayBegin {
        ReadItemsWithinLimit(SkipSpaces(t.rest), depth, [], cf);
      }
    }
  }

  lemma {:induction false} ReadItemsWithinLimit(s: Bytes, depth: nat, items: seq<Value>, cf: Config)
    requires depth + HeightOfItems(items) <= STACK_LIMIT
    ensures ReadItems(s, depth, items, cf).Done? ==> depth + Height(ReadItems(s, depth, items, cf).value) <= STACK_LIMIT
    decreases |s|, 1
  {
    hide Tok, TokSkip, ReadValue;
    ReadWithinLimit(s, depth + 1, cf);
    var v := ReadValue(s, depth + 1, cf);
    if v.Done? {
      HeightAppend(items, v.value);
      var t := TokSkip(v.rest);
      if t.kind == ArraySeparator {
        ReadItemsWithinLimit(t.rest, depth, items + [v.value], cf);
      }
    }
  }

  lemma {:induction false} ReadMembersWithinLimit(s: Bytes, depth: nat, members: seq<Member>, name: Bytes, cf: Config)
    requires depth + HeightOfMembers(members) <= STACK_LIMIT
    ensures ReadMembers(s, depth, members, name, cf).Done? ==>
              depth + Height(ReadMembers(s, depth, members, name, cf).value) <= STACK_LIMIT
    decreases |s|, 1
  {
    hide Tok, TokSkip, ReadValue, NameOf, Put;
    var t := TokSkip(s);
    var key := NameOf(t, cf);
    if !(t.kind == ObjectEnd && name == []) && key.Some? {
      var v := EntryValue(t.rest, depth, cf);
      if v.Done? {
        ReadWithinLimit(Tok(t.rest).rest, depth + 1, cf);
        HeightPut(members, key.value, v.value);
        var now := Put(members, key.value, v.value);
        var comma, after := Tok(v.rest), TokSkip(v.rest);
        if (comma.kind == ObjectEnd || comma.kind == ArraySeparator || comma.kind == Comment)
            && after.kind != ObjectEnd {
          ReadMembersWithinLimit(after.rest, depth, now, key.value, cf);
        }
      }
    }
  }

  // ---------- Canonical values are fixed points ----------

  lemma {:induction false} CanonicalIsRetagged(v: Value)
    requires Canonical(v) && PlainText(v)
    ensures Clean(v) && Retagged(v) == v
    decreases v, 0
  {
    match v
    case Arr(items) => CanonicalItems(items);
    case Obj(members) => CanonicalMembers(members);
    case _ =>
  }

  lemma {:induction false} CanonicalItems(items: seq<Value>)
    requires forall x <- items :: Canonical(x) && PlainText(x)
    ensures (forall x <- items :: Clean(x)) && RetaggedItems(items) == items
    decreases items, 1
  {
    if items != [] {
      CanonicalIsRetagged(items[0]);
      CanonicalItems(items[1..]);
      assert items == [items[0]] + items[1..];
    }
  }

  lemma {:induction false} CanonicalMembers(members: seq<Member>)
    requires forall m <- members :: Canonical(m.value) && WellFormed(m.name) && PlainText(m.value)
    ensures (forall m <- members :: Clean(m.value)) && RetaggedMembers(members) == members
    decreases members, 1
  {
    if members != [] {
      CanonicalIsRetagged(members[0].value);
      CanonicalMembers(members[1..]);
      assert members == [members[0]] + members[1..];
    }
  }

  /** Writing an accepted document, and reading that, gives the same value again. */
  lemma ParseWriteParse(doc: Bytes, cf: Config, st: Style)
    requires ParseDocument(doc, cf).Done? && !st.dropNull
    ensures var v := ParseDocument(doc, cf).value;
      var end := if st.omitLineFeed then [] else "\n";
      PlainText(v) ==> ParseDocument(Fast(v, st) + end, cf) == Done(v, end)
  {
    hide ReadValue, Fast;
    var v := ParseDocument(doc, cf).value;
    ReadIsCanonical(doc, 1, cf);
    ReadWithinLimit(doc, 1, cf);
    if PlainText(v) {
      CanonicalIsRetagged(v);
      WriteThenParse(v, cf, st);
    }
  }
}
