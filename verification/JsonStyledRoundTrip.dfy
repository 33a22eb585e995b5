/**
 * The styled text is FastWriter's text with white space added, none of it between words; so the reader of
 * json_reader.cpp gives the value back as with FastWriter.
 */
module JsonStyledRoundTrip {
  import opened Prelude
  import opened JsonString
  import opened JsonNumber
  import opened JsonValue
  import opened JsonGrammar
  import opened JsonFastWriter
  import opened JsonRoundTrip
  import opened JsonSpacing
  import opened JsonStyled

  /** s stands for text, with no white space between words. */
  ghost predicate Fine(s: Bytes, text: Bytes)
  {
    Stands(s, text) && Loose(s)
  }

  lemma Added(done: Bytes, text: Bytes, s: Bytes, more: Bytes)
    requires Fine(done, text) && Stands(s, more) && Addable(done, s)
    ensures Fine(done + s, text + more)
    ensures Marks(s) || (Blank(s) && Ready(done)) ==> Ready(done + s)
  {
    hide Loose, Marks, Blank, Ready;
    StandsConcat(done, text, s, more);
    LooseAdded(done, s);
  }

  lemma ShowIntSolid(n: int)
    ensures Solid(ShowInt(n))
  {
    var d := if n < 0 then Digits(-n) else Digits(n);
    assert forall c <- d :: IsDigit(c);
  }

  lemma ShowIntWord(n: int)
    ensures forall c <- ShowInt(n) :: IsWord(c) && c != '/'
  {
    var d := if n < 0 then Digits(-n) else Digits(n);
    assert forall c <- d :: IsDigit(c);
  }

  lemma SimpleStands(v: Value)
    requires Simple(v) && Writable(v)
    ensures Stands(Plain(v), Plain(v)) && Loose(Plain(v))
  {
    hide Stands, LooseFrom;
    match v
    case Int(i) => ShowIntSolid(i); SolidStands(ShowInt(i)); ShowIntWord(i); WordLoose(Open, ShowInt(i));
    case UInt(u) => ShowIntSolid(u); SolidStands(ShowInt(u)); ShowIntWord(u); WordLoose(Open, ShowInt(u));
    case Str(s) => QuotedStands(s); QuotedLoose(s);
    case Null => SolidStands("null"); WordLoose(Open, "null");
    case Bool(b) => SolidStands(ShowBool(b)); WordLoose(Open, ShowBool(b));
    case Arr(items) => PlainEmpty(); SolidStands("[]"); BracketsLoose();
    case Obj(members) => PlainEmpty(); SolidStands("{}"); BracketsLoose();
    case Real(_) =>
  }

  lemma BracketsLoose()
    ensures Loose("[]") && Loose("{}")
  {
    assert "[]"[1..] == "]" && "{}"[1..] == "}" && "]"[1..] == [] && "}"[1..] == [];
  }

  lemma QuotedFine(s: Bytes)
    ensures Stands(Quoted(s, false), Quoted(s, false)) && Loose(Quoted(s, false))
  {
    QuotedStands(s);
    QuotedLoose(s);
  }

  /** A value may be added where a value may stand. */
  lemma {:induction false} ValueAdded(done: Bytes, text: Bytes, v: Value, indent: Bytes)
    requires Writable(v) && Named(v) && Fine(done, text) && Ready(done) && Blank(indent)
    ensures Fine(done + Styled(v, indent), text + Plain(v))
    decreases v, 0
  {
    hide Fine, Stands, Loose, Ready, Marks, Blank, Addable, OneLine, Plain;
    if v.Arr? && v.items != [] {
      if OneLine(v.items) {
        OneLineAdded(done, text, v.items);
      } else {
        MarksHere();
        SolidStands("[");
        assert Addable(done, "[") by { MayAdd(done, "["); }
        Added(done, text, "[", "[");
        DeeperBlank(indent);
        ItemsAdded(done + "[", text + "[", v.items, indent + "   ");
        CloseAdded(done, text, "[", StyledItems(v.items, indent + "   "), FastItems(v.items, true, PLAIN), indent, "]");
      }
      ArrayText(v.items);
    } else if v.Obj? && v.members != [] {
      MarksHere();
      SolidStands("{");
      assert Addable(done, "{") by { MayAdd(done, "{"); }
      Added(done, text, "{", "{");
      DeeperBlank(indent);
      MembersAdded(done + "{", text + "{", v.members, indent + "   ");
      CloseAdded(done, text, "{", StyledMembers(v.members, indent + "   "), FastMembers(v.members, true, PLAIN), indent,
                 "}");
      ObjectText(v.members);
    } else {
      SimpleStands(v);
      assert Addable(done, Plain(v)) by { MayAdd(done, Plain(v)); }
      Added(done, text, Plain(v), Plain(v));
    }
  }

  lemma MayAdd(a: Bytes, b: Bytes)
    requires Marks(b) || Blank(b) || (Ready(a) && Loose(b))
    ensures Addable(a, b)
  {
  }

  lemma DeeperBlank(indent: Bytes)
    requires Blank(indent)
    ensures Blank(indent + "   ") && Blank("\n") && Blank(indent + "   ")
  {
  }

  lemma ArrayText(items: seq<Value>)
    ensures Plain(Arr(items)) == "[" + FastItems(items, true, PLAIN) + "]"
  {
  }

  lemma ObjectText(members: seq<Member>)
    ensures Plain(Obj(members)) == "{" + FastMembers(members, true, PLAIN) + "}"
  {
  }

  /** A line break and the bracket that closes a list. */
  lemma CloseAdded(done: Bytes, text: Bytes, open: Bytes, body: Bytes, inner: Bytes, indent: Bytes, close: Bytes)
    requires Fine(done + open + body, text + open + inner) && Blank(indent) && (close == "]" || close == "}")
    ensures Fine(done + (open + body + "\n" + indent + close), text + (open + inner + close))
  {
    hide Fine, Stands, Loose, Ready, Marks, Blank, Addable;
    DeeperBlank(indent);
    MarksHere();
    SolidStands(close);
    BlankStands("\n");
    BlankStands(indent);
    var s := done + open + body;
    MayAdd(s, "\n");
    Added(s, text + open + inner, "\n", []);
    MayAdd(s + "\n", indent);
    Added(s + "\n", text + open + inner + [], indent, []);
    MayAdd(s + "\n" + indent, close);
    Added(s + "\n" + indent, text + open + inner + [] + [], close, close);
    assert s + "\n" + indent + close == done + (open + body + "\n" + indent + close);
    assert text + open + inner + [] + [] + close == text + (open + inner + close);
  }

  /** The break and the indentation before an element or a member. */
  lemma BreakAdded(done: Bytes, text: Bytes, indent: Bytes)
    requires Fine(done, text) && Ready(done) && Blank(indent)
    ensures Fine(done + "\n" + indent, text) && Ready(done + "\n" + indent)
  {
    hide Fine, Stands, Loose, Ready, Marks, Blank, Addable;
    DeeperBlank(indent);
    BlankStands("\n");
    BlankStands(indent);
    MayAdd(done, "\n");
    Added(done, text, "\n", []);
    MayAdd(done + "\n", indent);
    Added(done + "\n", text + [], indent, []);
    assert text + [] + [] == text;
  }

  lemma CommaAdded(done: Bytes, text: Bytes)
    requires Fine(done, text)
    ensures Fine(done + ",", text + ",") && Ready(done + ",")
  {
    hide Fine, Stands, Loose, Ready, Blank, Addable;
    MarksHere();
    SolidStands(",");
    MayAdd(done, ",");
    Added(done, text, ",", ",");
  }

  lemma {:induction false} ItemsAdded(done: Bytes, text: Bytes, items: seq<Value>, indent: Bytes)
    requires items != [] && (forall x <- items :: Writable(x) && Named(x))
    requires Fine(done, text) && Ready(done) && Blank(indent)
    ensures Fine(done + StyledItems(items, indent), text + FastItems(items, true, PLAIN))
    decreases items, 1
  {
    hide Fine, Stands, Loose, Ready, Marks, Blank, Addable, Styled, Plain, Fast, Writable, Named, StyledItems,
        FastItems;
    var x, more := items[0], items[1..];
    var now := done + "\n" + indent + Styled(x, indent);
    BreakAdded(done, text, indent);
    ValueAdded(done + "\n" + indent, text, x, indent);
    FirstItem(items);
    StyledItemCons(items, indent);
    if more == [] {
      assert done + StyledItems(items, indent) == now;
      assert text + FastItems(items, true, PLAIN) == text + Plain(x);
    } else {
      CommaAdded(now, text + Plain(x));
      ItemsAdded(now + ",", text + Plain(x) + ",", more, indent);
      Chained(done, indent, Styled(x, indent), StyledItems(more, indent));
      assert text + (Plain(x) + "," + FastItems(more, true, PLAIN))
          == text + Plain(x) + "," + FastItems(more, true, PLAIN);
    }
  }

  /** Elements one after the other, each but the last followed by a comma. */
  lemma CommaMoved(x: Bytes, y: Bytes, z: Bytes)
    ensures Comma(true) + x + (Comma(false) + y + z) == x + "," + (Comma(true) + y + z)
  {
    assert Comma(true) + x + (Comma(false) + y + z) == x + "," + (Comma(true) + y + z);
  }

  lemma NoComma(x: Bytes)
    ensures Comma(true) + x + [] == x
  {
    assert [] + x + [] == x;
  }

  lemma FirstItem(items: seq<Value>)
    requires items != []
    ensures FastItems(items, true, PLAIN) ==
              if |items| == 1 then Plain(items[0])
              else Plain(items[0]) + "," + FastItems(items[1..], true, PLAIN)
  {
    hide Fast, FastItems, Comma, Plain;
    var x, more := Plain(items[0]), items[1..];
    FastItemCons(items, true);
    if more == [] {
      assert FastItems(more, false, PLAIN) == [] by { FastItemNone(); }
      assert Comma(true) + x + [] == x by { NoComma(x); }
    } else {
      FastItemCons(more, true);
      FastItemCons(more, false);
      var y, z := Plain(more[0]), FastItems(more[1..], false, PLAIN);
      CommaMoved(x, y, z);
    }
  }

  lemma FastItemCons(items: seq<Value>, first: bool)
    requires items != []
    ensures FastItems(items, first, PLAIN) == Comma(first) + Plain(items[0]) + FastItems(items[1..], false, PLAIN)
  {
  }

  lemma FastItemNone()
    ensures FastItems([], false, PLAIN) == []
  {
  }

  lemma FirstMember(members: seq<Member>)
    requires members != []
    ensures FastMembers(members, true, PLAIN) ==
              if |members| == 1 then FastMember(members[0], PLAIN)
              else FastMember(members[0], PLAIN) + "," + FastMembers(members[1..], true, PLAIN)
  {
    hide FastMember, FastMembers, Comma;
    var x, more := FastMember(members[0], PLAIN), members[1..];
    FastMemberCons(members, true);
    if more == [] {
      assert FastMembers(more, false, PLAIN) == [] by { FastMemberNone(); }
      assert Comma(true) + x + [] == x by { NoComma(x); }
    } else {
      FastMemberCons(more, true);
      FastMemberCons(more, false);
      var y, z := FastMember(more[0], PLAIN), FastMembers(more[1..], false, PLAIN);
      CommaMoved(x, y, z);
    }
  }

  lemma FastMemberCons(members: seq<Member>, first: bool)
    requires members != []
    ensures FastMembers(members, first, PLAIN)
              == Comma(first) + FastMember(members[0], PLAIN) + FastMembers(members[1..], false, PLAIN)
  {
  }

  lemma FastMemberNone()
    ensures FastMembers([], false, PLAIN) == []
  {
  }

  lemma Chained(done: Bytes, indent: Bytes, x: Bytes, more: Bytes)
    ensures done + ("\n" + indent + x + "," + more) == done + "\n" + indent + x + "," + more
  {
  }

  lemma StyledItemCons(items: seq<Value>, indent: Bytes)
    requires items != []
    ensures StyledItems(items, indent) ==
              if |items| == 1 then "\n" + indent + Styled(items[0], indent)
              else "\n" + indent + Styled(items[0], indent) + "," + StyledItems(items[1..], indent)
  {
    hide Styled;
    if |items| == 1 {
      assert StyledItems(items[1..], indent) == [];
    }
  }

  lemma StyledMemberCons(members: seq<Member>, indent: Bytes)
    requires members != []
    ensures StyledMembers(members, indent) ==
              if |members| == 1 then "\n" + indent + StyledMember(members[0], indent)
              else "\n" + indent + StyledMember(members[0], indent) + "," + StyledMembers(members[1..], indent)
  {
    hide StyledMember;
    if |members| == 1 {
      assert StyledMembers(members[1..], indent) == [];
    }
  }

  /** A name, a colon and a value. */
  lemma {:induction false} MemberAdded(done: Bytes, text: Bytes, m: Member, indent: Bytes)
    requires '\U{0}' !in m.name && Writable(m.value) && Named(m.value)
    requires Fine(done, text) && Ready(done) && Blank(indent)
    ensures Fine(done + StyledMember(m, indent), text + FastMember(m, PLAIN))
    decreases m, 1
  {
    hide Fine, Stands, Loose, Ready, Blank, Addable, Styled, Fast, Writable, Named;
    var name := Quoted(m.name, false);
    MarksHere();
    CTextIsName(m.name);
    QuotedFine(m.name);
    MayAdd(done, name);
    Added(done, text, name, name);
    ColonStands();
    MayAdd(done + name, " : ");
    Added(done + name, text + name, " : ", ":");
    ValueAdded(done + name + " : ", text + name + ":", m.value, indent);
    assert done + name + " : " + Styled(m.value, indent) == done + StyledMember(m, indent);
    assert text + name + ":" + Plain(m.value) == text + (name + ":" + Plain(m.value));
  }

  lemma {:induction false} MembersAdded(done: Bytes, text: Bytes, members: seq<Member>, indent: Bytes)
    requires members != [] && (forall m <- members :: '\U{0}' !in m.name && Writable(m.value) && Named(m.value))
    requires Fine(done, text) && Ready(done) && Blank(indent)
    ensures Fine(done + StyledMembers(members, indent), text + FastMembers(members, true, PLAIN))
    decreases members, 1
  {
    hide Fine, Stands, Loose, Ready, Marks, Blank, Addable, StyledMember, FastMember, Writable, Named,
        StyledMembers, FastMembers;
    var m, more := members[0], members[1..];
    var now, member := done + "\n" + indent + StyledMember(m, indent), FastMember(m, PLAIN);
    BreakAdded(done, text, indent);
    MemberAdded(done + "\n" + indent, text, m, indent);
    FirstMember(members);
    StyledMemberCons(members, indent);
    if more == [] {
      assert done + StyledMembers(members, indent) == now;
    } else {
      CommaAdded(now, text + member);
      MembersAdded(now + ",", text + member + ",", more, indent);
      Chained(done, indent, StyledMember(m, indent), StyledMembers(more, indent));
      assert text + (member + "," + FastMembers(more, true, PLAIN))
          == text + member + "," + FastMembers(more, true, PLAIN);
    }
  }

  // ---------- The one-line form ----------

  lemma OneLineAdded(done: Bytes, text: Bytes, items: seq<Value>)
    requires items != [] && OneLine(items) && (forall x <- items :: Writable(x)) && Fine(done, text) && Ready(done)
    ensures Fine(done + OneLineText(PlainAll(items)), text + ("[" + FastItems(items, true, PLAIN) + "]"))
  {
    hide Fine, Stands, Loose, Ready, Blank, Addable, Plain, Fast, Joined, Writable, Simple, FastItems;
    MarksHere();
    BracketsStand();
    var j, f := Joined(PlainAll(items)), FastItems(items, true, PLAIN);
    MayAdd(done, "[ ");
    Added(done, text, "[ ", "[");
    JoinedAdded(done + "[ ", text + "[", items);
    MayAdd(done + "[ " + j, " ]");
    Added(done + "[ " + j, text + "[" + f, " ]", "]");
    assert done + "[ " + j + " ]" == done + ("[ " + j + " ]");
    assert text + "[" + f + "]" == text + ("[" + f + "]");
  }

  lemma {:induction false} JoinedAdded(done: Bytes, text: Bytes, items: seq<Value>)
    requires items != [] && (forall x <- items :: Writable(x) && Simple(x)) && Fine(done, text) && Ready(done)
    ensures Fine(done + Joined(PlainAll(items)), text + FastItems(items, true, PLAIN))
    decreases |items|
  {
    hide Fine, Stands, Loose, Ready, Blank, Addable, Plain, Fast, Writable, Simple;
    var n := |items| - 1;
    var front, x := items[..n], items[n];
    assert PlainAll(items)[..n] == PlainAll(front);
    SimpleStands(x);
    if n == 0 {
      FirstItem(items);
      MayAdd(done, Plain(x));
      Added(done, text, Plain(x), Plain(x));
      assert Joined(PlainAll(front)) == [];
      assert [] + [] + Plain(x) == Plain(x);
    } else {
      var j, f := Joined(PlainAll(front)), FastItems(front, true, PLAIN);
      JoinedAdded(done, text, front);
      MarksHere();
      BracketsStand();
      MayAdd(done + j, ", ");
      Added(done + j, text + f, ", ", ",");
      MayAdd(done + j + ", ", Plain(x));
      Added(done + j + ", ", text + f + ",", Plain(x), Plain(x));
      LastItem(front, x);
      assert items == front + [x];
      assert done + j + ", " + Plain(x) == done + (j + ", " + Plain(x));
      assert text + f + "," + Plain(x) == text + (f + "," + Plain(x));
    }
  }

  lemma {:induction false} LastItem(items: seq<Value>, x: Value)
    requires items != []
    ensures FastItems(items + [x], true, PLAIN) == FastItems(items, true, PLAIN) + "," + Plain(x)
    decreases |items|
  {
    hide Fast, FastItems;
    var all := items + [x];
    FirstItem(items);
    FirstItem(all);
    assert all[1..] == items[1..] + [x];
    if |items| == 1 {
      FirstItem([x]);
      assert all[1..] == [x];
    } else {
      LastItem(items[1..], x);
      var p, q := Plain(items[0]), FastItems(items[1..], true, PLAIN);
      assert p + "," + (q + "," + Plain(x)) == p + "," + q + "," + Plain(x);
    }
  }

  lemma ColonStands()
    ensures Stands(" : ", ":")
  {
    BlankStands(" ");
    SolidStands(":");
    StandsConcat(" ", [], ":", ":");
    StandsConcat(" " + ":", ":", " ", []);
  }

  lemma BracketsStand()
    ensures Stands("[ ", "[") && Stands(", ", ",") && Stands(" ]", "]")
  {
    BlankStands(" ");
    SolidStands("[");
    SolidStands(",");
    SolidStands("]");
    StandsConcat("[", "[", " ", []);
    StandsConcat(",", ",", " ", []);
    StandsConcat(" ", [], "]", "]");
  }

  /**
   * Where no name holds a NUL, the styled text of a value is its one-line text but for white space outside strings, and
   * none of that white space stands between two words.
   */
  lemma StyledStands(v: Value)
    requires Writable(v) && Named(v)
    ensures Stands(Styled(v, []) + "\n", Plain(v)) && Loose(Styled(v, []) + "\n")
  {
    hide Stands, Loose, Ready, Marks, Addable, Styled, Plain, Writable, Named, Blank;
    assert Fine([], []) && Ready([]) && Blank([]) && Blank("\n") by { NothingYet(); }
    ValueAdded([], [], v, []);
    assert [] + Styled(v, []) == Styled(v, []) && [] + Plain(v) == Plain(v);
    BlankStands("\n");
    MayAdd(Styled(v, []), "\n");
    Added(Styled(v, []), Plain(v), "\n", []);
    assert Plain(v) + [] == Plain(v);
  }

  lemma NothingYet()
    ensures Fine([], []) && Ready([]) && Blank([]) && Blank("\n")
  {
  }

  /**
   * Parsing the styled text gives the value back, with its integers as the same numbers; it fails exactly beyond the
   * stack limit, or for a scalar under strictRoot. Only white space is left of the text.
   */
  lemma StyledThenParse(v: Value, cf: Config)
    requires Clean(v) && Named(v)
    ensures var r := ParseDocument(Styled(v, []) + "\n", cf);
            if 1 + Height(v) > 1000 then r == TooDeep
            else if cf.strictRoot && !v.Arr? && !v.Obj? then r == Failed
            else r.Done? && r.value == Retagged(v) && Strip(Outside, r.rest) == []
  {
    hide ReadValue, Fast, Loose, Strip, Styled;
    CleanIsWritable(v);
    StyledStands(v);
    RoundTrip(v, 1, [], cf, PLAIN);
    assert Plain(v) + [] == Plain(v);
    ReadLoose(Styled(v, []) + "\n", 1, cf);
  }

  lemma {:induction false} CleanIsWritable(v: Value)
    requires Clean(v)
    ensures Writable(v)
    decreases v
  {
    match v
    case Arr(items) =>
      forall x | x in items
        ensures Writable(x)
      {
        CleanIsWritable(x);
      }
    case Obj(members) =>
      forall m | m in members
        ensures Writable(m.value)
      {
        CleanIsWritable(m.value);
      }
    case _ =>
  }
}
