/** The layout of the styled text of json_writer.cpp, on its lines. */
module JsonLayout {
  import opened Prelude
  import opened JsonString
  import opened JsonNumber
  import opened JsonValue
  import opened JsonFastWriter
  import opened JsonSpacing
  import opened JsonStyled

  // ---------- The one-line form ----------

  lemma {:induction false} JoinedLength(texts: seq<Bytes>)
    ensures texts != [] ==> |Joined(texts)| == 2 * (|texts| - 1) + Total(texts)
  {
    if texts != [] {
      JoinedLength(texts[..|texts| - 1]);
    }
  }

  lemma {:induction false} TotalAtLeast(texts: seq<Bytes>)
    requires forall t <- texts :: t != []
    ensures |texts| <= Total(texts)
  {
    if texts != [] {
      var front := texts[..|texts| - 1];
      assert texts[|texts| - 1] in texts && forall t <- front :: t in texts;
      TotalAtLeast(front);
    }
  }

  lemma PlainSome(v: Value)
    requires Writable(v)
    ensures Plain(v) != []
  {
  }

  /**
   * An array goes on one line exactly if no element is an array or object with elements of its own and the line stays
   * below 74 columns, if it takes less than 4 GiB; beyond, the sums of the test wrap around.
   */
  lemma OneLineExactly(items: seq<Value>)
    requires items != [] && forall x <- items :: Writable(x)
    ensures var t := OneLineText(PlainAll(items));
            var flat := forall x <- items :: !(x.Arr? && x.items != []) && !(x.Obj? && x.members != []);
            && (OneLine(items) <==>
               flat && |items| * 3 % 0x1_0000_0000 < 74 && |t| % 0x1_0000_0000 < 74)
            && (|t| < 0x1_0000_0000 ==> (OneLine(items) <==> flat && |t| < 74))
  {
    hide Joined, Total, Plain, Simple;
    var texts := PlainAll(items);
    JoinedLength(texts);
    forall t | t in texts
      ensures t != []
    {
      var i :| 0 <= i < |texts| && texts[i] == t;
      PlainSome(items[i]);
    }
    TotalAtLeast(texts);
    assert forall x <- items :: Simple(x) <==> !(x.Arr? && x.items != []) && !(x.Obj? && x.members != []) by {
      forall x: Value
        ensures Simple(x) <==> !(x.Arr? && x.items != []) && !(x.Obj? && x.members != [])
      {
        SimpleMeans(x);
      }
    }
    assert |OneLineText(texts)| == 4 + (|items| - 1) * 2 + Total(texts);
  }

  lemma SimpleMeans(x: Value)
    ensures Simple(x) <==> !(x.Arr? && x.items != []) && !(x.Obj? && x.members != [])
  {
  }

  /** Elements on one line stand between brackets and blanks, with a comma and a blank between two. */
  lemma OneLineTexts(texts: seq<Bytes>, x: Bytes)
    ensures OneLineText([x]) == "[ " + x + " ]"
    ensures texts != [] ==>
              var t := OneLineText(texts);
              OneLineText(texts + [x]) == t[..|t| - 2] + ", " + x + " ]"
  {
    hide Joined;
    assert Joined([x]) == x by { JoinedOne(x); }
    if texts != [] {
      JoinedMore(texts, x);
      var t := OneLineText(texts);
      assert t[..|t| - 2] == "[ " + Joined(texts);
      Closing(Joined(texts), x);
    }
  }

  lemma JoinedOne(x: Bytes)
    ensures Joined([x]) == x
  {
    assert [x][..0] == [] && Joined([]) == [];
    assert [] + [] + x == x;
  }

  lemma JoinedMore(texts: seq<Bytes>, x: Bytes)
    requires texts != []
    ensures Joined(texts + [x]) == Joined(texts) + ", " + x
  {
    assert (texts + [x])[..|texts|] == texts;
  }

  lemma Closing(j: Bytes, x: Bytes)
    ensures "[ " + (j + ", " + x) + " ]" == "[ " + j + ", " + x + " ]"
  {
  }

  // ---------- Lines ----------

  /** A value is on one line exactly if it is a scalar, an empty array or object, or an array that fits on one line. */
  lemma OnOneLine(v: Value, depth: nat, prefix: Bytes, suffix: Bytes)
    ensures |Lines(v, depth, prefix, suffix)| == 1 <==>
            !(v.Arr? && v.items != [] && !OneLine(v.items)) && !(v.Obj? && v.members != [])
    ensures |Lines(v, depth, prefix, suffix)| == 1 ==>
              Lines(v, depth, prefix, suffix) == [Line(depth, prefix + Styled(v, []) + suffix)]
  {
    hide OneLine, Plain, OneLineText;
  }

  ghost predicate Inside(lines: seq<Line>, depth: nat)
  {
    forall l <- lines :: depth < l.depth
  }

  /**
   * A value begins and ends at its own depth and everything between is deeper; when it takes more lines than one, the
   * first ends in the bracket that opens it and the last begins with the one that closes it.
   */
  lemma {:induction false} DepthsOfLines(v: Value, depth: nat, prefix: Bytes, suffix: Bytes)
    ensures var lines := Lines(v, depth, prefix, suffix);
            var n := |lines|;
            && lines[0].depth == depth && lines[n - 1].depth == depth
            && (n > 1 ==> n > 2 && Inside(lines[1..n - 1], depth)
                          && lines[0].text == prefix + (if v.Arr? then "[" else "{")
                          && lines[n - 1].text == (if v.Arr? then "]" else "}") + suffix)
    decreases v, 0
  {
    hide OneLine, Plain, OneLineText, Inside;
    var lines := Lines(v, depth, prefix, suffix);
    if v.Arr? && v.items != [] && !OneLine(v.items) {
      DepthsOfItems(v.items, depth + 1);
      var mid := ItemLines(v.items, depth + 1);
      assert lines[1..|lines| - 1] == mid;
      InsideFrom(mid, depth);
    } else if v.Obj? && v.members != [] {
      DepthsOfMembers(v.members, depth + 1);
      var mid := MemberLines(v.members, depth + 1);
      assert lines[1..|lines| - 1] == mid;
      InsideFrom(mid, depth);
    }
  }

  lemma InsideFrom(lines: seq<Line>, depth: nat)
    requires forall l <- lines :: depth + 1 <= l.depth
    ensures Inside(lines, depth)
  {
  }

  lemma AtLeast(lines: seq<Line>, depth: nat)
    requires lines != [] && lines[0].depth == depth && lines[|lines| - 1].depth == depth
    requires |lines| > 1 ==> Inside(lines[1..|lines| - 1], depth)
    ensures forall l <- lines :: depth <= l.depth
  {
    forall l | l in lines
      ensures depth <= l.depth
    {
      var i :| 0 <= i < |lines| && lines[i] == l;
      if 0 < i < |lines| - 1 {
        assert lines[1..|lines| - 1][i - 1] == l;
      }
    }
  }

  lemma {:induction false} DepthsOfItems(items: seq<Value>, depth: nat)
    ensures forall l <- ItemLines(items, depth) :: depth <= l.depth
    ensures items != [] ==> ItemLines(items, depth) != []
    decreases items, 1
  {
    hide Lines;
    if items != [] {
      var first := Lines(items[0], depth, [], CommaUnless(|items| == 1));
      DepthsOfLines(items[0], depth, [], CommaUnless(|items| == 1));
      AtLeast(first, depth);
      DepthsOfItems(items[1..], depth);
    }
  }

  lemma {:induction false} DepthsOfMembers(members: seq<Member>, depth: nat)
    ensures forall l <- MemberLines(members, depth) :: depth <= l.depth
    ensures members != [] ==> MemberLines(members, depth) != []
    decreases members, 1
  {
    hide Lines;
    if members != [] {
      var m := members[0];
      var name, comma := Quoted(CText(m.name), false) + " : ", CommaUnless(|members| == 1);
      DepthsOfLines(m.value, depth, name, comma);
      AtLeast(Lines(m.value, depth, name, comma), depth);
      DepthsOfMembers(members[1..], depth);
    }
  }

  lemma {:induction false} MemberLinesAt(members: seq<Member>, depth: nat, i: nat) returns (k: nat)
    requires i < |members|
    ensures var lines, mine := MemberLines(members, depth), MemberLine(members[i], depth, i == |members| - 1);
            k + |mine| <= |lines| && lines[k..k + |mine|] == mine
            && (i == 0 ==> k == 0) && (i == |members| - 1 ==> k + |mine| == |lines|)
    decreases i
  {
    hide MemberLine;
    var first, more := MemberLine(members[0], depth, |members| == 1), MemberLines(members[1..], depth);
    assert MemberLines(members, depth) == first + more;
    if i == 0 {
      k := 0;
      assert (first + more)[..|first|] == first;
      if |members| == 1 {
        assert more == [];
      }
    } else {
      var j := MemberLinesAt(members[1..], depth, i - 1);
      k := |first| + j;
      var mine := MemberLine(members[i], depth, i == |members| - 1);
      assert (first + more)[k..k + |mine|] == more[j..j + |mine|];
    }
  }

  /**
   * Each member of an object begins a line of its own, one level deeper than the object, with its name; its value
   * follows on that line and the lines behind it, and a comma unless it is the last.
   */
  lemma MemberBegins(members: seq<Member>, depth: nat, prefix: Bytes, suffix: Bytes, i: nat) returns (k: nat)
    requires i < |members|
    ensures var lines := Lines(Obj(members), depth, prefix, suffix);
            var name := Quoted(CText(members[i].name), false) + " : ";
            var mine := Lines(members[i].value, depth + 1, name, if i + 1 < |members| then "," else []);
            && 0 < k && k + |mine| < |lines| && lines[k..k + |mine|] == mine
            && lines[k].depth == depth + 1 && name <= lines[k].text
            && (i == 0 ==> k == 1) && (i == |members| - 1 ==> k + |mine| == |lines| - 1)
  {
    hide Lines, MemberLines;
    var lines := Lines(Obj(members), depth, prefix, suffix);
    var body := MemberLines(members, depth + 1);
    ObjectLines(members, depth, prefix, suffix);
    var j := MemberLinesAt(members, depth + 1, i);
    k := j + 1;
    var name := Quoted(CText(members[i].name), false) + " : ";
    var mine := Lines(members[i].value, depth + 1, name, CommaUnless(i + 1 == |members|));
    assert lines[k..k + |mine|] == body[j..j + |mine|];
    assert lines[k] == lines[k..k + |mine|][0] == mine[0];
    DepthsOfLines(members[i].value, depth + 1, name, CommaUnless(i + 1 == |members|));
    Begins(members[i].value, depth + 1, name, CommaUnless(i + 1 == |members|));
  }

  lemma ObjectLines(members: seq<Member>, depth: nat, prefix: Bytes, suffix: Bytes)
    requires members != []
    ensures Lines(Obj(members), depth, prefix, suffix)
              == [Line(depth, prefix + "{")] + MemberLines(members, depth + 1) + [Line(depth, "}" + suffix)]
  {
  }

  lemma Begins(v: Value, depth: nat, prefix: Bytes, suffix: Bytes)
    ensures prefix <= Lines(v, depth, prefix, suffix)[0].text
  {
    hide OneLine, Plain, OneLineText;
  }

  lemma {:induction false} ItemLinesAt(items: seq<Value>, depth: nat, i: nat) returns (k: nat)
    requires i < |items|
    ensures var lines, mine := ItemLines(items, depth), Lines(items[i], depth, [], CommaUnless(i == |items| - 1));
            k + |mine| <= |lines| && lines[k..k + |mine|] == mine
            && (i == 0 ==> k == 0) && (i == |items| - 1 ==> k + |mine| == |lines|)
    decreases i
  {
    hide Lines;
    var first, more := Lines(items[0], depth, [], CommaUnless(|items| == 1)), ItemLines(items[1..], depth);
    assert ItemLines(items, depth) == first + more;
    if i == 0 {
      k := 0;
      assert (first + more)[..|first|] == first;
      if |items| == 1 {
        assert more == [];
      }
    } else {
      var j := ItemLinesAt(items[1..], depth, i - 1);
      k := |first| + j;
      var mine := Lines(items[i], depth, [], CommaUnless(i == |items| - 1));
      assert (first + more)[k..k + |mine|] == more[j..j + |mine|];
    }
  }

  /** Each element of an array that is not on one line begins a line of its own, one level deeper than the array. */
  lemma ItemBegins(items: seq<Value>, depth: nat, prefix: Bytes, suffix: Bytes, i: nat) returns (k: nat)
    requires i < |items| && !OneLine(items)
    ensures var lines := Lines(Arr(items), depth, prefix, suffix);
            var mine := Lines(items[i], depth + 1, [], if i + 1 < |items| then "," else []);
            && 0 < k && k + |mine| < |lines| && lines[k..k + |mine|] == mine && lines[k].depth == depth + 1
            && (i == 0 ==> k == 1) && (i == |items| - 1 ==> k + |mine| == |lines| - 1)
  {
    hide Lines, ItemLines, OneLine;
    var lines := Lines(Arr(items), depth, prefix, suffix);
    var body := ItemLines(items, depth + 1);
    ArrayLines(items, depth, prefix, suffix);
    var j := ItemLinesAt(items, depth + 1, i);
    k := j + 1;
    var mine := Lines(items[i], depth + 1, [], CommaUnless(i + 1 == |items|));
    assert lines[k..k + |mine|] == body[j..j + |mine|];
    assert lines[k] == lines[k..k + |mine|][0] == mine[0];
    DepthsOfLines(items[i], depth + 1, [], CommaUnless(i + 1 == |items|));
  }

  lemma ArrayLines(items: seq<Value>, depth: nat, prefix: Bytes, suffix: Bytes)
    requires items != [] && !OneLine(items)
    ensures Lines(Arr(items), depth, prefix, suffix)
              == [Line(depth, prefix + "[")] + ItemLines(items, depth + 1) + [Line(depth, "]" + suffix)]
  {
  }

  // ---------- Lines are lines ----------

  /** A text of one line that does not begin with a blank. */
  predicate Row(t: Bytes)
  {
    '\n' !in t && (t != [] ==> t[0] != ' ')
  }

  lemma RowConcat(a: Bytes, b: Bytes)
    requires Row(a) && (Row(b) || ('\n' !in b && a != []))
    ensures Row(a + b)
  {
    forall c | c in a + b
      ensures c != '\n'
    {
    }
  }

  lemma HexRow(x: nat)
    requires x < 0x10000
    ensures '\n' !in Hex(x)
  {
  }

  lemma FrontRow(s: Bytes)
    requires s != []
    ensures '\n' !in EscapedFront(s, false).0
  {
    hide Hex, Utf8ToCodePoint;
    if ShortEscape(s[0]) == None {
      var cp := Utf8ToCodePoint(s).0;
      if cp < 0x20 || 0x80 <= cp < 0x10000 {
        HexRow(cp);
      } else if cp >= 0x10000 {
        HexRow(0xd800 + (cp - 0x10000) / 1024 % 1024);
        HexRow(0xdc00 + (cp - 0x10000) % 1024);
      }
    }
  }

  lemma {:induction false} EscapedRow(s: Bytes)
    ensures '\n' !in Escaped(s, false)
    decreases |s|
  {
    hide EscapedFront;
    if s != [] {
      var (front, n) := EscapedFront(s, false);
      FrontRow(s);
      EscapedRow(s[n..]);
    }
  }

  lemma QuotedRow(s: Bytes)
    ensures Row(Quoted(s, false)) && Quoted(s, false) != []
  {
    hide Escaped;
    EscapedRow(s);
  }

  lemma ShowIntRow(n: int)
    ensures Row(ShowInt(n))
  {
    var d := if n < 0 then Digits(-n) else Digits(n);
    assert forall c <- d :: IsDigit(c);
    assert d[0] in d;
  }

  lemma PlainRow(v: Value)
    requires Simple(v) && Writable(v)
    ensures Row(Plain(v)) && Plain(v) != []
  {
    hide Row, Digits, Quoted;
    PlainSome(v);
    match v
    case Int(i) => ShowIntRow(i);
    case UInt(u) => ShowIntRow(u);
    case Str(s) => QuotedRow(s);
    case Null => assert Row("null") by { WordRows(); }
    case Bool(b) => WordRows();
    case Arr(items) => PlainEmpty(); WordRows();
    case Obj(members) => PlainEmpty(); WordRows();
    case Real(_) =>
  }

  lemma WordRows()
    ensures Row("null") && Row("true") && Row("false") && Row("[]") && Row("{}")
  {
  }

  lemma {:induction false} JoinedRow(texts: seq<Bytes>)
    requires forall t <- texts :: Row(t)
    ensures '\n' !in Joined(texts)
  {
    if texts != [] {
      JoinedRow(texts[..|texts| - 1]);
      assert Row(texts[|texts| - 1]);
    }
  }

  lemma OneLineRow(items: seq<Value>)
    requires items != [] && OneLine(items) && forall x <- items :: Writable(x)
    ensures Row(OneLineText(PlainAll(items)))
  {
    hide Plain, Row, Joined;
    var texts := PlainAll(items);
    forall t | t in texts
      ensures Row(t)
    {
      var i :| 0 <= i < |texts| && texts[i] == t;
      PlainRow(items[i]);
    }
    JoinedRow(texts);
    assert Row("[ ") by { BracketRow(); }
    RowConcat("[ ", Joined(texts));
    RowConcat("[ " + Joined(texts), " ]");
  }

  lemma BracketRow()
    ensures Row("[ ") && Row("[") && Row("{") && Row("]") && Row("}")
  {
  }

  ghost predicate Rows(lines: seq<Line>)
  {
    forall l <- lines :: Row(l.text) && l.text != []
  }

  lemma RowsConcat(a: seq<Line>, b: seq<Line>)
    requires Rows(a) && Rows(b)
    ensures Rows(a + b)
  {
  }

  /** No line holds a line break, is empty, or begins with a blank. */
  lemma {:induction false} LineTexts(v: Value, depth: nat, prefix: Bytes, suffix: Bytes)
    requires Writable(v) && Row(prefix) && '\n' !in suffix
    ensures Rows(Lines(v, depth, prefix, suffix))
    decreases v, 0
  {
    hide OneLine, Plain, OneLineText, Row, Rows;
    BracketRow();
    if v.Arr? && v.items != [] {
      if OneLine(v.items) {
        var t := OneLineText(PlainAll(v.items));
        OneLineRow(v.items);
        assert t != [] by { Bracketed(v.items); }
        RowConcat(prefix, t);
        RowConcat(prefix + t, suffix);
        OneRow(depth, prefix + t + suffix);
      } else {
        ItemTexts(v.items, depth + 1);
        BracketedRows(depth, prefix, "[", ItemLines(v.items, depth + 1), "]", suffix);
      }
    } else if v.Obj? && v.members != [] {
      MemberTexts(v.members, depth + 1);
      BracketedRows(depth, prefix, "{", MemberLines(v.members, depth + 1), "}", suffix);
    } else {
      PlainRow(v);
      RowConcat(prefix, Plain(v));
      RowConcat(prefix + Plain(v), suffix);
      OneRow(depth, prefix + Plain(v) + suffix);
    }
  }

  lemma Bracketed(items: seq<Value>)
    ensures OneLineText(PlainAll(items)) != []
  {
  }

  lemma OneRow(depth: nat, text: Bytes)
    requires Row(text) && text != []
    ensures Rows([Line(depth, text)])
  {
  }

  lemma BracketedRows(depth: nat, prefix: Bytes, open: Bytes, lines: seq<Line>, close: Bytes, suffix: Bytes)
    requires Row(prefix) && Row(open) && open != [] && Row(close) && close != [] && '\n' !in suffix && Rows(lines)
    ensures Rows([Line(depth, prefix + open)] + lines + [Line(depth, close + suffix)])
  {
    hide Row, Rows;
    assert '\n' !in open by { RowMeans(open); }
    RowConcat(prefix, open);
    RowConcat(close, suffix);
    OneRow(depth, prefix + open);
    OneRow(depth, close + suffix);
    RowsConcat([Line(depth, prefix + open)], lines);
    RowsConcat([Line(depth, prefix + open)] + lines, [Line(depth, close + suffix)]);
  }

  lemma RowMeans(t: Bytes)
    requires Row(t)
    ensures '\n' !in t
  {
  }

  lemma {:induction false} ItemTexts(items: seq<Value>, depth: nat)
    requires forall x <- items :: Writable(x)
    ensures Rows(ItemLines(items, depth))
    decreases items, 1
  {
    hide Lines, Rows;
    if items == [] {
      assert Rows([]) by { NoRows(); }
    } else {
      LineTexts(items[0], depth, [], CommaUnless(|items| == 1));
      ItemTexts(items[1..], depth);
      RowsConcat(Lines(items[0], depth, [], CommaUnless(|items| == 1)), ItemLines(items[1..], depth));
    }
  }

  lemma NoRows()
    ensures Rows([])
  {
  }

  lemma {:induction false} MemberTexts(members: seq<Member>, depth: nat)
    requires forall m <- members :: Writable(m.value)
    ensures Rows(MemberLines(members, depth))
    decreases members, 1
  {
    hide Lines, Rows, Row;
    if members == [] {
      assert Rows([]) by { NoRows(); }
    } else {
      var m := members[0];
      var name := Quoted(CText(m.name), false);
      QuotedRow(CText(m.name));
      RowConcat(name, " : ");
      LineTexts(m.value, depth, name + " : ", CommaUnless(|members| == 1));
      MemberTexts(members[1..], depth);
      RowsConcat(MemberLine(m, depth, |members| == 1), MemberLines(members[1..], depth));
    }
  }
}
