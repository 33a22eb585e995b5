/**
 * What StyledWriter (json_writer.cpp) writes for a value without doubles and comments: the text, its lines, and its
 * relation to the text on one line.
 */
module JsonStyled {
  import opened Prelude
  import opened JsonString
  import opened JsonNumber
  import opened JsonValue
  import opened JsonFastWriter
  import opened JsonSpacing

  // ---------- Values written on one line ----------

  const PLAIN := Style(false, false, false, NoDouble)

  function NoDouble(r: real): Bytes { [] }

  /** What FastWriter writes for a value without doubles. */
  function Plain(v: Value): Bytes
  {
    Fast(v, PLAIN)
  }

  function PlainAll(items: seq<Value>): (texts: seq<Bytes>)
    ensures |texts| == |items|
  {
    seq(|items|, i requires 0 <= i < |items| => Plain(items[i]))
  }

  /** A scalar, or an empty array or object. */
  predicate Simple(v: Value)
  {
    match v
    case Arr(items) => items == []
    case Obj(members) => members == []
    case _ => true
  }

  /** No doubles, and integers of 64 bits. */
  predicate Writable(v: Value)
    decreases v
  {
    match v
    case Int(i) => MIN_INT <= i <= -MIN_INT - 1
    case UInt(u) => u <= MAX_UINT
    case Real(_) => false
    case Arr(items) => forall x <- items :: Writable(x)
    case Obj(members) => forall m <- members :: Writable(m.value)
    case _ => true
  }

  /** No NUL in a name. */
  predicate Named(v: Value)
    decreases v
  {
    match v
    case Arr(items) => forall x <- items :: Named(x)
    case Obj(members) => forall m <- members :: '\U{0}' !in m.name && Named(m.value)
    case _ => true
  }

  /** The bytes of a name up to its first NUL. */
  function CText(name: Bytes): Bytes
  {
    if name == [] || name[0] == '\U{0}' then [] else [name[0]] + CText(name[1..])
  }

  lemma {:induction false} CTextIsName(name: Bytes)
    requires '\U{0}' !in name
    ensures CText(name) == name
  {
    if name != [] {
      CTextIsName(name[1..]);
      assert name == [name[0]] + name[1..];
    }
  }

  /** A name is cut at its first NUL. */
  lemma {:induction false} CTextStops(a: Bytes, b: Bytes)
    requires '\U{0}' !in a
    ensures CText(a + ['\U{0}'] + b) == a
  {
    var name := a + ['\U{0}'] + b;
    if a != [] {
      assert name[1..] == a[1..] + ['\U{0}'] + b;
      CTextStops(a[1..], b);
      assert a == [a[0]] + a[1..];
    }
  }

  lemma PlainEmpty()
    ensures Plain(Arr([])) == "[]" && Plain(Obj([])) == "{}"
  {
    assert FastItems([], true, PLAIN) == [] && FastMembers([], true, PLAIN) == [];
    assert "[" + [] + "]" == "[]" && "{" + [] + "}" == "{}";
  }

  function Joined(texts: seq<Bytes>): Bytes
  {
    if texts == [] then []
    else
      var n := |texts| - 1;
      Joined(texts[..n]) + (if n == 0 then [] else ", ") + texts[n]
  }

  function OneLineText(texts: seq<Bytes>): Bytes
  {
    "[ " + Joined(texts) + " ]"
  }

  function Total(texts: seq<Bytes>): nat
  {
    if texts == [] then 0 else Total(texts[..|texts| - 1]) + |texts[|texts| - 1]|
  }

  /** The sum of an unsigned int. */
  function Wrapped(n: nat): (r: nat)
    ensures n < 0x1_0000_0000 ==> r == n
  {
    n % 0x1_0000_0000
  }

  const RIGHT_MARGIN := 74

  /** isMultilineArray finds the array fit for one line; its sums are unsigned ints. */
  predicate OneLine(items: seq<Value>)
    requires items != []
  {
    && (forall x <- items :: Simple(x))
    && Wrapped(|items| * 3) < RIGHT_MARGIN
    && Wrapped(4 + (|items| - 1) * 2 + Total(PlainAll(items))) < RIGHT_MARGIN
  }

  // ---------- The text ----------

  /** What is written for a value where lines begin with indent. */
  function Styled(v: Value, indent: Bytes): Bytes
    decreases v, 0
  {
    if v.Arr? && v.items != [] then
      if OneLine(v.items) then OneLineText(PlainAll(v.items))
      else "[" + StyledItems(v.items, indent + "   ") + "\n" + indent + "]"
    else if v.Obj? && v.members != [] then "{" + StyledMembers(v.members, indent + "   ") + "\n" + indent + "}"
    else Plain(v)
  }

  function StyledItems(items: seq<Value>, indent: Bytes): Bytes
    decreases items, 1
  {
    if items == [] then []
    else "\n" + indent + Styled(items[0], indent) + CommaUnless(|items| == 1) + StyledItems(items[1..], indent)
  }

  function CommaUnless(last: bool): Bytes { if last then [] else "," }

  function StyledMember(m: Member, indent: Bytes): Bytes
    decreases m, 1
  {
    Quoted(CText(m.name), false) + " : " + Styled(m.value, indent)
  }

  function StyledMembers(members: seq<Member>, indent: Bytes): Bytes
    decreases members, 1
  {
    if members == [] then []
    else
      "\n" + indent + StyledMember(members[0], indent) + CommaUnless(|members| == 1)
      + StyledMembers(members[1..], indent)
  }

  // ---------- Its lines ----------

  datatype Line = Line(depth: nat, text: Bytes)

  /** The lines of a value at a depth; the first has `prefix` in front and the last `suffix` behind. */
  function Lines(v: Value, depth: nat, prefix: Bytes, suffix: Bytes): (lines: seq<Line>)
    ensures lines != []
    decreases v, 0
  {
    if v.Arr? && v.items != [] then
      if OneLine(v.items) then [Line(depth, prefix + OneLineText(PlainAll(v.items)) + suffix)]
      else [Line(depth, prefix + "[")] + ItemLines(v.items, depth + 1) + [Line(depth, "]" + suffix)]
    else if v.Obj? && v.members != [] then
      [Line(depth, prefix + "{")] + MemberLines(v.members, depth + 1) + [Line(depth, "}" + suffix)]
    else [Line(depth, prefix + Plain(v) + suffix)]
  }

  function ItemLines(items: seq<Value>, depth: nat): seq<Line>
    decreases items, 1
  {
    if items == [] then []
    else Lines(items[0], depth, [], CommaUnless(|items| == 1)) + ItemLines(items[1..], depth)
  }

  function MemberLines(members: seq<Member>, depth: nat): seq<Line>
    decreases members, 1
  {
    if members == [] then []
    else
      MemberLine(members[0], depth, |members| == 1) + MemberLines(members[1..], depth)
  }

  function MemberLine(m: Member, depth: nat, last: bool): (lines: seq<Line>)
    ensures lines != []
    decreases m, 1
  {
    Lines(m.value, depth, Quoted(CText(m.name), false) + " : ", CommaUnless(last))
  }

  function Spaces(n: nat): Bytes
  {
    seq(n, _ => ' ')
  }

  /** The text of lines: each begins with three spaces for each level and ends in a line feed. */
  function Rendered(lines: seq<Line>): Bytes
  {
    if lines == [] then [] else Spaces(3 * lines[0].depth) + lines[0].text + "\n" + Rendered(lines[1..])
  }

  lemma {:induction false} RenderedConcat(a: seq<Line>, b: seq<Line>)
    ensures Rendered(a + b) == Rendered(a) + Rendered(b)
  {
    if a == [] {
      assert a + b == b;
    } else {
      assert (a + b)[1..] == a[1..] + b;
      RenderedConcat(a[1..], b);
    }
  }

  lemma RenderedOne(depth: nat, text: Bytes)
    ensures Rendered([Line(depth, text)]) == Spaces(3 * depth) + text + "\n"
  {
    assert [Line(depth, text)][1..] == [];
    assert Rendered([]) == [];
  }

  lemma Deeper(depth: nat)
    ensures Spaces(3 * (depth + 1)) == Spaces(3 * depth) + "   "
  {
  }

  /** The text of a value is that of its lines. */
  lemma {:induction false} StyledLines(v: Value, depth: nat, prefix: Bytes, suffix: Bytes)
    requires Writable(v)
    ensures Rendered(Lines(v, depth, prefix, suffix))
              == Spaces(3 * depth) + prefix + Styled(v, Spaces(3 * depth)) + suffix + "\n"
    decreases v, 0
  {
    hide Plain, OneLine, OneLineText, Rendered, Spaces, StyledItems, StyledMembers, ItemLines, MemberLines;
    var indent := Spaces(3 * depth);
    Deeper(depth);
    if Simple(v) {
      RenderedOne(depth, prefix + Plain(v) + suffix);
      assert indent + (prefix + Plain(v) + suffix) + "\n" == indent + prefix + Plain(v) + suffix + "\n";
    } else if v.Arr? && OneLine(v.items) {
      var t := OneLineText(PlainAll(v.items));
      RenderedOne(depth, prefix + t + suffix);
      assert indent + (prefix + t + suffix) + "\n" == indent + prefix + t + suffix + "\n";
    } else if v.Arr? {
      StyledItemLines(v.items, depth + 1);
      Bracketed(depth, prefix, "[", ItemLines(v.items, depth + 1), StyledItems(v.items, indent + "   "), "]", suffix);
    } else {
      StyledMemberLines(v.members, depth + 1);
      Bracketed(depth, prefix, "{", MemberLines(v.members, depth + 1), StyledMembers(v.members, indent + "   "), "}",
                suffix);
    }
  }

  lemma Bracketed(depth: nat, prefix: Bytes, open: Bytes, lines: seq<Line>, body: Bytes, close: Bytes, suffix: Bytes)
    requires "\n" + Rendered(lines) == body + "\n"
    ensures var indent := Spaces(3 * depth);
            Rendered([Line(depth, prefix + open)] + lines + [Line(depth, close + suffix)])
              == indent + prefix + (open + body + "\n" + indent + close) + suffix + "\n"
  {
    hide Rendered, Spaces;
    var indent, first, last := Spaces(3 * depth), Line(depth, prefix + open), Line(depth, close + suffix);
    RenderedOne(depth, prefix + open);
    RenderedOne(depth, close + suffix);
    RenderedConcat([first], lines);
    RenderedConcat([first] + lines, [last]);
    assert Rendered([first] + lines + [last]) == indent + (prefix + open) + "\n" + Rendered(lines) + Rendered([last]);
    assert indent + (prefix + open) + "\n" + Rendered(lines) == indent + prefix + open + ("\n" + Rendered(lines));
    assert indent + prefix + open + (body + "\n") + (indent + (close + suffix) + "\n")
        == indent + prefix + (open + body + "\n" + indent + close) + suffix + "\n";
  }

  lemma {:induction false} StyledItemLines(items: seq<Value>, depth: nat)
    requires forall x <- items :: Writable(x)
    ensures "\n" + Rendered(ItemLines(items, depth)) == StyledItems(items, Spaces(3 * depth)) + "\n"
    decreases items, 1
  {
    hide Rendered, Spaces, Styled, Lines;
    if items == [] {
      NothingRendered();
    } else {
      var indent, comma := Spaces(3 * depth), CommaUnless(|items| == 1);
      StyledLines(items[0], depth, [], comma);
      StyledItemLines(items[1..], depth);
      RenderedConcat(Lines(items[0], depth, [], comma), ItemLines(items[1..], depth));
      NextLine(indent, Styled(items[0], indent), comma, Rendered(ItemLines(items[1..], depth)),
               StyledItems(items[1..], indent));
      assert indent + [] + Styled(items[0], indent) == indent + Styled(items[0], indent);
    }
  }

  lemma NothingRendered()
    ensures "\n" + Rendered([]) == [] + "\n"
  {
  }

  lemma NextLine(indent: Bytes, x: Bytes, comma: Bytes, shown: Bytes, more: Bytes)
    requires "\n" + shown == more + "\n"
    ensures "\n" + (indent + x + comma + "\n" + shown) == "\n" + indent + x + comma + more + "\n"
  {
    assert "\n" + (indent + x + comma + "\n" + shown) == "\n" + indent + x + comma + ("\n" + shown);
    assert "\n" + indent + x + comma + (more + "\n") == "\n" + indent + x + comma + more + "\n";
  }

  lemma {:induction false} StyledMemberLines(members: seq<Member>, depth: nat)
    requires forall m <- members :: Writable(m.value)
    ensures "\n" + Rendered(MemberLines(members, depth)) == StyledMembers(members, Spaces(3 * depth)) + "\n"
    decreases members, 1
  {
    hide Rendered, Spaces, Styled, Lines;
    if members == [] {
      NothingRendered();
    } else {
      var indent, comma, m := Spaces(3 * depth), CommaUnless(|members| == 1), members[0];
      var name := Quoted(CText(m.name), false) + " : ";
      StyledLines(m.value, depth, name, comma);
      StyledMemberLines(members[1..], depth);
      RenderedConcat(MemberLine(m, depth, |members| == 1), MemberLines(members[1..], depth));
      NextLine(indent, StyledMember(m, indent), comma, Rendered(MemberLines(members[1..], depth)),
               StyledMembers(members[1..], indent));
      assert indent + name + Styled(m.value, indent) == indent + StyledMember(m, indent);
    }
  }
}
