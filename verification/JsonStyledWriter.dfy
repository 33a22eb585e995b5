/** The class StyledWriter of json_writer.cpp, on values without comments and doubles. */
module JsonStyledWriter {
  import opened Prelude
  import opened JsonString
  import opened JsonNumber
  import opened JsonValue
  import opened JsonFastWriter
  import opened JsonStyled

  const INDENT_SIZE := 3

  /** What writeIndent adds to a document. */
  function Break(document: Bytes, indent: Bytes): Bytes
  {
    if document == [] then indent
    else
      var last := document[|document| - 1];
      if last == ' ' then [] else (if last == '\n' then [] else "\n") + indent
  }

  /** A bracket or a value may follow without a break: the document ends in a blank, or nothing is written yet. */
  predicate Placed(document: Bytes, indent: Bytes)
  {
    if document == [] then indent == [] else document[|document| - 1] == ' '
  }

  /** The document ends in a visible character, as a value, a bracket or a comma does. */
  predicate Inked(document: Bytes)
  {
    document != [] && document[|document| - 1] != ' ' && document[|document| - 1] != '\n'
  }

  lemma ShowIntInked(n: int)
    ensures Inked(ShowInt(n))
  {
    var d := if n < 0 then Digits(-n) else Digits(n);
    assert forall c <- d :: IsDigit(c);
    assert d[|d| - 1] in d;
  }

  lemma StyledInked(v: Value, indent: Bytes)
    requires Writable(v)
    ensures Inked(Styled(v, indent))
  {
    hide StyledItems, StyledMembers, Digits, OneLine;
    match v
    case Int(i) => ShowIntInked(i);
    case UInt(u) => ShowIntInked(u);
    case Arr(items) => PlainEmpty();
    case Obj(members) => PlainEmpty();
    case _ =>
  }

  lemma InkedBehind(document: Bytes, s: Bytes)
    requires Inked(s)
    ensures Inked(document + s)
  {
  }

  lemma InkedBreak(document: Bytes, indent: Bytes)
    requires Inked(document)
    ensures Break(document, indent) == "\n" + indent
  {
  }

  lemma PlacedBreak(document: Bytes, indent: Bytes)
    requires Placed(document, indent)
    ensures Break(document, indent) == [] && forall s: Bytes :: document + [] + s == document + s
  {
    forall s: Bytes
      ensures document + [] + s == document + s
    {
    }
  }

  lemma OpenInked(document: Bytes)
    ensures Inked(document + "{") && Inked(document + "[")
  {
  }

  lemma Dedent(indent: Bytes)
    ensures (indent + "   ")[..|indent + "   "| - INDENT_SIZE] == indent
  {
  }

  lemma Closed(document: Bytes, open: Bytes, body: Bytes, indent: Bytes, close: Bytes)
    ensures document + open + body + ("\n" + indent) + close == document + (open + body + "\n" + indent + close)
  {
  }

  lemma CommaInked()
    ensures Inked(",")
  {
  }

  class StyledWriter {
    var childValues: seq<Bytes>
    var document: Bytes
    var indentString: Bytes
    var addChildValues: bool

    constructor ()
      ensures document == [] && indentString == [] && childValues == [] && !addChildValues
    {
      childValues, document, indentString, addChildValues := [], [], [], false;
    }

    /** pushValue */
    method PushValue(value: Bytes)
      modifies this`document, this`childValues
      ensures if addChildValues then document == old(document) && childValues == old(childValues) + [value]
              else document == old(document) + value && childValues == old(childValues)
    {
      if addChildValues {
        childValues := childValues + [value];
      } else {
        document := document + value;
      }
    }

    /** writeIndent */
    method WriteIndent()
      modifies this`document
      ensures document == old(document) + Break(old(document), indentString)
    {
      if document != [] {
        var last := document[|document| - 1];
        if last == ' ' {
          return;
        }
        if last != '\n' {
          document := document + "\n";
        }
      }
      document := document + indentString;
    }

    /** writeWithIndent */
    method WriteWithIndent(value: Bytes)
      modifies this`document
      ensures document == old(document) + Break(old(document), indentString) + value
    {
      WriteIndent();
      document := document + value;
    }

    /** indent */
    method Indent()
      modifies this`indentString
      ensures indentString == old(indentString) + "   "
    {
      indentString := indentString + seq(INDENT_SIZE, _ => ' ');
    }

    /** unindent */
    method Unindent()
      requires |indentString| >= INDENT_SIZE
      modifies this`indentString
      ensures indentString == old(indentString)[..|old(indentString)| - INDENT_SIZE]
    {
      indentString := indentString[..|indentString| - INDENT_SIZE];
    }

    /** write */
    method Write(root: Value) returns (text: Bytes)
      requires Writable(root)
      modifies this
      ensures text == document == Styled(root, []) + "\n" && indentString == []
      ensures text == Rendered(Lines(root, 0, [], []))
    {
      hide Lines, Rendered, Styled;
      document, addChildValues, indentString := [], false, [];
      WriteValue(root);
      document := document + "\n";
      text := document;
      StyledLines(root, 0, [], []);
      assert Spaces(3 * 0) == [] && [] + Styled(root, []) == Styled(root, []);
      assert [] + [] + Styled(root, []) + [] == Styled(root, []);
    }

    /** writeValue: to the document, or to the child values when these are collected. */
    method WriteValue(value: Value)
      requires Writable(value) && (if addChildValues then Simple(value) else Placed(document, indentString))
      modifies this`document, this`childValues, this`indentString, this`addChildValues
      ensures addChildValues == old(addChildValues) && indentString == old(indentString)
      ensures if addChildValues then document == old(document) && childValues == old(childValues) + [Plain(value)]
              else document == old(document) + Styled(value, indentString)
      decreases value, 0
    {
      hide Placed, StyledItems, StyledMembers, OneLine, Writable;
      PlainEmpty();
      match value {
        case Null => PushValue("null");
        case Int(i) =>
          WritableInt(value);
          var s := ValueToStringInt(i as LargestInt);
          PushValue(s);
        case UInt(u) =>
          WritableInt(value);
          var s := ValueToStringUInt(u as LargestUInt);
          PushValue(s);
        case Real(_) =>
          assert false by { WritableInt(value); }
        case Bool(b) => PushValue(ShowBool(b));
        case Str(x) =>
          var s := ValueToQuotedStringN(x, false);
          PushValue(s);
        case Arr(items) => WriteArrayValue(items);
        case Obj(members) =>
          if members == [] {
            PushValue("{}");
          } else {
            WriteMembers(members);
          }
      }
    }

    /** The case of objects with members in writeValue. */
    method WriteMembers(members: seq<Member>)
      requires members != [] && Writable(Obj(members)) && !addChildValues && Placed(document, indentString)
      modifies this`document, this`childValues, this`indentString, this`addChildValues
      ensures !addChildValues && indentString == old(indentString)
      ensures document == old(document) + Styled(Obj(members), indentString)
      decreases members, 2
    {
      hide StyledMembers, Styled, Writable, Break, Placed, Inked, OneLine, Simple, Plain;
      ghost var before, indent, body := document, indentString, StyledMembers(members, indentString + "   ");
      PlacedBreak(document, indentString);
      OpenInked(before);
      WriteWithIndent("{");
      assert document == before + "{";
      Indent();
      WriteMemberLines(members);
      Unindent();
      Dedent(indent);
      InkedBreak(document, indentString);
      WriteWithIndent("}");
      Closed(before, "{", body, indent, "}");
      SomeMembers(members, indentString);
    }

    /** The loop over the members in writeValue. */
    method WriteMemberLines(members: seq<Member>)
      requires members != [] && Writable(Obj(members)) && !addChildValues && indentString != []
      requires Inked(document) && indentString[|indentString| - 1] == ' '
      modifies this`document, this`childValues, this`indentString, this`addChildValues
      ensures !addChildValues && indentString == old(indentString)
      ensures document == old(document) + StyledMembers(members, indentString) && Inked(document)
      decreases members, 1
    {
      hide StyledMember, StyledMembers, Inked, Writable;
      ghost var all := document + StyledMembers(members, indentString);
      var index := 0;
      assert members[0..] == members;
      while true
        invariant 0 <= index < |members| && !addChildValues && indentString == old(indentString)
        invariant Inked(document) && document + StyledMembers(members[index..], indentString) == all
        decreases |members| - index
      {
        WritableMember(members, index);
        MembersStep(document, members, index, indentString);
        WriteMember(members[index]);
        index := index + 1;
        if index == |members| {
          break;
        }
        document := document + ",";
        assert Inked(document) by { CommaInked(); InkedBehind(document[..|document| - 1], ","); }
      }
    }

    /** A name, a colon and a value. */
    method WriteMember(m: Member)
      requires Writable(m.value) && !addChildValues && Inked(document)
      modifies this`document, this`childValues, this`indentString, this`addChildValues
      ensures !addChildValues && indentString == old(indentString)
      ensures document == old(document) + "\n" + indentString + StyledMember(m, indentString) && Inked(document)
      decreases m, 1
    {
      hide Styled, Quoted, Writable;
      var name := ValueToQuotedStringN(CText(m.name), false);
      InkedBreak(document, indentString);
      WriteWithIndent(name);
      document := document + " : ";
      StyledInked(m.value, indentString);
      ghost var s := Styled(m.value, indentString);
      ghost var before := document;
      WriteValue(m.value);
      InkedBehind(before, s);
      assert old(document) + ("\n" + indentString) + name + " : " + s
          == old(document) + "\n" + indentString + (name + " : " + s);
    }

    /** writeArrayValue */
    method WriteArrayValue(items: seq<Value>)
      requires Writable(Arr(items)) && (if addChildValues then items == [] else Placed(document, indentString))
      modifies this`document, this`childValues, this`indentString, this`addChildValues
      ensures addChildValues == old(addChildValues) && indentString == old(indentString)
      ensures if addChildValues then document == old(document) && childValues == old(childValues) + [Plain(Arr(items))]
              else document == old(document) + Styled(Arr(items), indentString)
      decreases items, 2
    {
      hide StyledItems, OneLineText, Placed;
      if items == [] {
        PushValue("[]");
        PlainEmpty();
        return;
      }
      var isMultiLine := IsMultilineArray(items);
      if isMultiLine {
        WriteLines(items);
      } else {
        assert |childValues| == |items|;
        WriteOneLine();
      }
    }

    /** isMultilineArray; when the array goes on one line, one text for each element is left in the child values. */
    method IsMultilineArray(items: seq<Value>) returns (isMultiLine: bool)
      requires items != [] && Writable(Arr(items)) && !addChildValues
      modifies this`document, this`childValues, this`indentString, this`addChildValues
      ensures !addChildValues && indentString == old(indentString) && document == old(document)
      ensures isMultiLine == !OneLine(items)
      ensures (isMultiLine && childValues == []) || (childValues == PlainAll(items) && forall x <- items :: Simple(x))
      decreases items, 1
    {
      hide Fast, Total, Wrapped, Writable;
      var size := |items|;
      isMultiLine := Wrapped(size * 3) >= RIGHT_MARGIN;
      childValues := [];
      var index := 0;
      while index < size && !isMultiLine
        invariant 0 <= index <= size && (!isMultiLine ==> forall i | 0 <= i < index :: Simple(items[i]))
        invariant isMultiLine ==> !OneLine(items)
        invariant !isMultiLine ==> Wrapped(size * 3) < RIGHT_MARGIN
        decreases size - index, !isMultiLine
      {
        isMultiLine := !Simple(items[index]);
        index := index + 1;
      }
      if !isMultiLine {
        addChildValues := true;
        var lineLength := Wrapped(4 + (size - 1) * 2);
        index := 0;
        assert lineLength == Wrapped(4 + (size - 1) * 2 + Total([])) by { TotalNone(); }
        while index < size
          invariant 0 <= index <= size && addChildValues && indentString == old(indentString)
          invariant document == old(document)
          invariant childValues == PlainAll(items[..index])
          invariant lineLength == Wrapped(4 + (size - 1) * 2 + Total(childValues))
        {
          WritableItem(items, index);
          WriteValue(items[index]);
          assert childValues == PlainAll(items[..index + 1]);
          assert childValues[index] == Plain(items[index]);
          TotalStep(PlainAll(items[..index]), childValues[index]);
          WrappedSum(4 + (size - 1) * 2 + Total(PlainAll(items[..index])), |childValues[index]|);
          lineLength := Wrapped(lineLength + |childValues[index]|);
          index := index + 1;
        }
        assert items[..size] == items;
        addChildValues := false;
        isMultiLine := lineLength >= RIGHT_MARGIN;
      }
    }

    /** The part of writeArrayValue that gives each element its lines. */
    method WriteLines(items: seq<Value>)
      requires items != [] && Writable(Arr(items)) && !OneLine(items) && !addChildValues
      requires childValues == [] || (childValues == PlainAll(items) && forall x <- items :: Simple(x))
      requires Placed(document, indentString)
      modifies this`document, this`childValues, this`indentString, this`addChildValues
      ensures !addChildValues && indentString == old(indentString)
      ensures document == old(document) + Styled(Arr(items), indentString)
      decreases items, 1
    {
      hide StyledItems, Styled, Writable, Break, Placed, Inked, OneLine, Simple, Plain;
      ghost var before, indent, body := document, indentString, StyledItems(items, indentString + "   ");
      PlacedBreak(document, indentString);
      OpenInked(before);
      WriteWithIndent("[");
      assert document == before + "[";
      Indent();
      WriteItemLines(items);
      Unindent();
      Dedent(indent);
      InkedBreak(document, indentString);
      WriteWithIndent("]");
      Closed(before, "[", body, indent, "]");
      ManyLines(items, indentString);
    }

    /** The loop over the elements of an array that is not on one line. */
    method WriteItemLines(items: seq<Value>)
      requires items != [] && Writable(Arr(items)) && !addChildValues && indentString != []
      requires childValues == [] || (childValues == PlainAll(items) && forall x <- items :: Simple(x))
      requires Inked(document) && indentString[|indentString| - 1] == ' '
      modifies this`document, this`childValues, this`indentString, this`addChildValues
      ensures !addChildValues && indentString == old(indentString)
      ensures document == old(document) + StyledItems(items, indentString) && Inked(document)
      decreases items, 0
    {
      hide StyledItems, Simple, Fast, Writable, Inked, Styled, Plain;
      var hasChildValue := childValues != [];
      ghost var all := document + StyledItems(items, indentString);
      var index := 0;
      assert items[0..] == items;
      while true
        invariant 0 <= index < |items| && !addChildValues && indentString == old(indentString)
        invariant Inked(document) && document + StyledItems(items[index..], indentString) == all
        invariant hasChildValue ==> childValues == PlainAll(items) && forall x <- items :: Simple(x)
        decreases |items| - index
      {
        WritableItem(items, index);
        ItemsStep(document, items, index, indentString);
        WriteItemLine(items[index], hasChildValue, if hasChildValue then childValues[index] else []);
        index := index + 1;
        if index == |items| {
          break;
        }
        document := document + ",";
        assert Inked(document) by { CommaInked(); InkedBehind(document[..|document| - 1], ","); }
      }
    }

    /** An element on a line of its own, from its child text if there is one. */
    method WriteItemLine(item: Value, hasChildValue: bool, childValue: Bytes)
      requires Writable(item) && !addChildValues && Inked(document) && indentString != []
      requires indentString[|indentString| - 1] == ' '
      requires hasChildValue ==> Simple(item) && childValue == Plain(item)
      modifies this`document, this`childValues, this`indentString, this`addChildValues
      ensures !addChildValues && indentString == old(indentString)
      ensures document == old(document) + "\n" + indentString + Styled(item, indentString) && Inked(document)
      ensures hasChildValue ==> childValues == old(childValues)
      decreases item, 1
    {
      hide Styled, Plain, Simple, Writable;
      StyledInked(item, indentString);
      InkedBreak(document, indentString);
      ghost var x := Styled(item, indentString);
      if hasChildValue {
        SimpleStyled(item, indentString);
        WriteWithIndent(childValue);
      } else {
        WriteIndent();
        WriteValue(item);
      }
      assert document == old(document) + ("\n" + indentString) + x == old(document) + "\n" + indentString + x;
      InkedBehind(old(document) + "\n" + indentString, x);
    }

    /** The part of writeArrayValue that puts all elements on one line. */
    method WriteOneLine()
      modifies this`document
      ensures document == old(document) + OneLineText(childValues)
    {
      document := document + "[ ";
      var index := 0;
      while index < |childValues|
        invariant 0 <= index <= |childValues|
        invariant document == old(document) + "[ " + Joined(childValues[..index])
      {
        JoinedStep(old(document) + "[ ", childValues, index);
        if index > 0 {
          document := document + ", ";
        }
        document := document + childValues[index];
        index := index + 1;
      }
      assert childValues[..index] == childValues;
      document := document + " ]";
      assert old(document) + "[ " + Joined(childValues) + " ]" == old(document) + ("[ " + Joined(childValues) + " ]");
    }
  }

  lemma WritableInt(v: Value)
    requires Writable(v)
    ensures v.Int? ==> MIN_INT <= v.i <= -MIN_INT - 1
    ensures v.UInt? ==> v.u <= MAX_UINT
    ensures !v.Real?
  {
  }

  lemma WritableItem(items: seq<Value>, i: nat)
    requires Writable(Arr(items)) && i < |items|
    ensures Writable(items[i])
  {
  }

  lemma WritableMember(members: seq<Member>, i: nat)
    requires Writable(Obj(members)) && i < |members|
    ensures Writable(members[i].value)
  {
  }

  lemma ManyLines(items: seq<Value>, indent: Bytes)
    requires items != [] && !OneLine(items)
    ensures Styled(Arr(items), indent) == "[" + StyledItems(items, indent + "   ") + "\n" + indent + "]"
  {
  }

  lemma SomeMembers(members: seq<Member>, indent: Bytes)
    requires members != []
    ensures Styled(Obj(members), indent) == "{" + StyledMembers(members, indent + "   ") + "\n" + indent + "}"
  {
  }

  lemma SimpleStyled(v: Value, indent: Bytes)
    requires Simple(v)
    ensures Styled(v, indent) == Plain(v)
  {
  }

  lemma TotalNone()
    ensures Total([]) == 0
  {
  }

  lemma TotalStep(texts: seq<Bytes>, t: Bytes)
    ensures Total(texts + [t]) == Total(texts) + |t|
  {
    assert (texts + [t])[..|texts|] == texts;
  }

  /** Unsigned sums may be wrapped at each step or at the end. */
  lemma WrappedSum(a: nat, b: nat)
    ensures Wrapped(Wrapped(a) + b) == Wrapped(a + b)
  {
    var q := a / 0x1_0000_0000;
    assert a == q * 0x1_0000_0000 + Wrapped(a);
    assert a + b == q * 0x1_0000_0000 + (Wrapped(a) + b);
  }

  lemma JoinedStep(document: Bytes, texts: seq<Bytes>, i: nat)
    requires i < |texts|
    ensures document + Joined(texts[..i + 1])
              == document + Joined(texts[..i]) + (if i > 0 then ", " else []) + texts[i]
  {
    var now := texts[..i + 1];
    assert now[..i] == texts[..i] && now[i] == texts[i];
    var j, comma := Joined(texts[..i]), if i > 0 then ", " else [];
    assert document + (j + comma + texts[i]) == document + j + comma + texts[i];
  }

  lemma ItemsStep(document: Bytes, items: seq<Value>, i: nat, indent: Bytes)
    requires i < |items|
    ensures document + StyledItems(items[i..], indent) ==
            if i + 1 == |items| then document + "\n" + indent + Styled(items[i], indent)
            else document + "\n" + indent + Styled(items[i], indent) + "," + StyledItems(items[i + 1..], indent)
  {
    hide Styled;
    DropOne(items, i);
    var x, more := Styled(items[i], indent), StyledItems(items[i + 1..], indent);
    if i + 1 == |items| {
      assert more == [];
      assert document + ("\n" + indent + x + [] + []) == document + "\n" + indent + x;
    } else {
      assert document + ("\n" + indent + x + "," + more) == document + "\n" + indent + x + "," + more;
    }
  }

  lemma MembersStep(document: Bytes, members: seq<Member>, i: nat, indent: Bytes)
    requires i < |members|
    ensures document + StyledMembers(members[i..], indent) ==
            if i + 1 == |members| then document + "\n" + indent + StyledMember(members[i], indent)
            else
              document + "\n" + indent + StyledMember(members[i], indent) + ","
              + StyledMembers(members[i + 1..], indent)
  {
    hide StyledMember;
    DropOne(members, i);
    var x, more := StyledMember(members[i], indent), StyledMembers(members[i + 1..], indent);
    if i + 1 == |members| {
      assert more == [];
      assert document + ("\n" + indent + x + [] + []) == document + "\n" + indent + x;
    } else {
      assert document + ("\n" + indent + x + "," + more) == document + "\n" + indent + x + "," + more;
    }
  }
}
