/** The class FastWriter of json_writer.cpp: a value on one line, without spaces. */
module JsonFastWriter {
  import opened JsonString
  import opened JsonNumber
  import opened JsonValue

  /** The writer's switches; the text of a double is a parameter. */
  datatype Style = Style(yamlCompatibility: bool, dropNull: bool, omitLineFeed: bool, showDouble: real -> Bytes)

  function ShowBool(b: bool): Bytes { if b then "true" else "false" }

  /** What is written for a value. */
  function Fast(v: Value, st: Style): Bytes
    decreases v, 0
  {
    match v
    case Null => if st.dropNull then "" else "null"
    case Int(i) => ShowInt(i)
    case UInt(u) => ShowInt(u)
    case Real(r) => st.showDouble(r)
    case Bool(b) => ShowBool(b)
    case Str(s) => Quoted(s, false)
    case Arr(items) => "[" + FastItems(items, true, st) + "]"
    case Obj(members) => "{" + FastMembers(members, true, st) + "}"
  }

  function Comma(first: bool): Bytes { if first then [] else "," }

  /** The elements of an array, with a comma before each but the first. */
  function FastItems(items: seq<Value>, first: bool, st: Style): Bytes
    decreases items, 1
  {
    if items == [] then [] else Comma(first) + Fast(items[0], st) + FastItems(items[1..], false, st)
  }

  function FastMember(m: Member, st: Style): Bytes
    decreases m, 1
  {
    Quoted(m.name, false) + (if st.yamlCompatibility then ": " else ":") + Fast(m.value, st)
  }

  function FastMembers(members: seq<Member>, first: bool, st: Style): Bytes
    decreases members, 1
  {
    if members == [] then [] else Comma(first) + FastMember(members[0], st) + FastMembers(members[1..], false, st)
  }

  /** Commas stand between elements, and a colon behind a name; a space follows it for YAML. */
  lemma WrittenForms(a: Value, b: Value, x: Bytes, y: Bytes, st: Style)
    ensures Fast(Arr([]), st) == "[]" && Fast(Obj([]), st) == "{}"
    ensures Fast(Arr([a, b]), st) == "[" + Fast(a, st) + "," + Fast(b, st) + "]"
    ensures var colon := if st.yamlCompatibility then ": " else ":";
            Fast(Obj([Member(x, a), Member(y, b)]), st)
              == "{" + Quoted(x, false) + colon + Fast(a, st) + "," + Quoted(y, false) + colon + Fast(b, st) + "}"
  {
    hide Quoted, Fast, FastItems, FastMembers;
    ListForms(a, b, st);
    ObjectForms(Member(x, a), Member(y, b), st);
    var colon := if st.yamlCompatibility then ": " else ":";
    var p, q, r, t := Quoted(x, false), Fast(a, st), Quoted(y, false), Fast(b, st);
    assert "{" + (p + colon + q + "," + (r + colon + t)) + "}" == "{" + p + colon + q + "," + r + colon + t + "}";
  }

  lemma ListForms(a: Value, b: Value, st: Style)
    ensures Fast(Arr([]), st) == "[]" && Fast(Obj([]), st) == "{}"
    ensures Fast(Arr([a, b]), st) == "[" + Fast(a, st) + "," + Fast(b, st) + "]"
  {
    assert [a, b][1..] == [b] && [b][1..] == [];
    var p, q := Fast(a, st), Fast(b, st);
    assert FastItems([], true, st) == [] && FastMembers([], true, st) == [];
    assert FastItems([b], false, st) == "," + q + [];
    assert "[" + ([] + p + ("," + q + [])) + "]" == "[" + p + "," + q + "]";
  }

  lemma ObjectForms(m: Member, n: Member, st: Style)
    ensures Fast(Obj([m, n]), st) == "{" + (FastMember(m, st) + "," + FastMember(n, st)) + "}"
  {
    hide FastMember;
    MembersForms(m, n, st);
  }

  lemma MembersForms(m: Member, n: Member, st: Style)
    ensures FastMembers([], true, st) == []
    ensures FastMembers([m, n], true, st) == FastMember(m, st) + "," + FastMember(n, st)
  {
    hide FastMember;
    assert [m, n][1..] == [n] && [n][1..] == [];
    var p, q := FastMember(m, st), FastMember(n, st);
    assert FastMembers([n], false, st) == "," + q + [];
    assert [] + p + ("," + q + []) == p + "," + q;
  }

  lemma DropOne<T>(items: seq<T>, i: nat)
    requires i < |items|
    ensures items[i..][0] == items[i] && items[i..][1..] == items[i + 1..]
  {
  }

  lemma Ends<T>(items: seq<T>)
    ensures items[|items|..] == [] && items[0..] == items
  {
  }

  lemma Append(doc: Bytes, a: Bytes, b: Bytes, c: Bytes)
    ensures doc + (a + b + c) == doc + a + b + c
  {
    assert doc + (a + b + c) == doc + a + b + c;
  }

  /** The integers of a value fit the types that hold them. */
  predicate InRange(v: Value)
    decreases v
  {
    match v
    case Int(i) => MIN_INT <= i <= -MIN_INT - 1
    case UInt(u) => u <= MAX_UINT
    case Arr(items) => forall x <- items :: InRange(x)
    case Obj(members) => forall m <- members :: InRange(m.value)
    case _ => true
  }

  class FastWriter {
    const st: Style
    var document: Bytes

    constructor (st: Style)
      ensures this.st == st && document == []
    {
      this.st, document := st, [];
    }

    /** write */
    method Write(root: Value) returns (text: Bytes)
      requires InRange(root)
      modifies this
      ensures text == document == Fast(root, st) + if st.omitLineFeed then [] else "\n"
    {
      document := [];
      WriteValue(root);
      if !st.omitLineFeed {
        document := document + "\n";
      }
      text := document;
    }

    /** writeValue */
    method WriteValue(value: Value)
      requires InRange(value)
      modifies this
      ensures document == old(document) + Fast(value, st)
      decreases value, 0
    {
      var text: Bytes := [];
      match value {
        case Null => text := if st.dropNull then "" else "null";
        case Int(i) => text := ValueToStringInt(i as LargestInt);
        case UInt(u) => text := ValueToStringUInt(u as LargestUInt);
        case Real(r) => text := st.showDouble(r);
        case Bool(b) => text := ShowBool(b);
        case Str(s) => text := ValueToQuotedStringN(s, false);
        case Arr(items) =>
          WriteItems(items);
          Append(old(document), "[", FastItems(items, true, st), "]");
          return;
        case Obj(members) =>
          WriteMembers(members);
          Append(old(document), "{", FastMembers(members, true, st), "}");
          return;
      }
      document := document + text;
    }

    /** The case of arrays in writeValue. */
    method WriteItems(items: seq<Value>)
      requires forall x <- items :: InRange(x)
      modifies this
      ensures document == old(document) + "[" + FastItems(items, true, st) + "]"
      decreases items, 1
    {
      hide Fast, InRange;
      document := document + "[";
      ghost var start := document;
      var index := 0;
      Ends(items);
      while index < |items|
        invariant 0 <= index <= |items|
        invariant document + FastItems(items[index..], index == 0, st) == start + FastItems(items, true, st)
      {
        DropOne(items, index);
        Append(document, Comma(index == 0), Fast(items[index], st), FastItems(items[index + 1..], false, st));
        if index > 0 {
          document := document + ",";
        }
        WriteValue(items[index]);
        index := index + 1;
      }
      document := document + "]";
    }

    /** The case of objects in writeValue. */
    method WriteMembers(members: seq<Member>)
      requires forall m <- members :: InRange(m.value)
      modifies this
      ensures document == old(document) + "{" + FastMembers(members, true, st) + "}"
      decreases members, 1
    {
      hide Fast, InRange, FastMember;
      document := document + "{";
      ghost var start := document;
      var index := 0;
      Ends(members);
      while index < |members|
        invariant 0 <= index <= |members|
        invariant document + FastMembers(members[index..], index == 0, st) == start + FastMembers(members, true, st)
      {
        DropOne(members, index);
        Append(document, Comma(index == 0), FastMember(members[index], st),
               FastMembers(members[index + 1..], false, st));
        if index > 0 {
          document := document + ",";
        }
        WriteMember(members[index]);
        index := index + 1;
      }
      document := document + "}";
    }

    /** One member of an object. */
    method WriteMember(m: Member)
      requires InRange(m.value)
      modifies this
      ensures document == old(document) + FastMember(m, st)
      decreases m, 1
    {
      hide Fast, Quoted, InRange;
      var name := ValueToQuotedStringN(m.name, false);
      ghost var colon := if st.yamlCompatibility then ": " else ":";
      Append(document, name, colon, Fast(m.value, st));
      document := document + name;
      document := document + if st.yamlCompatibility then ": " else ":";
      WriteValue(m.value);
    }
  }
}
