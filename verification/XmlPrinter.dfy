/** The compact path of XMLPrinter (tinyxml2.cpp). */
module XmlPrinter {
  import opened XmlText
  import opened XmlGrammar

  function PrintAttr(a: Attr): string
  {
    " " + a.name + "=\"" + Escaped(a.value, false) + "\""
  }

  function PrintAttrs(attrs: seq<Attr>): string
  {
    if attrs == [] then [] else PrintAttr(attrs[0]) + PrintAttrs(attrs[1..])
  }

  /** What is printed for a node. */
  function Print(x: Xml): string
    decreases x, 0
  {
    match x
    case Element(name, attrs, children) =>
      "<" + name + PrintAttrs(attrs) + if children == [] then "/>" else ">" + PrintAll(children) + "</" + name + ">"
    case Text(value, cdata) => if cdata then "<![CDATA[" + value + "]]>" else Escaped(value, true)
    case Comment(value) => "<!--" + value + "-->"
    case Declaration(value) => "<?" + value + "?>"
    case Unknown(value) => "<!" + value + ">"
  }

  function PrintAll(nodes: seq<Xml>): string
    decreases nodes, 1
  {
    if nodes == [] then [] else Print(nodes[0]) + PrintAll(nodes[1..])
  }

  lemma {:induction false} PrintAllLast(nodes: seq<Xml>, x: Xml)
    ensures PrintAll(nodes + [x]) == PrintAll(nodes) + Print(x)
  {
    hide Print;
    if nodes == [] {
      assert nodes + [x] == [x];
      assert Print(x) + PrintAll([]) == Print(x);
    } else {
      assert (nodes + [x])[1..] == nodes[1..] + [x];
      PrintAllLast(nodes[1..], x);
    }
  }

  lemma {:induction false} PrintAttrsLast(attrs: seq<Attr>, a: Attr)
    ensures PrintAttrs(attrs + [a]) == PrintAttrs(attrs) + PrintAttr(a)
  {
    hide PrintAttr;
    if attrs == [] {
      assert attrs + [a] == [a];
      assert PrintAttr(a) + PrintAttrs([]) == PrintAttr(a);
    } else {
      assert (attrs + [a])[1..] == attrs[1..] + [a];
      PrintAttrsLast(attrs[1..], a);
    }
  }

  class Printer {
    var elementJustOpened: bool
    var stack: seq<string>
    var buffer: string

    constructor ()
      ensures buffer == [] && stack == [] && !elementJustOpened
    {
      elementJustOpened, stack, buffer := false, [], [];
    }

    /** The buffer once a tag that is still open is sealed. */
    ghost function Sealed(): string
      reads this
    {
      buffer + if elementJustOpened then ">" else []
    }

    /** SealElementIfJustOpened */
    method Seal()
      modifies this`elementJustOpened, this`buffer
      ensures !elementJustOpened && buffer == old(Sealed())
    {
      if !elementJustOpened {
        return;
      }
      elementJustOpened := false;
      buffer := buffer + ">";
    }

    /** OpenElement */
    method OpenElement(name: string)
      modifies this
      ensures elementJustOpened && stack == old(stack) + [name] && buffer == old(Sealed()) + "<" + name
    {
      Seal();
      stack := stack + [name];
      buffer := buffer + "<";
      buffer := buffer + name;
      elementJustOpened := true;
    }

    /** PushAttribute */
    method PushAttribute(name: string, value: string)
      requires elementJustOpened
      modifies this`buffer
      ensures buffer == old(buffer) + PrintAttr(Attr(name, value))
    {
      var text := PrintString(value, false);
      buffer := buffer + " ";
      buffer := buffer + name;
      buffer := buffer + "=\"";
      buffer := buffer + text;
      buffer := buffer + "\"";
    }

    /** CloseElement: an element without content closes itself. */
    method CloseElement()
      requires stack != []
      modifies this
      ensures !elementJustOpened && stack == old(stack[..|stack| - 1])
      ensures buffer == old(buffer) + if old(elementJustOpened) then "/>" else "</" + old(stack[|stack| - 1]) + ">"
    {
      var name := stack[|stack| - 1];
      stack := stack[..|stack| - 1];
      if elementJustOpened {
        buffer := buffer + "/>";
      } else {
        buffer := buffer + "</";
        buffer := buffer + name;
        buffer := buffer + ">";
      }
      elementJustOpened := false;
    }

    /** PushText */
    method PushText(text: string, cdata: bool)
      modifies this`elementJustOpened, this`buffer
      ensures !elementJustOpened && buffer == old(Sealed()) + Print(Text(text, cdata))
    {
      Seal();
      if cdata {
        buffer := buffer + "<![CDATA[";
        buffer := buffer + text;
        buffer := buffer + "]]>";
      } else {
        var t := PrintString(text, true);
        buffer := buffer + t;
      }
    }

    /** PushComment, PushDeclaration and PushUnknown */
    method PushMarkup(front: string, value: string, back: string)
      modifies this`elementJustOpened, this`buffer
      ensures !elementJustOpened && buffer == old(Sealed()) + (front + value + back)
    {
      Seal();
      buffer := buffer + front;
      buffer := buffer + value;
      buffer := buffer + back;
    }

    /** Accept: prints a node, and all below it, through the visits of the printer. */
    method Accept(x: Xml)
      modifies this
      ensures !elementJustOpened && stack == old(stack) && buffer == old(Sealed()) + Print(x)
      decreases x, 0
    {
      match x {
        case Element(name, attrs, children) => AcceptElement(name, attrs, children);
        case Text(value, cdata) => PushText(value, cdata);
        case Comment(value) => PushMarkup("<!--", value, "-->");
        case Declaration(value) => PushMarkup("<?", value, "?>");
        case Unknown(value) => PushMarkup("<!", value, ">");
      }
    }

    method AcceptElement(name: string, attrs: seq<Attr>, children: seq<Xml>)
      modifies this
      ensures !elementJustOpened && stack == old(stack)
      ensures buffer == old(Sealed()) + Print(Element(name, attrs, children))
      decreases children, 1
    {
      hide PrintAttr, PrintAll, PrintAttrs;
      OpenElement(name);
      ghost var front := buffer;
      PushAttributes(attrs);
      if children != [] {
        AcceptAll(children);
      }
      CloseElement();
      ghost var tag, all := PrintAttrs(attrs), PrintAll(children);
      if children == [] {
        assert front + tag + "/>" == old(Sealed()) + ("<" + name + tag + "/>");
      } else {
        assert front + tag + ">" + all + ("</" + name + ">")
            == old(Sealed()) + ("<" + name + tag + (">" + all + "</" + name + ">"));
      }
    }

    method PushAttributes(attrs: seq<Attr>)
      requires elementJustOpened
      modifies this`buffer
      ensures buffer == old(buffer) + PrintAttrs(attrs)
    {
      var i := 0;
      assert attrs[..0] == [];
      while i < |attrs|
        invariant 0 <= i <= |attrs| && buffer == old(buffer) + PrintAttrs(attrs[..i])
      {
        PushAttribute(attrs[i].name, attrs[i].value);
        PrintAttrsLast(attrs[..i], attrs[i]);
        assert attrs[..i + 1] == attrs[..i] + [attrs[i]];
        i := i + 1;
      }
      assert attrs[..i] == attrs;
    }

    method AcceptAll(nodes: seq<Xml>)
      requires nodes != []
      modifies this
      ensures !elementJustOpened && stack == old(stack) && buffer == old(Sealed()) + PrintAll(nodes)
      decreases nodes, 0
    {
      hide Print;
      var i := 0;
      assert nodes[..0] == [];
      while i < |nodes|
        invariant 0 <= i <= |nodes| && stack == old(stack) && (i > 0 ==> !elementJustOpened)
        invariant Sealed() == old(Sealed()) + PrintAll(nodes[..i])
      {
        Accept(nodes[i]);
        PrintAllLast(nodes[..i], nodes[i]);
        assert nodes[..i + 1] == nodes[..i] + [nodes[i]];
        i := i + 1;
      }
      assert nodes[..i] == nodes;
    }
  }
}
