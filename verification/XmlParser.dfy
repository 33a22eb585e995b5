/** The parser of tinyxml2.cpp: a pointer into the document's buffer, and recursive descent over its nodes. */
module XmlParser {
  import opened Prelude
  import opened XmlText
  import opened XmlGrammar

  /** What parsing a node gives; positions stand for pointers, and Bad for the null pointer. */
  datatype Read = Closing(name: string, next: nat) | Made(node: Xml, next: nat) | Null

  datatype ReadList = Upto(children: seq<Xml>, name: string, next: nat) | AtEnd(children: seq<Xml>) | Refused

  class Parser {
    const doc: string
    const m: Mode
    var parsingDepth: nat

    constructor (doc: string, m: Mode)
      ensures this.doc == doc && this.m == m && parsingDepth == 0
    {
      this.doc, this.m, parsingDepth := doc, m, 0;
    }

    /** SkipWhiteSpace */
    method SkipWhiteSpace(p: nat) returns (q: nat)
      requires p <= |doc|
      ensures p <= q <= |doc| && doc[q..] == SkipSpace(doc[p..])
    {
      q := p;
      while q < |doc| && IsSpace(doc[q])
        invariant p <= q <= |doc| && SkipSpace(doc[q..]) == SkipSpace(doc[p..])
      {
        assert doc[q..][1..] == doc[q + 1..];
        q := q + 1;
      }
    }

    /** StrPair::ParseName: the end of the name. */
    method ReadName(p: nat) returns (r: Option<nat>)
      requires p <= |doc|
      ensures match ParseName(doc[p..])
        case None => r == None
        case Some((name, rest)) => r.Some? && p < r.value <= |doc| && doc[p..r.value] == name && doc[r.value..] == rest
    {
      if p == |doc| || !NameStart(doc[p]) {
        return None;
      }
      var q := p + 1;
      ghost var s := doc[p..];
      assert s[1..] == doc[q..];
      while q < |doc| && NameChar(doc[q])
        invariant p < q <= |doc| && q + NameLength(doc[q..]) == p + 1 + NameLength(s[1..])
      {
        assert doc[q..][1..] == doc[q + 1..];
        q := q + 1;
      }
      assert s[..q - p] == doc[p..q] && s[q - p..] == doc[q..];
      r := Some(q);
    }

    /** StrPair::ParseText: where the tag stands. */
    method ReadUntil(p: nat, tag: string) returns (r: Option<nat>)
      requires p <= |doc| && tag != []
      ensures match Until(doc[p..], tag)
        case None => r == None
        case Some((raw, rest)) =>
          && r.Some? && p <= r.value && r.value + |tag| <= |doc| && doc[p..r.value] == raw
          && doc[r.value + |tag|..] == rest
    {
      hide Until, Behind;
      var q := p;
      assert doc[p..q] == [];
      BehindTwice([], [], Until(doc[p..], tag));
      while q < |doc|
        invariant p <= q <= |doc| && Until(doc[p..], tag) == Behind(doc[p..q], Until(doc[q..], tag))
      {
        ghost var s := doc[q..];
        UntilStep(s, tag);
        if doc[q] == tag[0] && Starts(doc[q..], tag) {
          assert s[|tag|..] == doc[q + |tag|..];
          BehindFound(doc[p..q], s[|tag|..]);
          return Some(q);
        }
        BehindTwice(doc[p..q], [s[0]], Until(s[1..], tag));
        assert s[1..] == doc[q + 1..] && doc[p..q + 1] == doc[p..q] + [doc[q]];
        q := q + 1;
      }
      UntilNone(tag);
      r := None;
    }

    /** GetStr on a part of the buffer: the text is decoded in a copy. */
    method TextOf(p: nat, end: nat, entities: bool) returns (text: string)
      requires p <= end <= |doc| && Sound(m.refs)
      ensures text == Decoded(doc[p..end], entities, m.refs)
    {
      var raw := doc[p..end];
      var buf := new char[|raw| + 1](i requires 0 <= i <= |raw| => if i < |raw| then raw[i] else NUL);
      assert buf[0..|raw|] == raw;
      var q := DecodeInPlace(buf, 0, |raw|, entities, m.refs);
      text := buf[0..q];
    }

    /** XMLAttribute::ParseDeep */
    method ReadAttr(p: nat) returns (r: Option<(Attr, nat)>)
      requires p <= |doc| && Sound(m.refs)
      ensures match ParseAttr(doc[p..], m)
        case None => r == None
        case Some((a, rest)) => r.Some? && r.value.0 == a && p < r.value.1 <= |doc| && doc[r.value.1..] == rest
    {
      hide ParseName, Until, SkipSpace;
      var end := ReadName(p);
      if end == None || end.value == |doc| {
        return None;
      }
      var q := SkipWhiteSpace(end.value);
      if q == |doc| || doc[q] != '=' {
        return None;
      }
      assert doc[q..][1..] == doc[q + 1..];
      q := SkipWhiteSpace(q + 1);
      if q == |doc| || (doc[q] != '"' && doc[q] != '\'') {
        return None;
      }
      assert doc[q..][1..] == doc[q + 1..];
      var close := ReadUntil(q + 1, [doc[q]]);
      if close == None {
        return None;
      }
      var value := TextOf(q + 1, close.value, m.entities);
      r := Some((Attr(doc[p..end.value], value), close.value + 1));
    }

    /** ParseAttributes */
    method ReadAttrs(p: nat) returns (r: Option<(seq<Attr>, bool, nat)>)
      requires p <= |doc| && Sound(m.refs)
      ensures match ParseAttrs(doc[p..], [], m)
        case None => r == None
        case Some((attrs, closed, rest)) =>
          r.Some? && r.value.0 == attrs && r.value.1 == closed && p < r.value.2 <= |doc| && doc[r.value.2..] == rest
    {
      hide ParseAttr, SkipSpace;
      var attrs: seq<Attr>, q := [], p;
      while true
        invariant p <= q <= |doc| && ParseAttrs(doc[q..], attrs, m) == ParseAttrs(doc[p..], [], m)
        decreases |doc| - q
      {
        var t := SkipWhiteSpace(q);
        ghost var s := doc[t..];
        if t == |doc| {
          return None;
        }
        if NameStart(doc[t]) {
          var a := ReadAttr(t);
          if a == None || HasName(attrs, a.value.0.name) {
            return None;
          }
          attrs := attrs + [a.value.0];
          q := a.value.1;
        } else if doc[t] == '>' {
          assert s[1..] == doc[t + 1..];
          return Some((attrs, false, t + 1));
        } else if doc[t] == '/' && t + 1 < |doc| && doc[t + 1] == '>' {
          assert s[..2] == "/>" && s[2..] == doc[t + 2..];
          return Some((attrs, true, t + 2));
        } else {
          return None;
        }
      }
    }

    /** What was read agrees with the grammar. */
    ghost predicate Agrees(r: Read, x: Item)
    {
      match x
      case Bad => r == Null
      case Close(name, rest) => r.Closing? && r.name == name && r.next <= |doc| && doc[r.next..] == rest
      case Open(node, rest) => r.Made? && r.node == node && r.next <= |doc| && doc[r.next..] == rest
    }

    ghost predicate AgreesAll(r: ReadList, x: Nodes)
    {
      match x
      case Failed => r == Refused
      case Closed(children, name, rest) => r.Upto? && r.children == children && r.name == name && r.next <= |doc|
          && doc[r.next..] == rest
      case Ended(children) => r == AtEnd(children)
    }

    /** ParseDeep of comments, declarations, unknown nodes and character data: the text up to the tag. */
    method ReadLeaf(p: nat, tag: string, make: string -> Xml) returns (r: Read)
      requires p <= |doc| && tag != [] && Sound(m.refs)
      ensures Agrees(r, Leaf(doc[p..], tag, false, m, make))
    {
      hide Until;
      var end := ReadUntil(p, tag);
      if end == None {
        return Null;
      }
      var value := TextOf(p, end.value, false);
      r := Made(make(value), end.value + |tag|);
    }

    /** XMLText::ParseDeep */
    method ReadText(p: nat) returns (r: Read)
      requires p < |doc| && doc[p] != '<' && Sound(m.refs)
      ensures Agrees(r, ParseText(doc[p..], m))
    {
      hide Until;
      var end := ReadUntil(p, "<");
      if end == None || end.value + 1 == |doc| {
        return Null;
      }
      ghost var found := Until(doc[p..], "<").value;
      assert doc[end.value..] == "<" + found.1;
      var value := TextOf(p, end.value, m.entities);
      r := Made(Text(value, false), end.value);
    }

    /** StringEqual on a part of the buffer */
    predicate LooksAt(p: nat, pattern: string)
      requires p <= |doc|
    {
      p + |pattern| <= |doc| && doc[p..p + |pattern|] == pattern
    }

    lemma LooksAtStarts(p: nat, pattern: string)
      requires p <= |doc|
      ensures LooksAt(p, pattern) <==> Starts(doc[p..], pattern)
      ensures LooksAt(p, pattern) ==> doc[p..][|pattern|..] == doc[p + |pattern|..]
    {
      if p + |pattern| <= |doc| {
        assert doc[p..][..|pattern|] == doc[p..p + |pattern|];
      }
    }

    /** Identify, and ParseDeep of the node it makes. */
    method ReadNode(p: nat, start: nat, depth: nat) returns (r: Read)
      requires start <= p < |doc| && doc[p..] == SkipSpace(doc[start..]) && Sound(m.refs)
      requires parsingDepth == depth
      modifies this`parsingDepth
      ensures parsingDepth == depth && Agrees(r, ParseNode(doc[start..], depth, m))
      decreases |doc| - start, 0
    {
      hide ParseElement, Leaf, ParseText, LooksAt, SkipSpace;
      LooksAtStarts(p, "<?");
      LooksAtStarts(p, "<!--");
      LooksAtStarts(p, "<![CDATA[");
      LooksAtStarts(p, "<!");
      if LooksAt(p, "<?") {
        r := ReadLeaf(p + 2, "?>", v => Declaration(v));
      } else if LooksAt(p, "<!--") {
        r := ReadLeaf(p + 4, "-->", v => Comment(v));
      } else if LooksAt(p, "<![CDATA[") {
        r := ReadLeaf(p + 9, "]]>", v => Text(v, true));
      } else if LooksAt(p, "<!") {
        r := ReadLeaf(p + 2, ">", v => Unknown(v));
      } else if doc[p] == '<' {
        assert doc[p..][1..] == doc[p + 1..];
        r := ReadElement(p + 1, depth);
      } else {
        FirstIsNoTag(doc[start..]);
        r := ReadText(start);
      }
    }

    /** XMLElement::ParseDeep, after the opening angle bracket */
    method ReadElement(p: nat, depth: nat) returns (r: Read)
      requires p <= |doc| && Sound(m.refs) && parsingDepth == depth
      modifies this`parsingDepth
      ensures parsingDepth == depth && Agrees(r, ParseElement(doc[p..], depth, m))
      decreases |doc| - p, 0
    {
      hide ParseAttrs, ParseName, ParseList, SkipSpace;
      var q := SkipWhiteSpace(p);
      var closing := q < |doc| && doc[q] == '/';
      if closing {
        assert doc[q..][1..] == doc[q + 1..];
        q := q + 1;
      }
      var end := ReadName(q);
      if end == None {
        return Null;
      }
      var name := doc[q..end.value];
      var attrs := ReadAttrs(end.value);
      if attrs == None {
        return Null;
      }
      var next := attrs.value.2;
      if attrs.value.1 {
        return Made(Element(name, attrs.value.0, []), next);
      }
      if closing {
        return Closing(name, next);
      }
      if next == |doc| {
        return Null;
      }
      var list := ReadChildren(next, depth, false);
      match list
      case Upto(children, last, after) => r := if last == name then Made(Element(name, attrs.value.0, children), after)
          else Null;
      case _ => r := Null;
    }

    /** XMLNode::ParseDeep; the depth is tracked while it runs. */
    method ReadChildren(p: nat, depth: nat, isDocument: bool) returns (r: ReadList)
      requires p <= |doc| && Sound(m.refs) && parsingDepth == depth
      modifies this`parsingDepth
      ensures parsingDepth == depth && AgreesAll(r, ParseList(doc[p..], depth + 1, isDocument, m))
      decreases |doc| - p, 2
    {
      hide ParseNodes;
      parsingDepth := parsingDepth + 1;
      if parsingDepth >= MAX_DEPTH {
        r := Refused;
      } else {
        r := ReadNodes(p, depth + 1, isDocument);
      }
      parsingDepth := parsingDepth - 1;
    }

    /** The loop of XMLNode::ParseDeep. */
    method ReadNodes(p: nat, depth: nat, isDocument: bool) returns (r: ReadList)
      requires p <= |doc| && Sound(m.refs) && parsingDepth == depth
      modifies this`parsingDepth
      ensures parsingDepth == depth && AgreesAll(r, ParseNodes(doc[p..], depth, isDocument, [], m))
      decreases |doc| - p, 1
    {
      hide ParseNode, SkipSpace;
      var q := p;
      var nodes: seq<Xml> := [];
      while true
        invariant p <= q <= |doc| && parsingDepth == depth
        invariant ParseNodes(doc[q..], depth, isDocument, nodes, m) == ParseNodes(doc[p..], depth, isDocument, [], m)
        decreases |doc| - q
      {
        var t := SkipWhiteSpace(q);
        if t == |doc| {
          return AtEnd(nodes);
        }
        var x := ReadNode(t, q, depth);
        if x == Null {
          return Refused;
        }
        if x.Closing? {
          return Upto(nodes, x.name, x.next);
        }
        if x.node.Declaration? && !DeclarationFits(isDocument, nodes) {
          return Refused;
        }
        nodes := nodes + [x.node];
        q := x.next;
      }
    }

    /** XMLDocument::Parse */
    method Parse() returns (r: Option<seq<Xml>>)
      requires Sound(m.refs) && parsingDepth == 0
      modifies this`parsingDepth
      ensures r == ParseDocument(doc, m)
    {
      hide ParseList, SkipSpace, LooksAt;
      assert doc[0..] == doc;
      var p := SkipWhiteSpace(0);
      LooksAtStarts(p, BOM);
      if LooksAt(p, BOM) {
        p := p + 3;
      }
      if p == |doc| {
        return None;
      }
      var list := ReadChildren(p, 0, true);
      match list
      case Refused => r := None;
      case Upto(nodes, _, _) => r := Some(nodes);
      case AtEnd(nodes) => r := Some(nodes);
    }
  }

  lemma BehindFound(front: string, rest: string)
    ensures Behind(front, Some(([], rest))) == Some((front, rest))
  {
    assert front + [] == front;
  }

  lemma UntilNone(tag: string)
    requires tag != []
    ensures Until([], tag) == None && forall front :: Behind(front, None) == None
  {
  }
}
