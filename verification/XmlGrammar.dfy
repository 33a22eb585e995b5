/**
 * What the parser of tinyxml2.cpp makes of a document, as functions on the text that is left; the text ends at its
 * NUL.
 */
module XmlGrammar {
  import opened Prelude
  import opened XmlText

  const MAX_DEPTH := 100   // TINYXML2_MAX_ELEMENT_DEPTH

  datatype Attr = Attr(name: string, value: string)

  datatype Xml =
    | Element(name: string, attrs: seq<Attr>, children: seq<Xml>)
    | Text(value: string, cdata: bool)
    | Comment(value: string)
    | Declaration(value: string)
    | Unknown(value: string)

  /** The document's settings: entities are decoded if entities; the character references are a parameter. */
  datatype Mode = Mode(entities: bool, refs: CharRefs)

  // ---------- Characters ----------

  predicate IsSpace(c: char)
  {
    c == ' ' || '\t' <= c <= '\r'
  }

  predicate NameStart(c: char)
  {
    c >= 128 as char || 'a' <= c <= 'z' || 'A' <= c <= 'Z' || c == ':' || c == '_'
  }

  predicate NameChar(c: char)
  {
    NameStart(c) || '0' <= c <= '9' || c == '.' || c == '-'
  }

  function SkipSpace(s: string): (r: string)
    ensures |r| <= |s| && (r != [] ==> !IsSpace(r[0]))
  {
    if s != [] && IsSpace(s[0]) then SkipSpace(s[1..]) else s
  }

  function NameLength(s: string): (n: nat)
    ensures n <= |s|
  {
    if s != [] && NameChar(s[0]) then 1 + NameLength(s[1..]) else 0
  }

  /** ParseName */
  function ParseName(s: string): (r: Option<(string, string)>)
    ensures r.Some? ==> r.value.0 != [] && |r.value.1| < |s|
  {
    if s == [] || !NameStart(s[0]) then None else Some((s[..1 + NameLength(s[1..])], s[1 + NameLength(s[1..])..]))
  }

  /** StrPair::ParseText: what precedes the first occurrence of the tag, and what follows it. */
  function Until(s: string, tag: string): (r: Option<(string, string)>)
    requires tag != []
    ensures r.Some? ==> s == r.value.0 + tag + r.value.1
    decreases |s|
  {
    if s == [] then None
    else if Starts(s, tag) then Some(([], s[|tag|..]))
    else
      match Until(s[1..], tag)
      case None => None
      case Some((front, rest)) => Some(([s[0]] + front, rest))
  }

  function Behind(front: string, r: Option<(string, string)>): Option<(string, string)>
  {
    match r case None => None case Some((a, rest)) => Some((front + a, rest))
  }

  lemma UntilStep(s: string, tag: string)
    requires tag != [] && s != []
    ensures if Starts(s, tag) then s[0] == tag[0] && Until(s, tag) == Some(([], s[|tag|..]))
              else Until(s, tag) == Behind([s[0]], Until(s[1..], tag))
  {
    if Starts(s, tag) { assert s[..|tag|][0] == tag[0]; }
  }

  lemma BehindTwice(a: string, b: string, r: Option<(string, string)>)
    ensures Behind(a, Behind(b, r)) == Behind(a + b, r)
    ensures Behind([], r) == r
  {
    if r.Some? {
      assert a + (b + r.value.0) == a + b + r.value.0;
      assert [] + r.value.0 == r.value.0;
    }
  }

  lemma FirstIsNoTag(s: string)
    requires SkipSpace(s) != [] && SkipSpace(s)[0] != '<'
    ensures s != [] && s[0] != '<'
  {
  }

  // ---------- Attributes ----------

  /** XMLAttribute::ParseDeep */
  ghost function ParseAttr(s: string, m: Mode): (r: Option<(Attr, string)>)
    requires Sound(m.refs)
    ensures r.Some? ==> |r.value.1| < |s|
  {
    match ParseName(s)
    case None => None
    case Some((name, t)) =>
      var u := SkipSpace(t);
      if t == [] || u == [] || u[0] != '=' then None
      else
        var v := SkipSpace(u[1..]);
        if v == [] || (v[0] != '"' && v[0] != '\'') then None
        else
          match Until(v[1..], [v[0]])
          case None => None
          case Some((raw, rest)) => Some((Attr(name, Decoded(raw, m.entities, m.refs)), rest))
  }

  predicate HasName(attrs: seq<Attr>, name: string)
  {
    exists a <- attrs :: a.name == name
  }

  /** ParseAttributes: the attributes, whether the tag closes itself, and what follows the tag. */
  ghost function ParseAttrs(s: string, attrs: seq<Attr>, m: Mode): (r: Option<(seq<Attr>, bool, string)>)
    requires Sound(m.refs)
    ensures r.Some? ==> |r.value.2| < |s|
    decreases |s|
  {
    var t := SkipSpace(s);
    if t == [] then None
    else if NameStart(t[0]) then
      match ParseAttr(t, m)
      case None => None
      case Some((a, rest)) => if HasName(attrs, a.name) then None else ParseAttrs(rest, attrs + [a], m)
    else if t[0] == '>' then Some((attrs, false, t[1..]))
    else if Starts(t, "/>") then Some((attrs, true, t[2..]))
    else None
  }

  // ---------- Nodes ----------

  /** A closing tag, a node, or a failure; with what follows. */
  datatype Item = Close(name: string, rest: string) | Open(node: Xml, rest: string) | Bad

  /** The children up to a closing tag, or up to the end of the text; or a failure. */
  datatype Nodes = Closed(children: seq<Xml>, name: string, rest: string) | Ended(children: seq<Xml>) | Failed

  /** The leaf made of the text up to a tag. */
  ghost function Leaf(s: string, tag: string, entities: bool, m: Mode, make: string -> Xml): (r: Item)
    requires tag != [] && Sound(m.refs)
    ensures r.Open? ==> |r.rest| < |s|
    ensures !r.Close?
  {
    match Until(s, tag)
    case None => Bad
    case Some((raw, rest)) => Open(make(Decoded(raw, entities, m.refs)), rest)
  }

  /** XMLText::ParseDeep: a text ends in front of the next tag, of which more than the first character must be there. */
  ghost function ParseText(s: string, m: Mode): (r: Item)
    requires Sound(m.refs) && s != [] && s[0] != '<'
    ensures r.Open? ==> |r.rest| < |s|
    ensures !r.Close?
  {
    match Until(s, "<")
    case None => Bad
    case Some((raw, rest)) => if rest == [] then Bad
        else Open(Text(Decoded(raw, m.entities, m.refs), false), "<" + rest)
  }

  /** Identify, and the parsing of the node it finds. */
  ghost function ParseNode(s: string, depth: nat, m: Mode): (r: Item)
    requires Sound(m.refs) && SkipSpace(s) != []
    ensures r.Open? || r.Close? ==> |r.rest| < |s|
    decreases |s|, 0
  {
    var t := SkipSpace(s);
    if Starts(t, "<?") then Leaf(t[2..], "?>", false, m, v => Declaration(v))
    else if Starts(t, "<!--") then Leaf(t[4..], "-->", false, m, v => Comment(v))
    else if Starts(t, "<![CDATA[") then Leaf(t[9..], "]]>", false, m, v => Text(v, true))
    else if Starts(t, "<!") then Leaf(t[2..], ">", false, m, v => Unknown(v))
    else if t[0] == '<' then ParseElement(t[1..], depth, m)
    else ParseText(s, m)
  }

  /** XMLElement::ParseDeep, after the opening angle bracket */
  ghost function ParseElement(s: string, depth: nat, m: Mode): (r: Item)
    requires Sound(m.refs)
    ensures r.Open? || r.Close? ==> |r.rest| < |s|
    decreases |s|, 0
  {
    var t := SkipSpace(s);
    var closing := t != [] && t[0] == '/';
    match ParseName(if closing then t[1..] else t)
    case None => Bad
    case Some((name, u)) =>
      match ParseAttrs(u, [], m)
      case None => Bad
      case Some((attrs, closed, rest)) =>
        if closed then Open(Element(name, attrs, []), rest)
        else if closing then Close(name, rest)
        else if rest == [] then Bad
        else
          match ParseList(rest, depth + 1, false, m)
          case Closed(children, end, after) => if end == name then Open(Element(name, attrs, children), after) else Bad
          case _ => Bad
  }

  /** XMLNode::ParseDeep, of the document or of an element; depth counts these calls. */
  ghost function ParseList(s: string, depth: nat, isDocument: bool, m: Mode): (r: Nodes)
    requires Sound(m.refs)
    ensures r.Closed? ==> |r.rest| < |s|
    decreases |s|, 2
  {
    if depth >= MAX_DEPTH then Failed else ParseNodes(s, depth, isDocument, [], m)
  }

  /** Whether a declaration may stand behind these nodes. */
  predicate DeclarationFits(isDocument: bool, before: seq<Xml>)
  {
    isDocument && (before == [] || (before[0].Declaration? && before[|before| - 1].Declaration?))
  }

  /** The loop of XMLNode::ParseDeep, after the nodes `before`. */
  ghost function ParseNodes(s: string, depth: nat, isDocument: bool, before: seq<Xml>, m: Mode): (r: Nodes)
    requires Sound(m.refs)
    ensures r.Closed? ==> |r.rest| < |s|
    decreases |s|, 1
  {
    if SkipSpace(s) == [] then Ended(before)
    else
      match ParseNode(s, depth, m)
      case Bad => Failed
      case Close(name, rest) => Closed(before, name, rest)
      case Open(node, rest) =>
        if node.Declaration? && !DeclarationFits(isDocument, before) then Failed
        else ParseNodes(rest, depth, isDocument, before + [node], m)
  }

  const BOM: string := [0xef as char, 0xbb as char, 0xbf as char]

  /** The nodes of a document; None if it is refused. */
  ghost function ParseDocument(s: string, m: Mode): Option<seq<Xml>>
    requires Sound(m.refs)
  {
    var t := SkipSpace(s);
    var u := if Starts(t, BOM) then t[3..] else t;
    if u == [] then None
    else
      match ParseList(u, 1, true, m)
      case Failed => None
      case Closed(nodes, _, _) => Some(nodes)
      case Ended(nodes) => Some(nodes)
  }
}
