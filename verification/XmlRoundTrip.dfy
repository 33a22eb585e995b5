/** Parsing what the compact printer prints: the parser and the printer of tinyxml2.cpp are inverse to each other. */
module XmlRoundTrip {
  import opened Prelude
  import opened XmlText
  import opened XmlGrammar
  import opened XmlPrinter

  // ---------- The trees that come back ----------

  predicate GoodName(name: string)
  {
    name != [] && NameStart(name[0]) && forall c <- name :: NameChar(c)
  }

  /** Strings of C, without carriage returns, which line-end normalization would change. */
  predicate GoodText(s: string)
  {
    CR !in s && NUL !in s
  }

  /** p occurs in s. */
  predicate Holds(s: string, p: string)
  {
    exists k | 0 <= k <= |s| :: Starts(s[k..], p)
  }

  predicate GoodAttrs(attrs: seq<Attr>)
  {
    && (forall a <- attrs :: GoodName(a.name) && GoodText(a.value))
    && forall i, j | 0 <= i < j < |attrs| :: attrs[i].name != attrs[j].name
  }

  predicate IsText(x: Xml)
  {
    x.Text? && !x.cdata
  }

  /** Some character is no white space. */
  predicate Visible(s: string)
  {
    exists c <- s :: !IsSpace(c)
  }

  /** Nodes that are printed so that they can be told apart when read. */
  predicate Good(x: Xml)
    decreases x, 0
  {
    match x
    case Element(name, attrs, children) => GoodName(name) && GoodAttrs(attrs) && GoodNodes(children, false)
    case Text(v, cdata) => GoodText(v) && if cdata then !Holds(v, "]]>") else Visible(v)
    case Comment(v) => GoodText(v) && !Holds(v, "-->")
    case Declaration(v) => GoodText(v) && !Holds(v, "?>")
    case Unknown(v) => GoodText(v) && !Holds(v, ">") && !Starts(v, "--") && !Starts(v, "[CDATA[")
  }

  /** No text stands beside another, or at the end of the document; elements hold no declarations. */
  predicate GoodNodes(nodes: seq<Xml>, isDocument: bool)
    decreases nodes, 1
  {
    nodes == [] || (
      && Good(nodes[0]) && (nodes[0].Declaration? ==> isDocument)
      && (IsText(nodes[0]) ==> if |nodes| == 1 then !isDocument else !IsText(nodes[1]))
      && GoodNodes(nodes[1..], isDocument))
  }

  /** Declarations come first. */
  predicate DeclarationsFirst(nodes: seq<Xml>)
  {
    forall i | 0 < i < |nodes| && nodes[i].Declaration? :: nodes[i - 1].Declaration?
  }

  /** How deeply elements with content are nested in a node. */
  function Height(x: Xml): nat
    decreases x, 0
  {
    match x
    case Element(_, _, children) => if children == [] then 0 else 1 + HeightAll(children)
    case _ => 0
  }

  function HeightAll(nodes: seq<Xml>): nat
    decreases nodes, 1
  {
    if nodes == [] then 0 else Max(Height(nodes[0]), HeightAll(nodes[1..]))
  }

  // ---------- Leaves ----------

  /** The last character of the tag is none of those before it. */
  predicate Tag(tag: string)
  {
    tag != [] && tag[|tag| - 1] !in tag[..|tag| - 1]
  }

  lemma HoldsRest(s: string, p: string)
    requires s != [] && !Holds(s, p)
    ensures !Holds(s[1..], p) && !Starts(s, p)
  {
    assert s[0..] == s;
    forall k | 0 <= k <= |s[1..]|
      ensures !Starts(s[1..][k..], p)
    {
      assert s[1..][k..] == s[k + 1..];
    }
  }

  /** A tag that is not in v starts nowhere in front of the one behind v. */
  lemma NoEarlierTag(v: string, tag: string, rest: string)
    requires Tag(tag) && v != [] && !Starts(v, tag)
    ensures !Starts(v + tag + rest, tag)
  {
    var s, n := v + tag + rest, |tag|;
    if |v| >= n {
      assert s[..n] == v[..n];
    } else {
      assert s[n - 1] == tag[n - 1 - |v|] && tag[n - 1 - |v|] in tag[..n - 1];
      assert s[..n][n - 1] == s[n - 1];
    }
  }

  lemma {:induction false} UntilTag(v: string, tag: string, rest: string)
    requires Tag(tag) && !Holds(v, tag)
    ensures Until(v + tag + rest, tag) == Some((v, rest))
    decreases |v|
  {
    hide Holds;
    var s := v + tag + rest;
    if v == [] {
      assert s == tag + rest && s[..|tag|] == tag && s[|tag|..] == rest;
    } else {
      HoldsRest(v, tag);
      NoEarlierTag(v, tag, rest);
      assert s[1..] == v[1..] + tag + rest;
      UntilTag(v[1..], tag, rest);
      assert [v[0]] + v[1..] == v;
    }
  }

  lemma {:induction false} DecodePlainFrom(raw: string, refs: CharRefs, i: nat)
    requires CR !in raw && i <= |raw| && Sound(refs)
    ensures DecodedFrom(raw, false, refs, i, raw[..i]) == raw
    decreases |raw| - i
  {
    if i == |raw| {
      assert raw[..i] == raw;
    } else {
      assert raw[i] in raw && (i + 1 < |raw| ==> raw[i + 1] in raw);
      assert raw[..i] + [raw[i]] == raw[..i + 1];
      DecodePlainFrom(raw, refs, i + 1);
    }
  }

  /** Without entities, a text without carriage returns is taken as it is. */
  lemma DecodePlainText(raw: string, refs: CharRefs)
    requires CR !in raw && Sound(refs)
    ensures Decoded(raw, false, refs) == raw
  {
    assert raw[..0] == [];
    DecodePlainFrom(raw, refs, 0);
  }

  lemma LeafBack(v: string, tag: string, rest: string, m: Mode, make: string -> Xml)
    requires Tag(tag) && GoodText(v) && !Holds(v, tag) && Sound(m.refs)
    ensures Leaf(v + tag + rest, tag, false, m, make) == Open(make(v), rest)
  {
    hide Holds;
    UntilTag(v, tag, rest);
    DecodePlainText(v, m.refs);
  }

  // ---------- Attributes ----------

  lemma {:induction false} NameRun(s: string, rest: string)
    requires (forall c <- s :: NameChar(c)) && (rest == [] || !NameChar(rest[0]))
    ensures NameLength(s + rest) == |s|
  {
    if s == [] {
      assert s + rest == rest;
    } else {
      assert (s + rest)[1..] == s[1..] + rest;
      NameRun(s[1..], rest);
    }
  }

  lemma NameBack(name: string, rest: string)
    requires GoodName(name) && (rest == [] || !NameChar(rest[0]))
    ensures ParseName(name + rest) == Some((name, rest))
  {
    var s := name + rest;
    assert s[1..] == name[1..] + rest;
    NameRun(name[1..], rest);
    assert s[..|name|] == name && s[|name|..] == rest;
  }

  lemma SkipNothing(s: string)
    requires s == [] || !IsSpace(s[0])
    ensures SkipSpace(s) == s
  {
  }

  lemma {:induction false} NoQuote(s: string)
    ensures '"' !in Escaped(s, false)
  {
    if s != [] {
      NoQuote(s[1..]);
    }
  }

  lemma {:induction false} NoTagStart(s: string)
    ensures '<' !in Escaped(s, true)
  {
    if s != [] {
      NoTagStart(s[1..]);
    }
  }

  lemma NotHeld(s: string, c: char)
    requires c !in s
    ensures !Holds(s, [c])
  {
    forall k | 0 <= k <= |s|
      ensures !Starts(s[k..], [c])
    {
      assert k < |s| ==> s[k..][..1] == [s[k]];
    }
  }

  lemma AttrBack(a: Attr, rest: string, m: Mode)
    requires GoodName(a.name) && GoodText(a.value) && m.entities && Sound(m.refs)
    ensures PrintAttr(a)[0] == ' ' && ParseAttr(PrintAttr(a)[1..] + rest, m) == Some((a, rest))
  {
    hide GoodName, Holds, ParseName, NameStart, NameChar;
    var e := Escaped(a.value, false);
    var tail := "\"" + rest;
    var v := "\"" + e + tail;
    var u := "=" + v;
    assert PrintAttr(a) == " " + (a.name + "=\"" + e + "\"");
    assert PrintAttr(a)[1..] + rest == a.name + u;
    assert !NameChar('=') by { EqualsIsNoName(); }
    NameBack(a.name, u);
    SkipNothing(u);
    assert u[1..] == v;
    SkipNothing(v);
    assert v[1..] == e + "\"" + rest;
    NoQuote(a.value);
    NotHeld(e, '"');
    UntilTag(e, "\"", rest);
    DecodeEscaped(a.value, false, m.refs);
  }

  lemma EqualsIsNoName()
    ensures !NameChar('=') && !NameChar(' ') && !NameChar('/') && !NameChar('>') && !NameStart('>') && !NameStart('/')
  {
  }

  /** The attributes of a tag are read back, and what follows them is read next. */
  lemma {:induction false} AttrsBack(attrs: seq<Attr>, before: seq<Attr>, tail: string, m: Mode)
    requires GoodAttrs(before + attrs) && m.entities && Sound(m.refs)
    ensures ParseAttrs(PrintAttrs(attrs) + tail, before, m) == ParseAttrs(tail, before + attrs, m)
    decreases |attrs|
  {
    hide ParseAttr, PrintAttr, GoodText;
    if attrs == [] {
      assert PrintAttrs(attrs) + tail == tail && before + attrs == before;
    } else {
      var a, more := attrs[0], PrintAttrs(attrs[1..]) + tail;
      assert (before + attrs)[|before|] == a;
      AttrBack(a, more, m);
      var s := PrintAttrs(attrs) + tail;
      assert s == PrintAttr(a) + more;
      PrintAttrFirst(a);
      var t := PrintAttr(a)[1..] + more;
      assert s[1..] == t;
      assert SkipSpace(s) == t by { SpaceThenName(s, t); }
      NewName(before, attrs);
      assert before + [a] + attrs[1..] == before + attrs;
      AttrsBack(attrs[1..], before + [a], tail, m);
    }
  }

  lemma PrintAttrFirst(a: Attr)
    requires GoodName(a.name)
    ensures |PrintAttr(a)| > 1 && PrintAttr(a)[0] == ' ' && NameStart(PrintAttr(a)[1])
  {
  }

  lemma SpaceThenName(s: string, t: string)
    requires s != [] && s[0] == ' ' && s[1..] == t && t != [] && NameStart(t[0])
    ensures SkipSpace(s) == t
  {
  }

  lemma NewName(before: seq<Attr>, attrs: seq<Attr>)
    requires attrs != [] && GoodAttrs(before + attrs)
    ensures !HasName(before, attrs[0].name)
  {
    var all := before + attrs;
    assert all[|before|] == attrs[0];
    assert forall i | 0 <= i < |before| :: before[i] == all[i] && all[i].name != all[|before|].name;
  }

  // ---------- Nodes ----------

  lemma CommentBack(v: string, depth: nat, rest: string, m: Mode)
    requires Good(Comment(v)) && Sound(m.refs)
    ensures ParseNode(Print(Comment(v)) + rest, depth, m) == Open(Comment(v), rest)
  {
    hide Holds, GoodText, Leaf, ParseElement, ParseText;
    var s := Print(Comment(v)) + rest;
    SkipNothing(s);
    assert s[..4] == "<!--" && s[..2] == "<!" && s[4..] == v + "-->" + rest;
    LeafBack(v, "-->", rest, m, x => Comment(x));
  }

  lemma DeclarationBack(v: string, depth: nat, rest: string, m: Mode)
    requires Good(Declaration(v)) && Sound(m.refs)
    ensures ParseNode(Print(Declaration(v)) + rest, depth, m) == Open(Declaration(v), rest)
  {
    hide Holds, GoodText, Leaf, ParseElement, ParseText;
    var s := Print(Declaration(v)) + rest;
    SkipNothing(s);
    assert s[..2] == "<?" && s[2..] == v + "?>" + rest;
    LeafBack(v, "?>", rest, m, x => Declaration(x));
  }

  lemma CDataBack(v: string, depth: nat, rest: string, m: Mode)
    requires Good(Text(v, true)) && Sound(m.refs)
    ensures ParseNode(Print(Text(v, true)) + rest, depth, m) == Open(Text(v, true), rest)
  {
    hide Holds, GoodText, Leaf, ParseElement, ParseText;
    var s := Print(Text(v, true)) + rest;
    SkipNothing(s);
    assert s[..9] == "<![CDATA[" && s[..2] == "<!" && s[9..] == v + "]]>" + rest;
    assert s[..4][2] == '[';
    LeafBack(v, "]]>", rest, m, x => Text(x, true));
  }

  lemma UnknownBack(v: string, depth: nat, rest: string, m: Mode)
    requires Good(Unknown(v)) && Sound(m.refs)
    ensures ParseNode(Print(Unknown(v)) + rest, depth, m) == Open(Unknown(v), rest)
  {
    hide Holds, GoodText, Leaf, ParseElement, ParseText, Starts;
    var s := Print(Unknown(v)) + rest;
    SkipNothing(s);
    UnknownFront(v, s, rest);
    LeafBack(v, ">", rest, m, x => Unknown(x));
  }

  /** Comments, declarations, unknown nodes and character data are read back. */
  lemma LeafNodeBack(x: Xml, depth: nat, rest: string, m: Mode)
    requires Good(x) && !x.Element? && !IsText(x) && Sound(m.refs)
    ensures ParseNode(Print(x) + rest, depth, m) == Open(x, rest)
  {
    hide ParseNode;
    match x
    case Comment(v) => CommentBack(v, depth, rest, m);
    case Declaration(v) => DeclarationBack(v, depth, rest, m);
    case Text(v, _) => CDataBack(v, depth, rest, m);
    case Unknown(v) => UnknownBack(v, depth, rest, m);
    case Element(_, _, _) =>
  }

  /** The front of an unknown node is that of no other kind. */
  lemma UnknownFront(v: string, s: string, rest: string)
    requires s == "<!" + v + ">" + rest && !Starts(v, "--") && !Starts(v, "[CDATA[") && !Holds(v, ">")
    ensures Starts(s, "<!") && !Starts(s, "<?") && !Starts(s, "<!--") && !Starts(s, "<![CDATA[")
    ensures s[2..] == v + ">" + rest
  {
    assert s[2..] == v + ">" + rest;
    assert s[..2] == "<!";
    FrontOf(v, rest, "--");
    FrontOf(v, rest, "[CDATA[");
    StartsBehind(s, "<!", "--");
    StartsBehind(s, "<!", "[CDATA[");
    assert "<!" + "--" == "<!--" && "<!" + "[CDATA[" == "<![CDATA[";
  }

  lemma StartsBehind(s: string, a: string, b: string)
    requires Starts(s, a)
    ensures Starts(s, a + b) <==> Starts(s[|a|..], b)
  {
    if |a + b| <= |s| {
      assert s[..|a + b|] == s[..|a|] + s[|a|..][..|b|];
    }
  }

  /** A text without angle brackets that does not start with p does not do so with one behind it. */
  lemma FrontOf(v: string, rest: string, p: string)
    requires !Starts(v, p) && '>' !in p
    ensures !Starts(v + ">" + rest, p)
  {
    var s := v + ">" + rest;
    if |p| <= |v| {
      assert s[..|p|] == v[..|p|];
    } else if |p| <= |s| {
      assert s[..|p|][|v|] == '>';
    }
  }

  /** The first visible character of an escaped text starts no tag. */
  lemma {:induction false} TextFront(v: string, tail: string)
    requires Visible(v)
    ensures var t := SkipSpace(Escaped(v, true) + tail); t != [] && t[0] != '<'
  {
    var s := Escaped(v, true) + tail;
    if IsSpace(v[0]) {
      assert s[1..] == Escaped(v[1..], true) + tail;
      assert Visible(v[1..]) by { assert v == [v[0]] + v[1..]; }
      TextFront(v[1..], tail);
    } else {
      assert s[0] == if Special(v[0], true) then '&' else v[0];
    }
  }

  /** A text is read back in front of a tag. */
  lemma TextBack(v: string, depth: nat, rest: string, m: Mode)
    requires Good(Text(v, false)) && rest != [] && m.entities && Sound(m.refs)
    ensures var s := Escaped(v, true) + "<" + rest;
              SkipSpace(s) != []
              && ParseNode(s, depth, m) == Open(Text(v, false), "<" + rest)
  {
    hide Until, Decoded, SkipSpace, ParseElement, Visible;
    var s := Escaped(v, true) + "<" + rest;
    assert s == Escaped(v, true) + ("<" + rest);
    TextFront(v, "<" + rest);
    NoTagStart(v);
    NotHeld(Escaped(v, true), '<');
    UntilTag(Escaped(v, true), "<", rest);
    DecodeEscaped(v, true, m.refs);
    FirstIsNoTag(s);
    assert forall p: string | p != [] && Starts(SkipSpace(s), p) :: SkipSpace(s)[..|p|][0] == p[0];
  }

  lemma ClosingElement(name: string, depth: nat, rest: string, m: Mode)
    requires GoodName(name) && Sound(m.refs)
    ensures ParseElement("/" + name + ">" + rest, depth, m) == Close(name, rest)
  {
    hide ParseList, ParseAttr, GoodName, ParseName;
    EqualsIsNoName();
    var t, end := "/" + name + ">" + rest, ">" + rest;
    SkipNothing(t);
    assert t[1..] == name + end;
    NameBack(name, end);
    SkipNothing(end);
    assert end[1..] == rest;
  }

  /** A closing tag is read as one. */
  lemma ClosingBack(name: string, depth: nat, rest: string, m: Mode)
    requires GoodName(name) && Sound(m.refs)
    ensures ParseNode("</" + name + ">" + rest, depth, m) == Close(name, rest)
  {
    hide ParseElement, GoodName, Leaf, ParseText;
    var s := "</" + name + ">" + rest;
    SkipNothing(s);
    assert s[..2] == "</" && s[..2][1] == '/';
    assert s[1..] == "/" + name + ">" + rest;
    ClosingElement(name, depth, rest, m);
  }

  /** The front of an element, up to the end of its opening tag. */
  lemma ElementFront(name: string, attrs: seq<Attr>, end: string, depth: nat, m: Mode)
    requires GoodName(name) && GoodAttrs(attrs) && m.entities && Sound(m.refs)
    requires (Starts(end, "/>") || Starts(end, ">"))
    ensures var s := name + (PrintAttrs(attrs) + end);
      && SkipSpace("<" + s) == "<" + s && ParseNode("<" + s, depth, m) == ParseElement(s, depth, m)
      && SkipSpace(s) == s && s[0] != '/'
      && ParseName(s) == Some((name, PrintAttrs(attrs) + end))
      && ParseAttrs(PrintAttrs(attrs) + end, [], m) == ParseAttrs(end, attrs, m)
  {
    hide GoodName, GoodAttrs, ParseElement, ParseName, ParseAttrs, PrintAttr;
    var u := PrintAttrs(attrs) + end;
    var s := name + u;
    NameIsNoMark(name, u);
    assert ("<" + s)[1..] == s && ("<" + s)[..2][1] == s[0];
    EqualsIsNoName();
    AfterName(attrs, end);
    NameBack(name, u);
    assert [] + attrs == attrs;
    AttrsBack(attrs, [], end, m);
  }

  lemma NameIsNoMark(name: string, u: string)
    requires GoodName(name)
    ensures var s := name + u;
              SkipSpace(s) == s && s[0] != '/' && s[0] != '?' && s[0] != '!'
              && SkipSpace("<" + s) == "<" + s
  {
  }

  lemma AfterName(attrs: seq<Attr>, end: string)
    requires Starts(end, "/>") || Starts(end, ">")
    ensures var u := PrintAttrs(attrs) + end; u != [] && (u[0] == ' ' || u[0] == '/' || u[0] == '>')
  {
    assert Starts(end, "/>") ==> end[..2][0] == '/';
    assert Starts(end, ">") ==> end[..1][0] == '>';
  }

  /** An element without content is read back. */
  lemma EmptyElementBack(name: string, attrs: seq<Attr>, depth: nat, rest: string, m: Mode)
    requires GoodName(name) && GoodAttrs(attrs) && m.entities && Sound(m.refs)
    ensures ParseNode(Print(Element(name, attrs, [])) + rest, depth, m) == Open(Element(name, attrs, []), rest)
  {
    hide GoodName, GoodAttrs, ParseNode, ParseName, ParseAttr, PrintAttrs;
    var end := "/>" + rest;
    assert end[..2] == "/>" && end[2..] == rest;
    assert Print(Element(name, attrs, [])) + rest == "<" + (name + (PrintAttrs(attrs) + end));
    ElementFront(name, attrs, end, depth, m);
    SkipNothing(end);
    EqualsIsNoName();
  }

  /** An element with content is read back if its content is, within the depth allowed. */
  lemma ElementWith(name: string, attrs: seq<Attr>, children: seq<Xml>, depth: nat, rest: string, m: Mode)
    requires GoodName(name) && GoodAttrs(attrs) && children != [] && m.entities && Sound(m.refs)
    ensures var content := PrintAll(children) + ("</" + name + ">" + rest);
      ParseNode(Print(Element(name, attrs, children)) + rest, depth, m) ==
        match ParseList(content, depth + 1, false, m)
        case Closed(nodes, end, after) => if end == name then Open(Element(name, attrs, nodes), after) else Bad
        case _ => Bad
  {
    hide GoodName, GoodAttrs, ParseNode, ParseName, ParseAttr, PrintAttrs, PrintAll, ParseList;
    var content := PrintAll(children) + ("</" + name + ">" + rest);
    var end := ">" + content;
    assert end[..1] == ">" && end[1..] == content;
    assert Print(Element(name, attrs, children)) + rest == "<" + (name + (PrintAttrs(attrs) + end)) by {
      Assemble("<", name, PrintAttrs(attrs), PrintAll(children), rest);
    }
    ElementFront(name, attrs, end, depth, m);
    SkipNothing(end);
    EqualsIsNoName();
  }

  lemma Assemble(open: string, name: string, attrs: string, content: string, rest: string)
    ensures open + name + attrs + (">" + content + "</" + name + ">") + rest
      == open + (name + (attrs + (">" + (content + ("</" + name + ">" + rest)))))
  {
    assert open + name + attrs + (">" + content + "</" + name + ">") + rest
      == open + (name + (attrs + (">" + (content + ("</" + name + ">" + rest)))));
  }

  // ---------- Lists of nodes ----------

  lemma PrintFront(x: Xml)
    requires Good(x) && !IsText(x)
    ensures |Print(x)| >= 2 && Print(x)[0] == '<'
  {
  }

  lemma {:induction false} DeclarationsBefore(nodes: seq<Xml>, i: nat)
    requires DeclarationsFirst(nodes) && i < |nodes| && nodes[i].Declaration?
    ensures nodes[0].Declaration? && (i > 0 ==> nodes[i - 1].Declaration?)
  {
    if i > 0 {
      DeclarationsBefore(nodes, i - 1);
    }
  }

  lemma DeclarationAllowed(before: seq<Xml>, nodes: seq<Xml>)
    requires nodes != [] && nodes[0].Declaration? && DeclarationsFirst(before + nodes)
    ensures DeclarationFits(true, before)
  {
    var all := before + nodes;
    assert all[|before|] == nodes[0];
    DeclarationsBefore(all, |before|);
    assert before != [] ==> all[0] == before[0] && all[|before| - 1] == before[|before| - 1];
  }

  /** What follows a list of nodes: a closing tag, or the end of the document. */
  predicate Tail(tail: string, isDocument: bool)
  {
    if isDocument then tail == [] else |tail| >= 2 && tail[0] == '<'
  }

  /** One node and what is read after it, or a failure when it is nested too deeply. */
  lemma {:induction false} NodeBack(x: Xml, depth: nat, rest: string, m: Mode)
    requires Good(x) && !IsText(x) && depth < MAX_DEPTH && m.entities && Sound(m.refs)
    ensures ParseNode(Print(x) + rest, depth, m) == if depth + Height(x) < MAX_DEPTH then Open(x, rest) else Bad
    decreases x, 0
  {
    hide ParseNode, ParseNodes, Print, PrintAll, GoodName, GoodAttrs, DeclarationsFirst;
    if !x.Element? {
      LeafNodeBack(x, depth, rest, m);
    } else if x.children == [] {
      EmptyElementBack(x.name, x.attrs, depth, rest, m);
    } else {
      ElementWith(x.name, x.attrs, x.children, depth, rest, m);
      if depth + 1 < MAX_DEPTH {
        var tail := "</" + x.name + ">" + rest;
        assert [] + x.children == x.children;
        assert DeclarationsFirst(x.children) by { NoDeclarations(x.children); }
        NodesBack(x.children, false, [], tail, depth + 1, m);
        ClosingEnds(x.name, depth + 1, rest, x.children, m);
      }
    }
  }

  lemma {:induction false} NoDeclarations(nodes: seq<Xml>)
    requires GoodNodes(nodes, false)
    ensures DeclarationsFirst(nodes) && forall x <- nodes :: !x.Declaration?
  {
    if nodes != [] {
      NoDeclarations(nodes[1..]);
      assert nodes == [nodes[0]] + nodes[1..];
    }
  }

  lemma ClosingEnds(name: string, depth: nat, rest: string, before: seq<Xml>, m: Mode)
    requires GoodName(name) && Sound(m.refs)
    ensures ParseNodes("</" + name + ">" + rest, depth, false, before, m) == Closed(before, name, rest)
  {
    hide ParseNode;
    SkipNothing("</" + name + ">" + rest);
    ClosingBack(name, depth, rest, m);
  }

  /** Nodes are read back one after the other. */
  lemma {:induction false} NodesBack(nodes: seq<Xml>, isDocument: bool, before: seq<Xml>, tail: string, depth: nat,
                                     m: Mode)
    requires GoodNodes(nodes, isDocument) && DeclarationsFirst(before + nodes) && Tail(tail, isDocument)
    requires depth < MAX_DEPTH && m.entities && Sound(m.refs)
    ensures ParseNodes(PrintAll(nodes) + tail, depth, isDocument, before, m) ==
      if depth + HeightAll(nodes) < MAX_DEPTH then ParseNodes(tail, depth, isDocument, before + nodes, m) else Failed
    decreases nodes, 1
  {
    hide ParseNode, Print, Height, DeclarationsFirst, Good;
    if nodes == [] {
      assert PrintAll(nodes) + tail == tail && before + nodes == before;
    } else {
      var x, more := nodes[0], PrintAll(nodes[1..]) + tail;
      var s := PrintAll(nodes) + tail;
      assert s == Print(x) + more;
      assert before + [x] + nodes[1..] == before + nodes;
      NodesBack(nodes[1..], isDocument, before + [x], tail, depth, m);
      if x.Declaration? {
        DeclarationAllowed(before, nodes);
      }
      if IsText(x) {
        MoreIsTag(nodes, isDocument, tail);
        TextNode(x, depth, more, m);
      } else {
        PrintFront(x);
        SkipNothing(s);
        NodeBack(x, depth, more, m);
      }
    }
  }

  lemma TextNode(x: Xml, depth: nat, more: string, m: Mode)
    requires Good(x) && IsText(x) && |more| >= 2 && more[0] == '<' && m.entities && Sound(m.refs)
    ensures var s := Print(x) + more; SkipSpace(s) != [] && ParseNode(s, depth, m) == Open(x, more) && Height(x) == 0
  {
    hide ParseNode, SkipSpace;
    assert more == "<" + more[1..];
    assert Print(x) + more == Escaped(x.value, true) + "<" + more[1..];
    TextBack(x.value, depth, more[1..], m);
  }

  /** Behind a text there is a tag. */
  lemma MoreIsTag(nodes: seq<Xml>, isDocument: bool, tail: string)
    requires nodes != [] && GoodNodes(nodes, isDocument) && IsText(nodes[0]) && Tail(tail, isDocument)
    ensures var more := PrintAll(nodes[1..]) + tail; |more| >= 2 && more[0] == '<'
  {
    if |nodes| > 1 {
      PrintFront(nodes[1]);
    }
  }

  /** A text that begins the document begins with a visible character, and not with a byte order mark. */
  predicate LeadingFits(x: Xml)
  {
    IsText(x) ==> x.value != [] && !IsSpace(x.value[0]) && !Starts(x.value, BOM)
  }

  /** Nothing in front of the printed document is skipped. */
  lemma LeadingKept(nodes: seq<Xml>)
    requires nodes != [] && GoodNodes(nodes, true) && LeadingFits(nodes[0])
    ensures var s := PrintAll(nodes); s != [] && !IsSpace(s[0]) && !Starts(s, BOM)
  {
    var s := PrintAll(nodes);
    if IsText(nodes[0]) {
      var v := nodes[0].value;
      PrintFront(nodes[1]);
      var more := PrintAll(nodes[1..]);
      assert s == Escaped(v, true) + more && more[0] == '<';
      if Starts(s, BOM) {
        BomBack(v, more);
      }
    } else {
      PrintFront(nodes[0]);
    }
  }

  lemma BomBack(v: string, more: string)
    requires v != [] && more != [] && more[0] == '<' && Starts(Escaped(v, true) + more, BOM)
    ensures Starts(v, BOM)
  {
    var s := Escaped(v, true) + more;
    assert s[..3] == BOM && s[0] == BOM[0] && s[1] == BOM[1] && s[2] == BOM[2];
    EscapedTail(v, more);
    if |v| > 1 {
      EscapedTail(v[1..], more);
      if |v| > 2 {
        assert v[1..][1..] == v[2..];
        EscapedTail(v[2..], more);
      }
    }
    assert |v| >= 3 && v[..3] == [v[0], v[1], v[2]];
  }

  /** Up to a special character, an escaped text is the text itself. */
  lemma EscapedTail(v: string, more: string)
    requires v != []
    ensures var s := Escaped(v, true) + more;
            s[0] != '&' ==> s[0] == v[0] && s[1..] == Escaped(v[1..], true) + more
  {
  }

  /**
   * Parsing what the compact printer prints gives the nodes of the document back, exactly while they are not too
   * deep.
   */
  lemma PrintThenParse(nodes: seq<Xml>, m: Mode)
    requires nodes != [] && GoodNodes(nodes, true) && DeclarationsFirst(nodes) && LeadingFits(nodes[0])
    requires m.entities && Sound(m.refs)
    ensures ParseDocument(PrintAll(nodes), m) == if 1 + HeightAll(nodes) < 100 then Some(nodes) else None
  {
    hide ParseNodes, Print, DeclarationsFirst, Good, LeadingFits;
    var s := PrintAll(nodes);
    LeadingKept(nodes);
    SkipNothing(s);
    assert s + [] == s && [] + nodes == nodes;
    NodesBack(nodes, true, [], [], 1, m);
    assert ParseNodes([], 1, true, nodes, m) == Ended(nodes) by { EndEnds(nodes, m); }
  }

  lemma EndEnds(nodes: seq<Xml>, m: Mode)
    requires Sound(m.refs)
    ensures ParseNodes([], 1, true, nodes, m) == Ended(nodes)
  {
  }

  // ---------- What does not come back ----------

  /** A text of white space alone leaves no trace: what follows is read as if it were not there. */
  lemma {:induction false} BlankTextVanishes(v: string, depth: nat, rest: string, m: Mode)
    requires !Visible(v) && Sound(m.refs)
    ensures var s := Print(Text(v, false)) + "<" + rest;
      SkipSpace(s) == "<" + rest && ParseNode(s, depth, m) == ParseNode("<" + rest, depth, m)
  {
    hide ParseElement, Leaf;
    var s := Escaped(v, true) + "<" + rest;
    SkipNothing("<" + rest);
    if v == [] {
      assert s == "<" + rest;
    } else {
      assert v[0] in v && forall c <- v[1..] :: c in v;
      assert s == [v[0]] + (Escaped(v[1..], true) + "<" + rest);
      assert s[1..] == Escaped(v[1..], true) + "<" + rest;
      BlankTextVanishes(v[1..], depth, rest, m);
    }
  }

  /** Two texts side by side are printed like one, so they come back as one. */
  lemma TextsMerge(a: string, b: string)
    ensures PrintAll([Text(a, false), Text(b, false)]) == Print(Text(a + b, false))
  {
    EscapedConcat(a, b);
    var nodes := [Text(a, false), Text(b, false)];
    var last := nodes[1..];
    assert last == [Text(b, false)] && last[1..] == [];
    assert PrintAll(last) == Print(last[0]) + PrintAll(last[1..]) == Escaped(b, true);
    assert PrintAll(nodes) == Print(nodes[0]) + PrintAll(last);
  }

  lemma {:induction false} EscapedConcat(a: string, b: string)
    ensures Escaped(a + b, true) == Escaped(a, true) + Escaped(b, true)
  {
    if a == [] {
      assert a + b == b;
    } else {
      assert (a + b)[1..] == a[1..] + b;
      EscapedConcat(a[1..], b);
    }
  }
}
