/**
 * What the parser of tinyxml2.cpp accepts beyond what the printer writes: white space within tags, either quote, byte
 * order marks; and the characters and entities it goes by.
 */
module XmlSyntax {
  import opened Prelude
  import opened XmlText
  import opened XmlGrammar
  import opened XmlPrinter
  import opened XmlRoundTrip

  // ---------- Characters and entities ----------

  /** A letter of ASCII. */
  predicate Letter(c: char)
  {
    65 <= c as int <= 90 || 97 <= c as int <= 122
  }

  /** White space is what isspace takes for it; names begin with a letter, ":", "_" or a byte above ASCII. */
  lemma CharacterClasses(c: char)
    ensures IsSpace(c) <==> c as int in {9, 10, 11, 12, 13, 32}
    ensures NameStart(c) <==> c as int >= 128 || Letter(c) || c in {':', '_'}
    ensures NameChar(c) <==>
            c as int >= 128 || Letter(c) || c in {':', '_', '-', '.'} || 48 <= c as int <= 57
  {
  }

  /** The five entities of section 4.6 of XML 1.0, at the front of a text. */
  lemma Entities(rest: string)
    ensures EntityAt("&quot;" + rest) == Some(('"', 6)) && EntityAt("&amp;" + rest) == Some(('&', 5))
    ensures EntityAt("&apos;" + rest) == Some(('\'', 6))
    ensures EntityAt("&lt;" + rest) == Some(('<', 4)) && EntityAt("&gt;" + rest) == Some(('>', 4))
  {
    hide EntityAt;
    assert Reference('"') == "&quot;" && Reference('&') == "&amp;" && Reference('\'') == "&apos;";
    assert Reference('<') == "&lt;" && Reference('>') == "&gt;";
    EntityBack('"', rest);
    EntityBack('&', rest);
    EntityBack('\'', rest);
    EntityBack('<', rest);
    EntityBack('>', rest);
  }

  /** What the printer makes of a character: in texts, which are restricted, quotes are left alone. */
  lemma EscapedCharacter(c: char, s: string)
    ensures Escaped([c] + s, true) ==
            (if c == '&' then "&amp;" else if c == '<' then "&lt;" else if c == '>' then "&gt;" else [c])
            + Escaped(s, true)
    ensures Escaped([c] + s, false) ==
            (if c == '"' then "&quot;" else if c == '\'' then "&apos;"
            else if c == '&' then "&amp;" else if c == '<' then "&lt;" else if c == '>' then "&gt;" else [c])
            + Escaped(s, false)
  {
    hide Escaped, Reference;
    EscapedCons(c, s, true);
    EscapedCons(c, s, false);
    References();
  }

  lemma References()
    ensures Reference('"') == "&quot;" && Reference('&') == "&amp;" && Reference('\'') == "&apos;"
    ensures Reference('<') == "&lt;" && Reference('>') == "&gt;"
  {
  }

  lemma EscapedCons(c: char, s: string, restricted: bool)
    ensures Escaped([c] + s, restricted)
              == (if Special(c, restricted) then Reference(c) else [c]) + Escaped(s, restricted)
  {
    assert ([c] + s)[1..] == s;
  }

  // ---------- White space ----------

  predicate Blank(w: string)
  {
    forall c <- w :: IsSpace(c)
  }

  lemma {:induction false} BlankSkipped(w: string, s: string)
    requires Blank(w)
    ensures SkipSpace(w + s) == SkipSpace(s)
  {
    hide IsSpace;
    if w == [] {
      assert w + s == s;
    } else {
      assert w[0] in w && (w + s)[0] == w[0] && (w + s)[1..] == w[1..] + s;
      BlankSkipped(w[1..], s);
    }
  }

  lemma NothingSkipped(s: string)
    requires s != [] && !IsSpace(s[0])
    ensures SkipSpace(s) == s
  {
  }

  // ---------- Tags ----------

  /** An attribute: white space may stand around the equals sign, and the value may stand in quotes of either kind. */
  lemma AttrSyntax(name: string, w1: string, w2: string, q: char, raw: string, rest: string, m: Mode)
    requires GoodName(name) && Blank(w1) && Blank(w2) && (q == '"' || q == '\'') && q !in raw && Sound(m.refs)
    ensures ParseAttr(name + (w1 + ("=" + (w2 + ([q] + raw + [q] + rest)))), m)
              == Some((Attr(name, Decoded(raw, m.entities, m.refs)), rest))
  {
    hide GoodName, Holds, ParseName, NameStart, NameChar, SkipSpace, Until, Blank;
    var v := [q] + raw + [q] + rest;
    var u := "=" + (w2 + v);
    BlankSkipped(w1, u);
    NothingSkipped(u);
    assert u[1..] == w2 + v;
    BlankSkipped(w2, v);
    NothingSkipped(v);
    EqualsHere();
    BlankIsNoName(w1, u);
    NameBack(name, w1 + u);
    assert v[1..] == raw + [q] + rest;
    NotHeld(raw, q);
    UntilTag(raw, [q], rest);
  }

  lemma BlankIsNoName(w: string, u: string)
    requires Blank(w) && u != [] && !NameChar(u[0])
    ensures w + u != [] && !NameChar((w + u)[0])
  {
    if w != [] {
      assert w[0] in w;
    }
  }

  lemma EqualsHere()
    ensures !NameChar('=') && !IsSpace('=') && !IsSpace('"') && !IsSpace('\'')
  {
  }

  /** Without an equals sign, or without quotes around the value, an attribute is refused. */
  lemma AttrRefused(name: string, w1: string, u: string, w2: string, v: string, m: Mode)
    requires GoodName(name) && Blank(w1) && Blank(w2) && Sound(m.refs)
    requires u != [] && !NameChar(u[0]) && !IsSpace(u[0]) && u[0] != '='
    requires v != [] && !IsSpace(v[0]) && v[0] != '"' && v[0] != '\''
    ensures ParseAttr(name + (w1 + u), m) == None
    ensures ParseAttr(name + (w1 + ("=" + (w2 + v))), m) == None
  {
    hide GoodName, ParseName, NameStart, NameChar, SkipSpace, Until, Blank;
    var e := "=" + (w2 + v);
    EqualsHere();
    BlankSkipped(w1, u);
    NothingSkipped(u);
    BlankIsNoName(w1, u);
    NameBack(name, w1 + u);
    BlankSkipped(w1, e);
    NothingSkipped(e);
    BlankIsNoName(w1, e);
    NameBack(name, w1 + e);
    assert e[1..] == w2 + v;
    BlankSkipped(w2, v);
    NothingSkipped(v);
  }

  /** The end of a tag, behind any white space. */
  lemma TagEnd(w: string, rest: string, attrs: seq<Attr>, m: Mode)
    requires Blank(w) && Sound(m.refs)
    ensures ParseAttrs(w + (">" + rest), attrs, m) == Some((attrs, false, rest))
    ensures ParseAttrs(w + ("/>" + rest), attrs, m) == Some((attrs, true, rest))
    ensures ParseAttrs(w, attrs, m) == None
  {
    hide Blank, SkipSpace, ParseAttr;
    EqualsIsNoName();
    BlankSkipped(w, ">" + rest);
    BlankSkipped(w, "/>" + rest);
    BlankSkipped(w, []);
    assert w + [] == w;
    assert SkipSpace([]) == [] by { SkipNothing([]); }
    NothingSkipped(">" + rest);
    NothingSkipped("/>" + rest);
    assert (">" + rest)[1..] == rest && ("/>" + rest)[2..] == rest && ("/>" + rest)[..2] == "/>";
  }

  /** An attribute, behind any white space; one whose name is there already is refused. */
  lemma AttrNext(w: string, name: string, w1: string, w2: string, q: char, raw: string, more: string,
                 attrs: seq<Attr>, m: Mode)
    requires Blank(w) && GoodName(name) && Blank(w1) && Blank(w2) && (q == '"' || q == '\'') && q !in raw
    requires Sound(m.refs)
    ensures ParseAttrs(w + (name + (w1 + ("=" + (w2 + ([q] + raw + [q] + more))))), attrs, m) ==
            if exists a <- attrs :: a.name == name then None
            else ParseAttrs(more, attrs + [Attr(name, Decoded(raw, m.entities, m.refs))], m)
  {
    hide Blank, SkipSpace, ParseAttr;
    var t := name + (w1 + ("=" + (w2 + ([q] + raw + [q] + more))));
    BlankSkipped(w, t);
    assert t[0] == name[0];
    NameIsNoSpace(t[0]);
    NothingSkipped(t);
    AttrSyntax(name, w1, w2, q, raw, more, m);
  }

  lemma NameIsNoSpace(c: char)
    requires NameStart(c)
    ensures !IsSpace(c) && c != '/' && c != '?' && c != '!' && c != '<'
  {
  }

  /** White space may stand before a tag, and within it before the name and before the end. */
  lemma ElementSyntax(w: string, w1: string, name: string, u: string, attrs: seq<Attr>, closed: bool, rest: string,
                      depth: nat, m: Mode)
    requires Blank(w) && Blank(w1) && GoodName(name) && Sound(m.refs)
    requires u != [] && !NameChar(u[0]) && ParseAttrs(u, [], m) == Some((attrs, closed, rest))
    ensures var s := w + ("<" + (w1 + (name + u)));
            && SkipSpace(s) != []
            && ParseNode(s, depth, m) ==
               if closed then Open(Element(name, attrs, []), rest)
               else if rest == [] then Bad
               else
                 match ParseList(rest, depth + 1, false, m)
                 case Closed(children, end, after) =>
                   if end == name then Open(Element(name, attrs, children), after) else Bad
                 case _ => Bad
  {
    hide Blank, SkipSpace, GoodName, ParseName, ParseAttrs, ParseElement, ParseList, Leaf, ParseText;
    var t := w1 + (name + u);
    TagFront(w, w1, name + u, name[0], depth, m) by { NameFirst(name, u); }
    NameFirst(name, u);
    BlankSkipped(w1, name + u);
    NothingSkipped(name + u);
    NameBack(name, u);
    ElementParts(t, name, u, depth, m);
  }

  lemma NameFirst(name: string, u: string)
    requires GoodName(name)
    ensures name + u != [] && (name + u)[0] == name[0] && NameStart(name[0]) && !IsSpace(name[0])
    ensures name[0] != '/' && name[0] != '?' && name[0] != '!'
  {
  }

  /** What stands behind an opening angle bracket, if it is neither a question mark nor an exclamation mark. */
  lemma TagFront(w: string, w1: string, t: string, c: char, depth: nat, m: Mode)
    requires Blank(w) && Blank(w1) && t != [] && t[0] == c && c != '?' && c != '!' && Sound(m.refs)
    ensures var s := w + ("<" + (w1 + t));
            SkipSpace(s) != [] && ParseNode(s, depth, m) == ParseElement(w1 + t, depth, m)
  {
    hide SkipSpace, ParseElement, Leaf, ParseText;
    var s := "<" + (w1 + t);
    BlankSkipped(w, s);
    NothingSkipped(s);
    assert s[1..] == w1 + t;
    var d := (w1 + t)[0];
    assert d == if w1 == [] then c else w1[0];
    assert d != '?' && d != '!' by {
      if w1 != [] {
        assert w1[0] in w1;
      }
    }
    assert s[1] == d && s[..2][1] == d;
    assert !Starts(s, "<?") && !Starts(s, "<!");
    assert !Starts(s, "<!--") && !Starts(s, "<![CDATA[") by {
      assert |s| >= 4 ==> s[..4][1] == d;
      assert |s| >= 9 ==> s[..9][1] == d;
    }
  }

  /** ParseElement by the parts of the tag. */
  lemma ElementParts(t: string, name: string, u: string, depth: nat, m: Mode)
    requires SkipSpace(t) != [] && SkipSpace(t)[0] != '/' && ParseName(SkipSpace(t)) == Some((name, u))
    requires Sound(m.refs) && ParseAttrs(u, [], m).Some?
    ensures var (attrs, closed, rest) := ParseAttrs(u, [], m).value;
            ParseElement(t, depth, m) ==
            if closed then Open(Element(name, attrs, []), rest)
            else if rest == [] then Bad
            else
              match ParseList(rest, depth + 1, false, m)
              case Closed(children, end, after) =>
                if end == name then Open(Element(name, attrs, children), after) else Bad
              case _ => Bad
  {
    hide SkipSpace, ParseName, ParseAttrs, ParseList;
  }

  /** A closing tag: white space may stand before the solidus and behind the name, and not between the two. */
  lemma ClosingSyntax(w: string, w1: string, name: string, w2: string, rest: string, c: char, depth: nat, m: Mode)
    requires Blank(w) && Blank(w1) && Blank(w2) && GoodName(name) && IsSpace(c) && Sound(m.refs)
    ensures var s := w + ("<" + (w1 + ("/" + (name + (w2 + (">" + rest))))));
            SkipSpace(s) != [] && ParseNode(s, depth, m) == Close(name, rest)
    ensures var s := w + ("<" + (w1 + ("/" + ([c] + rest))));
            SkipSpace(s) != [] && ParseNode(s, depth, m) == Bad
  {
    hide Blank, SkipSpace, GoodName, ParseName, ParseAttrs, ParseElement, ParseNode, NameChar;
    var u := w2 + (">" + rest);
    var t, x := "/" + (name + u), "/" + ([c] + rest);
    TagFront(w, w1, t, '/', depth, m);
    TagFront(w, w1, x, '/', depth, m);
    BlankSkipped(w1, t);
    BlankSkipped(w1, x);
    NothingSkipped(t);
    NothingSkipped(x);
    assert t[1..] == name + u && x[1..] == [c] + rest;
    EqualsIsNoName();
    BlankIsNoName(w2, ">" + rest);
    NameBack(name, u);
    TagEnd(w2, rest, [], m);
    ClosingParts(w1 + t, name, u, rest, depth, m);
    assert ParseName([c] + rest) == None by { SpaceIsNoName(c, rest); }
    NoParts(w1 + x, depth, m);
  }

  lemma SpaceIsNoName(c: char, rest: string)
    requires IsSpace(c)
    ensures ParseName([c] + rest) == None
  {
  }

  lemma ClosingParts(t: string, name: string, u: string, rest: string, depth: nat, m: Mode)
    requires SkipSpace(t) != [] && SkipSpace(t)[0] == '/' && ParseName(SkipSpace(t)[1..]) == Some((name, u))
    requires Sound(m.refs) && ParseAttrs(u, [], m) == Some(([], false, rest))
    ensures ParseElement(t, depth, m) == Close(name, rest)
  {
    hide SkipSpace, ParseName, ParseAttrs, ParseList;
  }

  lemma NoParts(t: string, depth: nat, m: Mode)
    requires SkipSpace(t) != [] && SkipSpace(t)[0] == '/' && ParseName(SkipSpace(t)[1..]) == None && Sound(m.refs)
    ensures ParseElement(t, depth, m) == Bad
  {
    hide SkipSpace, ParseName, ParseAttrs, ParseList;
  }

  /** What is printed: a blank before each attribute, double quotes, and no other white space. */
  lemma PrintedForms(name: string, a: Attr, b: Attr, x: Xml, v: string)
    ensures Print(Element(name, [], [])) == "<" + name + "/>"
    ensures Print(Element(name, [a, b], [])) ==
            "<" + name + " " + a.name + "=\"" + Escaped(a.value, false) + "\" " + b.name + "=\""
            + Escaped(b.value, false) + "\"/>"
    ensures Print(Element(name, [], [x, x])) == "<" + name + ">" + Print(x) + Print(x) + "</" + name + ">"
    ensures Print(Text(v, false)) == Escaped(v, true) && Print(Text(v, true)) == "<![CDATA[" + v + "]]>"
    ensures Print(Comment(v)) == "<!--" + v + "-->" && Print(Declaration(v)) == "<?" + v + "?>"
    ensures Print(Unknown(v)) == "<!" + v + ">"
  {
    hide Escaped;
    AttrsForm(name, a, b);
    ChildrenForm(name, x);
    assert PrintAttrs([]) == [];
    assert "<" + name + [] + "/>" == "<" + name + "/>";
  }

  lemma AttrsForm(name: string, a: Attr, b: Attr)
    ensures Print(Element(name, [a, b], [])) ==
            "<" + name + " " + a.name + "=\"" + Escaped(a.value, false) + "\" " + b.name + "=\""
            + Escaped(b.value, false) + "\"/>"
  {
    hide Escaped;
    var u, v := Escaped(a.value, false), Escaped(b.value, false);
    assert [a, b][1..] == [b] && [b][1..] == [];
    assert PrintAttrs([b]) == PrintAttr(b) + [];
    assert PrintAttrs([a, b]) == PrintAttr(a) + (PrintAttr(b) + []);
    assert "<" + name + (" " + a.name + "=\"" + u + "\"" + (" " + b.name + "=\"" + v + "\"" + [])) + "/>"
        == "<" + name + " " + a.name + "=\"" + u + "\" " + b.name + "=\"" + v + "\"/>";
  }

  lemma ChildrenForm(name: string, x: Xml)
    ensures Print(Element(name, [], [x, x])) == "<" + name + ">" + Print(x) + Print(x) + "</" + name + ">"
  {
    var p := Print(x);
    assert [x, x][1..] == [x] && [x][1..] == [];
    assert PrintAll([x]) == p + [];
    assert PrintAll([x, x]) == p + (p + []);
    assert "<" + name + [] + (">" + (p + (p + [])) + "</" + name + ">") == "<" + name + ">" + p + p + "</" + name + ">";
  }

  // ---------- Documents ----------

  /** White space in front of a document is skipped, and so is a byte order mark of UTF-8 behind it. */
  lemma DocumentFront(w: string, s: string, m: Mode)
    requires Blank(w) && s != [] && !IsSpace(s[0]) && Sound(m.refs)
    ensures ParseDocument(w + s, m) == ParseDocument(s, m)
    ensures s[0] != 0xef as char ==>
              ParseDocument(w + ([0xef as char, 0xbb as char, 0xbf as char] + s), m) == ParseDocument(s, m)
  {
    hide SkipSpace, ParseList;
    BlankSkipped(w, s);
    NothingSkipped(s);
    var b := BOM + s;
    BlankSkipped(w, b);
    NothingSkipped(b);
    assert b[..3] == BOM && b[3..] == s;
    if Starts(s, BOM) {
      assert s[0] == s[..3][0] == BOM[0];
    }
  }

  /** A document without content is refused, unless white space follows a byte order mark. */
  lemma EmptyDocument(w: string, v: string, m: Mode)
    requires Blank(w) && Blank(v) && Sound(m.refs)
    ensures ParseDocument(w, m) == None
    ensures ParseDocument(w + ([0xef as char, 0xbb as char, 0xbf as char] + v), m) == if v == [] then None else Some([])
  {
    hide SkipSpace, ParseNode;
    BlankSkipped(w, []);
    assert w + [] == w;
    assert SkipSpace([]) == [] by { SkipNothing([]); }
    assert Starts([], BOM) == false;
    var b := BOM + v;
    BlankSkipped(w, b);
    NothingSkipped(b);
    assert b[..3] == BOM && b[3..] == v;
    BlankSkipped(v, []);
    assert v + [] == v;
    assert ParseNodes(v, 1, true, [], m) == Ended([]);
    assert ParseList(v, 1, true, m) == Ended([]);
  }
}
