/** What the parser of tinyxml2.cpp reads is printed so that it is read again. */
module XmlCanonical {
  import opened Prelude
  import opened XmlText
  import opened XmlGrammar
  import opened XmlPrinter
  import opened XmlRoundTrip

  // ---------- Tags in plain text ----------

  predicate NoLineEnds(p: string)
  {
    CR !in p && LF !in p
  }

  lemma {:induction false} NormalStarts(t: string, p: string)
    requires NoLineEnds(p) && Starts(Normal(t), p)
    ensures Starts(t, p)
    decreases |t|
  {
    if p != [] {
      assert Normal(t)[..|p|][0] == p[0] && p[0] in p;
      assert Normal(t)[1..][..|p| - 1] == p[1..];
      NormalStarts(t[1..], p[1..]);
      assert t[..|p|] == [t[0]] + t[1..][..|p| - 1];
    }
  }

  lemma HoldsFurther(t: string, n: nat, p: string)
    requires n <= |t| && Holds(t[n..], p)
    ensures Holds(t, p)
  {
    var u := t[n..];
    var k :| 0 <= k <= |u| && Starts(u[k..], p);
    assert t[n + k..] == u[k..];
  }

  /** Making line ends uniform puts no tag together. */
  lemma {:induction false} NormalHolds(t: string, p: string)
    requires p != [] && NoLineEnds(p) && Holds(Normal(t), p)
    ensures Holds(t, p)
    decreases |t|
  {
    hide NoLineEnds;
    var k :| 0 <= k <= |Normal(t)| && Starts(Normal(t)[k..], p);
    if k == 0 {
      assert Normal(t)[0..] == Normal(t) && t[0..] == t;
      NormalStarts(t, p);
    } else {
      var n := if t[0] == CR then LineEnd(t, 0, LF) else if t[0] == LF then LineEnd(t, 0, CR) else 1;
      assert Normal(t)[k..] == Normal(t[n..])[k - 1..];
      NormalHolds(t[n..], p);
      HoldsFurther(t, n, p);
    }
  }

  /** The text in front of the tag that ends it does not hold the tag. */
  lemma {:induction false} UntilFirst(s: string, tag: string)
    requires tag != [] && Until(s, tag).Some?
    ensures !Holds(Until(s, tag).value.0, tag)
    decreases |s|
  {
    var (raw, rest) := Until(s, tag).value;
    if raw != [] {
      var front := Until(s[1..], tag).value.0;
      UntilFirst(s[1..], tag);
      assert raw == [s[0]] + front && raw[1..] == front;
      if k :| 0 <= k <= |raw| && Starts(raw[k..], tag) {
        if k == 0 {
          assert raw[0..] == raw && s[..|tag|] == raw[..|tag|];
        } else {
          assert raw[k..] == front[k - 1..];
        }
      }
    }
  }

  // ---------- The shape of what is read ----------

  /** What every node that is read satisfies, whatever its texts are. */
  ghost predicate Shaped(x: Xml)
    decreases x, 0
  {
    match x
    case Element(name, attrs, children) => GoodName(name) && ShapedAttrs(attrs) && ShapedAll(children, false)
    case Text(v, cdata) => cdata ==> !Holds(v, "]]>")
    case Comment(v) => !Holds(v, "-->")
    case Declaration(v) => !Holds(v, "?>")
    case Unknown(v) => !Holds(v, ">") && !Starts(v, "--") && !Starts(v, "[CDATA[")
  }

  ghost predicate ShapedAttrs(attrs: seq<Attr>)
  {
    && (forall a <- attrs :: GoodName(a.name))
    && forall i, j | 0 <= i < j < |attrs| :: attrs[i].name != attrs[j].name
  }

  /** No two texts side by side; declarations first, and only in a document. */
  ghost predicate ShapedAll(nodes: seq<Xml>, isDocument: bool)
    decreases nodes, 1
  {
    && (forall x <- nodes :: Shaped(x) && (x.Declaration? ==> isDocument))
    && (forall i | 0 < i < |nodes| :: !(IsText(nodes[i - 1]) && IsText(nodes[i])))
    && DeclarationsFirst(nodes)
  }

  /** The texts hold neither carriage returns nor NULs, and none between tags is blank. */
  predicate Clean(x: Xml)
    decreases x, 0
  {
    match x
    case Element(_, attrs, children) => (forall a <- attrs :: GoodText(a.value)) && CleanAll(children)
    case Text(v, cdata) => GoodText(v) && (cdata || Visible(v))
    case Comment(v) => GoodText(v)
    case Declaration(v) => GoodText(v)
    case Unknown(v) => GoodText(v)
  }

  predicate CleanAll(nodes: seq<Xml>)
    decreases nodes, 1
  {
    forall x <- nodes :: Clean(x)
  }

  lemma {:induction false} ShapedIsGood(x: Xml)
    requires Shaped(x) && Clean(x)
    ensures Good(x)
    decreases x, 0
  {
    if x.Element? {
      ShapedAreGood(x.children, false);
    }
  }

  lemma {:induction false} ShapedAreGood(nodes: seq<Xml>, isDocument: bool)
    requires ShapedAll(nodes, isDocument) && CleanAll(nodes)
    requires isDocument && nodes != [] ==> !IsText(nodes[|nodes| - 1])
    ensures GoodNodes(nodes, isDocument)
    decreases nodes, 1
  {
    if nodes != [] {
      var rest := nodes[1..];
      ShapedIsGood(nodes[0]);
      assert forall i | 0 < i < |rest| :: rest[i] == nodes[i + 1] && rest[i - 1] == nodes[i];
      assert forall x <- rest :: x in nodes;
      ShapedAreGood(rest, isDocument);
    }
  }

  lemma {:induction false} HeightSnoc(nodes: seq<Xml>, x: Xml)
    ensures HeightAll(nodes + [x]) == Max(HeightAll(nodes), Height(x))
  {
    if nodes == [] {
      assert nodes + [x] == [x] && [x][1..] == [];
    } else {
      assert (nodes + [x])[1..] == nodes[1..] + [x];
      HeightSnoc(nodes[1..], x);
    }
  }

  lemma ShapedSnoc(nodes: seq<Xml>, isDocument: bool, x: Xml)
    requires ShapedAll(nodes, isDocument) && Shaped(x)
    requires nodes != [] ==> !(IsText(nodes[|nodes| - 1]) && IsText(x))
    requires x.Declaration? ==> DeclarationFits(isDocument, nodes)
    ensures ShapedAll(nodes + [x], isDocument)
  {
  }

  // ---------- Names and attributes ----------

  lemma {:induction false} NameCharsOnly(s: string)
    ensures forall c <- s[..NameLength(s)] :: NameChar(c)
  {
    if s != [] && NameChar(s[0]) {
      NameCharsOnly(s[1..]);
      assert s[..NameLength(s)] == [s[0]] + s[1..][..NameLength(s[1..])];
    }
  }

  lemma NameIsGood(s: string)
    requires ParseName(s).Some?
    ensures GoodName(ParseName(s).value.0)
  {
    NameCharsOnly(s[1..]);
    assert s[..1 + NameLength(s[1..])] == [s[0]] + s[1..][..NameLength(s[1..])];
  }

  lemma {:induction false} AttrsShaped(s: string, attrs: seq<Attr>, m: Mode)
    requires ShapedAttrs(attrs) && Sound(m.refs)
    ensures var r := ParseAttrs(s, attrs, m); r.Some? ==> ShapedAttrs(r.value.0)
    decreases |s|
  {
    hide ParseName, Until, GoodName;
    var t := SkipSpace(s);
    if t != [] && NameStart(t[0]) && ParseAttr(t, m).Some? {
      var (a, rest) := ParseAttr(t, m).value;
      NameIsGood(t);
      if !HasName(attrs, a.name) {
        AttrsShaped(rest, attrs + [a], m);
      }
    }
  }

  // ---------- Nodes ----------

  lemma LeafShaped(s: string, tag: string, m: Mode, make: string -> Xml)
    requires tag != [] && NoLineEnds(tag) && Sound(m.refs)
    ensures var r := Leaf(s, tag, false, m, make);
            r.Open? ==> exists v :: r.node == make(v) && !Holds(v, tag)
                                    && forall p | NoLineEnds(p) && Starts(v, p) :: Starts(s, p)
  {
    if Until(s, tag).Some? {
      var (raw, rest) := Until(s, tag).value;
      UntilFirst(s, tag);
      DecodedAll(raw, false, m.refs);
      if Holds(Normal(raw), tag) {
        NormalHolds(raw, tag);
      }
      forall p | NoLineEnds(p) && Starts(Normal(raw), p)
        ensures Starts(s, p)
      {
        NormalStarts(raw, p);
        assert s[..|p|] == raw[..|p|];
      }
      assert Decoded(raw, false, m.refs) == Normal(raw);
    }
  }

  /** A node that was read has the right shape, is not nested too deeply, and a text is followed by a tag. */
  lemma {:induction false} NodeShaped(s: string, depth: nat, m: Mode)
    requires SkipSpace(s) != [] && depth < MAX_DEPTH && Sound(m.refs)
    ensures var r := ParseNode(s, depth, m);
            r.Open? ==>
              && Shaped(r.node) && depth + Height(r.node) < MAX_DEPTH
              && (IsText(r.node) ==> SkipSpace(s)[0] != '<' && r.rest != [] && r.rest[0] == '<')
    decreases |s|, 0
  {
    hide ParseElement, Leaf, Holds, ShapedAll, ShapedAttrs, HeightAll, GoodName;
    var t := SkipSpace(s);
    var r := ParseNode(s, depth, m);
    if Starts(t, "<?") {
      LeafShaped(t[2..], "?>", m, v => Declaration(v));
    } else if Starts(t, "<!--") {
      LeafShaped(t[4..], "-->", m, v => Comment(v));
    } else if Starts(t, "<![CDATA[") {
      LeafShaped(t[9..], "]]>", m, v => Text(v, true));
    } else if Starts(t, "<!") {
      LeafShaped(t[2..], ">", m, v => Unknown(v));
      StartsBehind(t, "<!", "--");
      StartsBehind(t, "<!", "[CDATA[");
    } else if t[0] == '<' {
      ElementShaped(t[1..], depth, m);
    }
  }

  lemma {:induction false} ElementShaped(s: string, depth: nat, m: Mode)
    requires depth < MAX_DEPTH && Sound(m.refs)
    ensures var r := ParseElement(s, depth, m);
            r.Open? ==> Shaped(r.node) && r.node.Element? && depth + Height(r.node) < MAX_DEPTH
    decreases |s|, 0
  {
    hide ParseName, ParseAttrs, ParseNodes, GoodName;
    var t := SkipSpace(s);
    var closing := t != [] && t[0] == '/';
    var n := ParseName(if closing then t[1..] else t);
    if n.Some? {
      NameIsGood(if closing then t[1..] else t);
      AttrsShaped(n.value.1, [], m);
      var a := ParseAttrs(n.value.1, [], m);
      if a.Some? && !a.value.1 && !closing && a.value.2 != [] && depth + 1 < MAX_DEPTH {
        NodesShaped(a.value.2, depth + 1, false, [], m);
      }
    }
  }

  lemma {:induction false} NodesShaped(s: string, depth: nat, isDocument: bool, before: seq<Xml>, m: Mode)
    requires ShapedAll(before, isDocument) && depth + HeightAll(before) < MAX_DEPTH && Sound(m.refs)
    requires before != [] && IsText(before[|before| - 1]) ==> s != [] && s[0] == '<'
    ensures var r := ParseNodes(s, depth, isDocument, before, m);
            !r.Failed? ==> ShapedAll(r.children, isDocument) && depth + HeightAll(r.children) < MAX_DEPTH
    decreases |s|, 1
  {
    hide ParseNode, Shaped, ShapedAll, Height;
    if SkipSpace(s) != [] {
      NodeShaped(s, depth, m);
      var r := ParseNode(s, depth, m);
      if r.Open? && !(r.node.Declaration? && !DeclarationFits(isDocument, before)) {
        ShapedSnoc(before, isDocument, r.node);
        HeightSnoc(before, r.node);
        NodesShaped(r.rest, depth, isDocument, before + [r.node], m);
      }
    }
  }

  /**
   * An accepted document, printed and parsed again, gives the same nodes, if its texts hold neither carriage returns
   * nor NULs once decoded and are not blank between tags, and if neither a text with a blank or a byte order mark in
   * front begins it nor a text ends it, which only a stray closing tag makes possible.
   */
  lemma ParsePrintParse(s: string, m: Mode)
    requires m.entities && Sound(m.refs) && ParseDocument(s, m).Some?
    requires var nodes := ParseDocument(s, m).value;
             CleanAll(nodes) && nodes != [] && LeadingFits(nodes[0]) && !IsText(nodes[|nodes| - 1])
    ensures ParseDocument(PrintAll(ParseDocument(s, m).value), m) == ParseDocument(s, m)
  {
    var t := SkipSpace(s);
    var u := if Starts(t, BOM) then t[3..] else t;
    var nodes := ParseDocument(s, m).value;
    NodesShaped(u, 1, true, [], m);
    ShapedAreGood(nodes, true);
    PrintThenParse(nodes, m);
  }
}
