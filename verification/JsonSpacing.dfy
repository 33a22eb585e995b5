/** White space in JSON texts: what it is to add some outside strings, and that the reader does not see it. */
module JsonSpacing {
  import opened Prelude
  import opened JsonString
  import opened JsonNumber
  import opened JsonValue
  import opened JsonGrammar

  // ---------- Dropping white space outside strings ----------

  datatype Mode = Outside | Inside | Escape

  function Next(m: Mode, c: Byte): Mode
  {
    match m
    case Outside => if c == '"' then Inside else Outside
    case Inside => if c == '"' then Outside else if c == '\\' then Escape else Inside
    case Escape => Inside
  }

  function ModeAfter(m: Mode, s: Bytes): Mode
    decreases |s|
  {
    if s == [] then m else ModeAfter(Next(m, s[0]), s[1..])
  }

  /** s, entered in mode m, without the white space outside its strings. */
  function Strip(m: Mode, s: Bytes): Bytes
    decreases |s|
  {
    if s == [] then [] else (if m == Outside && IsSpace(s[0]) then [] else [s[0]]) + Strip(Next(m, s[0]), s[1..])
  }

  /** The text s ends outside strings, and is `text` but for white space outside strings. */
  predicate Stands(s: Bytes, text: Bytes)
  {
    ModeAfter(Outside, s) == Outside && Strip(Outside, s) == text
  }

  lemma {:induction false} StripConcat(m: Mode, a: Bytes, b: Bytes)
    ensures ModeAfter(m, a + b) == ModeAfter(ModeAfter(m, a), b)
    ensures Strip(m, a + b) == Strip(m, a) + Strip(ModeAfter(m, a), b)
    decreases |a|
  {
    if a == [] {
      assert a + b == b;
    } else {
      assert (a + b)[1..] == a[1..] + b;
      StripConcat(Next(m, a[0]), a[1..], b);
    }
  }

  lemma StandsConcat(a: Bytes, x: Bytes, b: Bytes, y: Bytes)
    requires Stands(a, x) && Stands(b, y)
    ensures Stands(a + b, x + y)
  {
    StripConcat(Outside, a, b);
  }

  predicate Blank(s: Bytes)
  {
    forall c <- s :: IsSpace(c)
  }

  lemma {:induction false} BlankStands(s: Bytes)
    requires Blank(s)
    ensures Stands(s, [])
  {
    if s != [] {
      assert s[0] in s;
      BlankStands(s[1..]);
    }
  }

  /** No white space, and no quotes. */
  predicate Solid(s: Bytes)
  {
    forall c <- s :: !IsSpace(c) && c != '"'
  }

  lemma {:induction false} SolidStands(s: Bytes)
    requires Solid(s)
    ensures Stands(s, s)
  {
    if s != [] {
      assert s[0] in s;
      SolidStands(s[1..]);
      assert s == [s[0]] + s[1..];
    }
  }

  /** Text within a string, after which the string goes on. */
  predicate Within(s: Bytes)
  {
    ModeAfter(Inside, s) == Inside && Strip(Inside, s) == s
  }

  lemma WithinConcat(a: Bytes, b: Bytes)
    requires Within(a) && Within(b)
    ensures Within(a + b)
  {
    StripConcat(Inside, a, b);
  }

  lemma WithinRaw(c: Byte)
    requires c != '"' && c != '\\'
    ensures Within([c])
  {
  }

  lemma WithinEscape(e: Byte)
    ensures Within(['\\', e])
  {
    assert ['\\', e][1..] == [e] && [e][1..] == [];
    assert ModeAfter(Escape, [e]) == Inside && Strip(Escape, [e]) == [e];
  }

  lemma WithinHex(x: nat)
    requires x < 0x10000
    ensures Within(Hex(x))
  {
    hide Within;
    var h := ToHex16Bit(x);
    WithinEscape('u');
    WithinRaw(h[0]);
    WithinRaw(h[1]);
    WithinRaw(h[2]);
    WithinRaw(h[3]);
    WithinConcat(['\\', 'u'], [h[0]]);
    WithinConcat(['\\', 'u'] + [h[0]], [h[1]]);
    WithinConcat(['\\', 'u'] + [h[0]] + [h[1]], [h[2]]);
    WithinConcat(['\\', 'u'] + [h[0]] + [h[1]] + [h[2]], [h[3]]);
    assert Hex(x) == ['\\', 'u'] + [h[0]] + [h[1]] + [h[2]] + [h[3]];
  }

  lemma WithinFront(s: Bytes)
    requires s != []
    ensures Within(EscapedFront(s, false).0)
  {
    hide Within, Hex;
    if ShortEscape(s[0]).Some? {
      WithinEscape(ShortEscape(s[0]).value);
    } else {
      var cp := Utf8ToCodePoint(s).0;
      if cp < 0x20 || 0x80 <= cp < 0x10000 {
        WithinHex(cp);
      } else if cp < 0x80 {
        WithinRaw(cp as char);
      } else {
        var c := cp - 0x10000;
        WithinHex(0xd800 + c / 1024 % 1024);
        WithinHex(0xdc00 + c % 1024);
        WithinConcat(Hex(0xd800 + c / 1024 % 1024), Hex(0xdc00 + c % 1024));
      }
    }
  }

  lemma {:induction false} WithinEscaped(s: Bytes)
    ensures Within(Escaped(s, false))
    decreases |s|
  {
    hide EscapedFront;
    if s != [] {
      var (front, n) := EscapedFront(s, false);
      WithinFront(s);
      WithinEscaped(s[n..]);
      WithinConcat(front, Escaped(s[n..], false));
    }
  }

  lemma QuotedStands(s: Bytes)
    ensures Stands(Quoted(s, false), Quoted(s, false))
  {
    var e := Escaped(s, false);
    WithinEscaped(s);
    StripConcat(Outside, "\"", e);
    StripConcat(Outside, "\"" + e, "\"");
  }

  // ---------- White space that keeps words apart ----------

  /** Where a text stands: behind a mark, a string or nothing; in a word; behind a word and white space; in a string. */
  datatype Spot = Open | Word | Gap | InString | InEscape

  predicate IsMark(c: Byte)
  {
    c == '{' || c == '}' || c == '[' || c == ']' || c == ',' || c == ':'
  }

  predicate IsWord(c: Byte)
  {
    !IsSpace(c) && !IsMark(c) && c != '"'
  }

  function Go(p: Spot, c: Byte): Spot
  {
    match p
    case InString => if c == '"' then Open else if c == '\\' then InEscape else InString
    case InEscape => InString
    case _ =>
      if IsSpace(c) then if p == Word then Gap else p
      else if c == '"' then InString
      else if IsMark(c) then Open
      else Word
  }

  function SpotAfter(p: Spot, s: Bytes): Spot
    decreases |s|
  {
    if s == [] then p else SpotAfter(Go(p, s[0]), s[1..])
  }

  predicate Outer(p: Spot)
  {
    p == Open || p == Word || p == Gap
  }

  /** c may stand at p: no white space alone stands between two words, and outside strings there is no slash. */
  predicate Fits(p: Spot, c: Byte)
  {
    Outer(p) && IsWord(c) ==> p != Gap && c != '/'
  }

  predicate LooseFrom(p: Spot, s: Bytes)
    decreases |s|
  {
    s != [] ==> Fits(p, s[0]) && LooseFrom(Go(p, s[0]), s[1..])
  }

  /**
   * White space outside strings stands beside a mark or a string, or at an end of the text; and there are no
   * comments.
   */
  predicate Loose(s: Bytes)
  {
    LooseFrom(Open, s)
  }

  lemma {:induction false} LooseConcat(p: Spot, a: Bytes, b: Bytes)
    ensures SpotAfter(p, a + b) == SpotAfter(SpotAfter(p, a), b)
    ensures LooseFrom(p, a + b) <==> LooseFrom(p, a) && LooseFrom(SpotAfter(p, a), b)
    decreases |a|
  {
    if a == [] {
      assert a + b == b;
    } else {
      assert (a + b)[1..] == a[1..] + b;
      LooseConcat(Go(p, a[0]), a[1..], b);
    }
  }

  /** From no place is more allowed than from the start of a text. */
  lemma {:induction false} LooseAnywhere(p: Spot, s: Bytes)
    requires Outer(p) && LooseFrom(p, s)
    ensures Loose(s)
    decreases |s|
  {
    if s != [] && IsSpace(s[0]) {
      LooseAnywhere(Go(p, s[0]), s[1..]);
    }
  }

  lemma LooseRest(a: Bytes, b: Bytes)
    requires Loose(a + b) && Outer(SpotAfter(Open, a))
    ensures Loose(b)
  {
    LooseConcat(Open, a, b);
    LooseAnywhere(SpotAfter(Open, a), b);
  }

  // ---------- Tokens ----------

  lemma {:induction false} SpacesSkipped(s: Bytes)
    ensures Strip(Outside, SkipSpaces(s)) == Strip(Outside, s) == SkipSpaces(Strip(Outside, s))
    ensures Loose(s) ==> Loose(SkipSpaces(s))
  {
    if s != [] && IsSpace(s[0]) {
      SpacesSkipped(s[1..]);
    }
  }

  /** How many bytes of s belong to a word. */
  function WordLength(s: Bytes): (n: nat)
    ensures n <= |s| && (n < |s| ==> !IsWord(s[n]))
    ensures forall c <- s[..n] :: IsWord(c)
  {
    if s != [] && IsWord(s[0]) then
      var n := WordLength(s[1..]);
      assert s[..n + 1] == [s[0]] + s[1..][..n];
      n + 1
    else 0
  }

  predicate NoWordFront(r: Bytes)
  {
    r != [] ==> !IsWord(r[0])
  }

  lemma {:induction false} DigitsCut(w: Bytes, r: Bytes)
    requires NoWordFront(r)
    ensures LeadingDigitCount(w + r) == LeadingDigitCount(w)
  {
    if w == [] {
      assert w + r == r;
    } else {
      assert (w + r)[1..] == w[1..] + r;
      DigitsCut(w[1..], r);
    }
  }

  lemma CutFrom(w: Bytes, r: Bytes, k: nat)
    requires k <= |w|
    ensures (w + r)[k..] == w[k..] + r
  {
  }

  lemma ExponentCut(w: Bytes, r: Bytes)
    requires NoWordFront(r)
    ensures ExponentLength(w + r) == ExponentLength(w)
  {
    if w != [] {
      CutFrom(w, r, 1);
      DigitsCut(w[1..], r);
      if |w| > 1 {
        CutFrom(w, r, 2);
        DigitsCut(w[2..], r);
      }
    }
  }

  lemma FractionCut(w: Bytes, r: Bytes)
    requires NoWordFront(r)
    ensures FractionLength(w + r) == FractionLength(w)
  {
    if w != [] {
      CutFrom(w, r, 1);
      DigitsCut(w[1..], r);
    }
  }

  /** The end of a word ends a number. */
  lemma NumberCut(w: Bytes, r: Bytes)
    requires NoWordFront(r)
    ensures NumberLength(w + r) == NumberLength(w)
  {
    hide LeadingDigitCount, FractionLength, ExponentLength;
    var k := LeadingDigitCount(w);
    DigitsCut(w, r);
    CutFrom(w, r, k);
    FractionCut(w[k..], r);
    var f := FractionLength(w[k..]);
    CutFrom(w, r, k + f);
    ExponentCut(w[k + f..], r);
  }

  lemma StartsCut(w: Bytes, r: Bytes, p: Bytes)
    requires NoWordFront(r) && forall c <- p :: IsWord(c)
    ensures Starts(w + r, p) <==> Starts(w, p)
  {
    if |p| <= |w| {
      assert (w + r)[..|p|] == w[..|p|];
    } else if |p| <= |w + r| {
      assert (w + r)[..|p|][|w|] == r[0];
    }
  }

  /** What follows a word does not change its token. */
  lemma ScanCut(w: Bytes, r: Bytes)
    requires w != [] && IsWord(w[0]) && w[0] != '/' && NoWordFront(r)
    ensures Scan(w + r) == Scan(w)
  {
    hide NumberLength, StringEnd, CommentEnd, Starts;
    CutFrom(w, r, 1);
    NumberCut(w[1..], r);
    StartsCut(w[1..], r, "rue");
    StartsCut(w[1..], r, "alse");
    StartsCut(w[1..], r, "ull");
  }

  /** Behind a word, and white space if there is any, no other word begins. */
  lemma {:induction false} NoWordNext(p: Spot, r: Bytes)
    requires LooseFrom(p, r) && (p == Gap || (p == Word && NoWordFront(r)))
    ensures NoWordFront(Strip(Outside, r))
    decreases |r|
  {
    if r != [] && IsSpace(r[0]) {
      NoWordNext(Gap, r[1..]);
    }
  }

  lemma {:induction false} WordSpot(p: Spot, w: Bytes)
    requires Outer(p) && forall c <- w :: IsWord(c)
    ensures SpotAfter(p, w) == if w == [] then p else Word
    decreases |w|
  {
    if w != [] {
      assert w[0] in w && w == [w[0]] + w[1..];
      WordSpot(Word, w[1..]);
    }
  }

  /** The bytes that the scanner of strings takes at once. */
  function Unit(u: Bytes): (n: nat)
    requires u != []
    ensures 0 < n <= |u|
  {
    if u[0] == '\\' && |u| > 1 then 2 else 1
  }

  lemma StringUnit(u: Bytes)
    requires u != [] && u[0] != '"' && u != "\\"
    ensures var n := Unit(u);
            && Strip(Inside, u) == u[..n] + Strip(Inside, u[n..]) && SpotAfter(InString, u[..n]) == InString
  {
    hide Strip, ModeAfter;
    var n := Unit(u);
    if n == 2 {
      assert u[..n] == ['\\', u[1]] && u[..n][1..] == [u[1]] && [u[1]][1..] == [];
      WithinEscape(u[1]);
      assert SpotAfter(InEscape, [u[1]]) == InString;
    } else {
      assert u[..n] == [u[0]] && u[..n][1..] == [];
      assert u[0] == '\\' ==> u == "\\";
      WithinRaw(u[0]);
    }
    StripConcat(Inside, u[..n], u[n..]);
    assert u == u[..n] + u[n..];
  }

  lemma EndBehind(u: Bytes)
    requires u != [] && u[0] != '"'
    ensures StringEnd(u) == match StringEnd(u[Unit(u)..]) case None => None case Some(k) => Some(Unit(u) + k)
  {
  }

  /** A string ends at the same place with the white space behind it and without. */
  lemma {:induction false} StringLoose(u: Bytes)
    ensures StringEnd(Strip(Inside, u)) == StringEnd(u)
    ensures StringEnd(u).Some? ==>
              var k := StringEnd(u).value;
              Strip(Inside, u) == u[..k] + Strip(Outside, u[k..]) && SpotAfter(InString, u[..k]) == Open
    decreases |u|
  {
    if u == [] || u == "\\" {
      assert Strip(Inside, u) == u;
    } else if u[0] == '"' {
      assert u[..1] == ['"'] && u[..1][1..] == [];
    } else {
      StringLoose(u[Unit(u)..]);
      StringMore(u, u[Unit(u)..]);
    }
  }

  lemma StringMore(u: Bytes, more: Bytes)
    requires u != [] && u[0] != '"' && u != "\\" && more == u[Unit(u)..]
    requires StringEnd(Strip(Inside, more)) == StringEnd(more)
    requires StringEnd(more).Some? ==>
               var k := StringEnd(more).value;
               Strip(Inside, more) == more[..k] + Strip(Outside, more[k..]) && SpotAfter(InString, more[..k]) == Open
    ensures StringEnd(Strip(Inside, u)) == StringEnd(u)
    ensures StringEnd(u).Some? ==>
              var k := StringEnd(u).value;
              Strip(Inside, u) == u[..k] + Strip(Outside, u[k..]) && SpotAfter(InString, u[..k]) == Open
  {
    hide Strip, StringEnd, SpotAfter;
    var n := Unit(u);
    StringUnit(u);
    EndMore(u, more, Strip(Inside, more));
    if StringEnd(more).Some? {
      var k := StringEnd(more).value;
      SplitMore(u, more, n, k, Strip(Outside, more[k..]));
      LooseConcat(InString, u[..n], more[..k]);
    }
  }

  lemma EndMore(u: Bytes, more: Bytes, stripped: Bytes)
    requires u != [] && u[0] != '"' && u != "\\" && more == u[Unit(u)..] && StringEnd(stripped) == StringEnd(more)
    ensures var end := StringEnd(more);
            StringEnd(u) == StringEnd(u[..Unit(u)] + stripped)
            == if end == None then None else Some(Unit(u) + end.value)
  {
    hide StringEnd;
    var t := u[..Unit(u)] + stripped;
    assert t[Unit(u)..] == stripped && t[0] == u[0];
    EndBehind(u);
    SameUnit(u, t);
    EndBehind(t);
  }

  lemma SplitMore(u: Bytes, more: Bytes, n: nat, k: nat, rest: Bytes)
    requires n <= |u| && more == u[n..] && k <= |more|
    ensures u[n + k..] == more[k..] && u[..n + k] == u[..n] + more[..k]
    ensures u[..n] + (more[..k] + rest) == u[..n + k] + rest
  {
  }

  lemma SameUnit(u: Bytes, t: Bytes)
    requires u != [] && u != "\\" && t != [] && t[0] == u[0] && |t| >= Unit(u)
    ensures Unit(t) == Unit(u)
  {
  }

  /** The token at the front of t is the same without the white space in t, and so is what follows it. */
  ghost predicate SameToken(t: Bytes)
  {
    var b := Strip(Outside, t);
    && t != [] && b != [] && Scan(t).0 == Scan(b).0 && Scan(t).0 != Comment
    && (Scan(t).0 != Error && Scan(t).0 != EndOfStream ==>
          var n := Scan(t).1;
          Scan(b).1 == n && t[..n] == b[..n] && b[n..] == Strip(Outside, t[n..]) && Loose(t[n..]))
  }

  lemma MarkToken(t: Bytes)
    requires t != [] && IsMark(t[0]) && Loose(t)
    ensures SameToken(t)
  {
    var b := Strip(Outside, t);
    assert b == [t[0]] + Strip(Outside, t[1..]);
    assert b[1..] == Strip(Outside, t[1..]);
  }

  lemma QuoteToken(t: Bytes)
    requires t != [] && t[0] == '"' && Loose(t)
    ensures SameToken(t)
  {
    hide StringEnd;
    var u, b := t[1..], Strip(Outside, t);
    assert b == ['"'] + Strip(Inside, u) && b[1..] == Strip(Inside, u);
    StringLoose(u);
    if StringEnd(u).Some? {
      var k := StringEnd(u).value;
      assert t[1 + k..] == u[k..] && t[..1 + k] == ['"'] + u[..k];
      assert b == t[..1 + k] + Strip(Outside, t[1 + k..]);
      LooseBehindString(t, k);
    }
  }

  lemma LooseBehindString(t: Bytes, k: nat)
    requires Loose(t) && t != [] && t[0] == '"' && k < |t| && SpotAfter(InString, t[1..][..k]) == Open
    ensures Loose(t[1 + k..])
  {
    var u := t[1..];
    assert t[1 + k..] == u[k..] && u == u[..k] + u[k..];
    LooseConcat(InString, u[..k], u[k..]);
  }

  lemma WordToken(t: Bytes)
    requires t != [] && IsWord(t[0]) && Loose(t)
    ensures SameToken(t)
  {
    hide Scan, LooseFrom, Strip;
    var w, r := t[..WordLength(t)], t[WordLength(t)..];
    assert t == w + r && w != [] && w[0] == t[0];
    assert t[0] != '/' by { FirstFits(t); }
    WordSpot(Open, w);
    LooseConcat(Open, w, r);
    NoWordNext(Word, r);
    ScanCut(w, r);
    ScanCut(w, Strip(Outside, r));
    assert Solid(w);
    SolidStands(w);
    StripConcat(Outside, w, r);
    WordRest(w, r, Scan(w).1);
    WordScan(w);
  }

  lemma FirstFits(t: Bytes)
    requires t != [] && IsWord(t[0]) && Loose(t)
    ensures t[0] != '/'
  {
  }

  lemma WordScan(w: Bytes)
    requires w != [] && w[0] != '/'
    ensures Scan(w).0 != Comment
  {
  }

  /** What is left behind a part of a word. */
  lemma WordRest(w: Bytes, r: Bytes, n: nat)
    requires w != [] && n <= |w| && Solid(w) && (forall c <- w :: IsWord(c)) && Loose(w + r)
    ensures var t, b := w + r, w + Strip(Outside, r);
            t[..n] == b[..n] && b[n..] == Strip(Outside, t[n..]) && Loose(t[n..])
  {
    hide LooseFrom, Strip;
    var front, back := w[..n], w[n..];
    assert w + r == front + (back + r) && (w + r)[n..] == back + r;
    assert (w + Strip(Outside, r))[n..] == back + Strip(Outside, r);
    assert forall c <- back :: c in w;
    assert forall c <- front :: c in w;
    SolidStands(back);
    StripConcat(Outside, back, r);
    WordSpot(Open, front);
    LooseRest(front, back + r);
  }

  /** The reader takes the same token from a loose text and from the text without its white space. */
  lemma TokLoose(s: Bytes)
    requires Loose(s)
    ensures var a, b := Tok(s), Tok(Strip(Outside, s));
            && a.kind == b.kind && a.kind != Comment && TokSkip(s) == a && TokSkip(Strip(Outside, s)) == b
            && (a.kind != Error && a.kind != EndOfStream ==>
                  a.text == b.text && b.rest == Strip(Outside, a.rest) && Loose(a.rest))
  {
    hide Scan, LooseFrom;
    SpacesSkipped(s);
    var t := SkipSpaces(s);
    if t != [] {
      assert SameToken(t) by {
        if IsMark(t[0]) {
          MarkToken(t);
        } else if t[0] == '"' {
          QuoteToken(t);
        } else {
          WordToken(t);
        }
      }
    }
  }

  // ---------- Values ----------

  /** How reading a text compares with reading it without its white space. */
  ghost predicate SameRead(r: Parse, bare: Parse)
  {
    match r
    case Done(v, rest) => bare == Done(v, Strip(Outside, rest)) && Loose(rest)
    case _ => bare == r
  }

  lemma {:induction false} SuffixSkipped(s: Bytes)
    ensures SkipSpaces(s) == s[|s| - |SkipSpaces(s)|..]
  {
    if s != [] && IsSpace(s[0]) {
      SuffixSkipped(s[1..]);
    }
  }

  /** The text from the separator at its front on, which a dropped null leaves to be read. */
  lemma SeparatorLeft(s: Bytes)
    requires IsSeparator(Tok(s).kind)
    ensures |Tok(s).rest| < |s| && s[|s| - |Tok(s).rest| - 1..] == SkipSpaces(s)
  {
    hide Scan, SkipSpaces;
    SuffixSkipped(s);
    var t := SkipSpaces(s);
    if t != [] {
      SeparatorByte(t);
    }
  }

  lemma SeparatorByte(t: Bytes)
    requires t != []
    ensures IsSeparator(Scan(t).0) ==> Scan(t).1 == 1
  {
  }

  lemma FirstKept(u: Bytes)
    requires (u == [] || !IsSpace(u[0])) && Loose(u)
    ensures var b := Strip(Outside, u);
            && (u == [] <==> b == []) && (u != [] ==> b[0] == u[0])
            && (u != [] && u[0] == ']' ==> b[1..] == Strip(Outside, u[1..]) && Loose(u[1..]))
  {
  }

  lemma ScalarSame(a: Token, b: Token, cf: Config)
    requires a.kind == b.kind && (a.kind == StringToken ==> |a.text| >= 2 && |b.text| >= 2)
    requires a.kind != Error && a.kind != EndOfStream ==> a.text == b.text
    ensures ScalarOf(a, cf) == ScalarOf(b, cf) && NameOf(a, cf) == NameOf(b, cf)
    ensures a.kind == Error || a.kind == EndOfStream ==> ScalarOf(a, cf) == None && NameOf(a, cf) == None
  {
  }

  lemma LeafStart(s: Bytes, depth: nat, cf: Config)
    requires depth <= STACK_LIMIT && TokSkip(s) == Tok(s) && Tok(s).kind != ObjectBegin && Tok(s).kind != ArrayBegin
    ensures IsSeparator(Tok(s).kind) ==> |Tok(s).rest| < |s|
    ensures ReadValue(s, depth, cf)
            == if IsSeparator(Tok(s).kind) && cf.allowDroppedNull then Done(Null, s[|s| - |Tok(s).rest| - 1..])
               else match ScalarOf(Tok(s), cf) case None => Failed case Some(v) => Done(v, Tok(s).rest)
  {
    hide Tok, TokSkip, ReadItems, ReadMembers, ScalarOf;
  }

  /** A value that is no array and no object. */
  lemma LeafLoose(s: Bytes, depth: nat, cf: Config)
    requires Loose(s) && depth <= STACK_LIMIT && Tok(s).kind != ObjectBegin && Tok(s).kind != ArrayBegin
    ensures SameRead(ReadValue(s, depth, cf), ReadValue(Strip(Outside, s), depth, cf))
  {
    hide Tok, TokSkip, ReadValue, LooseFrom, Strip, SkipSpaces, ScalarOf;
    TokLoose(s);
    var a, b := Tok(s), Tok(Strip(Outside, s));
    LeafStart(s, depth, cf);
    LeafStart(Strip(Outside, s), depth, cf);
    ScalarSame(a, b, cf);
    if IsSeparator(a.kind) {
      SpacesSkipped(s);
      SeparatorLeft(s);
      SeparatorLeft(Strip(Outside, s));
    }
  }

  lemma ArrayStart(s: Bytes, depth: nat, cf: Config)
    requires depth <= STACK_LIMIT && Tok(s).kind == ArrayBegin && TokSkip(s) == Tok(s)
    ensures var u := SkipSpaces(Tok(s).rest);
            ReadValue(s, depth, cf)
            == if u != [] && u[0] == ']' then Done(Arr([]), u[1..]) else ReadItems(u, depth, [], cf)
  {
    hide Tok, TokSkip, ReadItems, ReadMembers;
  }

  lemma ObjectStart(s: Bytes, depth: nat, cf: Config)
    requires depth <= STACK_LIMIT && Tok(s).kind == ObjectBegin && TokSkip(s) == Tok(s)
    ensures ReadValue(s, depth, cf) == ReadMembers(Tok(s).rest, depth, [], [], cf)
  {
    hide Tok, TokSkip, ReadItems, ReadMembers;
  }

  /** The reader does not see the white space of a loose text. */
  lemma {:induction false} ReadLoose(s: Bytes, depth: nat, cf: Config)
    requires Loose(s)
    ensures SameRead(ReadValue(s, depth, cf), ReadValue(Strip(Outside, s), depth, cf))
    decreases |s|, 0
  {
    if depth > STACK_LIMIT {
      return;
    }
    hide Tok, TokSkip, ReadValue, ReadItems, ReadMembers, LooseFrom, Strip, SkipSpaces;
    TokLoose(s);
    var a, bare := Tok(s), Strip(Outside, s);
    if a.kind == ObjectBegin {
      ObjectStart(s, depth, cf);
      ObjectStart(bare, depth, cf);
      MembersLoose(a.rest, depth, [], [], cf);
    } else if a.kind == ArrayBegin {
      ArrayStart(s, depth, cf);
      ArrayStart(bare, depth, cf);
      SpacesSkipped(a.rest);
      FirstKept(SkipSpaces(a.rest));
      ItemsLoose(SkipSpaces(a.rest), depth, [], cf);
    } else {
      LeafLoose(s, depth, cf);
    }
  }

  lemma {:induction false} ItemsLoose(s: Bytes, depth: nat, items: seq<Value>, cf: Config)
    requires Loose(s)
    ensures SameRead(ReadItems(s, depth, items, cf), ReadItems(Strip(Outside, s), depth, items, cf))
    decreases |s|, 1
  {
    hide Tok, TokSkip, ReadValue, LooseFrom, Strip;
    ReadLoose(s, depth + 1, cf);
    var v := ReadValue(s, depth + 1, cf);
    if v.Done? {
      TokLoose(v.rest);
      var t := Tok(v.rest);
      if t.kind == ArraySeparator {
        ItemsLoose(t.rest, depth, items + [v.value], cf);
      }
    }
  }

  lemma {:induction false} EntryLoose(s: Bytes, depth: nat, cf: Config)
    requires Loose(s)
    ensures SameRead(EntryValue(s, depth, cf), EntryValue(Strip(Outside, s), depth, cf))
    decreases |s|, 1
  {
    hide Tok, TokSkip, ReadValue, LooseFrom, Strip;
    TokLoose(s);
    if Tok(s).kind == MemberSeparator {
      ReadLoose(Tok(s).rest, depth + 1, cf);
    }
  }

  lemma {:induction false} MembersLoose(s: Bytes, depth: nat, members: seq<Member>, name: Bytes, cf: Config)
    requires Loose(s)
    ensures SameRead(ReadMembers(s, depth, members, name, cf), ReadMembers(Strip(Outside, s), depth, members, name, cf))
    decreases |s|, 2
  {
    hide Tok, TokSkip, EntryValue, LooseFrom, Strip, NameOf, ScalarOf, Put;
    TokLoose(s);
    var t := Tok(s);
    ScalarSame(t, Tok(Strip(Outside, s)), cf);
    if !(t.kind == ObjectEnd && name == []) && NameOf(t, cf).Some? {
      EntryLoose(t.rest, depth, cf);
      var v := EntryValue(t.rest, depth, cf);
      if v.Done? {
        TokLoose(v.rest);
        var comma := Tok(v.rest);
        if comma.kind == ArraySeparator {
          var key := NameOf(t, cf).value;
          MembersLoose(comma.rest, depth, Put(members, key, v.value), key, cf);
        }
      }
    }
  }

  // ---------- Writing loose text ----------

  /** A value or a name may follow. */
  predicate Ready(s: Bytes)
  {
    SpotAfter(Open, s) == Open
  }

  /** Marks, with white space around them, which may follow anything and be followed by anything. */
  ghost predicate Marks(s: Bytes)
  {
    forall p | Outer(p) :: LooseFrom(p, s) && SpotAfter(p, s) == Open
  }

  predicate Agrees(m: Mode, p: Spot)
  {
    match m case Outside => Outer(p) case Inside => p == InString case Escape => p == InEscape
  }

  lemma {:induction false} ModeOfSpot(m: Mode, p: Spot, s: Bytes)
    requires Agrees(m, p)
    ensures Agrees(ModeAfter(m, s), SpotAfter(p, s))
    decreases |s|
  {
    if s != [] {
      ModeOfSpot(Next(m, s[0]), Go(p, s[0]), s[1..]);
    }
  }

  lemma {:induction false} BlankLoose(p: Spot, s: Bytes)
    requires Blank(s) && Outer(p)
    ensures LooseFrom(p, s) && (p == Open ==> SpotAfter(p, s) == Open)
    decreases |s|
  {
    if s != [] {
      assert s[0] in s;
      BlankLoose(Go(p, s[0]), s[1..]);
    }
  }

  lemma MarksHere()
    ensures Marks("{") && Marks("}") && Marks("[") && Marks("]") && Marks(",")
    ensures Marks("[ ") && Marks(", ") && Marks(" ]") && Marks(" : ")
  {
    forall p | Outer(p)
      ensures LooseFrom(p, "{") && SpotAfter(p, "{") == Open && LooseFrom(p, "}") && SpotAfter(p, "}") == Open
      ensures LooseFrom(p, "[") && SpotAfter(p, "[") == Open && LooseFrom(p, "]") && SpotAfter(p, "]") == Open
      ensures LooseFrom(p, ",") && SpotAfter(p, ",") == Open
    {
      assert "{"[1..] == [] && "}"[1..] == [] && "["[1..] == [] && "]"[1..] == [] && ","[1..] == [];
    }
    MarkBlank("[");
    MarkBlank(",");
    BlankMark("]");
    MarkBlank(":");
    BlankMark(": ");
    assert "[" + " " == "[ " && "," + " " == ", " && " " + "]" == " ]" && ":" + " " == ": " && " " + ": " == " : ";
  }

  lemma MarkBlank(mark: Bytes)
    requires |mark| == 1 && IsMark(mark[0])
    ensures Marks(mark + " ")
  {
    forall p | Outer(p)
      ensures LooseFrom(p, mark + " ") && SpotAfter(p, mark + " ") == Open
    {
      assert (mark + " ")[1..] == " ";
      BlankLoose(Open, " ");
    }
  }

  lemma BlankMark(marks: Bytes)
    requires marks != [] && IsMark(marks[0]) && Loose(marks) && Ready(marks)
    ensures Marks(" " + marks)
  {
    forall p | Outer(p)
      ensures LooseFrom(p, " " + marks) && SpotAfter(p, " " + marks) == Open
    {
      assert (" " + marks)[1..] == marks;
    }
  }

  lemma {:induction false} WordLoose(p: Spot, w: Bytes)
    requires (p == Open || p == Word) && forall c <- w :: IsWord(c) && c != '/'
    ensures LooseFrom(p, w)
    decreases |w|
  {
    if w != [] {
      assert w[0] in w && forall c <- w[1..] :: c in w;
      WordLoose(Word, w[1..]);
    }
  }

  lemma {:induction false} StringFits(u: Bytes)
    requires StringEnd(u).Some?
    ensures LooseFrom(InString, u[..StringEnd(u).value])
    decreases |u|
  {
    if u[0] == '"' {
      assert u[..1] == ['"'] && u[..1][1..] == [];
    } else {
      EndBehind(u);
      var n := Unit(u);
      var k := StringEnd(u[n..]).value;
      StringFits(u[n..]);
      assert u != "\\" by { LoneBackslash(); }
      StringUnit(u);
      UnitFits(u);
      assert u[..n + k] == u[..n] + u[n..][..k];
      LooseConcat(InString, u[..n], u[n..][..k]);
    }
  }

  lemma LoneBackslash()
    ensures StringEnd("\\") == None
  {
    assert "\\"[1..] == [];
  }

  lemma UnitFits(u: Bytes)
    requires u != [] && u[0] != '"'
    ensures LooseFrom(InString, u[..Unit(u)])
  {
    var t := u[..Unit(u)];
    assert t[1..] == if Unit(u) == 2 then [u[1]] else [];
    if Unit(u) == 2 {
      assert [u[1]][1..] == [];
    }
  }

  lemma QuotedLoose(x: Bytes)
    ensures Loose(Quoted(x, false)) && Ready(Quoted(x, false))
  {
    hide LooseFrom, StringEnd, Escaped;
    var e := Escaped(x, false);
    var u := e + "\"";
    ScanEscaped(x, false, []);
    assert e + ("\"" + []) == u && u[..|u|] == u;
    StringFits(u);
    StringLoose(u);
    assert Quoted(x, false) == "\"" + u && ("\"" + u)[0] == '"' && ("\"" + u)[1..] == u;
    QuoteOpens("\"" + u);
  }

  lemma QuoteOpens(t: Bytes)
    requires t != [] && t[0] == '"' && LooseFrom(InString, t[1..])
    ensures Loose(t) && SpotAfter(Open, t) == SpotAfter(InString, t[1..])
  {
  }

  /** What may be added to loose text: marks, white space, or, where a value may follow, any loose text. */
  ghost predicate Addable(a: Bytes, b: Bytes)
  {
    Marks(b) || Blank(b) || (Ready(a) && Loose(b))
  }

  lemma LooseAdded(a: Bytes, b: Bytes)
    requires Loose(a) && ModeAfter(Outside, a) == Outside && Addable(a, b)
    ensures Loose(a + b) && (Marks(b) ==> Ready(a + b)) && (Blank(b) && Ready(a) ==> Ready(a + b))
  {
    ModeOfSpot(Outside, Open, a);
    LooseConcat(Open, a, b);
    if Blank(b) {
      BlankLoose(SpotAfter(Open, a), b);
    }
  }
}
