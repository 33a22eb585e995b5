/**
 * The texts of RFC 8259, as trees of its grammar with their white space, and what each denotes; and that the reader of
 * json_reader.cpp reads every one of them as what it denotes.
 */
module JsonRfc {
  import opened Prelude
  import opened JsonString
  import opened JsonEscapes
  import opened JsonNumber
  import opened JsonValue
  import opened JsonGrammar
  import opened JsonRoundTrip

  // ---------- The grammar ----------

  /** A byte of a string that stands for itself, a two-character escape, or a unit of UTF-16 by its four digits. */
  datatype Piece = Raw(c: Byte) | Short(e: Byte) | Unit(digits: Bytes, values: seq<nat>)

  datatype Exponent = Exponent(letter: Byte, sign: Bytes, digits: Bytes)

  datatype Json =
    | Word(word: Bytes)
    | Numeral(minus: bool, digits: Bytes, fraction: Option<Bytes>, exponent: Option<Exponent>)
    | Letters(pieces: seq<Piece>)
    | List(space: Bytes, elements: seq<Element>)
    | Record(space: Bytes, entries: seq<Entry>)

  /** A value with the white space around it. */
  datatype Element = Element(before: Bytes, value: Json, after: Bytes)

  /** A name with the white space around it, and the value behind the colon. */
  datatype Entry = Entry(before: Bytes, name: seq<Piece>, after: Bytes, element: Element)

  /** Section 2 of the RFC: white space. */
  predicate Ws(w: Bytes)
  {
    forall c <- w :: c as int in {9, 10, 13, 32}
  }

  function Number16(values: seq<nat>): nat
    requires |values| == 4
  {
    values[0] * 4096 + values[1] * 256 + values[2] * 16 + values[3]
  }

  predicate IsHigh(p: Piece)
    requires LegalPiece(p)
  {
    p.Unit? && 0xd800 <= Number16(p.values) <= 0xdbff
  }

  /** Section 7: the pieces of a string. A high surrogate stands before another unit. */
  predicate LegalPieces(pieces: seq<Piece>)
  {
    pieces != [] ==>
      && LegalPiece(pieces[0])
      && if IsHigh(pieces[0]) then
           |pieces| > 1 && pieces[1].Unit? && LegalPiece(pieces[1]) && LegalPieces(pieces[2..])
         else LegalPieces(pieces[1..])
  }

  predicate LegalPiece(p: Piece)
  {
    match p
    case Raw(c) => c != '"' && c != '\\'
    case Short(e) => e in "\"\\/bfnrt"
    case Unit(digits, values) =>
      |digits| == 4 == |values|
      && Means(digits[0], values[0]) && Means(digits[1], values[1])
      && Means(digits[2], values[2]) && Means(digits[3], values[3])
  }

  predicate AreDigits(t: Bytes)
  {
    t != [] && AllDigits(t)
  }

  /** Section 6: numbers. */
  predicate LegalNumeral(j: Json)
    requires j.Numeral?
  {
    && AreDigits(j.digits) && (j.digits[0] == '0' ==> |j.digits| == 1)
    && (j.fraction.Some? ==> AreDigits(j.fraction.value))
    && (j.exponent.Some? ==> LegalExponent(j.exponent.value))
  }

  predicate LegalExponent(x: Exponent)
  {
    (x.letter == 'e' || x.letter == 'E') && (x.sign == "" || x.sign == "+" || x.sign == "-") && AreDigits(x.digits)
  }

  /** The texts of the RFC; the conversion to doubles does not fail where it is needed. */
  predicate Legal(j: Json, cf: Config)
    decreases j
  {
    match j
    case Word(word) => word in ["null", "true", "false"]
    case Numeral(_, _, _, _) => LegalNumeral(j) && (IsWhole(j) || cf.toDouble(NumeralText(j)).Some?)
    case Letters(pieces) => LegalPieces(pieces)
    case List(space, elements) =>
      Ws(space) && forall x <- elements :: Ws(x.before) && Legal(x.value, cf) && Ws(x.after)
    case Record(space, entries) =>
      && Ws(space)
      && forall x <- entries ::
         && Ws(x.before) && LegalPieces(x.name) && Ws(x.after)
         && Ws(x.element.before) && Legal(x.element.value, cf) && Ws(x.element.after)
  }

  // ---------- Texts ----------

  function FractionText(f: Option<Bytes>): Bytes
  {
    match f case None => [] case Some(d) => "." + d
  }

  function ExponentText(e: Option<Exponent>): Bytes
  {
    match e case None => [] case Some(x) => [x.letter] + x.sign + x.digits
  }

  function NumeralText(j: Json): Bytes
    requires j.Numeral?
  {
    (if j.minus then "-" else []) + (j.digits + (FractionText(j.fraction) + ExponentText(j.exponent)))
  }

  function PieceText(p: Piece): Bytes
  {
    match p
    case Raw(c) => [c]
    case Short(e) => ['\\', e]
    case Unit(digits, _) => "\\u" + digits
  }

  function PiecesText(pieces: seq<Piece>, more: Bytes): Bytes
  {
    if pieces == [] then more else PieceText(pieces[0]) + PiecesText(pieces[1..], more)
  }

  /** The text of j, followed by more. */
  function Text(j: Json, more: Bytes): Bytes
    decreases j, 0
  {
    match j
    case Word(word) => word + more
    case Numeral(_, _, _, _) => NumeralText(j) + more
    case Letters(pieces) => "\"" + PiecesText(pieces, "\"" + more)
    case List(space, elements) => "[" + if elements == [] then space + ("]" + more)
        else ElementsText(elements, "]" + more)
    case Record(space, entries) => "{" + if entries == [] then space + ("}" + more)
        else EntriesText(entries, "}" + more)
  }

  function ElementText(x: Element, more: Bytes): Bytes
    decreases x, 0
  {
    x.before + Text(x.value, x.after + more)
  }

  function ElementsText(elements: seq<Element>, more: Bytes): Bytes
    decreases elements, 1
  {
    if elements == [] then more
    else ElementText(elements[0], if |elements| == 1 then more else "," + ElementsText(elements[1..], more))
  }

  function EntryText(x: Entry, more: Bytes): Bytes
    decreases x, 1
  {
    x.before + ("\"" + PiecesText(x.name, "\"" + (x.after + (":" + ElementText(x.element, more)))))
  }

  function EntriesText(entries: seq<Entry>, more: Bytes): Bytes
    decreases entries, 2
  {
    if entries == [] then more
    else EntryText(entries[0], if |entries| == 1 then more else "," + EntriesText(entries[1..], more))
  }

  // ---------- What texts denote ----------

  function ShortMeaning(e: Byte): Byte
  {
    if e == 'b' then 8 as char
    else if e == 'f' then 12 as char
    else if e == 'n' then 10 as char
    else if e == 'r' then 13 as char
    else if e == 't' then 9 as char
    else e
  }

  /** The bytes of a string: units are code points, in pairs behind a high surrogate, in UTF-8. */
  function Spoken(pieces: seq<Piece>): Bytes
    requires LegalPieces(pieces)
  {
    if pieces == [] then []
    else
      match pieces[0]
      case Raw(c) => [c] + Spoken(pieces[1..])
      case Short(e) => [ShortMeaning(e)] + Spoken(pieces[1..])
      case Unit(_, values) =>
        var u := Number16(values);
        if IsHigh(pieces[0]) then
          CodePointToUtf8(0x10000 + (u - 0xd800) * 1024 + Number16(pieces[1].values) % 1024) + Spoken(pieces[2..])
        else CodePointToUtf8(u) + Spoken(pieces[1..])
  }

  function WholeValue(j: Json): int
    requires j.Numeral? && LegalNumeral(j)
  {
    if j.minus then -(NumberOf(j.digits) as int) else NumberOf(j.digits)
  }

  /** An integer that a 64-bit type of the program holds. */
  predicate IsWhole(j: Json)
    requires j.Numeral? && LegalNumeral(j)
  {
    j.fraction == None && j.exponent == None && -0x8000_0000_0000_0000 <= WholeValue(j) <= 0xffff_ffff_ffff_ffff
  }

  function NumeralMeaning(j: Json, cf: Config): Value
    requires j.Numeral? && Legal(j, cf)
  {
    if !IsWhole(j) then Real(cf.toDouble(NumeralText(j)).value)
    else
      var n := WholeValue(j);
      if n <= 0x7fff_ffff then Int(n) else UInt(n)
  }

  function Meaning(j: Json, cf: Config): Value
    requires Legal(j, cf)
    decreases j, 0
  {
    match j
    case Word(word) => if word == "null" then Null else Bool(word == "true")
    case Numeral(_, _, _, _) => NumeralMeaning(j, cf)
    case Letters(pieces) => Str(Spoken(pieces))
    case List(_, elements) => Arr(Meanings(elements, cf))
    case Record(_, entries) => Obj(Collected([], entries, cf))
  }

  predicate LegalElements(elements: seq<Element>, cf: Config)
  {
    forall x <- elements :: Ws(x.before) && Legal(x.value, cf) && Ws(x.after)
  }

  predicate LegalEntries(entries: seq<Entry>, cf: Config)
  {
    forall x <- entries ::
      && Ws(x.before) && LegalPieces(x.name) && Ws(x.after)
      && Ws(x.element.before) && Legal(x.element.value, cf) && Ws(x.element.after)
  }

  function Meanings(elements: seq<Element>, cf: Config): seq<Value>
    requires LegalElements(elements, cf)
    decreases elements, 1
  {
    if elements == [] then [] else [Meaning(elements[0].value, cf)] + Meanings(elements[1..], cf)
  }

  /** The members after those of `before`: of members with the same name the last counts. */
  function Collected(before: seq<Member>, entries: seq<Entry>, cf: Config): seq<Member>
    requires LegalEntries(entries, cf)
    decreases entries, 1
  {
    if entries == [] then before
    else
      Collected(Put(before, Spoken(entries[0].name), Meaning(entries[0].element.value, cf)), entries[1..], cf)
  }

  /** How deeply a text is nested, an empty list or record counting as a scalar. */
  function Nesting(j: Json): nat
    decreases j, 0
  {
    match j
    case List(_, elements) => NestingOfElements(elements)
    case Record(_, entries) => NestingOfEntries(entries)
    case _ => 0
  }

  function NestingOfElements(elements: seq<Element>): nat
    decreases elements, 1
  {
    if elements == [] then 0 else Max(1 + Nesting(elements[0].value), NestingOfElements(elements[1..]))
  }

  function NestingOfEntries(entries: seq<Entry>): nat
    decreases entries, 1
  {
    if entries == [] then 0 else Max(1 + Nesting(entries[0].element.value), NestingOfEntries(entries[1..]))
  }

  // ---------- White space and tokens ----------

  /** What may follow a number: white space, a comma, a closing bracket, or the end. */
  predicate Follows(more: Bytes)
  {
    more != [] ==> IsSpace(more[0]) || more[0] == ',' || more[0] == ']' || more[0] == '}'
  }

  lemma {:induction false} WsSkipped(w: Bytes, s: Bytes)
    requires Ws(w)
    ensures SkipSpaces(w + s) == SkipSpaces(s)
  {
    if w == [] {
      assert w + s == s;
    } else {
      assert w[0] in w && (w + s)[0] == w[0] && (w + s)[1..] == w[1..] + s;
      assert forall c <- w[1..] :: c in w;
      WsSkipped(w[1..], s);
    }
  }

  lemma WsTok(w: Bytes, s: Bytes)
    requires Ws(w)
    ensures Tok(w + s) == Tok(s)
    ensures Tok(s).kind != Comment ==> TokSkip(w + s) == Tok(s) == TokSkip(s)
  {
    hide Scan, Ws;
    WsSkipped(w, s);
  }

  lemma WsRead(w: Bytes, s: Bytes, depth: nat, cf: Config)
    requires Ws(w) && !IsSeparator(Tok(s).kind) && Tok(s).kind != Comment
    ensures ReadValue(w + s, depth, cf) == ReadValue(s, depth, cf)
  {
    hide Tok, ReadItems, ReadMembers, ScalarOf, Ws;
    WsTok(w, s);
  }

  lemma SkipRead(s: Bytes, depth: nat, cf: Config)
    requires !IsSeparator(Tok(s).kind) && Tok(s).kind != Comment
    ensures ReadValue(SkipSpaces(s), depth, cf) == ReadValue(s, depth, cf)
  {
    hide Scan, ReadItems, ReadMembers, ScalarOf;
    SkipTwice(s);
    assert Tok(SkipSpaces(s)) == Tok(s);
    assert TokSkip(SkipSpaces(s)) == TokSkip(s);
  }

  lemma SkipTwice(s: Bytes)
    ensures SkipSpaces(SkipSpaces(s)) == SkipSpaces(s)
  {
  }

  lemma FollowsWs(w: Bytes, more: Bytes)
    requires Ws(w) && Follows(more)
    ensures Follows(w + more)
  {
    if w != [] {
      assert w[0] in w;
    }
  }

  // ---------- Numbers ----------

  lemma FractionRun(f: Option<Bytes>, more: Bytes)
    requires (f.Some? ==> AreDigits(f.value)) && (more == [] || (!IsDigit(more[0]) && more[0] != '.'))
    ensures FractionLength(FractionText(f) + more) == |FractionText(f)|
    ensures var u := FractionText(f) + more; u == [] || !IsDigit(u[0])
  {
    var u := FractionText(f) + more;
    if f.Some? {
      assert u[1..] == f.value + more;
      DigitsRun(f.value, more);
    } else {
      assert u == more;
    }
  }

  lemma ExponentHere(x: Exponent, more: Bytes)
    requires LegalExponent(x) && Follows(more)
    ensures ExponentLength([x.letter] + x.sign + x.digits + more) == 1 + |x.sign| + |x.digits|
  {
    hide LeadingDigitCount;
    var u := [x.letter] + x.sign + x.digits + more;
    assert x.digits[0] in x.digits;
    DigitsRun(x.digits, more);
    assert u[1 + |x.sign|..] == x.digits + more;
    if x.sign != "" {
      assert u[1] == x.sign[0];
    } else {
      assert u[1] == x.digits[0];
    }
  }

  lemma ExponentRun(e: Option<Exponent>, more: Bytes)
    requires (e.Some? ==> LegalExponent(e.value)) && Follows(more)
    ensures ExponentLength(ExponentText(e) + more) == |ExponentText(e)|
    ensures var u := ExponentText(e) + more; u == [] || (!IsDigit(u[0]) && u[0] != '.')
  {
    if e.Some? {
      hide ExponentLength;
      ExponentHere(e.value, more);
    } else {
      assert ExponentText(e) + more == more;
    }
  }

  /** The digits, fraction and exponent of a number are what the scanner takes. */
  lemma NumeralRun(d: Bytes, f: Option<Bytes>, e: Option<Exponent>, more: Bytes)
    requires AllDigits(d) && (f.Some? ==> AreDigits(f.value)) && Follows(more)
    requires e.Some? ==> LegalExponent(e.value)
    ensures NumberLength(d + (FractionText(f) + (ExponentText(e) + more)))
              == |d| + |FractionText(f)| + |ExponentText(e)|
  {
    hide FractionText, ExponentText, FractionLength, ExponentLength, LeadingDigitCount, Follows;
    var t := ExponentText(e) + more;
    var u := FractionText(f) + t;
    ExponentRun(e, more);
    FractionRun(f, t);
    DigitsRun(d, u);
    assert (d + u)[|d|..] == u;
    assert (d + u)[|d| + |FractionText(f)|..] == t;
  }

  lemma NumeralToken(j: Json, more: Bytes)
    requires j.Numeral? && LegalNumeral(j) && Follows(more)
    ensures Tok(NumeralText(j) + more) == Token(NumberToken, NumeralText(j), more)
  {
    hide FractionText, ExponentText, NumberLength, Follows;
    var text, f, e := NumeralText(j), FractionText(j.fraction), ExponentText(j.exponent);
    assert j.digits[0] in j.digits && IsDigit(j.digits[0]);
    var d := if j.minus then j.digits else j.digits[1..];
    NumeralRun(d, j.fraction, j.exponent, more);
    assert (text + more)[1..] == d + (f + (e + more));
    TokScan(text, more, NumberToken);
  }

  /** A whole number is decoded as one; any other goes to the conversion to doubles. */
  lemma NumeralValue(j: Json, cf: Config)
    requires j.Numeral? && Legal(j, cf)
    ensures NumberValue(NumeralText(j), cf) == Some(NumeralMeaning(j, cf))
  {
    var t, d := NumeralText(j), j.digits;
    var f, e := FractionText(j.fraction), ExponentText(j.exponent);
    assert j.digits[0] in j.digits && IsDigit(j.digits[0]);
    assert Magnitude(t) == d + (f + e);
    if f == [] && e == [] {
      assert d + (f + e) == d;
    } else {
      NotDigits(d, j.fraction, j.exponent);
    }
  }

  lemma NotDigits(d: Bytes, f: Option<Bytes>, e: Option<Exponent>)
    requires f.Some? || (e.Some? && LegalExponent(e.value))
    ensures !AllDigits(d + (FractionText(f) + ExponentText(e)))
  {
    var t := d + (FractionText(f) + ExponentText(e));
    assert t[|d|] == if f.Some? then '.' else e.value.letter;
    assert t[|d|] in t;
  }

  // ---------- Strings ----------

  lemma {:induction false} PiecesThen(pieces: seq<Piece>, more: Bytes)
    ensures PiecesText(pieces, more) == PiecesText(pieces, []) + more
  {
    if pieces == [] {
      assert [] + more == more;
    } else {
      var x, y := PieceText(pieces[0]), PiecesText(pieces[1..], []);
      PiecesThen(pieces[1..], more);
      assert x + (y + more) == (x + y) + more;
    }
  }

  lemma DigitRaw(c: Byte, d: nat)
    requires Means(c, d)
    ensures c != '"' && c != '\\'
  {
    DigitMeans(c, d);
  }

  lemma ScanUnit(s: Bytes, values: seq<nat>, rest: Bytes)
    requires LegalPiece(Unit(s, values))
    ensures StringEnd("\\u" + s + rest) == Further(6, StringEnd(rest))
  {
    hide StringEnd, Means;
    DigitRaw(s[0], values[0]);
    DigitRaw(s[1], values[1]);
    DigitRaw(s[2], values[2]);
    DigitRaw(s[3], values[3]);
    assert "\\u" + s + rest == ['\\', 'u'] + ([s[0]] + ([s[1]] + ([s[2]] + ([s[3]] + rest))));
    ScanEscape('u', [s[0]] + ([s[1]] + ([s[2]] + ([s[3]] + rest))));
    ScanRaw(s[0], [s[1]] + ([s[2]] + ([s[3]] + rest)));
    ScanRaw(s[1], [s[2]] + ([s[3]] + rest));
    ScanRaw(s[2], [s[3]] + rest);
    ScanRaw(s[3], rest);
  }

  lemma ScanPiece(p: Piece, rest: Bytes)
    requires LegalPiece(p)
    ensures StringEnd(PieceText(p) + rest) == Further(|PieceText(p)|, StringEnd(rest))
  {
    hide StringEnd;
    match p
    case Raw(c) => ScanRaw(c, rest);
    case Short(e) => ScanEscape(e, rest);
    case Unit(digits, values) => ScanUnit(digits, values, rest);
  }

  lemma {:induction false} EachLegal(pieces: seq<Piece>)
    requires LegalPieces(pieces)
    ensures forall p <- pieces :: LegalPiece(p)
    decreases |pieces|
  {
    hide LegalPiece, IsHigh;
    if pieces != [] {
      var n := if IsHigh(pieces[0]) then 2 else 1;
      EachLegal(pieces[n..]);
      assert pieces == pieces[..n] + pieces[n..];
      assert pieces[..n] == if n == 1 then [pieces[0]] else [pieces[0], pieces[1]];
    }
  }

  lemma {:induction false} ScanPieces(pieces: seq<Piece>, more: Bytes)
    requires forall p <- pieces :: LegalPiece(p)
    ensures StringEnd(PiecesText(pieces, "\"" + more)) == Some(|PiecesText(pieces, [])| + 1)
  {
    hide StringEnd, LegalPiece, PieceText;
    if pieces == [] {
      ScanClose(more);
    } else {
      assert pieces[0] in pieces && forall p <- pieces[1..] :: p in pieces;
      ScanPiece(pieces[0], PiecesText(pieces[1..], "\"" + more));
      ScanPieces(pieces[1..], more);
    }
  }

  lemma ShortDecoded(e: Byte, rest: Bytes)
    requires e in "\"\\/bfnrt"
    ensures Decoded(['\\', e] + rest) == Prepend([ShortMeaning(e)], Decoded(rest))
  {
    hide Decoded, Prepend;
    ShortEscapes(rest);
    var i :| 0 <= i < 8 && "\"\\/bfnrt"[i] == e;
  }

  lemma UnitRead(s: Bytes, values: seq<nat>, rest: Bytes)
    requires LegalPiece(Unit(s, values))
    ensures UnicodeEscape(s + rest) == Some(Number16(values))
  {
    hide Means, UnicodeEscape;
    FourDigits(s, values[0], values[1], values[2], values[3], rest);
  }

  lemma {:induction false} DecodePieces(pieces: seq<Piece>)
    requires LegalPieces(pieces)
    ensures Decoded(PiecesText(pieces, [])) == Some(Spoken(pieces))
    decreases |pieces|
  {
    hide Decoded, Means, UnicodeEscape, CodePointToUtf8, ShortMeaning;
    if pieces == [] {
      assert Decoded([]) == Some([]) by { DecodeEnd([]); }
    } else {
      var rest := PiecesText(pieces[1..], []);
      match pieces[0]
      case Raw(c) =>
        DecodePieces(pieces[1..]);
        DecodeRaw(c, rest);
      case Short(e) =>
        DecodePieces(pieces[1..]);
        ShortDecoded(e, rest);
      case Unit(digits, values) =>
        if IsHigh(pieces[0]) {
          DecodeHigh(pieces);
        } else {
          DecodePieces(pieces[1..]);
          UnitRead(digits, values, rest);
          LoneUnit(digits, Number16(values), rest);
        }
    }
  }

  lemma {:induction false} DecodeHigh(pieces: seq<Piece>)
    requires LegalPieces(pieces) && pieces != [] && IsHigh(pieces[0])
    ensures Decoded(PiecesText(pieces, [])) == Some(Spoken(pieces))
    decreases |pieces|, 0
  {
    hide Decoded, Means, UnicodeEscape, CodePointToUtf8, Number16;
    var p, q, last := pieces[0], pieces[1], PiecesText(pieces[2..], []);
    DecodePieces(pieces[2..]);
    assert pieces[1..][0] == q && pieces[1..][1..] == pieces[2..];
    var second := "\\u" + q.digits + last;
    assert PiecesText(pieces[1..], []) == second;
    assert PiecesText(pieces, []) == "\\u" + p.digits + second;
    UnitRead(p.digits, p.values, second);
    UnitRead(q.digits, q.values, last);
    SurrogatePair(p.digits, Number16(p.values), q.digits, Number16(q.values), last);
  }

  lemma LettersToken(pieces: seq<Piece>, more: Bytes)
    requires LegalPieces(pieces)
    ensures var text := "\"" + PiecesText(pieces, []) + "\"";
            && Tok("\"" + PiecesText(pieces, "\"" + more)) == Token(StringToken, text, more)
            && StringValue(text) == Some(Spoken(pieces))
  {
    hide StringEnd, LegalPieces, PiecesText, Spoken, Decoded;
    var inside := PiecesText(pieces, []);
    var text := "\"" + inside + "\"";
    EachLegal(pieces);
    ScanPieces(pieces, more);
    PiecesThen(pieces, "\"" + more);
    assert "\"" + PiecesText(pieces, "\"" + more) == text + more;
    assert (text + more)[1..] == PiecesText(pieces, "\"" + more);
    TokScan(text, more, StringToken);
    assert text[1..|text| - 1] == inside;
    DecodePieces(pieces);
  }

  // ---------- Values ----------

  /** A text begins with neither a space, a closing bracket nor a comment. */
  lemma Front(j: Json, more: Bytes, cf: Config)
    requires Legal(j, cf)
    ensures var t := Text(j, more);
            && t != [] && !IsSpace(t[0]) && t[0] != ']' && !IsSeparator(Tok(t).kind) && Tok(t).kind != Comment
  {
    hide FractionText, ExponentText, ElementsText, EntriesText, PiecesText, StringEnd, NumberLength, LegalPieces;
    var t := Text(j, more);
    if j.Numeral? {
      assert j.digits[0] in j.digits;
      assert t[0] == if j.minus then '-' else j.digits[0];
    } else if j.Word? {
      assert t[0] == j.word[0] && (t[0] == 'n' || t[0] == 't' || t[0] == 'f');
    }
    FrontToken(t);
  }

  lemma FrontToken(t: Bytes)
    requires t != [] && (t[0] in "\"[{-ntf" || IsDigit(t[0]))
    ensures !IsSpace(t[0]) && t[0] != ']' && !IsSeparator(Tok(t).kind) && Tok(t).kind != Comment
  {
    hide StringEnd, NumberLength;
    assert "\"[{-ntf"[0] == '"';
    assert SkipSpaces(t) == t;
  }

  /** A text of the RFC is read as what it denotes, exactly within the stack limit. */
  lemma {:induction false} ReadText(j: Json, depth: nat, more: Bytes, cf: Config)
    requires Legal(j, cf) && Follows(more)
    ensures ReadValue(Text(j, more), depth, cf) == Expected(Meaning(j, cf), Nesting(j), depth, more)
    decreases j, 0
  {
    hide ReadValue, ReadItems, ReadMembers, Tok, Follows, PiecesText, LegalPieces, Spoken, NumeralText, IsWhole;
    hide ElementsText, EntriesText, Ws;
    match j
    case Word(word) =>
      ReadWordBack(word, Meaning(j, cf), depth, more, cf);
    case Numeral(_, _, _, _) =>
      NumeralToken(j, more);
      NumeralValue(j, cf);
      ReadScalarToken(Text(j, more), Token(NumberToken, NumeralText(j), more), depth, Meaning(j, cf), cf);
    case Letters(pieces) =>
      LettersToken(pieces, more);
      var t := Tok(Text(j, more));
      ReadScalarToken(Text(j, more), t, depth, Meaning(j, cf), cf);
    case List(space, elements) =>
      ListFront(space, elements, depth, more, cf);
      if elements != [] && depth <= STACK_LIMIT {
        ReadElements(elements, depth, [], more, cf);
        assert [] + Meanings(elements, cf) == Meanings(elements, cf);
      }
    case Record(space, entries) =>
      RecordFront(space, entries, depth, more, cf);
      if entries != [] && depth <= STACK_LIMIT {
        ReadEntries(entries, depth, [], [], more, cf);
      }
  }

  lemma ListFront(space: Bytes, elements: seq<Element>, depth: nat, more: Bytes, cf: Config)
    requires Ws(space) && LegalElements(elements, cf)
    ensures ReadValue(Text(List(space, elements), more), depth, cf) ==
            if depth > STACK_LIMIT then TooDeep
            else if elements == [] then Done(Arr([]), more)
            else ReadItems(ElementsText(elements, "]" + more), depth, [], cf)
  {
    hide Tok, Scan, ReadItems, ReadMembers, Ws, SkipSpaces, Text, ElementsText;
    var inside := if elements == [] then space + ("]" + more) else ElementsText(elements, "]" + more);
    assert Text(List(space, elements), more) == "[" + inside by { ListText(space, elements, more); }
    TokPunctuation('[', inside);
    TokSkipSame("[" + inside);
    if elements == [] {
      WsSkipped(space, "]" + more);
      assert SkipSpaces("]" + more) == "]" + more by { NoSpace("]" + more); }
      assert ("]" + more)[1..] == more;
    } else {
      ElementsFront(elements, "]" + more, depth, cf);
    }
  }

  lemma ListText(space: Bytes, elements: seq<Element>, more: Bytes)
    ensures Text(List(space, elements), more)
              == "[" + if elements == [] then space + ("]" + more) else ElementsText(elements, "]" + more)
  {
  }

  lemma NoSpace(s: Bytes)
    requires s != [] && !IsSpace(s[0])
    ensures SkipSpaces(s) == s
  {
  }

  lemma ElementsCons(elements: seq<Element>, more: Bytes)
    requires elements != []
    ensures ElementsText(elements, more) ==
            var x := elements[0];
            x.before + Text(x.value, x.after + if |elements| == 1 then more
                                               else "," + ElementsText(elements[1..], more))
  {
    hide Text;
  }

  /** White space before the first element makes no difference, and no bracket closes the array at once. */
  lemma ElementsFront(elements: seq<Element>, more: Bytes, depth: nat, cf: Config)
    requires elements != [] && LegalElements(elements, cf)
    ensures var u := SkipSpaces(ElementsText(elements, more));
            && u != [] && u[0] != ']'
            && ReadItems(u, depth, [], cf) == ReadItems(ElementsText(elements, more), depth, [], cf)
  {
    hide Tok, ReadValue, Ws, SkipSpaces, Text, ElementsText;
    var x := elements[0];
    var t := Text(x.value, x.after + if |elements| == 1 then more else "," + ElementsText(elements[1..], more));
    var s := ElementsText(elements, more);
    ElementsCons(elements, more);
    Front(x.value, x.after + if |elements| == 1 then more else "," + ElementsText(elements[1..], more), cf);
    WsSkipped(x.before, t);
    NoSpace(t);
    WsRead(x.before, t, depth + 1, cf);
    SameItems(SkipSpaces(s), s, depth, cf);
  }

  lemma SameItems(s: Bytes, t: Bytes, depth: nat, cf: Config)
    requires ReadValue(s, depth + 1, cf) == ReadValue(t, depth + 1, cf)
    ensures ReadItems(s, depth, [], cf) == ReadItems(t, depth, [], cf)
  {
    hide ReadValue, Tok, TokSkip;
  }

  /** What follows an element or a member: a comma and the next ones, or the bracket that closes. */
  lemma ElementEnd(w: Bytes, c: Byte, more: Bytes)
    requires Ws(w) && (c == ',' || c == ']' || c == '}')
    ensures Follows(w + ([c] + more))
    ensures Tok(w + ([c] + more)) == Token(Punctuation(c), [c], more) == TokSkip(w + ([c] + more))
  {
    hide Tok, Ws;
    TokPunctuation(c, more);
    WsTok(w, [c] + more);
    FollowsWs(w, [c] + more);
  }

  lemma {:induction false} ReadElements(elements: seq<Element>, depth: nat, before: seq<Value>, more: Bytes, cf: Config)
    requires elements != [] && LegalElements(elements, cf) && depth <= STACK_LIMIT
    ensures ReadItems(ElementsText(elements, "]" + more), depth, before, cf)
              == Expected(Arr(before + Meanings(elements, cf)), NestingOfElements(elements), depth, more)
    decreases elements, 1
  {
    hide ReadValue, Tok, TokSkip, Ws, Legal, Text, ElementsText, Meaning, Nesting, Follows;
    var x, next := elements[0], elements[1..];
    var tail := if next == [] then "]" + more else "," + ElementsText(next, "]" + more);
    ElementsCons(elements, "]" + more);
    if next == [] {
      ElementEnd(x.after, ']', more);
    } else {
      ElementEnd(x.after, ',', ElementsText(next, "]" + more));
    }
    Front(x.value, x.after + tail, cf);
    WsRead(x.before, Text(x.value, x.after + tail), depth + 1, cf);
    ReadText(x.value, depth + 1, x.after + tail, cf);
    var v := Meaning(x.value, cf);
    if next != [] {
      ReadElements(next, depth, before + [v], more, cf);
      assert before + [v] + Meanings(next, cf) == before + ([v] + Meanings(next, cf));
    } else {
      assert Meanings(elements, cf) == [v];
    }
  }

  lemma RecordText(space: Bytes, entries: seq<Entry>, more: Bytes)
    ensures Text(Record(space, entries), more)
              == "{" + if entries == [] then space + ("}" + more) else EntriesText(entries, "}" + more)
  {
  }

  lemma RecordFront(space: Bytes, entries: seq<Entry>, depth: nat, more: Bytes, cf: Config)
    requires Ws(space)
    ensures ReadValue(Text(Record(space, entries), more), depth, cf) ==
            if depth > STACK_LIMIT then TooDeep
            else if entries == [] then Done(Obj([]), more)
            else ReadMembers(EntriesText(entries, "}" + more), depth, [], [], cf)
  {
    hide Tok, ReadItems, Ws, SkipSpaces, Text, EntriesText, EntryValue;
    var inside := if entries == [] then space + ("}" + more) else EntriesText(entries, "}" + more);
    assert Text(Record(space, entries), more) == "{" + inside by { RecordText(space, entries, more); }
    TokPunctuation('{', inside);
    TokSkipSame("{" + inside);
    if entries == [] {
      ElementEnd(space, '}', more);
    }
  }

  lemma EntriesCons(entries: seq<Entry>, more: Bytes)
    requires entries != []
    ensures EntriesText(entries, more) ==
            EntryText(entries[0], if |entries| == 1 then more else "," + EntriesText(entries[1..], more))
  {
    hide EntryText;
  }

  /** The name of an entry, and the value behind the colon. */
  lemma EntryRead(x: Entry, depth: nat, more: Bytes, cf: Config)
    requires Ws(x.before) && LegalPieces(x.name) && Ws(x.after) && Ws(x.element.before) && Legal(x.element.value, cf)
    ensures var t := TokSkip(EntryText(x, more));
            && t.kind == StringToken && NameOf(t, cf) == Some(Spoken(x.name))
            && EntryValue(t.rest, depth, cf)
               == ReadValue(Text(x.element.value, x.element.after + more), depth + 1, cf)
  {
    hide Tok, TokSkip, ReadValue, Ws, Text, PiecesText, LegalPieces, Spoken, StringValue, Legal;
    var value := Text(x.element.value, x.element.after + more);
    var tail := x.element.before + value;
    var colon := x.after + (":" + tail);
    LettersToken(x.name, colon);
    WsTok(x.before, "\"" + PiecesText(x.name, "\"" + colon));
    TokPunctuation(':', tail);
    WsTok(x.after, ":" + tail);
    Front(x.element.value, x.element.after + more, cf);
    WsRead(x.element.before, value, depth + 1, cf);
  }

  lemma {:induction false} ReadEntries(entries: seq<Entry>, depth: nat, before: seq<Member>, name: Bytes, more: Bytes,
                                       cf: Config)
    requires entries != [] && LegalEntries(entries, cf) && depth <= STACK_LIMIT
    ensures ReadMembers(EntriesText(entries, "}" + more), depth, before, name, cf)
              == Expected(Obj(Collected(before, entries, cf)), NestingOfEntries(entries), depth, more)
    decreases entries, 1
  {
    hide ReadValue, EntryValue, Tok, TokSkip, Ws, Legal, LegalPieces, Spoken, Text, EntryText, EntriesText, Meaning;
    hide Nesting, Put, Follows, NameOf;
    var x, next := entries[0], entries[1..];
    var tail := if next == [] then "}" + more else "," + EntriesText(next, "}" + more);
    EntriesCons(entries, "}" + more);
    if next == [] {
      ElementEnd(x.element.after, '}', more);
    } else {
      ElementEnd(x.element.after, ',', EntriesText(next, "}" + more));
    }
    EntryRead(x, depth, tail, cf);
    ReadText(x.element.value, depth + 1, x.element.after + tail, cf);
    var now := Put(before, Spoken(x.name), Meaning(x.element.value, cf));
    if next != [] {
      ReadEntries(next, depth, now, Spoken(x.name), more, cf);
    } else {
      assert Collected(now, next, cf) == now;
    }
  }

  /** No other byte is white space for the reader. */
  lemma NoOtherSpace(c: Byte)
    ensures IsSpace(c) <==> c as int in {9, 10, 13, 32}
  {
  }

  /** A byte that begins no text of the RFC, no comment and no dropped null is refused where a value should be. */
  lemma OtherFronts(w: Bytes, c: Byte, rest: Bytes, depth: nat, cf: Config)
    requires Ws(w) && depth <= 1000 && c as int !in {9, 10, 13, 32} && c !in {'"', '{', '[', '-', 't', 'f', 'n', '/'}
    requires c !in {',', ']', '}'} && (c < '0' || '9' < c)
    ensures ReadValue(w + ([c] + rest), depth, cf) == Failed
  {
    hide Tok, Ws, ReadItems, ReadMembers;
    OtherToken(c, rest);
    WsTok(w, [c] + rest);
  }

  lemma OtherToken(c: Byte, rest: Bytes)
    requires c as int !in {9, 10, 13, 32} && c !in {'"', '{', '[', '-', 't', 'f', 'n', '/', ',', ']', '}'}
    requires c < '0' || '9' < c
    ensures Tok([c] + rest).kind in {EndOfStream, MemberSeparator, Kind.Error}
  {
    hide StringEnd, NumberLength, CommentEnd;
    assert SkipSpaces([c] + rest) == [c] + rest;
  }

  /**
   * Every text of the RFC, with white space on either side, is accepted as the value that it denotes; it fails exactly
   * if values are nested beyond 1000, or for a scalar under strictRoot.
   */
  lemma AcceptsRfc(before: Bytes, j: Json, after: Bytes, cf: Config)
    requires Ws(before) && Legal(j, cf) && Ws(after)
    ensures ParseDocument(before + Text(j, after), cf) ==
            if 1 + Nesting(j) > 1000 then TooDeep
            else if cf.strictRoot && !j.List? && !j.Record? then Failed
            else Done(Meaning(j, cf), after)
  {
    hide ReadValue, Text, Ws, Tok;
    assert Follows(after) by {
      FollowsWs(after, []);
      assert after + [] == after;
    }
    Front(j, after, cf);
    WsRead(before, Text(j, after), 1, cf);
    ReadText(j, 1, after, cf);
  }
}
