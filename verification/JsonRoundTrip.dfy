/** Reading what FastWriter writes: the reader of json_reader.cpp is the inverse of the writer of json_writer.cpp. */
module JsonRoundTrip {
  import opened Prelude
  import opened JsonString
  import opened JsonNumber
  import opened JsonValue
  import opened JsonGrammar
  import opened JsonFastWriter

  /** No doubles, integers of 64 bits, well-formed UTF-8, and members in order. */
  predicate Clean(v: Value)
    decreases v
  {
    match v
    case Int(i) => MIN_INT <= i <= -MIN_INT - 1
    case UInt(u) => u <= MAX_UINT
    case Real(_) => false
    case Str(s) => WellFormed(s)
    case Arr(items) => forall x <- items :: Clean(x)
    case Obj(members) => Ascending(members) && forall m <- members :: WellFormed(m.name) && Clean(m.value)
    case _ => true
  }

  /** The number n under the tag that the reader gives it. */
  function Number(n: int): Value
  {
    if n <= MAX_INT then Int(n) else UInt(n)
  }

  /** The same value, with the tags of its integers as the reader chooses them. */
  function Retagged(v: Value): Value
    decreases v, 0
  {
    match v
    case Int(i) => Number(i)
    case UInt(u) => Number(u)
    case Arr(items) => Arr(RetaggedItems(items))
    case Obj(members) => Obj(RetaggedMembers(members))
    case _ => v
  }

  function RetaggedItems(items: seq<Value>): seq<Value>
    decreases items, 1
  {
    if items == [] then [] else [Retagged(items[0])] + RetaggedItems(items[1..])
  }

  function RetaggedMembers(members: seq<Member>): seq<Member>
    decreases members, 1
  {
    if members == [] then [] else [Member(members[0].name, Retagged(members[0].value))] + RetaggedMembers(members[1..])
  }

  /** How many values are under construction above a value while its deepest part is read. */
  function Height(v: Value): nat
    decreases v, 0
  {
    match v
    case Arr(items) => HeightOfItems(items)
    case Obj(members) => HeightOfMembers(members)
    case _ => 0
  }

  function HeightOfItems(items: seq<Value>): nat
    decreases items, 1
  {
    if items == [] then 0 else Max(1 + Height(items[0]), HeightOfItems(items[1..]))
  }

  function HeightOfMembers(members: seq<Member>): nat
    decreases members, 1
  {
    if members == [] then 0 else Max(1 + Height(members[0].value), HeightOfMembers(members[1..]))
  }

  // ---------- Tokens ----------

  /** What may follow a value. */
  predicate Closes(rest: Bytes)
  {
    rest == [] || rest[0] == ',' || rest[0] == ']' || rest[0] == '}' || rest[0] == '\n'
  }

  lemma TokSkipSame(s: Bytes)
    requires Tok(s).kind != Comment
    ensures TokSkip(s) == Tok(s)
  {
  }

  /** The token of a text that starts with no space. */
  lemma TokScan(text: Bytes, rest: Bytes, kind: Kind)
    requires text != [] && !IsSpace(text[0]) && Scan(text + rest) == (kind, |text|)
    ensures Tok(text + rest) == Token(kind, text, rest)
  {
    hide Scan;
    var s := text + rest;
    assert SkipSpaces(s) == s;
    assert s[..|text|] == text && s[|text|..] == rest;
  }

  function Punctuation(c: Byte): Kind
  {
    if c == '{' then ObjectBegin
    else if c == '}' then ObjectEnd
    else if c == '[' then ArrayBegin
    else if c == ']' then ArrayEnd
    else if c == ',' then ArraySeparator
    else if c == ':' then MemberSeparator
    else Error
  }

  lemma TokPunctuation(c: Byte, rest: Bytes)
    requires Punctuation(c) != Error
    ensures Tok([c] + rest) == Token(Punctuation(c), [c], rest)
  {
    TokScan([c], rest, Punctuation(c));
  }

  lemma TokWord(word: Bytes, rest: Bytes)
    requires word == "true" || word == "false" || word == "null"
    ensures Tok(word + rest)
              == Token(if word == "true" then TrueToken else if word == "false" then FalseToken else NullToken, word,
                       rest)
  {
    var s := word + rest;
    assert s[1..][..|word| - 1] == word[1..];
    TokScan(word, rest, if word == "true" then TrueToken else if word == "false" then FalseToken else NullToken);
  }

  lemma TokString(x: Bytes, rest: Bytes)
    ensures Tok(Quoted(x, false) + rest) == Token(StringToken, Quoted(x, false), rest)
  {
    hide StringEnd, Escaped;
    var e := Escaped(x, false);
    ScanEscaped(x, false, rest);
    assert (Quoted(x, false) + rest)[1..] == e + ("\"" + rest);
    TokScan(Quoted(x, false), rest, StringToken);
  }

  lemma {:induction false} DigitsRun(d: Bytes, rest: Bytes)
    requires AllDigits(d) && (rest == [] || !IsDigit(rest[0]))
    ensures LeadingDigitCount(d + rest) == |d|
  {
    if d == [] {
      assert d + rest == rest;
    } else {
      assert d == [d[0]] + d[1..] && (d + rest)[1..] == d[1..] + rest;
      DigitsRun(d[1..], rest);
    }
  }

  lemma NumberRun(d: Bytes, rest: Bytes)
    requires AllDigits(d) && Closes(rest)
    ensures NumberLength(d + rest) == |d|
  {
    DigitsRun(d, rest);
    assert (d + rest)[|d|..] == rest;
  }

  lemma TokNumber(n: int, rest: Bytes)
    requires Closes(rest)
    ensures Tok(ShowInt(n) + rest) == Token(NumberToken, ShowInt(n), rest)
  {
    hide NumberLength;
    var text := ShowInt(n);
    var d := if n < 0 then Digits(-n) else Digits(n)[1..];
    assert text == [text[0]] + d;
    assert n >= 0 ==> IsDigit(text[0]) && forall c <- d :: c in text;
    assert (text + rest)[1..] == d + rest;
    NumberRun(d, rest);
    TokScan(text, rest, NumberToken);
  }

  // ---------- Values ----------

  /** Reading succeeds exactly within the stack limit. */
  function Expected(v: Value, height: nat, depth: nat, rest: Bytes): Parse
  {
    if depth + height <= STACK_LIMIT then Done(v, rest) else TooDeep
  }

  function FirstToken(s: Bytes, cf: Config): Token
  {
    if cf.allowComments then TokSkip(s) else Tok(s)
  }

  lemma ReadScalarToken(s: Bytes, t: Token, depth: nat, v: Value, cf: Config)
    requires Tok(s) == t && t.kind != Comment && t.kind != ObjectBegin && t.kind != ArrayBegin && !IsSeparator(t.kind)
    requires (t.kind == StringToken ==> |t.text| >= 2) && ScalarOf(t, cf) == Some(v)
    ensures ReadValue(s, depth, cf) == Expected(v, 0, depth, t.rest)
  {
    hide Tok, ScalarOf;
    TokSkipSame(s);
  }

  lemma StringBack(x: Bytes)
    requires WellFormed(x)
    ensures StringValue(Quoted(x, false)) == Some(x)
  {
    hide Decoded, Escaped, WellFormed;
    assert Quoted(x, false)[1..|Quoted(x, false)| - 1] == Escaped(x, false);
    QuoteThenDecode(x);
  }

  lemma ReadNumberBack(n: int, depth: nat, rest: Bytes, cf: Config)
    requires MIN_INT <= n <= MAX_UINT && Closes(rest)
    ensures ReadValue(ShowInt(n) + rest, depth, cf) == Expected(Number(n), 0, depth, rest)
  {
    hide Tok, IntegerOf, ShowInt;
    TokNumber(n, rest);
    ShowThenDecode(n);
    ReadScalarToken(ShowInt(n) + rest, Token(NumberToken, ShowInt(n), rest), depth, Number(n), cf);
  }

  lemma ReadStringBack(x: Bytes, depth: nat, rest: Bytes, cf: Config)
    requires WellFormed(x)
    ensures ReadValue(Quoted(x, false) + rest, depth, cf) == Expected(Str(x), 0, depth, rest)
  {
    hide Tok, Escaped, StringValue, WellFormed;
    TokString(x, rest);
    StringBack(x);
    ReadScalarToken(Quoted(x, false) + rest, Token(StringToken, Quoted(x, false), rest), depth, Str(x), cf);
  }

  lemma ReadWordBack(word: Bytes, v: Value, depth: nat, rest: Bytes, cf: Config)
    requires (word == "true" && v == Bool(true)) || (word == "false" && v == Bool(false))
               || (word == "null" && v == Null)
    ensures ReadValue(word + rest, depth, cf) == Expected(v, 0, depth, rest)
  {
    hide Tok;
    TokWord(word, rest);
    ReadScalarToken(word + rest, Tok(word + rest), depth, v, cf);
  }

  /** A value is written as something that starts with neither a space nor a closing bracket. */
  lemma FastFront(v: Value, st: Style)
    requires Clean(v) && !st.dropNull
    ensures var s := Fast(v, st); s != [] && !IsSpace(s[0]) && s[0] != ']'
  {
    match v
    case Int(i) => assert i >= 0 ==> IsDigit(Digits(i)[0]);
    case UInt(u) => assert IsDigit(Digits(u)[0]);
    case _ =>
  }

  lemma {:induction false} RoundTrip(v: Value, depth: nat, rest: Bytes, cf: Config, st: Style)
    requires Clean(v) && Closes(rest) && !st.dropNull
    ensures ReadValue(Fast(v, st) + rest, depth, cf) == Expected(Retagged(v), Height(v), depth, rest)
    decreases v, 0
  {
    hide ReadValue, ReadItems, ReadMembers, Quoted, ShowInt, Tok, TokSkip, WellFormed;
    match v
    case Null => ReadWordBack("null", Null, depth, rest, cf);
    case Bool(b) => ReadWordBack(ShowBool(b), Bool(b), depth, rest, cf);
    case Int(i) => ReadNumberBack(i, depth, rest, cf);
    case UInt(u) => ReadNumberBack(u, depth, rest, cf);
    case Real(_) =>
    case Str(x) => ReadStringBack(x, depth, rest, cf);
    case Arr(items) =>
      ArrayFront(items, depth, rest, cf, st);
      if items != [] && depth <= STACK_LIMIT {
        RoundTripItems(items, depth, [], rest, cf, st);
        assert [] + RetaggedItems(items) == RetaggedItems(items);
      }
    case Obj(members) =>
      ObjectFront(members, depth, rest, cf, st);
      if members != [] && depth <= STACK_LIMIT {
        assert [] + members == members;
        RoundTripMembers(members, depth, [], [], rest, cf, st);
        assert [] + RetaggedMembers(members) == RetaggedMembers(members);
      }
  }

  /** The text of elements, from the first of them to the end of the array. */
  function ItemsText(items: seq<Value>, rest: Bytes, st: Style): Bytes
    requires items != []
  {
    Fast(items[0], st) + (FastItems(items[1..], false, st) + "]" + rest)
  }

  lemma ArrayFront(items: seq<Value>, depth: nat, rest: Bytes, cf: Config, st: Style)
    requires Clean(Arr(items)) && !st.dropNull
    ensures ReadValue(Fast(Arr(items), st) + rest, depth, cf) ==
      if depth > STACK_LIMIT then TooDeep
      else if items == [] then Done(Arr([]), rest)
      else ReadItems(ItemsText(items, rest, st), depth, [], cf)
  {
    hide Tok, ReadItems, WellFormed;
    var more := FastItems(items, true, st) + "]" + rest;
    assert Fast(Arr(items), st) + rest == "[" + more;
    TokPunctuation('[', more);
    TokSkipSame("[" + more);
    if items == [] {
      assert more == "]" + rest;
    } else {
      FastFront(items[0], st);
      assert more == ItemsText(items, rest, st) by { ItemsTextAll(items, rest, st); }
    }
  }

  lemma Regroup(a: Bytes, b: Bytes, c: Bytes, d: Bytes, e: Bytes)
    ensures a + b + c + d + e == a + (b + (c + d + e))
  {
    assert a + b + c + d + e == a + (b + (c + d + e));
  }

  lemma ItemsTextAll(items: seq<Value>, rest: Bytes, st: Style)
    requires items != []
    ensures FastItems(items, true, st) + "]" + rest == ItemsText(items, rest, st)
    ensures FastItems(items, false, st) + "]" + rest == "," + ItemsText(items, rest, st)
  {
    hide Fast;
    var x, y := Fast(items[0], st), FastItems(items[1..], false, st);
    assert FastItems(items, true, st) == [] + x + y;
    assert FastItems(items, false, st) == "," + x + y;
    Regroup([], x, y, "]", rest);
    Regroup(",", x, y, "]", rest);
    assert [] + (x + (y + "]" + rest)) == x + (y + "]" + rest);
  }

  lemma {:induction false} RoundTripItems(items: seq<Value>, depth: nat, before: seq<Value>, rest: Bytes, cf: Config,
                                          st: Style)
    requires items != [] && (forall x <- items :: Clean(x)) && !st.dropNull && depth <= STACK_LIMIT
    ensures ReadItems(ItemsText(items, rest, st), depth, before, cf)
      == Expected(Arr(before + RetaggedItems(items)), HeightOfItems(items), depth, rest)
    decreases items, 1
  {
    hide ReadValue, Tok, Fast, Retagged, Clean, Height;
    var more := items[1..];
    var tail := FastItems(more, false, st) + "]" + rest;
    if more == [] {
      assert tail == "]" + rest;
      TokPunctuation(']', rest);
    } else {
      ItemsTextAll(more, rest, st);
      TokPunctuation(',', ItemsText(more, rest, st));
    }
    TokSkipSame(tail);
    RoundTrip(items[0], depth + 1, tail, cf, st);
    if more != [] {
      RoundTripItems(more, depth, before + [Retagged(items[0])], rest, cf, st);
      assert before + [Retagged(items[0])] + RetaggedItems(more)
          == before + ([Retagged(items[0])] + RetaggedItems(more));
    } else {
      assert RetaggedItems(items) == [Retagged(items[0])];
    }
  }

  /** The text of members, from the first of them to the end of the object. */
  function MembersText(members: seq<Member>, rest: Bytes, st: Style): Bytes
    requires members != []
  {
    FastMember(members[0], st) + (FastMembers(members[1..], false, st) + "}" + rest)
  }

  lemma MembersTextAll(members: seq<Member>, rest: Bytes, st: Style)
    requires members != []
    ensures FastMembers(members, true, st) + "}" + rest == MembersText(members, rest, st)
    ensures FastMembers(members, false, st) + "}" + rest == "," + MembersText(members, rest, st)
  {
    hide FastMember;
    var x, y := FastMember(members[0], st), FastMembers(members[1..], false, st);
    assert FastMembers(members, true, st) == [] + x + y;
    assert FastMembers(members, false, st) == "," + x + y;
    Regroup([], x, y, "}", rest);
    Regroup(",", x, y, "}", rest);
    assert [] + (x + (y + "}" + rest)) == x + (y + "}" + rest);
  }

  /** What follows a member: a comma and the other members, or the end of the object. */
  lemma MembersTail(members: seq<Member>, rest: Bytes, st: Style)
    ensures var tail := FastMembers(members, false, st) + "}" + rest;
      && Closes(tail) && TokSkip(tail) == Tok(tail)
      && Tok(tail) == if members == [] then Token(ObjectEnd, "}", rest)
          else Token(ArraySeparator, ",", MembersText(members, rest, st))
  {
    hide Tok, FastMember, MembersText;
    var tail := FastMembers(members, false, st) + "}" + rest;
    if members == [] {
      assert tail == "}" + rest;
      TokPunctuation('}', rest);
    } else {
      MembersTextAll(members, rest, st);
      TokPunctuation(',', MembersText(members, rest, st));
    }
    TokSkipSame(tail);
  }

  lemma ObjectFront(members: seq<Member>, depth: nat, rest: Bytes, cf: Config, st: Style)
    ensures ReadValue(Fast(Obj(members), st) + rest, depth, cf) ==
      if depth > STACK_LIMIT then TooDeep
      else if members == [] then Done(Obj([]), rest)
      else ReadMembers(MembersText(members, rest, st), depth, [], [], cf)
  {
    hide Tok, ReadItems;
    var more := FastMembers(members, true, st) + "}" + rest;
    assert Fast(Obj(members), st) + rest == "{" + more;
    TokPunctuation('{', more);
    TokSkipSame("{" + more);
    if members == [] {
      assert more == "}" + rest;
      TokPunctuation('}', rest);
      TokSkipSame(more);
    } else {
      MembersTextAll(members, rest, st);
    }
  }

  /** A space before a value makes no difference. */
  lemma SpaceBefore(s: Bytes, depth: nat, cf: Config)
    ensures ReadValue(" " + s, depth, cf) == ReadValue(s, depth, cf)
  {
    hide Scan, ReadItems, ReadMembers, ScalarOf;
    var u := " " + s;
    assert u[1..] == s;
    assert SkipSpaces(u) == SkipSpaces(s);
    assert Tok(u) == Tok(s) && TokSkip(u) == TokSkip(s);
    var t := FirstToken(s, cf);
    if IsSeparator(t.kind) {
      assert u[|u| - |t.rest| - 1..] == s[|s| - |t.rest| - 1..];
    }
  }

  lemma EntryBack(m: Member, depth: nat, rest: Bytes, cf: Config, st: Style)
    ensures var t := (if st.yamlCompatibility then ": " else ":") + Fast(m.value, st) + rest;
      EntryValue(t, depth, cf) == ReadValue(Fast(m.value, st) + rest, depth + 1, cf)
  {
    hide Tok, ReadValue, Fast;
    var text := Fast(m.value, st) + rest;
    var after := if st.yamlCompatibility then " " + text else text;
    var t := (if st.yamlCompatibility then ": " else ":") + Fast(m.value, st) + rest;
    assert t == ":" + after;
    TokPunctuation(':', after);
    SpaceBefore(text, depth + 1, cf);
  }

  /** The first member of the text is read as it was written. */
  lemma NameBack(m: Member, more: Bytes, cf: Config, st: Style)
    requires WellFormed(m.name)
    ensures var s := FastMember(m, st) + more;
      var t := TokSkip(s);
      && t.kind == StringToken && NameOf(t, cf) == Some(m.name)
      && t.rest == (if st.yamlCompatibility then ": " else ":") + Fast(m.value, st) + more
  {
    hide Tok, Fast, Quoted, StringValue, WellFormed;
    var tail := (if st.yamlCompatibility then ": " else ":") + Fast(m.value, st) + more;
    var s := FastMember(m, st) + more;
    assert s == Quoted(m.name, false) + tail;
    TokString(m.name, tail);
    TokSkipSame(s);
    StringBack(m.name);
  }

  /** Members in order stay in order when one of them is put and the next follow. */
  lemma PutNext(before: seq<Member>, members: seq<Member>, v: Value)
    requires members != [] && Ascending(before + members)
    ensures var now := before + [Member(members[0].name, v)];
      Put(before, members[0].name, v) == now && Ascending(now + members[1..])
  {
    var name := members[0].name;
    var all, now := before + members, before + [Member(name, v)];
    forall i | 0 < i < |now|
      ensures Less(now[i - 1].name, now[i].name)
    {
      assert now[i].name == all[i].name && now[i - 1].name == all[i - 1].name;
    }
    PutLast(before, name, v);
    var after := now + members[1..];
    forall i | 0 < i < |after|
      ensures Less(after[i - 1].name, after[i].name)
    {
      assert after[i].name == all[i].name && after[i - 1].name == all[i - 1].name;
    }
  }

  lemma {:induction false} RoundTripMembers(members: seq<Member>, depth: nat, before: seq<Member>, name: Bytes,
                                            rest: Bytes, cf: Config, st: Style)
    requires members != [] && (forall m <- members :: WellFormed(m.name) && Clean(m.value)) && !st.dropNull
    requires depth <= STACK_LIMIT
    requires Ascending(before + members)
    ensures ReadMembers(MembersText(members, rest, st), depth, before, name, cf)
      == Expected(Obj(before + RetaggedMembers(members)), HeightOfMembers(members), depth, rest)
    decreases members, 1
  {
    hide EntryValue, ReadValue, Tok, Fast, FastMember, Retagged, Clean, Height, Put, Ascending, WellFormed, NameOf;
    var m, more := members[0], members[1..];
    var tail := FastMembers(more, false, st) + "}" + rest;
    MembersTail(more, rest, st);
    NameBack(m, tail, cf, st);
    EntryBack(m, depth, tail, cf, st);
    RoundTrip(m.value, depth + 1, tail, cf, st);
    var v := Retagged(m.value);
    PutNext(before, members, v);
    var now := before + [Member(m.name, v)];
    if more != [] {
      RoundTripMembers(more, depth, now, m.name, rest, cf, st);
      assert now + RetaggedMembers(more) == before + ([Member(m.name, v)] + RetaggedMembers(more));
    } else {
      assert RetaggedMembers(members) == [Member(m.name, v)];
    }
  }

  // ---------- Documents ----------

  /**
   * Parsing what FastWriter writes gives the value back, but for the tags of its integers, exactly within the stack
   * limit.
   */
  lemma WriteThenParse(v: Value, cf: Config, st: Style)
    requires Clean(v) && !st.dropNull
    ensures var end := if st.omitLineFeed then [] else "\n";
      ParseDocument(Fast(v, st) + end, cf) ==
        if 1 + Height(v) > 1000 then TooDeep
        else if cf.strictRoot && !v.Arr? && !v.Obj? then Failed
        else Done(Retagged(v), end)
  {
    hide ReadValue, Fast;
    RoundTrip(v, 1, if st.omitLineFeed then [] else "\n", cf, st);
  }

  /** What the reader gives back is written as the same text. */
  lemma {:induction false} RetaggedPrintsAlike(v: Value, st: Style)
    ensures Fast(Retagged(v), st) == Fast(v, st)
    decreases v, 0
  {
    match v
    case Arr(items) => RetaggedItemsPrintAlike(items, true, st);
    case Obj(members) => RetaggedMembersPrintAlike(members, true, st);
    case _ =>
  }

  lemma {:induction false} RetaggedItemsPrintAlike(items: seq<Value>, first: bool, st: Style)
    ensures FastItems(RetaggedItems(items), first, st) == FastItems(items, first, st)
    decreases items, 1
  {
    if items != [] {
      RetaggedPrintsAlike(items[0], st);
      RetaggedItemsPrintAlike(items[1..], false, st);
      assert RetaggedItems(items)[1..] == RetaggedItems(items[1..]);
    }
  }

  lemma {:induction false} RetaggedMembersPrintAlike(members: seq<Member>, first: bool, st: Style)
    ensures FastMembers(RetaggedMembers(members), first, st) == FastMembers(members, first, st)
    decreases members, 1
  {
    if members != [] {
      RetaggedPrintsAlike(members[0].value, st);
      RetaggedMembersPrintAlike(members[1..], false, st);
      assert RetaggedMembers(members)[1..] == RetaggedMembers(members[1..]);
    }
  }
}
