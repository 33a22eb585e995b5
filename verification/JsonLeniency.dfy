/**
 * Where the reader of json_reader.cpp takes texts that it should refuse: ends of comments, and commas behind
 * members.
 */
module JsonLeniency {
  import opened Prelude
  import opened JsonString
  import opened JsonValue
  import opened JsonNumber
  import opened JsonGrammar
  import opened JsonRoundTrip
  import opened JsonRfc

  // ---------- Ends of comments ----------

  /**
   * Behind its opening, a C-style comment ends at the first star followed by a slash; without one it still counts
   * as ended, at the end of the text, exactly if a slash ends the text.
   */
  lemma {:induction false} CStyleCommentEnds(u: Bytes)
    ensures CStyleComment(u).0 <==> (exists i :: 0 <= i < |u| - 1 && u[i] == '*' && u[i + 1] == '/')
                                    || (u != [] && u[|u| - 1] == '/')
    ensures var n := CStyleComment(u).1;
            if n >= 2 && u[n - 2] == '*' && u[n - 1] == '/'
            then forall i :: 0 <= i < n - 2 ==> !(u[i] == '*' && u[i + 1] == '/')
            else n == |u| && forall i :: 0 <= i < n - 1 ==> !(u[i] == '*' && u[i + 1] == '/')
  {
    if |u| > 1 && !(u[0] == '*' && u[1] == '/') {
      var rest := u[1..];
      CStyleCommentEnds(rest);
      assert forall i :: 0 <= i < |rest| ==> rest[i] == u[i + 1];
      if i :| 0 <= i < |u| - 1 && u[i] == '*' && u[i + 1] == '/' {
        assert rest[i - 1] == '*' && rest[i - 1 + 1] == '/';
      }
    }
  }

  /** One slash opens and closes this comment. */
  lemma SlashEndsComment()
    ensures Tok("/*/") == Token(Comment, "/*/", [])
  {
    assert "/*/"[1..] == "*/" && "*/"[1..] == "/";
    assert CStyleComment("/") == (true, 1);
    assert CommentEnd("*/") == (true, 2);
    assert Scan("/*/") == (Comment, 3);
  }

  // ---------- Commas behind members ----------

  /** readValue, were it to insist on a comma or a closing brace behind each member. */
  function StrictValue(s: Bytes, depth: nat, cf: Config): (r: Parse)
    ensures r.Done? ==> |r.rest| <= |s|
    decreases |s|, 0
  {
    if depth > STACK_LIMIT then TooDeep
    else
      var t := if cf.allowComments then TokSkip(s) else Tok(s);
      if t.kind == ObjectBegin then StrictMembers(t.rest, depth, [], [], cf)
      else if t.kind == ArrayBegin then
        var u := SkipSpaces(t.rest);
        if u != [] && u[0] == ']' then Done(Arr([]), u[1..]) else StrictItems(u, depth, [], cf)
      else ReadValue(s, depth, cf)
  }

  function StrictItems(s: Bytes, depth: nat, items: seq<Value>, cf: Config): (r: Parse)
    ensures r.Done? ==> |r.rest| <= |s|
    decreases |s|, 1
  {
    var v := StrictValue(s, depth + 1, cf);
    if !v.Done? then v
    else
      var t := TokSkip(v.rest);
      if t.kind == ArrayEnd then Done(Arr(items + [v.value]), t.rest)
      else if t.kind == ArraySeparator then StrictItems(t.rest, depth, items + [v.value], cf)
      else Failed
  }

  function StrictEntry(s: Bytes, depth: nat, cf: Config): (r: Parse)
    ensures r.Done? ==> |r.rest| <= |s|
    decreases |s|, 1
  {
    var colon := Tok(s);
    if colon.kind != MemberSeparator then Failed else StrictValue(colon.rest, depth + 1, cf)
  }

  function StrictMembers(s: Bytes, depth: nat, members: seq<Member>, name: Bytes, cf: Config): (r: Parse)
    ensures r.Done? ==> |r.rest| <= |s|
    decreases |s|, 2
  {
    var t := TokSkip(s);
    if t.kind == ObjectEnd && name == [] then Done(Obj(members), t.rest)
    else
      match NameOf(t, cf)
      case None => Failed
      case Some(key) =>
        var v := StrictEntry(t.rest, depth, cf);
        if !v.Done? then v
        else
          var now, after := Put(members, key, v.value), TokSkip(v.rest);
          if after.kind == ObjectEnd then Done(Obj(now), after.rest)
          else if after.kind == ArraySeparator then StrictMembers(after.rest, depth, now, key, cf)
          else Failed
  }

  /** Comments stand here, and what follows them is neither a comma nor a closing brace. */
  predicate Gap(s: Bytes)
  {
    Tok(s).kind == Comment && TokSkip(s).kind != ObjectEnd && TokSkip(s).kind != ArraySeparator
  }

  /** The reader, at work on a value, comes to a gap behind a member. */
  predicate ValueGap(s: Bytes, depth: nat, cf: Config)
    decreases |s|, 0
  {
    depth <= STACK_LIMIT &&
    var t := if cf.allowComments then TokSkip(s) else Tok(s);
    if t.kind == ObjectBegin then MembersGap(t.rest, depth, [], [], cf)
    else if t.kind == ArrayBegin then
      var u := SkipSpaces(t.rest);
      !(u != [] && u[0] == ']') && ItemsGap(u, depth, [], cf)
    else false
  }

  predicate ItemsGap(s: Bytes, depth: nat, items: seq<Value>, cf: Config)
    decreases |s|, 1
  {
    ValueGap(s, depth + 1, cf) ||
    var v := ReadValue(s, depth + 1, cf);
    v.Done? &&
    var t := TokSkip(v.rest);
    t.kind == ArraySeparator && ItemsGap(t.rest, depth, items + [v.value], cf)
  }

  predicate EntryGap(s: Bytes, depth: nat, cf: Config)
    decreases |s|, 1
  {
    Tok(s).kind == MemberSeparator && ValueGap(Tok(s).rest, depth + 1, cf)
  }

  predicate MembersGap(s: Bytes, depth: nat, members: seq<Member>, name: Bytes, cf: Config)
    decreases |s|, 2
  {
    var t := TokSkip(s);
    !(t.kind == ObjectEnd && name == []) && NameOf(t, cf).Some? &&
    (EntryGap(t.rest, depth, cf) ||
     var v := EntryValue(t.rest, depth, cf);
     v.Done? &&
     (Gap(v.rest) ||
      var after := TokSkip(v.rest);
      var key := NameOf(t, cf).value;
      after.kind == ArraySeparator && MembersGap(after.rest, depth, Put(members, key, v.value), key, cf)))
  }

  lemma {:induction false} ValueWithGaps(s: Bytes, depth: nat, cf: Config)
    ensures StrictValue(s, depth, cf) == if ValueGap(s, depth, cf) then Failed else ReadValue(s, depth, cf)
    decreases |s|, 0
  {
    if depth <= STACK_LIMIT {
      var t := if cf.allowComments then TokSkip(s) else Tok(s);
      if t.kind == ObjectBegin {
        MembersWithGaps(t.rest, depth, [], [], cf);
      } else if t.kind == ArrayBegin {
        ItemsWithGaps(SkipSpaces(t.rest), depth, [], cf);
      }
    }
  }

  lemma {:induction false} ItemsWithGaps(s: Bytes, depth: nat, items: seq<Value>, cf: Config)
    ensures StrictItems(s, depth, items, cf)
         == if ItemsGap(s, depth, items, cf) then Failed else ReadItems(s, depth, items, cf)
    decreases |s|, 1
  {
    ValueWithGaps(s, depth + 1, cf);
    var v := ReadValue(s, depth + 1, cf);
    if v.Done? && TokSkip(v.rest).kind == ArraySeparator {
      ItemsWithGaps(TokSkip(v.rest).rest, depth, items + [v.value], cf);
    }
  }

  lemma {:induction false} EntryWithGaps(s: Bytes, depth: nat, cf: Config)
    ensures StrictEntry(s, depth, cf) == if EntryGap(s, depth, cf) then Failed else EntryValue(s, depth, cf)
    decreases |s|, 1
  {
    if Tok(s).kind == MemberSeparator {
      ValueWithGaps(Tok(s).rest, depth + 1, cf);
    }
  }

  lemma SkipsNothing(s: Bytes)
    ensures Tok(s).kind != Comment ==> TokSkip(s) == Tok(s)
  {
  }

  lemma {:induction false} MembersWithGaps(s: Bytes, depth: nat, members: seq<Member>, name: Bytes, cf: Config)
    ensures StrictMembers(s, depth, members, name, cf)
         == if MembersGap(s, depth, members, name, cf) then Failed else ReadMembers(s, depth, members, name, cf)
    decreases |s|, 2
  {
    hide Tok, TokSkip, NameOf, Put;
    var t := TokSkip(s);
    if !(t.kind == ObjectEnd && name == []) && NameOf(t, cf).Some? {
      EntryWithGaps(t.rest, depth, cf);
      var v := EntryValue(t.rest, depth, cf);
      if v.Done? {
        SkipsNothing(v.rest);
        var after, key := TokSkip(v.rest), NameOf(t, cf).value;
        if after.kind == ArraySeparator {
          MembersWithGaps(after.rest, depth, Put(members, key, v.value), key, cf);
        }
      }
    }
  }

  /**
   * A document that the reader accepts would be accepted, with the same value, by a reader that insists on commas,
   * exactly unless somewhere behind a member comments are followed by neither a comma nor a closing brace.
   */
  lemma CommasInsisted(doc: Bytes, cf: Config)
    requires ReadValue(doc, 1, cf).Done?
    ensures StrictValue(doc, 1, cf) == ReadValue(doc, 1, cf) <==> !ValueGap(doc, 1, cf)
    ensures StrictValue(doc, 1, cf).Done? <==> !ValueGap(doc, 1, cf)
  {
    ValueWithGaps(doc, 1, cf);
  }

  lemma OneByteToken(c: Byte, s: Bytes, kind: Kind)
    requires (c, kind) in [(':', MemberSeparator), ('[', ArrayBegin), ('{', ObjectBegin), ('}', ObjectEnd)]
    ensures Tok([c] + s) == Token(kind, [c], s) && TokSkip([c] + s) == Tok([c] + s)
  {
    assert ([c] + s)[1..] == s;
  }

  lemma LetterToken(c: Byte, s: Bytes)
    requires 'a' <= c <= 'z'
    ensures var text := ['"', c, '"'];
              Tok(text + s) == Token(StringToken, text, s)
              && TokSkip(text + s) == Tok(text + s)
  {
    var text := ['"', c, '"'];
    var u := [c, '"'] + s;
    assert text + s == ['"'] + u && (text + s)[1..] == u;
    assert u[1..] == ['"'] + s && StringEnd(u[1..]) == Some(1);
  }

  lemma LetterName(c: Byte, s: Bytes, cf: Config)
    requires 'a' <= c <= 'z'
    ensures NameOf(Token(StringToken, ['"', c, '"'], s), cf) == Some([c])
  {
    var name: Bytes := [c];
    assert ['"', c, '"'][1..2] == name && name[1..] == [] && name + [] == name;
    assert Decoded(name) == Prepend(name, Decoded([]));
  }

  lemma EmptyArrayEntry(s: Bytes, depth: nat, cf: Config)
    requires depth < STACK_LIMIT
    ensures EntryValue(":[]" + s, depth, cf) == Done(Arr([]), s)
  {
    hide Tok, TokSkip, ReadItems, ReadMembers, ScalarOf;
    var t := "[]" + s;
    assert ":[]" + s == [':'] + t && t == ['['] + ("]" + s) && ("]" + s)[1..] == s;
    OneByteToken(':', t, MemberSeparator);
    OneByteToken('[', "]" + s, ArrayBegin);
  }

  lemma GapTokens(s: Bytes)
    ensures Tok("/**/:" + s).kind == Comment && TokSkip("/**/:" + s) == Token(MemberSeparator, ":", s)
  {
    var u := "/**/:" + s;
    EmptyComment([':'] + s);
    assert u == "/**/" + ([':'] + s);
    assert TokSkip(u) == TokSkip([':'] + s) by {
      hide Tok;
    }
    OneByteToken(':', s, MemberSeparator);
  }

  lemma EmptyComment(s: Bytes)
    ensures Tok("/**/" + s) == Token(Comment, "/**/", s)
  {
    var u := "/**/" + s;
    assert u[1..] == "**/" + s && u[1..][1..] == "*/" + s;
    assert CStyleComment("*/" + s) == (true, 2);
    assert u[4..] == s && u[..4] == "/**/";
  }

  /** An empty array as the member c, in front of text that does not fail at once. */
  lemma LetterMember(c: Byte, s: Bytes, depth: nat, members: seq<Member>, name: Bytes, cf: Config)
    requires 'a' <= c <= 'z' && depth < STACK_LIMIT
    requires Tok(s).kind == ObjectEnd || Tok(s).kind == ArraySeparator || Tok(s).kind == Comment
    ensures ReadMembers(['"', c, '"'] + (":[]" + s), depth, members, name, cf)
         == var now := Put(members, [c], Arr([]));
            if TokSkip(s).kind == ObjectEnd then Done(Obj(now), TokSkip(s).rest)
            else ReadMembers(TokSkip(s).rest, depth, now, [c], cf)
  {
    hide Tok, TokSkip, EntryValue, NameOf;
    LetterToken(c, ":[]" + s);
    LetterName(c, ":[]" + s, cf);
    EmptyArrayEntry(s, depth, cf);
  }

  /** Behind a comment a colon is as good as a comma, whatever follows. */
  lemma ColonForComma(s: Bytes, cf: Config)
    ensures ReadMembers("\"a\":[]/**/:" + s, 1, [], [], cf) == ReadMembers("\"a\":[]," + s, 1, [], [], cf)
  {
    hide Tok, TokSkip, ReadMembers;
    GapTokens(s);
    LetterMember('a', "/**/:" + s, 1, [], [], cf);
    CommaToken(s);
    LetterMember('a', "," + s, 1, [], [], cf);
    assert "\"a\":[]/**/:" + s == ['"', 'a', '"'] + (":[]" + ("/**/:" + s));
    assert "\"a\":[]," + s == ['"', 'a', '"'] + (":[]" + ("," + s));
  }

  lemma CommaToken(s: Bytes)
    ensures Tok("," + s) == TokSkip("," + s) == Token(ArraySeparator, ",", s)
  {
    assert ("," + s)[1..] == s;
  }

  lemma PutBehind(name: Bytes, next: Bytes, v: Value)
    requires Less(name, next)
    ensures Put([Member(name, v)], next, v) == [Member(name, v), Member(next, v)]
  {
    LessIsStrict(name, next);
    assert [Member(name, v)][1..] == [];
  }

  lemma LastMember(cf: Config)
    ensures ReadMembers("\"b\":[]}", 1, [Member("a", Arr([]))], "a", cf)
         == Done(Obj([Member("a", Arr([])), Member("b", Arr([]))]), [])
  {
    hide Tok, TokSkip, ReadMembers;
    OneByteToken('}', [], ObjectEnd);
    assert "\"b\":[]}" == ['"', 'b', '"'] + (":[]" + "}") && "}" == ['}'] + [];
    LetterMember('b', "}", 1, [Member("a", Arr([]))], "a", cf);
    assert Less("a", "b") && "b" == ['b'];
    PutBehind("a", "b", Arr([]));
  }

  lemma MissingCommaRead(first: Bytes, cf: Config)
    requires first == ['"', 'a', '"'] + (":[]" + ("/**/:" + "\"b\":[]}"))
    ensures ReadMembers(first, 1, [], [], cf) == Done(Obj([Member("a", Arr([])), Member("b", Arr([]))]), [])
  {
    hide Tok, TokSkip, ReadMembers;
    var last := "\"b\":[]}";
    GapTokens(last);
    LetterMember('a', "/**/:" + last, 1, [], [], cf);
    LastMember(cf);
  }

  /** A document that the reader accepts although a comma is missing. */
  lemma ColonAccepted(cf: Config)
    ensures ParseDocument("{\"a\":[]/**/:\"b\":[]}", cf) == Done(Obj([Member("a", Arr([])), Member("b", Arr([]))]), [])
  {
    hide Tok, TokSkip, ReadMembers, ReadItems, ScalarOf, SkipSpaces;
    var first := ['"', 'a', '"'] + (":[]" + ("/**/:" + "\"b\":[]}"));
    MissingCommaRead(first, cf);
    OneByteToken('{', first, ObjectBegin);
    MissingCommaText();
  }

  lemma MissingCommaText()
    ensures "{\"a\":[]/**/:\"b\":[]}" == ['{'] + (['"', 'a', '"'] + (":[]" + ("/**/:" + "\"b\":[]}")))
  {
  }

  // ---------- Line comments ----------

  lemma {:induction false} LineRun(body: Bytes, end: Bytes, rest: Bytes)
    requires '\n' !in body && '\r' !in body
    requires end == "\n" || end == "\r\n" || (end == "\r" && (rest == [] || rest[0] != '\n'))
    ensures CppStyleComment(body + (end + rest)) == |body| + |end|
  {
    var u := body + (end + rest);
    if body == [] {
      assert u == end + rest;
      if end == "\r\n" {
        assert u[0] == '\r' && u[1] == '\n';
      } else if end == "\r" && rest != [] {
        assert u[1] == rest[0];
      }
    } else {
      assert body[0] in body && u[1..] == body[1..] + (end + rest);
      LineRun(body[1..], end, rest);
    }
  }

  lemma LineScan(u: Bytes)
    ensures Scan(['/', '/'] + u) == (Comment, 2 + CppStyleComment(u))
  {
    hide CppStyleComment;
    var t := ['/', '/'] + u;
    assert t[1..] == ['/'] + u && t[1..][1..] == u;
  }

  /** A line comment ends behind the end of its line: a line feed, a carriage return, or the two in this order. */
  lemma LineComment(w: Bytes, body: Bytes, end: Bytes, rest: Bytes)
    requires Ws(w) && '\n' !in body && '\r' !in body
    requires end == "\n" || end == "\r\n" || (end == "\r" && (rest == [] || rest[0] != '\n'))
    ensures var text := ['/', '/'] + body + end;
            Tok(w + (text + rest)) == Token(Comment, text, rest) && TokSkip(w + (text + rest)) == TokSkip(rest)
  {
    hide CppStyleComment, Ws, Scan, Tok;
    var text := ['/', '/'] + body + end;
    LineRun(body, end, rest);
    LineScan(body + (end + rest));
    assert text + rest == ['/', '/'] + (body + (end + rest));
    assert text[0] == '/';
    TokScan(text, rest, Comment);
    WsTok(w, text + rest);
  }

  /** A comment before a value is skipped where comments are allowed, and refused where they are not. */
  lemma CommentRefused(s: Bytes, depth: nat, cf: Config)
    requires Tok(s).kind == Comment && depth <= 1000
    ensures ReadValue(s, depth, cf) == if cf.allowComments then ReadValue(Tok(s).rest, depth, cf) else Failed
  {
    hide Tok, ReadMembers, ReadItems;
    var u := Tok(s).rest;
    var t := TokSkip(s);
    assert t == TokSkip(u);
    if IsSeparator(t.kind) {
      SeparatorAtEnd(s);
      SeparatorAtEnd(u);
    }
  }

  lemma ScanSeparator(t: Bytes)
    requires t != [] && IsSeparator(Scan(t).0)
    ensures Scan(t) == (Punctuation(t[0]), 1)
  {
    hide StringEnd, NumberLength, CommentEnd;
  }

  lemma SeparatorParts(s: Bytes)
    requires IsSeparator(Tok(s).kind)
    ensures var t := SkipSpaces(s); t != [] && Tok(s).rest == t[1..] && Punctuation(t[0]) == Tok(s).kind
  {
    hide Scan, Punctuation, SkipSpaces;
    ScanSeparator(SkipSpaces(s));
  }

  lemma ScanRest(s: Bytes) returns (c: Byte)
    requires IsSeparator(Tok(s).kind)
    ensures s[|s| - |Tok(s).rest| - 1..] == [c] + Tok(s).rest && Punctuation(c) == Tok(s).kind
  {
    hide Tok, Punctuation, SkipSpaces;
    SkipIsSuffix(s);
    SeparatorParts(s);
    var t := SkipSpaces(s);
    c := t[0];
    assert [c] + t[1..] == t;
  }

  lemma {:induction false} SkipIsSuffix(s: Bytes)
    ensures s[|s| - |SkipSpaces(s)|..] == SkipSpaces(s)
  {
    if s != [] && IsSpace(s[0]) {
      SkipIsSuffix(s[1..]);
    }
  }

  lemma {:induction false} SeparatorAtEnd(s: Bytes)
    requires IsSeparator(TokSkip(s).kind)
    ensures exists c: Byte ::
              s[|s| - |TokSkip(s).rest| - 1..] == [c] + TokSkip(s).rest && Punctuation(c) == TokSkip(s).kind
    decreases |s|
  {
    hide Tok;
    if Tok(s).kind == Comment {
      var u := Tok(s).rest;
      TokSuffix(s);
      SeparatorAtEnd(u);
      var n := |TokSkip(u).rest| + 1;
      assert s[|s| - n..] == s[|s| - |u|..][|u| - n..];
    } else {
      var c := ScanRest(s);
    }
  }

  lemma TokSuffix(s: Bytes)
    ensures s[|s| - |Tok(s).rest|..] == Tok(s).rest
  {
    hide Scan;
    SkipIsSuffix(s);
  }

  // ---------- Dropped nulls, numeric names and last commas ----------

  /** A separator in place of a value is taken for a null, where that is allowed, and is left to be read. */
  lemma DroppedNull(w: Bytes, c: Byte, rest: Bytes, depth: nat, cf: Config)
    requires Ws(w) && (c == ',' || c == ']' || c == '}') && depth <= 1000
    ensures ReadValue(w + ([c] + rest), depth, cf) == if cf.allowDroppedNull then Done(Null, [c] + rest) else Failed
  {
    hide Tok, Ws, ReadItems, ReadMembers;
    TokPunctuation(c, rest);
    WsTok(w, [c] + rest);
    assert (w + ([c] + rest))[|w|..] == [c] + rest;
  }

  /** An integer names a member by its digits, where that is allowed. */
  lemma NumericName(n: int, rest: Bytes, cf: Config)
    requires -0x8000_0000_0000_0000 <= n <= 0xffff_ffff_ffff_ffff
    ensures NameOf(Token(NumberToken, ShowInt(n), rest), cf)
              == if cf.allowNumericKeys then Some(ShowInt(n)) else None
  {
    hide ShowInt, IntegerOf;
    ShowThenDecode(n);
  }

  /** A brace behind the comma behind a member is refused, unless the name of that member is empty. */
  lemma LastComma(w: Bytes, rest: Bytes, depth: nat, members: seq<Member>, name: Bytes, cf: Config)
    requires Ws(w)
    ensures ReadMembers(w + ("}" + rest), depth, members, name, cf)
              == if name == [] then Done(Obj(members), rest) else Failed
  {
    hide Tok, Ws;
    TokPunctuation('}', rest);
    WsTok(w, "}" + rest);
  }

  lemma EmptyNameMember(s: Bytes, cf: Config)
    requires Tok(s).kind == ArraySeparator && TokSkip(s) == Tok(s)
    ensures ReadMembers(['"', '"'] + (":[]" + s), 1, [], [], cf)
              == ReadMembers(Tok(s).rest, 1, [Member([], Arr([]))], [], cf)
  {
    hide Tok, TokSkip, EntryValue, StringValue;
    var more := ":[]" + s;
    LettersToken([], more);
    assert "\"" + ("\"" + more) == ['"', '"'] + more && "\"" + [] + "\"" == ['"', '"'];
    TokSkipSame(['"', '"'] + more);
    EmptyArrayEntry(s, 1, cf);
    assert Put([], [], Arr([])) == [Member([], Arr([]))];
  }

  /** A document that the reader accepts with a comma before the closing brace. */
  lemma LastCommaAccepted(cf: Config)
    ensures ParseDocument("{\"\":[],}", cf) == Done(Obj([Member([], Arr([]))]), [])
  {
    hide Tok, TokSkip, ReadMembers, ReadItems, ScalarOf, SkipSpaces;
    var first := ['"', '"'] + (":[]" + ("," + "}"));
    CommaToken("}");
    EmptyNameMember("," + "}", cf);
    assert [] + ("}" + []) == "}";
    LastComma([], [], 1, [Member([], Arr([]))], [], cf);
    OneByteToken('{', first, ObjectBegin);
    assert "{\"\":[],}" == ['{'] + first;
  }
}
