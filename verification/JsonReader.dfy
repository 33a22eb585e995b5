/** The class Reader of json_reader.cpp: a cursor, a stack of values under construction, and a list of errors. */
module JsonReader {
  import opened Prelude
  import opened JsonString
  import opened JsonNumber
  import opened JsonValue
  import opened JsonGrammar

  /** A token as the reader passes it: where it starts and ends. */
  datatype Lexeme = Lexeme(kind: Kind, start: nat, end: nat)

  datatype Status = Ok | Failure | Thrown

  class Reader {
    const doc: Bytes
    const cf: Config
    var current: nat
    var nodes: seq<Value>
    var errors: seq<string>

    constructor (doc: Bytes, cf: Config)
      ensures this.doc == doc && this.cf == cf && current == 0 && nodes == [] && errors == []
    {
      this.doc, this.cf, current, nodes, errors := doc, cf, 0, [], [];
    }

    /** The text that is left. */
    ghost function Left(): Bytes
      reads this`current
    {
      if current <= |doc| then doc[current..] else []
    }

    ghost predicate Ready()
      reads this`current
    {
      current <= |doc|
    }

    // ---------- Scanning ----------

    /** getNextChar, which gives NUL at the end */
    method GetNextChar() returns (c: Byte)
      requires Ready()
      modifies this`current
      ensures Ready()
      ensures if old(Left()) == [] then c == '\U{0}' && current == old(current)
              else c == old(Left())[0] && current == old(current) + 1
    {
      if current == |doc| {
        return '\U{0}';
      }
      c := doc[current];
      current := current + 1;
    }

    /** skipSpaces */
    method SkipBlanks()
      requires Ready()
      modifies this`current
      ensures Ready() && Left() == SkipSpaces(old(Left())) && old(current) <= current
    {
      while current != |doc|
        invariant Ready() && old(current) <= current && SkipSpaces(Left()) == SkipSpaces(old(Left()))
        decreases |doc| - current
      {
        if !IsSpace(doc[current]) {
          break;
        }
        assert Left()[1..] == doc[current + 1..];
        current := current + 1;
      }
    }

    /** match */
    method Match(pattern: Bytes) returns (ok: bool)
      requires Ready()
      modifies this`current
      ensures Ready() && ok == Starts(old(Left()), pattern) && current == old(current) + if ok then |pattern| else 0
    {
      if |doc| - current < |pattern| {
        return false;
      }
      var index := |pattern|;
      ghost var left := Left();
      while index > 0
        invariant 0 <= index <= |pattern| && left[index..|pattern|] == pattern[index..]
      {
        index := index - 1;
        if doc[current + index] != pattern[index] {
          assert left[..|pattern|][index] != pattern[index];
          return false;
        }
        assert left[index..|pattern|] == [left[index]] + left[index + 1..|pattern|];
      }
      assert left[..|pattern|] == left[0..|pattern|];
      current := current + |pattern|;
      ok := true;
    }

    /** readCStyleComment */
    method ReadCStyleComment() returns (ok: bool)
      requires Ready()
      modifies this`current
      ensures Ready() && (ok, current - old(current)) == CStyleComment(old(Left()))
    {
      while current + 1 < |doc|
        invariant Ready() && old(current) <= current
        invariant var (b, n) := CStyleComment(Left()); (b, n + current - old(current)) == CStyleComment(old(Left()))
        decreases |doc| - current
      {
        ghost var left := Left();
        var c := GetNextChar();
        assert left[1..] == Left();
        if c == '*' && doc[current] == '/' {
          c := GetNextChar();
          return true;
        }
      }
      var c := GetNextChar();
      ok := c == '/';
    }

    /** readCppStyleComment */
    method ReadCppStyleComment()
      requires Ready()
      modifies this`current
      ensures Ready() && current == old(current) + CppStyleComment(old(Left()))
    {
      while current != |doc|
        invariant Ready() && old(current) <= current
        invariant current + CppStyleComment(Left()) == old(current) + CppStyleComment(old(Left()))
        decreases |doc| - current
      {
        ghost var left := Left();
        var c := GetNextChar();
        assert left[1..] == Left();
        if c == '\n' {
          break;
        }
        if c == '\r' {
          if current != |doc| && doc[current] == '\n' {
            c := GetNextChar();
          }
          break;
        }
      }
    }

    /** readComment, without collecting it */
    method ReadComment() returns (ok: bool)
      requires Ready()
      modifies this`current
      ensures Ready() && (ok, current - old(current)) == CommentEnd(old(Left()))
    {
      ghost var left := Left();
      var c := GetNextChar();
      ok := false;
      if c == '*' {
        assert left[1..] == Left();
        ok := ReadCStyleComment();
      } else if c == '/' {
        assert left[1..] == Left();
        ReadCppStyleComment();
        ok := true;
      }
    }

    /** One of the digit loops of readNumber: moves the cursor to the first byte that is no digit. */
    method SkipDigits()
      requires Ready()
      modifies this`current
      ensures Ready() && current == old(current) + LeadingDigitCount(old(Left()))
    {
      while current < |doc| && IsDigit(doc[current])
        invariant Ready() && old(current) <= current
        invariant current + LeadingDigitCount(Left()) == old(current) + LeadingDigitCount(old(Left()))
      {
        assert Left()[1..] == doc[current + 1..];
        current := current + 1;
      }
    }

    /** The fractional part of readNumber. */
    method SkipFraction()
      requires Ready()
      modifies this`current
      ensures Ready() && current == old(current) + FractionLength(old(Left()))
    {
      if current < |doc| && doc[current] == '.' {
        assert Left()[1..] == doc[current + 1..];
        current := current + 1;
        SkipDigits();
      }
    }

    /** The exponential part of readNumber. */
    method SkipExponent()
      requires Ready()
      modifies this`current
      ensures Ready() && current == old(current) + ExponentLength(old(Left()))
    {
      ghost var left := Left();
      if current < |doc| && (doc[current] == 'e' || doc[current] == 'E') {
        assert left[1..] == doc[current + 1..];
        current := current + 1;
        if current < |doc| && (doc[current] == '+' || doc[current] == '-') {
          assert left[2..] == doc[current + 1..];
          current := current + 1;
        }
        SkipDigits();
      }
    }

    /** readNumber, after the first byte */
    method ReadNumber()
      requires Ready()
      modifies this`current
      ensures Ready() && current == old(current) + NumberLength(old(Left()))
    {
      hide LeadingDigitCount, FractionLength, ExponentLength;
      ghost var u, start := Left(), current;
      SkipDigits();
      assert u[current - start..] == Left();
      SkipFraction();
      assert u[current - start..] == Left();
      SkipExponent();
    }

    /** readString, after the opening quote */
    method ReadString() returns (ok: bool)
      requires Ready()
      modifies this`current
      ensures Ready()
      ensures match StringEnd(old(Left()))
        case None => !ok && current == |doc|
        case Some(k) => ok && current == old(current) + k
    {
      hide StringEnd, Further;
      var c: Byte := '\U{0}';
      FurtherNone(StringEnd(Left()));
      while current != |doc|
        invariant Ready() && old(current) <= current && c != '"'
        invariant StringEnd(old(Left())) == Further(current - old(current), StringEnd(Left()))
        decreases |doc| - current
      {
        ghost var left, start := Left(), current;
        StringEndStep(left);
        c := GetNextChar();
        if c == '\\' {
          var _ := GetNextChar();
        } else if c == '"' {
          FurtherSome(start - old(current), 1);
          break;
        }
        assert left[current - start..] == Left();
        FurtherTwice(start - old(current), current - start, StringEnd(Left()));
      }
      ok := c == '"';
      if !ok {
        StringEndNone();
        FurtherSome(current - old(current), 0);
      }
    }

    /** The switch of readToken on the byte just read. */
    method ScanToken(c: Byte) returns (kind: Kind)
      requires Ready() && 0 < current && c == doc[current - 1]
      modifies this`current
      ensures Ready() && old(current) <= current
      ensures (kind, current - old(current) + 1) == Scan(doc[old(current) - 1..])
    {
      hide StringEnd, CommentEnd, NumberLength, Starts;
      ghost var t := doc[current - 1..];
      assert t[1..] == Left();
      var ok := true;
      if c == '{' {
        kind := ObjectBegin;
      } else if c == '}' {
        kind := ObjectEnd;
      } else if c == '[' {
        kind := ArrayBegin;
      } else if c == ']' {
        kind := ArrayEnd;
      } else if c == '"' {
        kind := StringToken;
        ok := ReadString();
      } else if c == '/' {
        kind := Comment;
        ok := ReadComment();
      } else if IsDigit(c) || c == '-' {
        kind := NumberToken;
        ReadNumber();
      } else if c == 't' {
        kind := TrueToken;
        ok := Match("rue");
      } else if c == 'f' {
        kind := FalseToken;
        ok := Match("alse");
      } else if c == 'n' {
        kind := NullToken;
        ok := Match("ull");
      } else if c == ',' {
        kind := ArraySeparator;
      } else if c == ':' {
        kind := MemberSeparator;
      } else if c == '\U{0}' {
        kind := EndOfStream;
      } else {
        ok := false;
      }
      if !ok {
        kind := Error;
      }
    }

    /** The lexeme is the token t, and the cursor is behind it. */
    ghost predicate Reads(l: Lexeme, t: Token)
      reads this`current
    {
      && l.start <= l.end == current <= |doc|
      && l.kind == t.kind && doc[l.start..l.end] == t.text && Left() == t.rest
    }

    /** readToken; a token that fails is of the kind Error. */
    method ReadToken() returns (token: Lexeme)
      requires Ready()
      modifies this`current
      ensures Reads(token, Tok(old(Left()))) && old(current) <= token.start
      ensures token.kind != EndOfStream ==> token.start < token.end
    {
      hide Scan;
      SkipBlanks();
      var start := current;
      ghost var t := Left();
      if current == |doc| {
        return Lexeme(EndOfStream, start, current);
      }
      var c := GetNextChar();
      var kind := ScanToken(c);
      assert t == doc[start..];
      assert t[..current - start] == doc[start..current] && t[current - start..] == Left();
      token := Lexeme(kind, start, current);
    }

    /** The loop that skips comments, of skipCommentTokens, readObject and readArray. */
    method ReadPastComments() returns (token: Lexeme)
      requires Ready()
      modifies this`current
      ensures Reads(token, TokSkip(old(Left()))) && old(current) <= token.start
      ensures token.kind != EndOfStream ==> token.start < token.end
    {
      hide Tok;
      token := ReadToken();
      while token.kind == Comment
        invariant Ready() && old(current) <= token.start && token.end == current
        invariant token.kind != EndOfStream ==> token.start < token.end
        invariant if token.kind == Comment then TokSkip(Left()) == TokSkip(old(Left()))
                    else Reads(token, TokSkip(old(Left())))
        decreases |doc| - current, if token.kind == Comment then 1 else 0
      {
        token := ReadToken();
      }
    }

    /** skipCommentTokens */
    method SkipCommentTokens() returns (token: Lexeme)
      requires Ready()
      modifies this`current
      ensures Reads(token, if cf.allowComments then TokSkip(old(Left())) else Tok(old(Left())))
      ensures old(current) <= token.start
      ensures token.kind != EndOfStream ==> token.start < token.end
    {
      if cf.allowComments {
        token := ReadPastComments();
      } else {
        token := ReadToken();
      }
    }
    // ---------- Errors ----------

    /** addError */
    method AddError(message: string)
      modifies this`errors
      ensures errors == old(errors) + [message]
    {
      errors := errors + [message];
    }

    /** recoverFromError */
    method RecoverFromError(skipUntil: Kind)
      requires Ready()
      modifies this`current, this`errors
      ensures Ready() && old(current) <= current && errors == old(errors)
    {
      var errorCount := |errors|;
      while true
        invariant Ready() && old(current) <= current && errors == old(errors)
        decreases |doc| - current
      {
        var skip := ReadToken();
        if skip.kind == Error {
          errors := errors[..errorCount];
        }
        if skip.kind == skipUntil || skip.kind == EndOfStream {
          break;
        }
      }
      errors := errors[..errorCount];
    }

    /** addErrorAndRecover */
    method AddErrorAndRecover(message: string, skipUntil: Kind)
      requires Ready()
      modifies this`current, this`errors
      ensures Ready() && old(current) <= current && errors == old(errors) + [message]
    {
      AddError(message);
      RecoverFromError(skipUntil);
    }

    // ---------- Decoding tokens ----------

    /** decodeNumber; a failure is added to the errors. */
    method DecodeNumber(token: Lexeme) returns (r: Option<Value>)
      requires token.start < token.end <= |doc|
      modifies this`errors
      ensures r == NumberValue(doc[token.start..token.end], cf)
      ensures if r == None then |errors| > |old(errors)| else errors == old(errors)
    {
      var v, unsigned := DecodeInteger(doc[token.start..token.end]);
      if v.Some? {
        return Some(if unsigned then UInt(v.value) else Int(v.value));
      }
      var d := cf.toDouble(doc[token.start..token.end]);
      if d == None {
        AddError("is not a number.");
        return None;
      }
      r := Some(Real(d.value));
    }

    /** decodeString; a failure is added to the errors. */
    method DecodeText(token: Lexeme) returns (r: Option<Bytes>)
      requires token.start + 2 <= token.end <= |doc|
      modifies this`errors
      ensures r == StringValue(doc[token.start..token.end])
      ensures if r == None then |errors| > |old(errors)| else errors == old(errors)
    {
      r := DecodeString(doc[token.start + 1..token.end - 1]);
      Inner(doc, token.start, token.end);
      if r == None {
        AddError("Bad escape sequence in string");
      }
    }

    // ---------- The stack of values ----------

    /** Puts v in place of the current value. */
    method SetCurrent(v: Value)
      requires nodes != []
      modifies this`nodes
      ensures nodes == old(nodes[..|nodes| - 1]) + [v]
    {
      nodes := nodes[..|nodes| - 1] + [v];
    }

    /** Makes room for an element of the current array, and makes it the current value. */
    method PushElement(index: nat, ghost below: seq<Value>, ghost items: seq<Value>)
      requires nodes == below + [Arr(items)] && index == |items|
      modifies this`nodes
      ensures nodes == below + [Arr(items + [Null])] + [Null]
    {
      SetCurrent(Arr(nodes[|nodes| - 1].items + [Null]));
      nodes := nodes + [Null];
    }

    /** Leaves an element; the value that was built for it stands in the array. */
    method PopElement(index: nat, ghost below: seq<Value>, ghost items: seq<Value>, ghost v: Value)
      requires nodes == below + [Arr(items + [Null])] + [v] && index == |items|
      modifies this`nodes
      ensures nodes == below + [Arr(items + [v])]
    {
      var value := nodes[|nodes| - 1];
      nodes := nodes[..|nodes| - 1];
      assert (items + [Null])[index := value] == items + [v];
      SetCurrent(Arr(nodes[|nodes| - 1].items[index := value]));
    }

    /** Makes a member of the current object the current value. */
    method PushMember(name: Bytes, ghost below: seq<Value>, ghost members: seq<Member>)
      requires nodes == below + [Obj(members)]
      modifies this`nodes
      ensures nodes == below + [Obj(members)] + [ValueAt(members, name)]
    {
      nodes := nodes + [ValueAt(nodes[|nodes| - 1].members, name)];
    }

    /** Leaves a member; the value that was built for it stands in the object. */
    method PopMember(name: Bytes, ghost below: seq<Value>, ghost members: seq<Member>, ghost v: Value)
      requires nodes == below + [Obj(members)] + [v]
      modifies this`nodes
      ensures nodes == below + [Obj(Put(members, name, v))]
    {
      var value := nodes[|nodes| - 1];
      nodes := nodes[..|nodes| - 1];
      SetCurrent(Obj(Put(nodes[|nodes| - 1].members, name, value)));
    }

    /** How reading has left the reader, if p is what the grammar makes of the text. */
    ghost predicate After(r: Status, p: Parse, nodes0: seq<Value>, errors0: seq<string>)
      requires nodes0 != []
      reads this`current, this`nodes, this`errors
    {
      && (r != Thrown ==> |nodes| == |nodes0| && nodes[..|nodes| - 1] == nodes0[..|nodes0| - 1])
      && match p
         case Done(v, rest) => r == Ok && Left() == rest && nodes == nodes0[..|nodes0| - 1] + [v] && errors == errors0
         case Failed => r == Failure && |errors| > |errors0|
         case TooDeep => r == Thrown
    }

    // ---------- Parsing ----------

    /** The cases of readValue for tokens that are no brackets. */
    method ReadScalar(token: Lexeme, ghost t: Token) returns (r: Status)
      requires nodes != [] && Reads(token, t)
      requires (t.kind == StringToken ==> |t.text| >= 2) && (t.kind != EndOfStream ==> t.text != [])
      requires t.kind != ObjectBegin && t.kind != ArrayBegin
      modifies this`nodes, this`errors
      ensures After(r, match ScalarOf(t, cf) case None => Failed case Some(v) => Done(v, t.rest), old(nodes),
                    old(errors))
    {
      hide NumberValue, StringValue;
      if token.kind == NumberToken {
        var v := DecodeNumber(token);
        if v == None {
          return Failure;
        }
        SetCurrent(v.value);
      } else if token.kind == StringToken {
        var x := DecodeText(token);
        if x == None {
          return Failure;
        }
        SetCurrent(Str(x.value));
      } else if token.kind == TrueToken {
        SetCurrent(Bool(true));
      } else if token.kind == FalseToken {
        SetCurrent(Bool(false));
      } else if token.kind == NullToken {
        SetCurrent(Null);
      } else {
        AddError("Syntax error: value, object or array expected.");
        return Failure;
      }
      r := Ok;
    }

    /** The case of readValue that takes a separator for a dropped null, and leaves it to be read again. */
    method Unread(ghost s: Bytes) returns (r: Status)
      requires 0 < current <= |doc| && nodes != []
      requires |doc| - current < |s| <= |doc| && s == doc[|doc| - |s|..]
      modifies this`current, this`nodes
      ensures Ready() && current == old(current) - 1 && r == Ok
      ensures Left() == s[|s| - |old(Left())| - 1..] && nodes == old(nodes[..|nodes| - 1]) + [Null]
    {
      current := current - 1;
      SetCurrent(Null);
      r := Ok;
    }

    /** readValue */
    method ReadValue() returns (r: Status)
      requires Ready() && nodes != []
      modifies this`current, this`nodes, this`errors
      ensures Ready() && old(current) <= current
      ensures After(r, JsonGrammar.ReadValue(old(Left()), |old(nodes)|, cf), old(nodes), old(errors))
      decreases |doc| - current, 0
    {
      hide TokSkip, Tok, ReadItems, ReadMembers, ScalarOf, Scan;
      if |nodes| > STACK_LIMIT {
        return Thrown;
      }
      ghost var s := Left();
      var token := SkipCommentTokens();
      if token.kind == ObjectBegin {
        r := ReadObject();
      } else if token.kind == ArrayBegin {
        r := ReadArray();
      } else if IsSeparator(token.kind) && cf.allowDroppedNull {
        r := Unread(s);
      } else {
        r := ReadScalar(token, if cf.allowComments then TokSkip(s) else Tok(s));
      }
    }

    /** The part of readArray's loop that reads one element. */
    method ReadElement(index: nat, ghost below: seq<Value>, ghost items: seq<Value>) returns (r: Status)
      requires Ready() && 0 < |nodes| <= STACK_LIMIT && nodes == below + [Arr(items)] && index == |items|
      modifies this`current, this`nodes, this`errors
      ensures Ready() && old(current) <= current
      ensures match JsonGrammar.ReadValue(old(Left()), |old(nodes)| + 1, cf)
        case Done(v, rest) => r == Ok && Left() == rest && nodes == below + [Arr(items + [v])] && errors == old(errors)
        case Failed => r == Failure && |nodes| == |old(nodes)| && nodes[..|below|] == below && |errors| > |old(errors)|
        case TooDeep => r == Thrown
      decreases |doc| - current, 1
    {
      hide JsonGrammar.ReadValue;
      PushElement(index, below, items);
      assert nodes[..|nodes| - 1] == below + [Arr(items + [Null])];
      r := ReadValue();
      if r == Thrown {
        return;
      }
      assert nodes == nodes[..|nodes| - 1] + [nodes[|nodes| - 1]];
      PopElement(index, below, items, nodes[|nodes| - 1]);
      if r != Ok {
        RecoverFromError(ArrayEnd);
      }
    }

    /** readArray, after the opening bracket */
    method ReadArray() returns (r: Status)
      requires Ready() && 0 < |nodes| <= STACK_LIMIT
      modifies this`current, this`nodes, this`errors
      ensures Ready() && old(current) <= current
      ensures var u := SkipSpaces(old(Left()));
        After(r, if u != [] && u[0] == ']' then Done(Arr([]), u[1..]) else ReadItems(u, |old(nodes)|, [], cf),
              old(nodes), old(errors))
      decreases |doc| - current, 3
    {
      hide ReadItems;
      SetCurrent(Arr([]));
      SkipBlanks();
      ghost var u := Left();
      if current != |doc| && doc[current] == ']' {
        current := current + 1;
        assert u[1..] == Left();
        return Ok;
      }
      r := ReadElements(nodes[..|nodes| - 1]);
    }

    /** The loop of readArray. */
    method ReadElements(ghost below: seq<Value>) returns (r: Status)
      requires Ready() && |nodes| <= STACK_LIMIT && nodes == below + [Arr([])]
      modifies this`current, this`nodes, this`errors
      ensures Ready() && old(current) <= current
      ensures After(r, ReadItems(old(Left()), |old(nodes)|, [], cf), old(nodes), old(errors))
      decreases |doc| - current, 2
    {
      hide JsonGrammar.ReadValue, TokSkip;
      var index := 0;
      ghost var items: seq<Value>, u := [], Left();
      while true
        invariant Ready() && old(current) <= current && nodes == below + [Arr(items)] && index == |items|
        invariant errors == old(errors)
        invariant ReadItems(Left(), |below| + 1, items, cf) == ReadItems(u, |below| + 1, [], cf)
        decreases |doc| - current
      {
        ghost var v := JsonGrammar.ReadValue(Left(), |nodes| + 1, cf);
        r := ReadElement(index, below, items);
        if r != Ok {
          return;
        }
        var token := ReadPastComments();
        if token.kind != ArraySeparator && token.kind != ArrayEnd {
          AddErrorAndRecover("Missing ',' or ']' in array declaration", ArrayEnd);
          return Failure;
        }
        items := items + [v.value];
        index := index + 1;
        if token.kind == ArrayEnd {
          break;
        }
      }
      r := Ok;
    }

    /** The name of the next member, of readObject; a failure is added to the errors. */
    method ReadName(token: Lexeme, ghost t: Token) returns (r: Option<Bytes>)
      requires Reads(token, t) && (t.kind == StringToken ==> |t.text| >= 2) && (t.kind != EndOfStream ==> t.text != [])
      modifies this`current, this`errors
      ensures r == NameOf(t, cf)
      ensures Ready() && if r == None then old(current) <= current && |errors| > |old(errors)|
                else current == old(current) && errors == old(errors)
    {
      if token.kind == StringToken {
        r := DecodeText(token);
        if r == None {
          RecoverFromError(ObjectEnd);
        }
      } else if token.kind == NumberToken && cf.allowNumericKeys {
        var v := DecodeNumber(token);
        if v == None {
          RecoverFromError(ObjectEnd);
          return None;
        }
        r := Some(NumberAsString(v.value, cf));
      } else {
        AddErrorAndRecover("Missing '}' or object member name", ObjectEnd);
        r := None;
      }
    }

    /** The part of readObject's loop that reads the value of a member. */
    method ReadMember(name: Bytes, ghost below: seq<Value>, ghost members: seq<Member>) returns (r: Status)
      requires Ready() && 0 < |nodes| <= STACK_LIMIT && nodes == below + [Obj(members)]
      modifies this`current, this`nodes, this`errors
      ensures Ready() && old(current) <= current
      ensures match JsonGrammar.ReadValue(old(Left()), |old(nodes)| + 1, cf)
        case Done(v, rest) => r == Ok && Left() == rest && nodes == below + [Obj(Put(members, name, v))]
            && errors == old(errors)
        case Failed => r == Failure && |nodes| == |old(nodes)| && nodes[..|below|] == below && |errors| > |old(errors)|
        case TooDeep => r == Thrown
      decreases |doc| - current, 1
    {
      hide JsonGrammar.ReadValue, Put;
      PushMember(name, below, members);
      assert nodes[..|nodes| - 1] == below + [Obj(members)];
      r := ReadValue();
      if r == Thrown {
        return;
      }
      assert nodes == nodes[..|nodes| - 1] + [nodes[|nodes| - 1]];
      PopMember(name, below, members, nodes[|nodes| - 1]);
      if r != Ok {
        RecoverFromError(ObjectEnd);
      }
    }

    /** The part of readObject's loop that reads the colon and the value of a member. */
    method ReadEntry(name: Bytes, ghost below: seq<Value>, ghost members: seq<Member>) returns (r: Status)
      requires Ready() && 0 < |nodes| <= STACK_LIMIT && nodes == below + [Obj(members)]
      modifies this`current, this`nodes, this`errors
      ensures Ready() && old(current) <= current
      ensures match EntryValue(old(Left()), |old(nodes)|, cf)
        case Done(v, rest) => r == Ok && Left() == rest && nodes == below + [Obj(Put(members, name, v))]
            && errors == old(errors)
        case Failed => r == Failure && |nodes| == |old(nodes)| && nodes[..|below|] == below && |errors| > |old(errors)|
        case TooDeep => r == Thrown
      decreases |doc| - current, 2
    {
      hide JsonGrammar.ReadValue, Put, Tok;
      var colon := ReadToken();
      if colon.kind != MemberSeparator {
        AddErrorAndRecover("Missing ':' after object member name", ObjectEnd);
        return Failure;
      }
      r := ReadMember(name, below, members);
    }

    /** readObject, after the opening brace */
    method ReadObject() returns (r: Status)
      requires Ready() && 0 < |nodes| <= STACK_LIMIT
      modifies this`current, this`nodes, this`errors
      ensures Ready() && old(current) <= current
      ensures After(r, ReadMembers(old(Left()), |old(nodes)|, [], [], cf), old(nodes), old(errors))
      decreases |doc| - current, 4
    {
      hide ReadMembers;
      SetCurrent(Obj([]));
      r := ReadEntries(nodes[..|nodes| - 1]);
    }

    /** The loop of readObject. */
    method ReadEntries(ghost below: seq<Value>) returns (r: Status)
      requires Ready() && |nodes| <= STACK_LIMIT && nodes == below + [Obj([])]
      modifies this`current, this`nodes, this`errors
      ensures Ready() && old(current) <= current
      ensures After(r, ReadMembers(old(Left()), |old(nodes)|, [], [], cf), old(nodes), old(errors))
      decreases |doc| - current, 3
    {
      hide EntryValue, TokSkip, Tok, NameOf, Put;
      var name: Bytes := [];
      ghost var members: seq<Member>, u := [], Left();
      while true
        invariant Ready() && old(current) <= current && nodes == below + [Obj(members)] && errors == old(errors)
        invariant ReadMembers(Left(), |below| + 1, members, name, cf) == ReadMembers(u, |below| + 1, [], [], cf)
        decreases |doc| - current
      {
        ghost var s := Left();
        var tokenName := ReadPastComments();
        if tokenName.kind == ObjectEnd && name == [] {
          return Ok;
        }
        var key := ReadName(tokenName, TokSkip(s));
        if key == None {
          return Failure;
        }
        name := key.value;
        ghost var value := EntryValue(Left(), |nodes|, cf);
        r := ReadEntry(name, below, members);
        if r != Ok {
          return;
        }
        members := Put(members, name, value.value);
        ghost var v := Left();
        var comma := ReadToken();
        if comma.kind != ObjectEnd && comma.kind != ArraySeparator && comma.kind != Comment {
          AddErrorAndRecover("Missing ',' or '}' in object declaration", ObjectEnd);
          return Failure;
        }
        TokThenSkip(v);
        if comma.kind == Comment {
          comma := ReadPastComments();
        }
        if comma.kind == ObjectEnd {
          break;
        }
      }
      r := Ok;
    }

    /** parse; the root is left as the only value on the stack. */
    method ParseDoc() returns (r: Status)
      modifies this`current, this`nodes, this`errors
      ensures match ParseDocument(doc, cf)
        case Done(v, _) => r == Ok && nodes == [v] && errors == []
        case Failed => r == Failure && errors != []
        case TooDeep => r == Thrown
    {
      current, errors, nodes := 0, [], [Null];
      assert doc[0..] == doc;
      r := ReadValue();
      if r == Thrown {
        return;
      }
      var _ := SkipCommentTokens();
      if cf.strictRoot && !nodes[0].Arr? && !nodes[0].Obj? {
        AddError("A valid JSON document must be either an array or an object value.");
        return Failure;
      }
    }
  }

  lemma TokThenSkip(s: Bytes)
    ensures TokSkip(s) == if Tok(s).kind == Comment then TokSkip(Tok(s).rest) else Tok(s)
  {
  }

  lemma Inner(s: Bytes, a: nat, b: nat)
    requires a + 2 <= b <= |s|
    ensures s[a..b][1..b - a - 1] == s[a + 1..b - 1] && |s[a..b]| == b - a
  {
    var t := s[a..b];
    assert t[1..] == s[a + 1..b];
    assert t[1..b - a - 1] == t[1..][..b - a - 2];
  }

  lemma FurtherNone(r: Option<nat>)
    ensures Further(0, r) == r
  {
  }

  lemma FurtherSome(n: nat, k: nat)
    ensures Further(n, Some(k)) == Some(n + k) && Further(n, None) == None
  {
  }

  lemma FurtherTwice(m: nat, n: nat, r: Option<nat>)
    ensures Further(m, Further(n, r)) == Further(m + n, r)
  {
  }

  lemma StringEndNone()
    ensures StringEnd([]) == None
  {
  }

  lemma StringEndStep(t: Bytes)
    requires t != []
    ensures if t[0] == '"' then StringEnd(t) == Some(1)
      else
        var n := if t[0] == '\\' && |t| > 1 then 2 else 1;
        StringEnd(t) == Further(n, StringEnd(t[n..]))
  {
  }
}
