/** What the reader of json_reader.cpp makes of a text, as functions on the text that is left. */
module JsonGrammar {
  import opened Prelude
  import opened JsonString
  import opened JsonNumber
  import opened JsonValue

  const STACK_LIMIT := 1000

  /** The reader's features; the conversions between text and doubles are parameters. */
  datatype Config = Config(allowComments: bool, strictRoot: bool, allowDroppedNull: bool, allowNumericKeys: bool,
                           toDouble: Bytes -> Option<real>, fromDouble: real -> Bytes)

  datatype Kind =
    | EndOfStream | ObjectBegin | ObjectEnd | ArrayBegin | ArrayEnd | StringToken | NumberToken | TrueToken
    | FalseToken | NullToken | ArraySeparator | MemberSeparator | Comment | Error

  /** A token, and what follows it. */
  datatype Token = Token(kind: Kind, text: Bytes, rest: Bytes)

  // ---------- Scanning ----------

  predicate IsSpace(c: Byte)
  {
    c == ' ' || c == '\t' || c == '\r' || c == '\n'
  }

  function SkipSpaces(s: Bytes): (r: Bytes)
    ensures |r| <= |s|
    ensures r != [] ==> !IsSpace(r[0])
  {
    if s != [] && IsSpace(s[0]) then SkipSpaces(s[1..]) else s
  }

  /**
   * Whether the rest of a C-style comment ends it, and how many bytes it takes: the last byte may be a slash on its
   * own.
   */
  function CStyleComment(u: Bytes): (r: (bool, nat))
    ensures r.1 <= |u|
  {
    if u == [] then (false, 0)
    else if |u| == 1 then (u[0] == '/', 1)
    else if u[0] == '*' && u[1] == '/' then (true, 2)
    else
      var (ok, n) := CStyleComment(u[1..]);
      (ok, n + 1)
  }

  /** How many bytes the rest of a line comment takes, with the end of the line. */
  function CppStyleComment(u: Bytes): (n: nat)
    ensures n <= |u|
  {
    if u == [] then 0
    else if u[0] == '\n' then 1
    else if u[0] == '\r' then if |u| > 1 && u[1] == '\n' then 2 else 1
    else 1 + CppStyleComment(u[1..])
  }

  function CommentEnd(u: Bytes): (r: (bool, nat))
    ensures r.1 <= |u|
  {
    if u == [] then (false, 0)
    else if u[0] == '*' then
      var (ok, n) := CStyleComment(u[1..]);
      (ok, n + 1)
    else if u[0] == '/' then (true, 1 + CppStyleComment(u[1..]))
    else (false, 1)
  }

  function LeadingDigitCount(u: Bytes): (n: nat)
    ensures n <= |u|
  {
    if u != [] && IsDigit(u[0]) then 1 + LeadingDigitCount(u[1..]) else 0
  }

  function ExponentLength(u: Bytes): (n: nat)
    ensures n <= |u|
  {
    if u == [] || (u[0] != 'e' && u[0] != 'E') then 0
    else if |u| > 1 && (u[1] == '+' || u[1] == '-') then 2 + LeadingDigitCount(u[2..])
    else 1 + LeadingDigitCount(u[1..])
  }

  function FractionLength(u: Bytes): (n: nat)
    ensures n <= |u|
  {
    if u == [] || u[0] != '.' then 0 else 1 + LeadingDigitCount(u[1..])
  }

  /** How many bytes of u continue a number. */
  function NumberLength(u: Bytes): (n: nat)
    ensures n <= |u|
  {
    var k := LeadingDigitCount(u);
    var f := FractionLength(u[k..]);
    k + f + ExponentLength(u[k + f..])
  }

  /** Kind and length of the token at the front of t. */
  function Scan(t: Bytes): (r: (Kind, nat))
    requires t != []
    ensures 0 < r.1 <= |t|
  {
    var c, u := t[0], t[1..];
    if c == '{' then (ObjectBegin, 1)
    else if c == '}' then (ObjectEnd, 1)
    else if c == '[' then (ArrayBegin, 1)
    else if c == ']' then (ArrayEnd, 1)
    else if c == '"' then
      match StringEnd(u)
      case Some(k) => (StringToken, 1 + k)
      case None => (Error, |t|)
    else if c == '/' then
      var (ok, n) := CommentEnd(u);
      (if ok then Comment else Error, 1 + n)
    else if IsDigit(c) || c == '-' then (NumberToken, 1 + NumberLength(u))
    else if c == 't' then if Starts(u, "rue") then (TrueToken, 4) else (Error, 1)
    else if c == 'f' then if Starts(u, "alse") then (FalseToken, 5) else (Error, 1)
    else if c == 'n' then if Starts(u, "ull") then (NullToken, 4) else (Error, 1)
    else if c == ',' then (ArraySeparator, 1)
    else if c == ':' then (MemberSeparator, 1)
    else if c == '\U{0}' then (EndOfStream, 1)
    else (Error, 1)
  }

  /** readToken */
  function Tok(s: Bytes): (r: Token)
    ensures |r.text| + |r.rest| <= |s|
    ensures r.kind != EndOfStream ==> r.text != []
    ensures r.kind == StringToken ==> |r.text| >= 2
  {
    var t := SkipSpaces(s);
    if t == [] then Token(EndOfStream, [], [])
    else
      var (kind, n) := Scan(t);
      Token(kind, t[..n], t[n..])
  }

  /** The first token that is no comment. */
  function TokSkip(s: Bytes): (r: Token)
    ensures |r.text| + |r.rest| <= |s|
    ensures r.kind != EndOfStream ==> r.text != []
    ensures r.kind == StringToken ==> |r.text| >= 2
    ensures r.kind != Comment
    decreases |s|
  {
    var t := Tok(s);
    if t.kind == Comment then TokSkip(t.rest) else t
  }

  // ---------- Parsing ----------

  datatype Parse = Done(value: Value, rest: Bytes) | Failed | TooDeep

  function NumberValue(text: Bytes, cf: Config): Option<Value>
  {
    match IntegerOf(text)
    case Some(v) => Some(if v <= MAX_INT then Int(v) else UInt(v))
    case None =>
      match cf.toDouble(text)
      case None => None
      case Some(r) => Some(Real(r))
  }

  /** asString of a number */
  function NumberAsString(v: Value, cf: Config): Bytes
  {
    match v
    case Int(i) => ShowInt(i)
    case UInt(u) => ShowInt(u)
    case Real(r) => cf.fromDouble(r)
    case _ => []
  }

  function StringValue(text: Bytes): Option<Bytes>
    requires |text| >= 2
  {
    Decoded(text[1..|text| - 1])
  }

  /** The name a token gives to a member. */
  function NameOf(t: Token, cf: Config): Option<Bytes>
    requires t.kind == StringToken ==> |t.text| >= 2
  {
    if t.kind == StringToken then StringValue(t.text)
    else if t.kind == NumberToken && cf.allowNumericKeys then
      match NumberValue(t.text, cf)
      case None => None
      case Some(v) => Some(NumberAsString(v, cf))
    else None
  }

  /** The value of a token that is no bracket, as an optional value. */
  function ScalarOf(t: Token, cf: Config): Option<Value>
    requires t.kind == StringToken ==> |t.text| >= 2
  {
    match t.kind
    case NumberToken => NumberValue(t.text, cf)
    case StringToken =>
      (match StringValue(t.text)
       case None => None
       case Some(x) => Some(Str(x)))
    case TrueToken => Some(Bool(true))
    case FalseToken => Some(Bool(false))
    case NullToken => Some(Null)
    case _ => None
  }

  predicate IsSeparator(k: Kind)
  {
    k == ArraySeparator || k == ObjectEnd || k == ArrayEnd
  }

  /** readValue, when depth values are under construction. */
  function ReadValue(s: Bytes, depth: nat, cf: Config): (r: Parse)
    ensures r.Done? ==> |r.rest| <= |s|
    decreases |s|, 0
  {
    if depth > STACK_LIMIT then TooDeep
    else
      var t := if cf.allowComments then TokSkip(s) else Tok(s);
      if t.kind == ObjectBegin then ReadMembers(t.rest, depth, [], [], cf)
      else if t.kind == ArrayBegin then
        var u := SkipSpaces(t.rest);
        if u != [] && u[0] == ']' then Done(Arr([]), u[1..]) else ReadItems(u, depth, [], cf)
      else if IsSeparator(t.kind) && cf.allowDroppedNull then Done(Null, s[|s| - |t.rest| - 1..])
      else
        match ScalarOf(t, cf)
        case None => Failed
        case Some(v) => Done(v, t.rest)
  }

  /** The loop of readArray, after the elements `items`. */
  function ReadItems(s: Bytes, depth: nat, items: seq<Value>, cf: Config): (r: Parse)
    ensures r.Done? ==> |r.rest| <= |s|
    decreases |s|, 1
  {
    var v := ReadValue(s, depth + 1, cf);
    if !v.Done? then v
    else
      var t := TokSkip(v.rest);
      if t.kind == ArrayEnd then Done(Arr(items + [v.value]), t.rest)
      else if t.kind == ArraySeparator then ReadItems(t.rest, depth, items + [v.value], cf)
      else Failed
  }

  /** A colon and the value of a member. */
  function EntryValue(s: Bytes, depth: nat, cf: Config): (r: Parse)
    ensures r.Done? ==> |r.rest| <= |s|
    decreases |s|, 1
  {
    var colon := Tok(s);
    if colon.kind != MemberSeparator then Failed else ReadValue(colon.rest, depth + 1, cf)
  }

  /** The loop of readObject, after `members`, the last of which was `name`. */
  function ReadMembers(s: Bytes, depth: nat, members: seq<Member>, name: Bytes, cf: Config): (r: Parse)
    ensures r.Done? ==> |r.rest| <= |s|
    decreases |s|, 2
  {
    var t := TokSkip(s);
    if t.kind == ObjectEnd && name == [] then Done(Obj(members), t.rest)
    else
      match NameOf(t, cf)
      case None => Failed
      case Some(key) =>
        var v := EntryValue(t.rest, depth, cf);
        if !v.Done? then v
        else
          var now := Put(members, key, v.value);
          var comma := Tok(v.rest);
          var after := TokSkip(v.rest);
          if comma.kind != ObjectEnd && comma.kind != ArraySeparator && comma.kind != Comment then Failed
          else if after.kind == ObjectEnd then Done(Obj(now), after.rest)
          else ReadMembers(after.rest, depth, now, key, cf)
  }

  /** parse: the value of the document, and whether it is accepted. */
  function ParseDocument(doc: Bytes, cf: Config): Parse
  {
    match ReadValue(doc, 1, cf)
    case Done(v, rest) => if cf.strictRoot && !v.Arr? && !v.Obj? then Failed else Done(v, rest)
    case other => other
  }
}
