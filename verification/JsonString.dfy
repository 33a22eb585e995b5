/**
 * Quoting (json_writer.cpp) and decoding (json_reader.cpp, json_tool.h) of JSON strings. A string is a sequence of
 * bytes.
 */
module JsonString {
  import opened Prelude

  type Byte = c: char | c < 256 as char witness 'a'
  type Bytes = seq<Byte>

  // ---------- UTF-8 ----------

  /** codePointToUTF8 */
  function CodePointToUtf8(cp: nat): Bytes
  {
    if cp <= 0x7f then [cp as char]
    else if cp <= 0x7ff then [(0xc0 + cp / 64 % 32) as char, (0x80 + cp % 64) as char]
    else if cp <= 0xffff then [(0xe0 + cp / 4096 % 16) as char, (0x80 + cp / 64 % 64) as char, (0x80 + cp % 64) as char]
    else if cp <= 0x10ffff then
      [(0xf0 + cp / 262144 % 8) as char, (0x80 + cp / 4096 % 64) as char, (0x80 + cp / 64 % 64) as char,
       (0x80 + cp % 64) as char]
    else []
  }

  const REPLACEMENT: nat := 0xfffd

  /** utf8ToCodepoint: the code point at the front of s, and the number of bytes it takes. */
  function Utf8ToCodePoint(s: Bytes): (r: (nat, nat))
    requires s != []
    ensures 0 < r.1 <= |s|
  {
    var b := s[0] as nat;
    if b < 0x80 then (b, 1)
    else if b < 0xe0 then
      if |s| < 2 then (REPLACEMENT, 1)
      else
        var cp := b % 32 * 64 + s[1] as nat % 64;
        (if cp < 0x80 then REPLACEMENT else cp, 2)
    else if b < 0xf0 then
      if |s| < 3 then (REPLACEMENT, 1)
      else
        var cp := b % 16 * 4096 + s[1] as nat % 64 * 64 + s[2] as nat % 64;
        (if 0xd800 <= cp <= 0xdfff || cp < 0x800 then REPLACEMENT else cp, 3)
    else if b < 0xf8 then
      if |s| < 4 then (REPLACEMENT, 1)
      else
        var cp := b % 8 * 262144 + s[1] as nat % 64 * 4096 + s[2] as nat % 64 * 64 + s[3] as nat % 64;
        (if cp < 0x10000 then REPLACEMENT else cp, 4)
    else (REPLACEMENT, 1)
  }

  predicate Tail(b: Byte) { 0x80 <= b as nat <= 0xbf }

  /** Length of the UTF-8 character at the front of s, by the syntax of section 4 of RFC 3629; 0 if there is none. */
  function Utf8CharLength(s: Bytes): (n: nat)
    ensures n <= |s|
  {
    if s == [] then 0
    else
      var b := s[0] as nat;
      if b <= 0x7f then 1
      else if |s| >= 2 && 0xc2 <= b <= 0xdf && Tail(s[1]) then 2
      else if |s| >= 3 && 0xe0 <= b <= 0xef && Tail(s[1]) && Tail(s[2]) && (b == 0xe0 ==> 0xa0 <= s[1] as nat)
          && (b == 0xed ==> s[1] as nat <= 0x9f) then 3
      else if |s| >= 4 && 0xf0 <= b <= 0xf4 && Tail(s[1]) && Tail(s[2]) && Tail(s[3])
          && (b == 0xf0 ==> 0x90 <= s[1] as nat) && (b == 0xf4 ==> s[1] as nat <= 0x8f) then 4
      else 0
  }

  predicate WellFormed(s: Bytes)
  {
    s == [] || (Utf8CharLength(s) > 0 && WellFormed(s[Utf8CharLength(s)..]))
  }

  /** Code points that are characters. */
  predicate Scalar(cp: nat)
  {
    cp < 0xd800 || 0xdfff < cp <= 0x10ffff
  }

  // ---------- Quoting ----------

  function HexDigit(n: nat): Byte
    requires n < 16
  {
    if n < 10 then (n + '0' as nat) as char else (n - 10 + 'a' as nat) as char
  }

  /** toHex16Bit */
  function ToHex16Bit(x: nat): (s: Bytes)
    requires x < 0x10000
    ensures |s| == 4
  {
    var hi, lo := x / 256, x % 256;
    [HexDigit(hi / 16), HexDigit(hi % 16), HexDigit(lo / 16), HexDigit(lo % 16)]
  }

  function Hex(x: nat): (s: Bytes)
    requires x < 0x10000
    ensures |s| == 6
  {
    "\\u" + ToHex16Bit(x)
  }

  /** What stands for one code point in escaping mode. */
  function EscapedCodePoint(cp: nat): Bytes
  {
    if cp < 0x20 then Hex(cp)
    else if cp < 0x80 then [cp as char]
    else if cp < 0x10000 then Hex(cp)
    else
      var c := cp - 0x10000;
      Hex(0xd800 + c / 1024 % 1024) + Hex(0xdc00 + c % 1024)
  }

  /** The two-character escapes. */
  function ShortEscape(c: Byte): Option<Byte>
  {
    if c == '"' || c == '\\' then Some(c)
    else if c == '\U{8}' then Some('b')
    else if c == '\U{c}' then Some('f')
    else if c == '\n' then Some('n')
    else if c == '\r' then Some('r')
    else if c == '\t' then Some('t')
    else None
  }

  function EscapedFront(s: Bytes, emitUtf8: bool): (r: (Bytes, nat))
    requires s != []
    ensures 0 < r.1 <= |s|
  {
    match ShortEscape(s[0])
    case Some(e) => (['\\', e], 1)
    case None =>
      if emitUtf8 then (if s[0] < ' ' then Hex(s[0] as nat) else [s[0]], 1)
      else
        var (cp, n) := Utf8ToCodePoint(s);
        (EscapedCodePoint(cp), n)
  }

  function Escaped(s: Bytes, emitUtf8: bool): Bytes
  {
    if s == [] then []
    else
      var (front, n) := EscapedFront(s, emitUtf8);
      front + Escaped(s[n..], emitUtf8)
  }

  function Quoted(s: Bytes, emitUtf8: bool): Bytes
  {
    "\"" + Escaped(s, emitUtf8) + "\""
  }

  /** doesAnyCharRequireEscaping */
  predicate NeedsEscape(c: Byte)
  {
    c == '\\' || c == '"' || c < ' ' || c as nat > 0x7f
  }

  lemma {:induction false} NothingToEscape(s: Bytes, emitUtf8: bool)
    requires forall c <- s :: !NeedsEscape(c)
    ensures Escaped(s, emitUtf8) == s
  {
    if s != [] {
      assert s[0] in s && !NeedsEscape(s[0]);
      NothingToEscape(s[1..], emitUtf8);
    }
  }

  /** valueToQuotedStringN */
  method ValueToQuotedStringN(value: Bytes, emitUtf8: bool) returns (result: Bytes)
    ensures result == Quoted(value, emitUtf8)
  {
    hide NeedsEscape, EscapedFront;
    if forall c <- value :: !NeedsEscape(c) {
      NothingToEscape(value, emitUtf8);
      return "\"" + value + "\"";
    }
    result := "\"";
    var c := 0;
    assert value[0..] == value;
    while c < |value|
      invariant 0 <= c <= |value| && result + Escaped(value[c..], emitUtf8) == "\"" + Escaped(value, emitUtf8)
    {
      var (front, n) := EscapedFront(value[c..], emitUtf8);
      assert value[c..][n..] == value[c + n..];
      assert result + (front + Escaped(value[c + n..], emitUtf8))
          == (result + front) + Escaped(value[c + n..], emitUtf8);
      result := result + front;
      c := c + n;
    }
    result := result + "\"";
  }

  // ---------- Scanning and decoding ----------

  /** readString: how many bytes the rest of a string token takes, with its closing quote. */
  function StringEnd(t: Bytes): (r: Option<nat>)
    ensures r.Some? ==> 0 < r.value <= |t| && t[r.value - 1] == '"'
  {
    if t == [] then None
    else if t[0] == '"' then Some(1)
    else
      var n := if t[0] == '\\' && |t| > 1 then 2 else 1;
      match StringEnd(t[n..])
      case None => None
      case Some(k) => Some(n + k)
  }

  function HexValue(c: Byte): Option<nat>
  {
    if '0' <= c <= '9' then Some(c as nat - '0' as nat)
    else if 'a' <= c <= 'f' then Some(c as nat - 'a' as nat + 10)
    else if 'A' <= c <= 'F' then Some(c as nat - 'A' as nat + 10)
    else None
  }

  function HexValueFrom(value: nat, t: Bytes): Option<nat>
    decreases |t|
  {
    if t == [] then Some(value)
    else
      match HexValue(t[0])
      case None => None
      case Some(d) => HexValueFrom(value * 16 + d, t[1..])
  }

  /** decodeUnicodeEscapeSequence */
  function UnicodeEscape(t: Bytes): Option<nat>
  {
    if |t| < 4 then None else HexValueFrom(0, t[..4])
  }

  predicate HighSurrogate(u: nat) { 0xd800 <= u <= 0xdbff }

  /** decodeUnicodeCodePoint: the code point, and the number of bytes after the "\u" that it takes. */
  function UnicodeCodePoint(t: Bytes): (r: Option<(nat, nat)>)
    ensures r.Some? ==> r.value.1 <= |t|
  {
    match UnicodeEscape(t)
    case None => None
    case Some(u) =>
      if !HighSurrogate(u) then Some((u, 4))
      else if |t| < 10 || t[4] != '\\' || t[5] != 'u' then None
      else
        match UnicodeEscape(t[6..])
        case None => None
        case Some(v) => Some((0x10000 + u % 1024 * 1024 + v % 1024, 10))
  }

  /** The byte a two-character escape stands for. */
  function Unescape(e: Byte): Option<Byte>
  {
    if e == '"' || e == '/' || e == '\\' then Some(e)
    else if e == 'b' then Some('\U{8}')
    else if e == 'f' then Some('\U{c}')
    else if e == 'n' then Some('\n')
    else if e == 'r' then Some('\r')
    else if e == 't' then Some('\t')
    else None
  }

  function Prepend(front: Bytes, r: Option<Bytes>): Option<Bytes>
  {
    match r case None => None case Some(s) => Some(front + s)
  }

  /** What the text between the quotes of a string token stands for. */
  function Decoded(t: Bytes): Option<Bytes>
  {
    if t == [] || t[0] == '"' then Some([])
    else if t[0] != '\\' then Prepend([t[0]], Decoded(t[1..]))
    else if |t| == 1 then None
    else if t[1] == 'u' then
      match UnicodeCodePoint(t[2..])
      case None => None
      case Some((cp, n)) => Prepend(CodePointToUtf8(cp), Decoded(t[2 + n..]))
    else
      match Unescape(t[1])
      case None => None
      case Some(c) => Prepend([c], Decoded(t[2..]))
  }

  /** decodeUnicodeEscapeSequence on the bytes up to the end of the string */
  method DecodeUnicodeEscapeSequence(t: Bytes) returns (r: Option<nat>)
    ensures r == UnicodeEscape(t)
  {
    if |t| < 4 {
      return None;
    }
    var unicode: nat, index := 0, 0;
    while index < 4
      invariant 0 <= index <= 4 && HexValueFrom(unicode, t[..4][index..]) == UnicodeEscape(t)
    {
      var d := HexValue(t[index]);
      if d == None {
        return None;
      }
      assert t[..4][index..][1..] == t[..4][index + 1..];
      unicode := unicode * 16 + d.value;
      index := index + 1;
    }
    r := Some(unicode);
  }

  /** decodeUnicodeCodePoint */
  method DecodeUnicodeCodePoint(t: Bytes) returns (r: Option<(nat, nat)>)
    ensures r == UnicodeCodePoint(t)
  {
    var u := DecodeUnicodeEscapeSequence(t);
    if u == None {
      return None;
    }
    if !HighSurrogate(u.value) {
      return Some((u.value, 4));
    }
    if |t| - 4 < 6 {
      return None;
    }
    if !(t[4] == '\\' && t[5] == 'u') {
      return None;
    }
    var v := DecodeUnicodeEscapeSequence(t[6..]);
    if v == None {
      return None;
    }
    r := Some((0x10000 + u.value % 1024 * 1024 + v.value % 1024, 10));
  }

  lemma PrependTwice(a: Bytes, b: Bytes, r: Option<Bytes>)
    ensures Prepend(a, Prepend(b, r)) == Prepend(a + b, r)
  {
    if r.Some? { assert a + (b + r.value) == (a + b) + r.value; }
  }

  lemma DropTwice(t: Bytes, i: nat, k: nat)
    requires i + k <= |t|
    ensures t[i..][k..] == t[i + k..]
  {
  }

  /** decodeString on the text between the quotes */
  method DecodeString(text: Bytes) returns (r: Option<Bytes>)
    ensures r == Decoded(text)
  {
    hide Prepend, UnicodeCodePoint, CodePointToUtf8, Unescape;
    var decoded: Bytes, current := [], 0;
    PrependNothing(Decoded(text));
    assert text[0..] == text;
    while current < |text|
      invariant 0 <= current <= |text| && Prepend(decoded, Decoded(text[current..])) == Decoded(text)
    {
      ghost var rest := text[current..];
      PrependEmpty(decoded);
      PrependFailed(decoded);
      var c := text[current];
      current := current + 1;
      DropTwice(text, current - 1, 1);
      var piece: Bytes := [c];
      if c == '"' {
        break;
      }
      if c == '\\' {
        if current == |text| {
          return None;
        }
        var escape := text[current];
        current := current + 1;
        DropTwice(text, current - 2, 2);
        if escape == 'u' {
          var u := DecodeUnicodeCodePoint(text[current..]);
          if u == None {
            return None;
          }
          piece := CodePointToUtf8(u.value.0);
          DropTwice(text, current - 2, 2 + u.value.1);
          current := current + u.value.1;
        } else {
          var e := Unescape(escape);
          if e == None {
            return None;
          }
          piece := [e.value];
        }
      }
      PrependTwice(decoded, piece, Decoded(text[current..]));
      decoded := decoded + piece;
    }
    PrependEmpty(decoded);
    r := Some(decoded);
  }

  lemma PrependNothing(r: Option<Bytes>)
    ensures Prepend([], r) == r
  {
    if r.Some? { assert [] + r.value == r.value; }
  }

  lemma PrependEmpty(a: Bytes)
    ensures Prepend(a, Some([])) == Some(a)
  {
    assert a + [] == a;
  }

  lemma PrependFailed(a: Bytes)
    ensures Prepend(a, None) == None
  {
  }

  // ---------- Decoding undoes quoting ----------

  lemma HexDigitBack(n: nat)
    requires n < 16
    ensures HexValue(HexDigit(n)) == Some(n)
  {
  }

  lemma HexStep(value: nat, d: nat, t: Bytes)
    requires d < 16
    ensures HexValueFrom(value, [HexDigit(d)] + t) == HexValueFrom(value * 16 + d, t)
  {
    HexDigitBack(d);
    assert ([HexDigit(d)] + t)[1..] == t;
  }

  lemma HexBack(x: nat, rest: Bytes)
    requires x < 0x10000
    ensures UnicodeEscape(ToHex16Bit(x) + rest) == Some(x)
  {
    hide HexDigit, HexValue;
    var a, b, c, d := x / 256 / 16, x / 256 % 16, x % 256 / 16, x % 256 % 16;
    assert ToHex16Bit(x) == [HexDigit(a)] + ([HexDigit(b)] + ([HexDigit(c)] + ([HexDigit(d)] + [])));
    assert (ToHex16Bit(x) + rest)[..4] == ToHex16Bit(x);
    HexStep(0, a, [HexDigit(b)] + ([HexDigit(c)] + ([HexDigit(d)] + [])));
    HexStep(a, b, [HexDigit(c)] + ([HexDigit(d)] + []));
    HexStep(a * 16 + b, c, [HexDigit(d)] + []);
    HexStep((a * 16 + b) * 16 + c, d, []);
  }

  lemma DecodeHex(x: nat, rest: Bytes)
    requires x < 0x10000 && !HighSurrogate(x)
    ensures Decoded(Hex(x) + rest) == Prepend(CodePointToUtf8(x), Decoded(rest))
  {
    hide UnicodeEscape, ToHex16Bit, CodePointToUtf8;
    var t := Hex(x) + rest;
    HexBack(x, rest);
    assert t[2..] == ToHex16Bit(x) + rest && t[6..] == rest;
  }

  lemma DecodePair(c: nat, rest: Bytes)
    requires c < 0x100000
    ensures Decoded(Hex(0xd800 + c / 1024) + Hex(0xdc00 + c % 1024) + rest)
              == Prepend(CodePointToUtf8(0x10000 + c), Decoded(rest))
  {
    hide UnicodeEscape, ToHex16Bit, CodePointToUtf8;
    var u, v := 0xd800 + c / 1024, 0xdc00 + c % 1024;
    var more := Hex(v) + rest;
    var t := Hex(u) + Hex(v) + rest;
    HexBack(u, more);
    HexBack(v, rest);
    assert t[2..] == ToHex16Bit(u) + more;
    assert t[2..][6..] == ToHex16Bit(v) + rest;
    assert t[12..] == rest;
    assert u % 1024 * 1024 + v % 1024 == c;
  }

  /** The code point that comes back: one beyond Unicode loses its highest bits. */
  function Shown(cp: nat): (r: nat)
    requires Scalar(cp) || 0x10ffff < cp
    ensures Scalar(r)
  {
    if cp < 0x10000 then cp else 0x10000 + (cp - 0x10000) % 0x100000
  }

  lemma CodePointIsShowable(s: Bytes)
    requires s != []
    ensures var cp := Utf8ToCodePoint(s).0; Scalar(cp) || 0x10ffff < cp
  {
  }

  lemma DecodeRaw(c: Byte, rest: Bytes)
    requires c != '"' && c != '\\'
    ensures Decoded([c] + rest) == Prepend([c], Decoded(rest))
  {
    assert ([c] + rest)[1..] == rest;
  }

  lemma PairParts(x: nat)
    ensures x / 1024 % 1024 == x % 0x100000 / 1024 && x % 1024 == x % 0x100000 % 1024
  {
  }

  lemma DecodeSurrogates(x: nat, rest: Bytes)
    ensures Decoded(Hex(0xd800 + x / 1024 % 1024) + Hex(0xdc00 + x % 1024) + rest)
              == Prepend(CodePointToUtf8(0x10000 + x % 0x100000), Decoded(rest))
  {
    hide Decoded, Hex, CodePointToUtf8;
    PairParts(x);
    DecodePair(x % 0x100000, rest);
  }

  lemma AsciiUtf8(cp: nat)
    requires cp < 0x80
    ensures CodePointToUtf8(cp) == [cp as char]
  {
  }

  lemma DecodeCodePoint(cp: nat, rest: Bytes)
    requires Scalar(cp) || 0x10ffff < cp
    requires cp != '"' as nat && cp != '\\' as nat
    ensures Decoded(EscapedCodePoint(cp) + rest) == Prepend(CodePointToUtf8(Shown(cp)), Decoded(rest))
  {
    hide Decoded, Hex, CodePointToUtf8;
    if cp < 0x20 || 0x80 <= cp < 0x10000 {
      DecodeHex(cp, rest);
    } else if cp < 0x80 {
      DecodeRaw(cp as char, rest);
      AsciiUtf8(cp);
    } else {
      DecodeSurrogates(cp - 0x10000, rest);
    }
  }

  /** What is left of a string after quoting and decoding: malformed UTF-8 is replaced. */
  function Repaired(s: Bytes): Bytes
  {
    if s == [] then []
    else
      Shown1(s) + Repaired(s[Utf8ToCodePoint(s).1..])
  }

  lemma DecodeShort(c: Byte, rest: Bytes)
    requires ShortEscape(c).Some?
    ensures Decoded(['\\', ShortEscape(c).value] + rest) == Prepend([c], Decoded(rest))
  {
    hide UnicodeCodePoint, CodePointToUtf8;
    var e := ShortEscape(c).value;
    var t := ['\\', e] + rest;
    assert e != 'u' && Unescape(e) == Some(c);
    assert t[2..] == rest;
  }

  function Shown1(s: Bytes): Bytes
    requires s != []
  {
    CodePointIsShowable(s);
    CodePointToUtf8(Shown(Utf8ToCodePoint(s).0))
  }

  lemma DecodeFront(s: Bytes, emitUtf8: bool, rest: Bytes)
    requires s != []
    ensures var (front, n) := EscapedFront(s, emitUtf8);
      && Decoded(front + rest) == Prepend(if emitUtf8 then [s[0]] else Shown1(s), Decoded(rest))
      && n == if emitUtf8 then 1 else Utf8ToCodePoint(s).1
  {
    hide Decoded, EscapedCodePoint;
    CodePointIsShowable(s);
    if ShortEscape(s[0]).Some? {
      DecodeShort(s[0], rest);
    } else if emitUtf8 {
      if s[0] < ' ' {
        DecodeHex(s[0] as nat, rest);
      } else {
        DecodeRaw(s[0], rest);
      }
    } else {
      DecodeCodePoint(Utf8ToCodePoint(s).0, rest);
    }
  }

  lemma EscapedStep(s: Bytes, emitUtf8: bool, tail: Bytes)
    ensures Escaped(s, emitUtf8) + tail ==
      if s == [] then tail
      else
        var (front, n) := EscapedFront(s, emitUtf8);
        front + (Escaped(s[n..], emitUtf8) + tail)
  {
    hide EscapedFront;
    if s == [] {
      assert Escaped(s, emitUtf8) + tail == tail;
    } else {
      var (front, n) := EscapedFront(s, emitUtf8);
      var more := Escaped(s[n..], emitUtf8);
      assert (front + more) + tail == front + (more + tail);
    }
  }

  lemma DecodeEnd(tail: Bytes)
    requires tail == [] || tail[0] == '"'
    ensures Decoded(tail) == Some([])
  {
  }

  /**
   * A quoted string decodes, at its end or at its closing quote: to itself when UTF-8 is emitted, and repaired
   * otherwise.
   */
  lemma {:induction false} DecodeEscaped(s: Bytes, emitUtf8: bool, tail: Bytes)
    requires tail == [] || tail[0] == '"'
    ensures Decoded(Escaped(s, emitUtf8) + tail) == Some(if emitUtf8 then s else Repaired(s))
    decreases |s|
  {
    hide EscapedFront, Shown1, Utf8ToCodePoint, Escaped, Decoded;
    EscapedStep(s, emitUtf8, tail);
    if s == [] {
      DecodeEnd(tail);
    } else {
      var (front, n) := EscapedFront(s, emitUtf8);
      DecodeFront(s, emitUtf8, Escaped(s[n..], emitUtf8) + tail);
      DecodeEscaped(s[n..], emitUtf8, tail);
      assert s == [s[0]] + s[1..];
    }
  }

  lemma EncodedCharacter2(cp: nat, rest: Bytes)
    requires 0x80 <= cp <= 0x7ff
    ensures Utf8CharLength(CodePointToUtf8(cp) + rest) == |CodePointToUtf8(cp)|
  {
  }

  lemma EncodedCharacter3(cp: nat, rest: Bytes)
    requires 0x800 <= cp <= 0xffff && Scalar(cp)
    ensures Utf8CharLength(CodePointToUtf8(cp) + rest) == |CodePointToUtf8(cp)|
  {
  }

  lemma EncodedCharacter4(cp: nat, rest: Bytes)
    requires 0x10000 <= cp <= 0x10ffff
    ensures Utf8CharLength(CodePointToUtf8(cp) + rest) == |CodePointToUtf8(cp)|
  {
  }

  /** UTF-8 encoding a character gives a character of the RFC. */
  lemma EncodedCharacter(cp: nat, rest: Bytes)
    requires Scalar(cp)
    ensures CodePointToUtf8(cp) != [] && Utf8CharLength(CodePointToUtf8(cp) + rest) == |CodePointToUtf8(cp)|
  {
    if 0x80 <= cp <= 0x7ff {
      EncodedCharacter2(cp, rest);
    } else if 0x800 <= cp <= 0xffff {
      EncodedCharacter3(cp, rest);
    } else if 0x10000 <= cp {
      EncodedCharacter4(cp, rest);
    }
  }

  /** Reading the parts of a number back, in base 64. */
  lemma Parts(a: nat, b: nat, c: nat, d: nat)
    requires b < 64 && c < 64 && d < 64
    ensures var x := ((a * 64 + b) * 64 + c) * 64 + d; x % 64 == d && x / 64 == (a * 64 + b) * 64 + c
  {
  }

  lemma Parts4(a: nat, b: nat, c: nat, d: nat)
    requires a < 64 && b < 64 && c < 64 && d < 64
    ensures var x := ((a * 64 + b) * 64 + c) * 64 + d;
      x % 64 == d && x / 64 % 64 == c && x / 4096 % 64 == b && x / 262144 == a
  {
    Parts(a, b, c, d);
    Parts(0, a, b, c);
    Parts(0, 0, a, b);
    var x := ((a * 64 + b) * 64 + c) * 64 + d;
    assert x / 4096 == x / 64 / 64 && x / 262144 == x / 64 / 64 / 64;
  }

  lemma ReadCharacter2(s: Bytes)
    requires Utf8CharLength(s) == 2
    ensures var (cp, n) := Utf8ToCodePoint(s); n == 2 && Scalar(cp) && CodePointToUtf8(cp) == s[..2]
  {
    var b, c := s[0] as nat - 0xc0, s[1] as nat - 0x80;
    Parts4(0, 0, b, c);
    assert Utf8ToCodePoint(s).0 == b * 64 + c;
  }

  lemma Compose3(b: nat, c: nat, d: nat)
    requires b < 16 && c < 64 && d < 64 && (b == 0 ==> c >= 32)
    ensures CodePointToUtf8((b * 64 + c) * 64 + d) == [(0xe0 + b) as char, (0x80 + c) as char, (0x80 + d) as char]
  {
    Parts4(0, b, c, d);
  }

  lemma ReadCharacter3(s: Bytes)
    requires Utf8CharLength(s) == 3
    ensures var (cp, n) := Utf8ToCodePoint(s); n == 3 && Scalar(cp) && CodePointToUtf8(cp) == s[..3]
  {
    hide CodePointToUtf8;
    var b, c, d := s[0] as nat - 0xe0, s[1] as nat - 0x80, s[2] as nat - 0x80;
    assert Utf8ToCodePoint(s).0 == (b * 64 + c) * 64 + d;
    Compose3(b, c, d);
  }

  lemma Compose4(a: nat, b: nat, c: nat, d: nat)
    requires a < 5 && b < 64 && c < 64 && d < 64 && (a == 0 ==> b >= 16) && (a == 4 ==> b < 16)
    ensures CodePointToUtf8(((a * 64 + b) * 64 + c) * 64 + d)
              == [(0xf0 + a) as char, (0x80 + b) as char, (0x80 + c) as char, (0x80 + d) as char]
  {
    Parts4(a, b, c, d);
  }

  lemma ReadCharacter4(s: Bytes)
    requires Utf8CharLength(s) == 4
    ensures var (cp, n) := Utf8ToCodePoint(s); n == 4 && cp <= 0x10ffff && Scalar(cp) && CodePointToUtf8(cp) == s[..4]
  {
    hide CodePointToUtf8;
    var a, b, c, d := s[0] as nat - 0xf0, s[1] as nat - 0x80, s[2] as nat - 0x80, s[3] as nat - 0x80;
    assert Utf8ToCodePoint(s).0 == ((a * 64 + b) * 64 + c) * 64 + d;
    Compose4(a, b, c, d);
  }

  /** A character of the RFC is read as the code point that encodes to it. */
  lemma ReadCharacter(s: Bytes)
    requires Utf8CharLength(s) > 0
    ensures var (cp, n) := Utf8ToCodePoint(s);
      n == Utf8CharLength(s) && cp <= 0x10ffff && Scalar(cp) && CodePointToUtf8(cp) == s[..n]
  {
    if Utf8CharLength(s) == 2 {
      ReadCharacter2(s);
    } else if Utf8CharLength(s) == 3 {
      ReadCharacter3(s);
    } else if Utf8CharLength(s) == 4 {
      ReadCharacter4(s);
    }
  }

  lemma WellFormedFront(a: Bytes, rest: Bytes)
    requires a != [] && Utf8CharLength(a + rest) == |a|
    ensures WellFormed(a + rest) <==> WellFormed(rest)
  {
    hide Utf8CharLength;
    assert (a + rest)[|a|..] == rest;
  }

  lemma {:induction false} RepairedIsWellFormed(s: Bytes)
    ensures WellFormed(Repaired(s))
    decreases |s|
  {
    hide CodePointToUtf8, Utf8ToCodePoint, Utf8CharLength, WellFormed;
    if s == [] {
      assert WellFormed([]) by { WellFormedNone(); }
    } else {
      CodePointIsShowable(s);
      var (cp, n) := Utf8ToCodePoint(s);
      RepairedIsWellFormed(s[n..]);
      EncodedCharacter(Shown(cp), Repaired(s[n..]));
      WellFormedFront(Shown1(s), Repaired(s[n..]));
    }
  }

  lemma WellFormedNone()
    ensures WellFormed([])
  {
  }

  lemma {:induction false} WellFormedIsKept(s: Bytes)
    requires WellFormed(s)
    ensures Repaired(s) == s
    decreases |s|
  {
    hide CodePointToUtf8, Utf8ToCodePoint, Utf8CharLength;
    if s != [] {
      CodePointIsShowable(s);
      ReadCharacter(s);
      var n := Utf8ToCodePoint(s).1;
      WellFormedIsKept(s[n..]);
      assert s == s[..n] + s[n..];
    }
  }

  /** In escaping mode quoting and decoding is the identity on well-formed UTF-8, and on nothing else. */
  lemma QuoteThenDecode(s: Bytes)
    ensures Decoded(Escaped(s, false)) == Some(s) <==> WellFormed(s)
  {
    hide WellFormed, Decoded, Escaped, Repaired;
    assert Escaped(s, false) + [] == Escaped(s, false);
    DecodeEscaped(s, false, []);
    RepairedIsWellFormed(s);
    if WellFormed(s) {
      WellFormedIsKept(s);
    }
  }

  /** A byte that begins no character does not come back. */
  lemma StrayByte()
    ensures Decoded(Escaped(['\U{ff}'], false)) != Some(['\U{ff}'])
  {
    assert Utf8CharLength(['\U{ff}']) == 0;
    QuoteThenDecode(['\U{ff}']);
  }

  /** When UTF-8 is emitted it is the identity on all strings of bytes. */
  lemma QuoteThenDecodeUtf8(s: Bytes)
    ensures Decoded(Escaped(s, true)) == Some(s)
  {
    assert Escaped(s, true) + [] == Escaped(s, true);
    DecodeEscaped(s, true, []);
  }

  // ---------- The scanner stops where the writer closed the quote ----------

  function Further(n: nat, r: Option<nat>): Option<nat>
  {
    match r case None => None case Some(k) => Some(n + k)
  }

  lemma ScanRaw(c: Byte, rest: Bytes)
    requires c != '"' && c != '\\'
    ensures StringEnd([c] + rest) == Further(1, StringEnd(rest))
  {
    assert ([c] + rest)[1..] == rest;
  }

  lemma ScanEscape(e: Byte, rest: Bytes)
    ensures StringEnd(['\\', e] + rest) == Further(2, StringEnd(rest))
  {
    assert (['\\', e] + rest)[2..] == rest;
  }

  lemma ScanHex(x: nat, rest: Bytes)
    requires x < 0x10000
    ensures StringEnd(Hex(x) + rest) == Further(6, StringEnd(rest))
  {
    hide StringEnd;
    var h := ToHex16Bit(x);
    assert Hex(x) + rest == ['\\', 'u'] + ([h[0]] + ([h[1]] + ([h[2]] + ([h[3]] + rest))));
    ScanEscape('u', [h[0]] + ([h[1]] + ([h[2]] + ([h[3]] + rest))));
    ScanRaw(h[0], [h[1]] + ([h[2]] + ([h[3]] + rest)));
    ScanRaw(h[1], [h[2]] + ([h[3]] + rest));
    ScanRaw(h[2], [h[3]] + rest);
    ScanRaw(h[3], rest);
  }

  lemma ScanPair(hi: nat, lo: nat, rest: Bytes)
    requires hi < 0x10000 && lo < 0x10000
    ensures StringEnd(Hex(hi) + Hex(lo) + rest) == Further(12, StringEnd(rest))
  {
    hide StringEnd, Hex;
    assert Hex(hi) + Hex(lo) + rest == Hex(hi) + (Hex(lo) + rest);
    ScanHex(hi, Hex(lo) + rest);
    ScanHex(lo, rest);
  }

  lemma ScanCodePoint(cp: nat, rest: Bytes)
    requires cp != '"' as nat && cp != '\\' as nat
    ensures var front := EscapedCodePoint(cp); StringEnd(front + rest) == Further(|front|, StringEnd(rest))
  {
    hide StringEnd, Hex;
    if cp < 0x20 || 0x80 <= cp < 0x10000 {
      ScanHex(cp, rest);
    } else if cp < 0x80 {
      ScanRaw(cp as char, rest);
    } else {
      ScanPair(0xd800 + (cp - 0x10000) / 1024 % 1024, 0xdc00 + (cp - 0x10000) % 1024, rest);
    }
  }

  lemma ScanFront(s: Bytes, emitUtf8: bool, rest: Bytes)
    requires s != []
    ensures var front := EscapedFront(s, emitUtf8).0; StringEnd(front + rest) == Further(|front|, StringEnd(rest))
  {
    hide StringEnd, EscapedCodePoint;
    if ShortEscape(s[0]).Some? {
      ScanEscape(ShortEscape(s[0]).value, rest);
    } else if emitUtf8 {
      if s[0] < ' ' {
        ScanHex(s[0] as nat, rest);
      } else {
        ScanRaw(s[0], rest);
      }
    } else {
      ScanCodePoint(Utf8ToCodePoint(s).0, rest);
    }
  }

  lemma ScanClose(rest: Bytes)
    ensures StringEnd("\"" + rest) == Some(1)
  {
  }

  /** readString ends a quoted string at the quote that closes it. */
  lemma {:induction false} ScanEscaped(s: Bytes, emitUtf8: bool, rest: Bytes)
    ensures StringEnd(Escaped(s, emitUtf8) + ("\"" + rest)) == Some(|Escaped(s, emitUtf8)| + 1)
    decreases |s|
  {
    hide EscapedFront, StringEnd;
    EscapedStep(s, emitUtf8, "\"" + rest);
    if s == [] {
      ScanClose(rest);
    } else {
      var n := EscapedFront(s, emitUtf8).1;
      ScanFront(s, emitUtf8, Escaped(s[n..], emitUtf8) + ("\"" + rest));
      ScanEscaped(s[n..], emitUtf8, rest);
    }
  }
}
