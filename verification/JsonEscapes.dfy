/**
 * The escapes of JSON strings, digit by digit and letter by letter: what the reader (json_reader.cpp) takes each for
 * and what the writer (json_writer.cpp) writes.
 */
module JsonEscapes {
  import opened Prelude
  import opened JsonString

  const LOWER: Bytes := "0123456789abcdef"
  const UPPER: Bytes := "0123456789ABCDEF"

  /** c is the hexadecimal digit for d, in lower or upper case. */
  predicate Means(c: Byte, d: nat)
  {
    d < 16 && (c == LOWER[d] || c == UPPER[d])
  }

  // ---------- Hexadecimal digits ----------

  lemma DigitMeans(c: Byte, d: nat)
    ensures Means(c, d) <==> HexValue(c) == Some(d)
  {
    if c <= '9' {
      assert Means(c, d) ==> d == c as int - 48;
      if '0' <= c { assert LOWER[c as int - 48] == c; }
    } else if 'a' <= c <= 'f' {
      assert LOWER[c as int - 97 + 10] == c;
    } else if 'A' <= c <= 'F' {
      assert UPPER[c as int - 65 + 10] == c;
    }
  }

  lemma ValueStep(value: nat, c: Byte, d: nat, t: Bytes)
    requires Means(c, d)
    ensures HexValueFrom(value, [c] + t) == HexValueFrom(value * 16 + d, t)
  {
    DigitMeans(c, d);
    assert ([c] + t)[1..] == t;
  }

  /** Four digits of either case, in any mixture, are the number that they denote. */
  lemma FourDigits(s: Bytes, a: nat, b: nat, c: nat, d: nat, rest: Bytes)
    requires |s| == 4 && Means(s[0], a) && Means(s[1], b) && Means(s[2], c) && Means(s[3], d)
    ensures UnicodeEscape(s + rest) == Some(a * 4096 + b * 256 + c * 16 + d)
  {
    hide HexValue, Means;
    assert s == [s[0]] + ([s[1]] + ([s[2]] + ([s[3]] + [])));
    assert (s + rest)[..4] == s;
    ValueStep(0, s[0], a, [s[1]] + ([s[2]] + ([s[3]] + [])));
    ValueStep(a, s[1], b, [s[2]] + ([s[3]] + []));
    ValueStep(a * 16 + b, s[2], c, [s[3]] + []);
    ValueStep((a * 16 + b) * 16 + c, s[3], d, []);
  }

  lemma {:induction false} NoDigit(value: nat, t: Bytes, i: nat)
    requires i < |t| && HexValue(t[i]) == None
    ensures HexValueFrom(value, t) == None
    decreases i
  {
    if i > 0 && HexValue(t[0]).Some? {
      NoDigit(value * 16 + HexValue(t[0]).value, t[1..], i - 1);
    }
  }

  /** A sequence that is too short, or has another byte among its four, is refused; every other is read. */
  lemma NotFourDigits(t: Bytes)
    ensures UnicodeEscape(t) == None
        <==> |t| < 4 || exists i | 0 <= i < 4 :: t[i] !in LOWER && t[i] !in UPPER
  {
    if |t| >= 4 {
      assert forall c: Byte :: (c in LOWER || c in UPPER) <==> HexValue(c).Some? by {
        forall c: Byte
          ensures (c in LOWER || c in UPPER) <==> HexValue(c).Some?
        {
          if HexValue(c).Some? {
            DigitMeans(c, HexValue(c).value);
          } else if c in LOWER {
            var d :| 0 <= d < |LOWER| && LOWER[d] == c;
            DigitMeans(c, d);
          } else if c in UPPER {
            var d :| 0 <= d < |UPPER| && UPPER[d] == c;
            DigitMeans(c, d);
          }
        }
      }
      if i :| 0 <= i < 4 && t[i] !in LOWER && t[i] !in UPPER {
        NoDigit(0, t[..4], i);
      } else {
        var a, b, c, d := HexValue(t[0]).value, HexValue(t[1]).value, HexValue(t[2]).value, HexValue(t[3]).value;
        DigitMeans(t[0], a);
        DigitMeans(t[1], b);
        DigitMeans(t[2], c);
        DigitMeans(t[3], d);
        assert t == t[..4] + t[4..];
        FourDigits(t[..4], a, b, c, d, t[4..]);
      }
    }
  }

  // ---------- What escapes stand for ----------

  lemma DecodeTwo(e: Byte, c: Byte, rest: Bytes)
    requires e != 'u' && Unescape(e) == Some(c)
    ensures Decoded(['\\', e] + rest) == Prepend([c], Decoded(rest))
  {
    hide UnicodeCodePoint, CodePointToUtf8, Unescape;
    assert (['\\', e] + rest)[2..] == rest;
  }

  /** The two-character escapes of section 7 of RFC 8259. */
  lemma ShortEscapes(rest: Bytes)
    ensures Decoded("\\\"" + rest) == Prepend("\"", Decoded(rest))
    ensures Decoded("\\\\" + rest) == Prepend("\\", Decoded(rest))
    ensures Decoded("\\/" + rest) == Prepend("/", Decoded(rest))
    ensures Decoded("\\b" + rest) == Prepend([8 as char], Decoded(rest))
    ensures Decoded("\\f" + rest) == Prepend([12 as char], Decoded(rest))
    ensures Decoded("\\n" + rest) == Prepend([10 as char], Decoded(rest))
    ensures Decoded("\\r" + rest) == Prepend([13 as char], Decoded(rest))
    ensures Decoded("\\t" + rest) == Prepend([9 as char], Decoded(rest))
  {
    hide Decoded, Prepend;
    DecodeTwo('"', '"', rest);
    DecodeTwo('\\', '\\', rest);
    DecodeTwo('/', '/', rest);
    DecodeTwo('b', 8 as char, rest);
    DecodeTwo('f', 12 as char, rest);
    DecodeTwo('n', 10 as char, rest);
    DecodeTwo('r', 13 as char, rest);
    DecodeTwo('t', 9 as char, rest);
  }

  /** No other letter but u may follow a backslash, and a backslash does not stand at the end. */
  lemma OtherEscapes(e: Byte, rest: Bytes)
    requires e !in "\"\\/bfnrtu"
    ensures Decoded(['\\', e] + rest) == None && Decoded("\\") == None
  {
    hide UnicodeCodePoint, CodePointToUtf8;
    var letters := "\"\\/bfnrtu";
    assert letters[0] != e && letters[1] != e && letters[2] != e && letters[3] != e && letters[4] != e;
    assert letters[5] != e && letters[6] != e && letters[7] != e && letters[8] != e;
    assert (['\\', e] + rest)[0] == '\\' && (['\\', e] + rest)[1] == e;
  }

  /** Bytes that are neither a quote nor a backslash stand for themselves, those above 127 and controls included. */
  lemma PlainByte(c: Byte, rest: Bytes)
    requires c != '"' && c != '\\'
    ensures Decoded([c] + rest) == Prepend([c], Decoded(rest))
  {
    DecodeRaw(c, rest);
  }

  lemma DecodeU(s: Bytes, rest: Bytes)
    requires |s| == 4
    ensures var r := UnicodeCodePoint(s + rest);
            Decoded("\\u" + s + rest) ==
              if r == None then None
              else Prepend(CodePointToUtf8(r.value.0), Decoded((s + rest)[r.value.1..]))
  {
    hide UnicodeCodePoint, CodePointToUtf8;
    var t := "\\u" + s + rest;
    assert t[0] == '\\' && t[1] == 'u' && t[2..] == s + rest;
    if UnicodeCodePoint(s + rest).Some? {
      var n := UnicodeCodePoint(s + rest).value.1;
      DropTwice(t, 2, n);
    }
  }

  /** Four digits that are no high surrogate stand for their code point, a low surrogate on its own included. */
  lemma LoneUnit(s: Bytes, u: nat, rest: Bytes)
    requires |s| == 4 && UnicodeEscape(s + rest) == Some(u) && (u < 0xd800 || 0xdbff < u)
    ensures Decoded("\\u" + s + rest) == Prepend(CodePointToUtf8(u), Decoded(rest))
  {
    hide Decoded, Prepend, CodePointToUtf8, UnicodeEscape;
    DecodeU(s, rest);
    assert (s + rest)[4..] == rest;
  }

  /**
   * Behind a high surrogate a second "\u" and four digits must stand; its lower ten bits count, whether it is a low
   * surrogate or not.
   */
  lemma SurrogatePair(s: Bytes, u: nat, z: Bytes, v: nat, rest: Bytes)
    requires |s| == 4 && UnicodeEscape(s + ("\\u" + z + rest)) == Some(u) && 0xd800 <= u <= 0xdbff
    requires |z| == 4 && UnicodeEscape(z + rest) == Some(v)
    ensures Decoded("\\u" + s + ("\\u" + z + rest))
              == Prepend(CodePointToUtf8(0x10000 + (u - 0xd800) * 1024 + v % 1024), Decoded(rest))
  {
    hide Decoded, Prepend, CodePointToUtf8, UnicodeEscape;
    var more := "\\u" + z + rest;
    DecodeU(s, more);
    var t := s + more;
    assert t[4] == '\\' && t[5] == 'u' && t[6..] == z + rest && t[10..] == rest;
    assert u % 1024 == u - 0xd800;
  }

  /** The letter A behind a high surrogate, as an escape, is read as its other half. */
  lemma OddPair()
    ensures Decoded("\\ud800\\u0041") == Some(CodePointToUtf8(0x10041))
  {
    hide Decoded, CodePointToUtf8;
    var s, z: Bytes := "d800", "0041";
    FourDigits(s, 13, 8, 0, 0, "\\u" + z + []);
    FourDigits(z, 0, 0, 4, 1, []);
    SurrogatePair(s, 0xd800, z, 0x41, []);
    DecodeEnd([]);
    assert "\\u" + s + ("\\u" + z + []) == "\\ud800\\u0041";
    assert CodePointToUtf8(0x10041) + [] == CodePointToUtf8(0x10041);
  }

  lemma HalfPair(s: Bytes, u: nat, rest: Bytes)
    requires |s| == 4 && UnicodeEscape(s + rest) == Some(u) && 0xd800 <= u <= 0xdbff
    requires |rest| < 6 || rest[..2] != "\\u" || UnicodeEscape(rest[2..]) == None
    ensures Decoded("\\u" + s + rest) == None
  {
    hide Decoded, Prepend, CodePointToUtf8, UnicodeEscape;
    DecodeU(s, rest);
    var t := s + rest;
    if |rest| >= 6 {
      assert t[4] == rest[0] && t[5] == rest[1] && t[6..] == rest[2..];
      if t[4] == '\\' && t[5] == 'u' {
        assert rest[..2] == "\\u";
      }
    }
  }

  lemma Layout2(c: nat, d: nat)
    requires c < 32 && d < 64
    ensures c < 2 ==> CodePointToUtf8(c * 64 + d) == [(c * 64 + d) as char]
    ensures 2 <= c ==> CodePointToUtf8(c * 64 + d) == [(192 + c) as char, (128 + d) as char]
  {
    Parts4(0, 0, c, d);
  }

  /** UTF-8, as section 3 of RFC 3629 lays out its bits. */
  lemma Utf8Layout(a: nat, b: nat, c: nat, d: nat)
    requires b < 64 && c < 64 && d < 64
    ensures d < 64 && c < 2 ==> CodePointToUtf8(c * 64 + d) == [(c * 64 + d) as char]
    ensures 2 <= c < 32 ==> CodePointToUtf8(c * 64 + d) == [(192 + c) as char, (128 + d) as char]
    ensures b < 16 && (b == 0 ==> c >= 32) ==>
              CodePointToUtf8(b * 4096 + c * 64 + d) == [(224 + b) as char, (128 + c) as char, (128 + d) as char]
    ensures a < 5 && (a == 0 ==> b >= 16) && (a == 4 ==> b < 16) ==>
              CodePointToUtf8(a * 262144 + b * 4096 + c * 64 + d)
                == [(240 + a) as char, (128 + b) as char, (128 + c) as char, (128 + d) as char]
  {
    hide CodePointToUtf8;
    if c < 32 {
      Layout2(c, d);
    }
    if b < 16 && (b == 0 ==> c >= 32) {
      Compose3(b, c, d);
      assert (b * 64 + c) * 64 + d == b * 4096 + c * 64 + d;
    }
    if a < 5 && (a == 0 ==> b >= 16) && (a == 4 ==> b < 16) {
      Compose4(a, b, c, d);
      assert ((a * 64 + b) * 64 + c) * 64 + d == a * 262144 + b * 4096 + c * 64 + d;
    }
  }

  // ---------- What the writer writes ----------

  lemma DigitWritten(d: nat)
    requires d < 16
    ensures HexDigit(d) == LOWER[d]
  {
  }

  lemma Bytes16(hi: nat, lo: nat)
    requires hi < 256 && lo < 256
    ensures (hi * 256 + lo) / 256 == hi && (hi * 256 + lo) % 256 == lo
  {
  }

  lemma Nibbles(hi: nat, lo: nat)
    requires hi < 16 && lo < 16
    ensures (hi * 16 + lo) / 16 == hi && (hi * 16 + lo) % 16 == lo
  {
  }

  /** Four lower-case digits, the highest first. */
  lemma WrittenDigits(a: nat, b: nat, c: nat, d: nat)
    requires a < 16 && b < 16 && c < 16 && d < 16
    ensures ToHex16Bit(a * 4096 + b * 256 + c * 16 + d) == [LOWER[a], LOWER[b], LOWER[c], LOWER[d]]
  {
    hide HexDigit;
    var hi, lo := a * 16 + b, c * 16 + d;
    Bytes16(hi, lo);
    Nibbles(a, b);
    Nibbles(c, d);
    DigitWritten(a);
    DigitWritten(b);
    DigitWritten(c);
    DigitWritten(d);
    assert a * 4096 + b * 256 + c * 16 + d == hi * 256 + lo;
  }

  lemma EscapedCons(c: Byte, s: Bytes, emitUtf8: bool)
    requires c as nat < 128 || emitUtf8
    ensures EscapedFront([c] + s, emitUtf8).1 == 1
    ensures Escaped([c] + s, emitUtf8) == EscapedFront([c] + s, emitUtf8).0 + Escaped(s, emitUtf8)
  {
    assert ([c] + s)[1..] == s;
  }

  /** Quotes, backslashes and five controls get their two-character escapes; a solidus gets none. */
  lemma WrittenShort(s: Bytes, emitUtf8: bool)
    ensures Escaped("\"" + s, emitUtf8) == "\\\"" + Escaped(s, emitUtf8)
    ensures Escaped("\\" + s, emitUtf8) == "\\\\" + Escaped(s, emitUtf8)
    ensures Escaped([8 as char] + s, emitUtf8) == "\\b" + Escaped(s, emitUtf8)
    ensures Escaped([12 as char] + s, emitUtf8) == "\\f" + Escaped(s, emitUtf8)
    ensures Escaped([10 as char] + s, emitUtf8) == "\\n" + Escaped(s, emitUtf8)
    ensures Escaped([13 as char] + s, emitUtf8) == "\\r" + Escaped(s, emitUtf8)
    ensures Escaped([9 as char] + s, emitUtf8) == "\\t" + Escaped(s, emitUtf8)
  {
    hide Escaped, Utf8ToCodePoint, EscapedCodePoint, Hex;
    EscapedCons('"', s, emitUtf8);
    EscapedCons('\\', s, emitUtf8);
    EscapedCons(8 as char, s, emitUtf8);
    EscapedCons(12 as char, s, emitUtf8);
    EscapedCons(10 as char, s, emitUtf8);
    EscapedCons(13 as char, s, emitUtf8);
    EscapedCons(9 as char, s, emitUtf8);
  }

  /** The other controls get four digits; the other characters of ASCII stand as they are. */
  lemma WrittenAscii(c: Byte, s: Bytes, emitUtf8: bool)
    requires c as nat < 128 && c !in ['"', '\\', 8 as char, 9 as char, 10 as char, 12 as char, 13 as char]
    ensures Escaped([c] + s, emitUtf8) ==
            (if c as nat < 32 then "\\u00" + [LOWER[c as nat / 16], LOWER[c as nat % 16]] else [c])
            + Escaped(s, emitUtf8)
  {
    hide Escaped, ToHex16Bit;
    var named: Bytes := ['"', '\\', 8 as char, 9 as char, 10 as char, 12 as char, 13 as char];
    assert named[0] != c && named[1] != c && named[2] != c && named[3] != c && named[4] != c && named[5] != c;
    assert named[6] != c;
    EscapedCons(c, s, emitUtf8);
    WrittenDigits(0, 0, c as nat / 16 % 16, c as nat % 16);
  }

  /** When UTF-8 is emitted, every byte above ASCII stands as it is. */
  lemma WrittenRaw(c: Byte, s: Bytes)
    requires c as nat >= 128
    ensures Escaped([c] + s, true) == [c] + Escaped(s, true)
  {
    hide Escaped;
    EscapedCons(c, s, true);
  }

  /**
   * In escaping mode a character above ASCII is written as its code point, and one beyond 0xffff as the two units of
   * UTF-16 (section 2.1 of RFC 2781).
   */
  lemma WrittenCharacter(cp: nat, s: Bytes)
    requires Scalar(cp) && 0x80 <= cp
    ensures cp < 0x10000 ==>
              Escaped(CodePointToUtf8(cp) + s, false) == "\\u" + ToHex16Bit(cp) + Escaped(s, false)
    ensures 0x10000 <= cp ==>
              var high, low := 0xd800 + (cp - 0x10000) / 1024, 0xdc00 + (cp - 0x10000) % 1024;
              high < 0xdc00 && Escaped(CodePointToUtf8(cp) + s, false)
                               == "\\u" + ToHex16Bit(high) + ("\\u" + ToHex16Bit(low)) + Escaped(s, false)
  {
    hide ToHex16Bit, CodePointToUtf8, Utf8ToCodePoint, Utf8CharLength;
    var t := CodePointToUtf8(cp) + s;
    CharacterRead(cp, s);
    assert t[|CodePointToUtf8(cp)|..] == s;
    assert 0x10000 <= cp ==> (cp - 0x10000) / 1024 < 1024;
  }

  lemma Read2(c: nat, d: nat, s: Bytes)
    requires 2 <= c < 32 && d < 64
    ensures Utf8ToCodePoint([(192 + c) as char, (128 + d) as char] + s) == (c * 64 + d, 2)
  {
  }

  lemma Read3(b: nat, c: nat, d: nat, s: Bytes)
    requires b < 16 && c < 64 && d < 64 && (b == 0 ==> c >= 32) && Scalar(b * 4096 + c * 64 + d)
    ensures Utf8ToCodePoint([(224 + b) as char, (128 + c) as char, (128 + d) as char] + s)
              == (b * 4096 + c * 64 + d, 3)
  {
  }

  lemma Read4(a: nat, b: nat, c: nat, d: nat, s: Bytes)
    requires a < 5 && b < 64 && c < 64 && d < 64 && (a == 0 ==> b >= 16)
    ensures Utf8ToCodePoint([(240 + a) as char, (128 + b) as char, (128 + c) as char, (128 + d) as char] + s)
              == (a * 262144 + b * 4096 + c * 64 + d, 4)
  {
  }

  lemma Split64(x: nat)
    ensures x == x / 262144 * 262144 + x / 4096 % 64 * 4096 + x / 64 % 64 * 64 + x % 64
  {
    assert x / 4096 == x / 64 / 64 && x / 262144 == x / 64 / 64 / 64;
  }

  lemma CharacterRead(cp: nat, s: Bytes)
    requires Scalar(cp) && 0x80 <= cp
    ensures var t := CodePointToUtf8(cp) + s;
            t != [] && 128 <= t[0] as nat && Utf8ToCodePoint(t) == (cp, |CodePointToUtf8(cp)|)
  {
    hide CodePointToUtf8, Utf8ToCodePoint;
    var a, b, c, d := cp / 262144, cp / 4096 % 64, cp / 64 % 64, cp % 64;
    Split64(cp);
    Utf8Layout(a, b, c, d);
    if cp <= 0x7ff {
      Read2(c, d, s);
    } else if cp <= 0xffff {
      Read3(b, c, d, s);
    } else {
      Read4(a, b, c, d, s);
    }
  }
}
