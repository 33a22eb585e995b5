/**
 * Integers as JSON text: uintToString and valueToString (json_tool.h, json_writer.cpp), and decodeNumber
 * (json_reader.cpp).
 */
module JsonNumber {
  import opened Prelude
  import opened JsonString

  const MAX_UINT: int := 0xffff_ffff_ffff_ffff
  const MIN_INT: int := -0x8000_0000_0000_0000
  const MAX_INT := 0x7fff_ffff   // largest value of the type Int, which is 32 bits wide
  const BUFFER_SIZE := 25   // uintToStringBufferSize

  /** The types of the program: every operation on them is checked to stay in range. */
  newtype LargestUInt = v: int | 0 <= v <= 0xffff_ffff_ffff_ffff
  newtype LargestInt = v: int | -0x8000_0000_0000_0000 <= v <= 0x7fff_ffff_ffff_ffff

  const MAX_LARGEST_UINT: LargestUInt := 0xffff_ffff_ffff_ffff
  const MAX_LARGEST_INT: LargestInt := 0x7fff_ffff_ffff_ffff
  const MIN_LARGEST_INT: LargestInt := -0x8000_0000_0000_0000

  // ---------- Decimal notation ----------

  predicate IsDigit(c: Byte) { '0' <= c <= '9' }

  predicate AllDigits(t: Bytes)
  {
    forall c <- t :: IsDigit(c)
  }

  function DigitValue(c: Byte): nat
    requires IsDigit(c)
  {
    c as nat - '0' as nat
  }

  /** The number that decimal digits stand for; 0 if there are none. */
  function NumberOf(t: Bytes): nat
    requires AllDigits(t)
  {
    if t == [] then 0 else NumberOf(t[..|t| - 1]) * 10 + DigitValue(t[|t| - 1])
  }

  /** Shortest decimal notation. */
  function Digits(n: nat): (s: Bytes)
    ensures s != [] && AllDigits(s)
  {
    var d := [(n % 10 + '0' as nat) as char];
    if n < 10 then d else Digits(n / 10) + d
  }

  function ShowInt(v: int): Bytes
  {
    if v < 0 then "-" + Digits(-v) else Digits(v)
  }

  /** One digit more is ten times the number and the digit; a negative number has a minus sign in front. */
  lemma DecimalForms(n: nat, d: nat)
    requires d < 10
    ensures ShowInt(d) == [(48 + d) as char]
    ensures n > 0 ==>
              && ShowInt(10 * n + d) == ShowInt(n) + [(48 + d) as char]
              && ShowInt(-(n as int)) == "-" + ShowInt(n)
  {
    assert (10 * n + d) / 10 == n && (10 * n + d) % 10 == d;
  }

  lemma {:induction false} DigitsBack(n: nat)
    ensures NumberOf(Digits(n)) == n
  {
    if n >= 10 {
      DigitsBack(n / 10);
      assert Digits(n)[..|Digits(n)| - 1] == Digits(n / 10);
    }
  }

  lemma {:induction false} DigitsLength(n: nat, k: nat)
    requires 0 < k && n < Pow10(k)
    ensures |Digits(n)| <= k
  {
    if n >= 10 {
      DigitsLength(n / 10, k - 1);
    }
  }

  function Pow10(k: nat): nat
  {
    if k == 0 then 1 else 10 * Pow10(k - 1)
  }

  lemma Pow10Of20()
    ensures Pow10(20) == 100_000_000_000_000_000_000
  {
    assert Pow10(5) == 100_000;
    assert Pow10(10) == 10_000_000_000;
    assert Pow10(15) == 1_000_000_000_000_000;
  }

  lemma {:induction false} LeadingDigits(t: Bytes, i: nat)
    requires AllDigits(t) && i <= |t|
    ensures NumberOf(t[..i]) <= NumberOf(t)
    ensures i < |t| ==> 10 * NumberOf(t[..i]) <= NumberOf(t)
  {
    var init := t[..|t| - if t == [] then 0 else 1];
    if i == |t| {
      assert t[..i] == t;
    } else {
      LeadingDigits(init, i);
      assert init[..i] == t[..i];
    }
  }

  // ---------- Printing ----------

  /**
   * uintToString: prints backwards from `current`; the digits and a NUL fill the buffer from the result up to
   * there.
   */
  method UintToString(value: LargestUInt, buffer: array<Byte>, current: nat) returns (cur: nat)
    requires BUFFER_SIZE <= current <= buffer.Length
    modifies buffer
    ensures current - 21 <= cur < current && buffer[cur..current] == Digits(value as int) + ['\U{0}']
    ensures buffer[..cur] == old(buffer[..cur]) && buffer[current..] == old(buffer[current..])
  {
    cur := current - 1;
    buffer[cur] := '\U{0}';
    var left := value;
    assert Pow10(20) == 100_000_000_000_000_000_000 by { Pow10Of20(); }
    DigitsLength(value as int, 20);
    while true
      invariant current - 21 <= cur < current
      invariant Digits(left as int) + buffer[cur..current] == Digits(value as int) + ['\U{0}']
      invariant buffer[..cur] == old(buffer[..cur]) && buffer[current..] == old(buffer[current..])
      decreases left
    {
      ghost var text := buffer[cur..current];
      cur := cur - 1;
      buffer[cur] := (left as nat % 10 + '0' as nat) as char;
      assert buffer[cur..current] == [(left as nat % 10 + '0' as nat) as char] + text;
      left := left / 10;
      if left == 0 {
        break;
      }
    }
  }

  /** valueToString of a LargestInt, in a buffer of its own; what is returned is the C string from current on. */
  method ValueToStringInt(value: LargestInt) returns (s: Bytes)
    ensures s == ShowInt(value as int)
  {
    hide Digits;
    var buffer := new Byte[BUFFER_SIZE](_ => 'a');
    var current := BUFFER_SIZE;
    ghost var magnitude: nat := if value < 0 then -(value as int) else value as int;
    if value == MIN_LARGEST_INT {
      current := UintToString(MAX_LARGEST_INT as LargestUInt + 1, buffer, current);
    } else if value < 0 {
      current := UintToString((-value) as LargestUInt, buffer, current);
    } else {
      current := UintToString(value as LargestUInt, buffer, current);
    }
    assert buffer[current..] == buffer[current..BUFFER_SIZE];
    if value < 0 {
      current := PutSign(buffer, current, magnitude);
    }
    assert buffer[current..] == ShowInt(value as int) + ['\U{0}'];
    s := buffer[current..BUFFER_SIZE - 1];
    assert s == buffer[current..][..BUFFER_SIZE - 1 - current];
  }

  method PutSign(buffer: array<Byte>, current: nat, ghost v: nat) returns (cur: nat)
    requires 0 < current <= buffer.Length && buffer[current..] == Digits(v) + ['\U{0}']
    modifies buffer
    ensures cur == current - 1 && buffer[cur..] == "-" + Digits(v) + ['\U{0}']
  {
    cur := current - 1;
    buffer[cur] := '-';
    assert buffer[cur..] == ['-'] + buffer[current..];
  }

  /** valueToString of a LargestUInt */
  method ValueToStringUInt(value: LargestUInt) returns (s: Bytes)
    ensures s == ShowInt(value as int)
  {
    var buffer := new Byte[BUFFER_SIZE](_ => 'a');
    var current := UintToString(value, buffer, BUFFER_SIZE);
    assert buffer[current..] == buffer[current..BUFFER_SIZE];
    s := buffer[current..BUFFER_SIZE - 1];
  }

  // ---------- Decoding ----------

  function Magnitude(t: Bytes): Bytes
  {
    if t != [] && t[0] == '-' then t[1..] else t
  }

  /** The 64-bit integer that a number token stands for; None if it is none, and a double is tried. */
  function IntegerOf(t: Bytes): Option<int>
  {
    if !AllDigits(Magnitude(t)) then None
    else
      var v: int := if Magnitude(t) == t then NumberOf(t) else -(NumberOf(Magnitude(t)) as int);
      if MIN_INT <= v <= MAX_UINT then Some(v) else None
  }

  /** The loop of decodeNumber: the number that all digits from `start` on make, unless it exceeds max. */
  method AccumulateDigits(token: Bytes, start: nat, threshold: LargestUInt, maxLastDigit: LargestUInt,
                          ghost max: LargestUInt) returns (r: Option<LargestUInt>)
    requires start <= |token| && 10 <= max && threshold == max / 10 && maxLastDigit == max % 10
    ensures var digits := token[start..];
            if AllDigits(digits) && NumberOf(digits) <= max as int then r.Some? && r.value as int == NumberOf(digits)
            else r == None
  {
    var current := start;
    var value: LargestUInt := 0;
    ghost var digits := token[start..];
    while current < |token|
      invariant start <= current <= |token| && AllDigits(digits[..current - start])
      invariant value as int == NumberOf(digits[..current - start]) && value <= max
    {
      ghost var i := current - start;
      var c := token[current];
      current := current + 1;
      assert c == digits[i] && digits[i] in digits;
      if !IsDigit(c) {
        return None;
      }
      assert digits[..i + 1] == digits[..i] + [c];
      assert digits[..i + 1][..i] == digits[..i];
      var digit := DigitValue(c) as LargestUInt;
      if value >= threshold {
        if value > threshold || current != |token| || digit > maxLastDigit {
          if AllDigits(digits) {
            TooLarge(digits, i, max as int);
          }
          return None;
        }
      }
      value := value * 10 + digit;
    }
    assert digits[..current - start] == digits;
    r := Some(value);
  }

  /** The integer path of Reader::decodeNumber; `unsigned` says that the value is stored as a LargestUInt. */
  method DecodeInteger(token: Bytes) returns (r: Option<int>, unsigned: bool)
    requires token != []
    ensures r == IntegerOf(token)
    ensures r.Some? ==> (unsigned <==> r.value > MAX_INT)
  {
    unsigned := false;
    var isNegative := token[0] == '-';
    var maxIntegerValue := if isNegative then MAX_LARGEST_INT as LargestUInt + 1 else MAX_LARGEST_UINT;
    assert token[0..] == token;
    var digits := AccumulateDigits(token, if isNegative then 1 else 0, maxIntegerValue / 10, maxIntegerValue % 10,
                                   maxIntegerValue);
    if digits == None {
      return None, false;
    }
    var value := digits.value;
    if isNegative && value == maxIntegerValue {
      r := Some(MIN_LARGEST_INT as int);
    } else if isNegative {
      var negated: LargestInt := -(value as LargestInt);
      r := Some(negated as int);
    } else if value <= MAX_INT as LargestUInt {
      var signed := value as LargestInt;
      r := Some(signed as int);
    } else {
      unsigned := true;
      r := Some(value as int);
    }
  }

  /** The integer path of OurReader::decodeNumber, which never negates the smallest integer as a whole. */
  method OurDecodeInteger(token: Bytes) returns (r: Option<int>, unsigned: bool)
    requires token != []
    ensures r == IntegerOf(token)
    ensures r.Some? ==> (unsigned <==> r.value > MAX_LARGEST_INT as int)
  {
    unsigned := false;
    var isNegative := token[0] == '-';
    var positiveThreshold, positiveLastDigit := MAX_LARGEST_UINT / 10, MAX_LARGEST_UINT % 10;
    // C divides towards zero: the quotient of the smallest integer is one above the Euclidean one
    // wherever the division leaves a remainder.
    var quotient: LargestInt := MIN_LARGEST_INT / 10 + 1;
    var remainder: LargestInt := MIN_LARGEST_INT % 10 - 10;
    assert quotient as int * 10 + remainder as int == MIN_LARGEST_INT as int && -10 < remainder <= 0;
    var negativeThreshold, negativeLastDigit := (-quotient) as LargestUInt, (-remainder) as LargestUInt;
    ghost var max: LargestUInt := if isNegative then 0x8000_0000_0000_0000 else MAX_LARGEST_UINT;
    assert token[0..] == token;
    var digits := AccumulateDigits(token, if isNegative then 1 else 0,
                                   if isNegative then negativeThreshold else positiveThreshold,
                                   if isNegative then negativeLastDigit else positiveLastDigit, max);
    if digits == None {
      return None, false;
    }
    var value := digits.value;
    if isNegative {
      var lastDigit := (value % 10) as LargestInt;
      var result: LargestInt := -((value / 10) as LargestInt) * 10 - lastDigit;
      r := Some(result as int);
    } else if value <= MAX_LARGEST_INT as LargestUInt {
      var signed := value as LargestInt;
      r := Some(signed as int);
    } else {
      unsigned := true;
      r := Some(value as int);
    }
  }

  lemma TooLarge(digits: Bytes, i: nat, max: nat)
    requires AllDigits(digits) && i < |digits| && max >= 10
    requires NumberOf(digits[..i]) >= max / 10
    requires NumberOf(digits[..i]) > max / 10 || i + 1 < |digits| || DigitValue(digits[i]) > max % 10
    ensures NumberOf(digits) > max
  {
    LeadingDigits(digits, i);
    LeadingDigits(digits, i + 1);
    assert digits[..i + 1][..i] == digits[..i];
  }

  /** Printing an integer of 64 bits and decoding it gives it back. */
  lemma ShowThenDecode(v: int)
    requires MIN_INT <= v <= MAX_UINT
    ensures IntegerOf(ShowInt(v)) == Some(v)
  {
    if v < 0 {
      DigitsBack(-v);
      assert ShowInt(v)[1..] == Digits(-v);
    } else {
      DigitsBack(v);
      assert IsDigit(Digits(v)[0]);
    }
  }

  // ---------- Tokens that are no JSON integers ----------

  /**
   * The grammar of integers, section 6 of RFC 8259: an optional minus, and zero or digits that do not begin with
   * one.
   */
  predicate JsonInt(t: Bytes)
  {
    var m := Magnitude(t);
    m == "0" || (AllDigits(m) && m != [] && m[0] != '0')
  }

  lemma {:induction false} DigitsForth(m: Bytes)
    requires AllDigits(m) && m != [] && (m == "0" || m[0] != '0')
    ensures Digits(NumberOf(m)) == m && (m != "0" ==> NumberOf(m) > 0)
  {
    var init, d := m[..|m| - 1], DigitValue(m[|m| - 1]);
    assert m == init + [m[|m| - 1]];
    if |m| > 1 {
      DigitsForth(init);
      assert NumberOf(m) / 10 == NumberOf(init) && NumberOf(m) % 10 == d;
    } else {
      assert init == [] && NumberOf(init) == 0;
    }
  }

  /**
   * A token is taken for an integer without being one by the standard exactly if it has no digits, or more than one
   * and a zero in front; and the integers of the standard that are taken are minus zero and what the writer prints.
   */
  lemma TakenAnyway(t: Bytes)
    requires IntegerOf(t).Some?
    ensures var m := Magnitude(t); !JsonInt(t) <==> m == [] || (|m| > 1 && m[0] == '0')
    ensures JsonInt(t) <==> t == "-0" || t == ShowInt(IntegerOf(t).value)
  {
    var m := Magnitude(t);
    var v := IntegerOf(t).value;
    if JsonInt(t) {
      DigitsForth(m);
      assert t == m || t == "-" + m;
    } else if t == ShowInt(v) {
      CanonicalDigits(if v < 0 then -v else v);
    }
  }

  lemma {:induction false} CanonicalDigits(n: nat)
    ensures Digits(n)[0] == '0' ==> n == 0 && Digits(n) == "0"
  {
    if n >= 10 {
      CanonicalDigits(n / 10);
    }
  }

  /** A minus sign alone is taken for zero, and leading zeros are passed over. */
  lemma LoneMinus()
    ensures IntegerOf("-") == Some(0) && !JsonInt("-")
    ensures IntegerOf("007") == Some(7) && !JsonInt("007")
  {
    assert "-"[1..] == [];
    assert "007"[..2] == "00" && "00"[..1] == "0" && "0"[..0] == [];
    assert NumberOf("0") == 0 && NumberOf("00") == 0;
  }
}
