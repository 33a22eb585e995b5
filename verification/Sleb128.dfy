/** The SLEB128 decoder of xh_elf.c, against the encoding of section 7.6 of DWARF 5. */
module Sleb128 {
  import opened Prelude

  newtype Byte = x: int | 0 <= x < 256

  const WORD: int := 0x1_0000_0000_0000_0000   // number of values of a 64-bit size_t

  /** Arithmetic on 64-bit words. */
  function Wrap(x: int): (r: nat)
    ensures r < WORD
  {
    x % WORD
  }

  // ---------- The encoding ----------

  /** The signed number at the front of b, and how many bytes it takes; None if b ends within it. */
  ghost function Decoded(b: seq<Byte>): (r: Option<(int, nat)>)
    ensures r.Some? ==> 1 <= r.value.1 <= |b|
  {
    if b == [] then None
    else if b[0] < 128 then Some((if b[0] < 64 then b[0] as int else b[0] as int - 128, 1))
    else
      match Decoded(b[1..])
      case None => None
      case Some((v, n)) => Some((128 * v + b[0] as int - 128, n + 1))
  }

  /** The shortest encoding of v. */
  ghost function Encoded(v: int): (b: seq<Byte>)
    ensures b != []
    decreases if v < 0 then -v else v
  {
    if -64 <= v < 64 then [(v % 128) as Byte]
    else [(128 + v % 128) as Byte] + Encoded(v / 128)
  }

  /** The examples of section 7.6 of the DWARF 4 standard. */
  lemma DwarfExamples()
    ensures Encoded(2) == [2] && Encoded(-2) == [0x7e]
    ensures Encoded(127) == [0x7f + 0x80, 0] && Encoded(-127) == [1 + 0x80, 0x7f]
    ensures Encoded(128) == [0x80, 1] && Encoded(-128) == [0x80, 0x7f]
    ensures Encoded(129) == [1 + 0x80, 1] && Encoded(-129) == [0x7f + 0x80, 0x7e]
  {
    assert Encoded(0) == [0] && Encoded(1) == [1] && Encoded(-1) == [127] && Encoded(-2) == [126];
    assert [255 as Byte] + [0] == [255, 0] && [129 as Byte] + [127] == [129, 127];
    assert [128 as Byte] + [1] == [128, 1] && [128 as Byte] + [127] == [128, 127];
    assert [129 as Byte] + [1] == [129, 1] && [255 as Byte] + [126] == [255, 126];
  }

  /** Decoding undoes encoding, whatever bytes follow. */
  lemma {:induction false} DecodeEncoded(v: int, rest: seq<Byte>)
    ensures Decoded(Encoded(v) + rest) == Some((v, |Encoded(v)|))
    decreases if v < 0 then -v else v
  {
    var b := Encoded(v) + rest;
    if !(-64 <= v < 64) {
      DecodeEncoded(v / 128, rest);
      assert b[1..] == Encoded(v / 128) + rest;
    }
  }

  /** A number has an encoding of k bytes exactly if it takes no more than 7 * k bits with its sign. */
  lemma {:induction false} EncodedLength(v: int, k: nat)
    requires k > 0
    ensures |Encoded(v)| <= k <==> -64 * Pow2(7 * (k - 1)) <= v < 64 * Pow2(7 * (k - 1))
    decreases if v < 0 then -v else v
  {
    var p := Pow2(7 * (k - 1));
    if k == 1 {
      assert p == 1;
    } else {
      PowAdd(7, 7 * (k - 2));
      assert Pow2(7) == 128 && 7 * (k - 1) == 7 + 7 * (k - 2);
      assert p == 128 * Pow2(7 * (k - 2));
    }
    if !(-64 <= v < 64) && k > 1 {
      EncodedLength(v / 128, k - 1);
      QuotientBounds(v, 64 * Pow2(7 * (k - 2)));
    }
  }

  lemma QuotientBounds(v: int, m: int)
    ensures -m <= v / 128 < m <==> -128 * m <= v < 128 * m
  {
  }

  /** The numbers an encoder has to write: words, signed or not, and differences of two words. */
  predicate Fits(v: int)
  {
    -WORD < v < WORD
  }

  const MAX_BYTES := 10

  lemma FitsShortly(v: int)
    requires Fits(v)
    ensures |Encoded(v)| <= MAX_BYTES
  {
    EncodedLength(v, MAX_BYTES);
    PowWord();
    assert Pow2(63) * 2 == WORD && 7 * (MAX_BYTES - 1) == 63;
  }

  // ---------- Bitwise or ----------

  /** The bitwise or of two natural numbers. */
  function Or(a: nat, b: nat): nat
    decreases a + b
  {
    if a == 0 && b == 0 then 0
    else (if a % 2 == 1 || b % 2 == 1 then 1 else 0) + 2 * Or(a / 2, b / 2)
  }

  lemma {:induction false} OrBelow(a: nat, b: nat, k: nat)
    requires a < Pow2(k) && b < Pow2(k)
    ensures Or(a, b) < Pow2(k)
  {
    if k > 0 {
      OrBelow(a / 2, b / 2, k - 1);
    }
  }

  /** Or-ing in bits above all bits set adds them. */
  lemma {:induction false} OrAbove(a: nat, b: nat, k: nat)
    requires a < Pow2(k)
    ensures Or(a, b * Pow2(k)) == a + b * Pow2(k)
    decreases k, a + b
  {
    if k == 0 {
      OrZero(b);
    } else {
      assert b * Pow2(k) == 2 * (b * Pow2(k - 1));
      OrAbove(a / 2, b, k - 1);
    }
  }

  lemma {:induction false} OrZero(b: nat)
    ensures Or(0, b) == b
  {
    if b > 0 {
      OrZero(b / 2);
    }
  }

  lemma {:induction false} PowAdd(a: nat, b: nat)
    ensures Pow2(a + b) == Pow2(a) * Pow2(b)
  {
    if a > 0 {
      PowAdd(a - 1, b);
      assert Pow2(a + b) == 2 * (Pow2(a - 1) * Pow2(b));
    }
  }

  lemma PowWord()
    ensures Pow2(64) == WORD
  {
    assert Pow2(4) == 16;
    PowAdd(4, 4);
    assert Pow2(8) == 256;
    PowAdd(8, 8);
    PowAdd(16, 16);
    PowAdd(32, 32);
  }

  lemma {:induction false} OrSame(a: nat)
    ensures Or(a, 0) == a
  {
    if a > 0 {
      OrSame(a / 2);
    }
  }

  lemma ModScale(x: nat, p: nat, q: nat)
    requires p > 0 && q > 0
    ensures (x * p) % (q * p) == (x % q) * p
  {
    var d, r := x / q, x % q;
    Regroup(x, r, d, q, p);
    MulLess(r, q, p);
    ModUnique(x * p, q * p, d, r * p);
  }

  lemma MulLess(r: int, q: int, p: int)
    requires 0 <= r < q && p > 0
    ensures 0 <= r * p < q * p
  {
    assert (q - r) * p > 0;
    assert (q - r) * p == q * p - r * p;
  }

  lemma MulLower(e: int, m: int)
    requires m > 0
    ensures e >= 1 ==> e * m >= m
    ensures e <= -1 ==> e * m <= -m
  {
    if e >= 1 {
      assert (e - 1) * m >= 0;
    } else if e <= -1 {
      assert (-e - 1) * m >= 0;
    }
  }

  lemma ModUnique(a: int, m: int, d: int, r: int)
    requires m > 0 && a == d * m + r && 0 <= r < m
    ensures a % m == r
  {
    var q := a / m;
    assert a == q * m + a % m;
    assert (d - q) * m == d * m - q * m;
    MulLower(d - q, m);
  }

  lemma AddMod(a: int, b: int, m: int)
    requires m > 0 && b % m == 0
    ensures (a + b) % m == a % m
  {
    ModUnique(a + b, m, a / m + b / m, a % m);
  }

  /** Or-ing the next seven bits into the low bits collected so far adds them, in 64-bit arithmetic. */
  lemma OrStep(acc: nat, x: nat, k: nat)
    requires acc < Pow2(k) && k < 64
    ensures Or(acc % WORD, Wrap(x * Pow2(k))) == (acc + x * Pow2(k)) % WORD
  {
    PowWord();
    PowAdd(64 - k, k);
    OrLow(acc, x, k, Pow2(k), Pow2(64 - k), WORD);
  }

  lemma OrLow(acc: nat, x: nat, k: nat, p: nat, q: nat, w: nat)
    requires p == Pow2(k) && acc < p && q > 0 && q * p == w
    ensures Or(acc % w, (x * p) % w) == (acc + x * p) % w
  {
    var c, d := x % q, x / q;
    ModScale(x, p, q);
    OrAbove(acc, c, k);
    BelowWord(acc, c, p, q);
    Regroup(x, c, d, q, p);
    ModUnique(acc + x * p, w, d, acc + c * p);
    ModUnique(acc, w, 0, acc);
  }

  lemma Regroup(x: int, c: int, d: int, q: int, p: int)
    requires x == d * q + c
    ensures x * p == c * p + d * (q * p)
  {
    assert (d * q + c) * p == d * q * p + c * p;
    assert d * q * p == d * (q * p);
  }

  lemma BelowWord(acc: nat, c: nat, p: nat, q: nat)
    requires acc < p && c < q
    ensures 0 <= acc + c * p < q * p && acc < q * p
  {
    MulLower(q - c, p);
    assert (q - c) * p == q * p - c * p;
    MulLower(q, p);
  }

  lemma {:induction false} PowMultiple(k: nat)
    requires k >= 64
    ensures Pow2(k) % WORD == 0
  {
    PowWord();
    PowAdd(k - 64, 64);
    ModUnique(Pow2(k), WORD, Pow2(k - 64), 0);
  }

  lemma MulMultiple(x: int, p: int)
    requires p % WORD == 0
    ensures (x * p) % WORD == 0
  {
    assert x * p == (x * (p / WORD)) * WORD;
    ModUnique(x * p, WORD, x * (p / WORD), 0);
  }

  /** The word with all bits from k up. */
  function SignBits(k: nat): (r: nat)
    ensures r < WORD
  {
    Wrap(-(Pow2(k) as int))
  }

  /** Or-ing in all bits from k up subtracts 2^k, in 64-bit arithmetic. */
  lemma OrSign(acc: nat, k: nat)
    requires acc < Pow2(k) && k < 64
    ensures Or(acc % WORD, SignBits(k)) == (acc - Pow2(k)) % WORD
  {
    hide Or;
    var p: int, q := Pow2(k), Pow2(64 - k);
    assert q * p == WORD by {
      PowWord();
      PowAdd(64 - k, k);
    }
    OrHigh(acc, k, p, q, WORD);
    ModUnique(-p, WORD, -1, WORD - p);
  }

  lemma OrHigh(acc: nat, k: nat, p: nat, q: nat, w: nat)
    requires p == Pow2(k) && acc < p && q > 0 && q * p == w
    ensures p <= w && Or(acc % w, w - p) == (acc - p) % w
  {
    MulLower(q, p);
    assert (q - 1) * p == w - p;
    BelowWord(acc, q - 1, p, q);
    OrAbove(acc, q - 1, k);
    ModUnique(acc, w, 0, acc);
    ModUnique(acc - p, w, -1, acc + w - p);
  }

  // ---------- The decoder ----------

  /**
   * Encoded numbers, and what the machine makes of a shift by 64 or more, which C leaves undefined: a function of
   * the bits and of the shift.
   */
  datatype Packed = Packed(bytes: seq<Byte>, overshift: (nat, nat) -> nat)

  /** A left shift of a word. */
  function Shifted(d: Packed, x: nat, shift: nat): nat
  {
    Wrap(if shift < 64 then x * Pow2(shift) else d.overshift(x, shift))
  }

  /** The sign extension after the loop, which is left out where it would shift by 64 or more. */
  function Extended(value: nat, shift: nat, last: Byte): nat
  {
    if shift < 64 && last % 128 >= 64 then Or(value, SignBits(shift)) else value
  }

  /** What the loop makes of the bytes from cur on, and where it stops; None if the bytes end first. */
  ghost function Gathered(d: Packed, cur: nat, value: nat, shift: nat): (r: Option<(nat, nat)>)
    requires cur <= |d.bytes|
    ensures r.Some? ==> cur < r.value.1 <= |d.bytes|
    decreases |d.bytes| - cur
  {
    if cur == |d.bytes| then None
    else
      var byte := d.bytes[cur];
      var value' := Or(value, Shifted(d, (byte % 128) as nat, shift));
      if byte >= 128 then Gathered(d, cur + 1, value', shift + 7)
      else Some((Extended(value', shift + 7, byte), cur + 1))
  }

  lemma {:induction false} GatheredWord(d: Packed, cur: nat, value: nat, shift: nat)
    requires cur <= |d.bytes| && value < WORD
    ensures var r := Gathered(d, cur, value, shift); r.Some? ==> r.value.0 < WORD
    decreases |d.bytes| - cur
  {
    if cur < |d.bytes| {
      var byte := d.bytes[cur];
      var value' := Or(value, Shifted(d, (byte % 128) as nat, shift));
      PowWord();
      OrBelow(value, Shifted(d, (byte % 128) as nat, shift), 64);
      if byte >= 128 {
        GatheredWord(d, cur + 1, value', shift + 7);
      } else {
        OrBelow(value', SignBits(shift + 7), 64);
      }
    }
  }

  /** The loop stops where the number ends. */
  lemma {:induction false} GatheredEnds(d: Packed, cur: nat, value: nat, shift: nat)
    requires cur <= |d.bytes|
    ensures match Decoded(d.bytes[cur..])
      case None => Gathered(d, cur, value, shift) == None
      case Some((v, n)) => Gathered(d, cur, value, shift).Some? && Gathered(d, cur, value, shift).value.1 == cur + n
    decreases |d.bytes| - cur
  {
    hide Or, Shifted, Extended;
    if cur < |d.bytes| {
      var byte := d.bytes[cur];
      assert d.bytes[cur..][1..] == d.bytes[cur + 1..];
      if byte >= 128 {
        GatheredEnds(d, cur + 1, Or(value, Shifted(d, (byte % 128) as nat, shift)), shift + 7);
      }
    }
  }

  /**
   * If the number ends within ten bytes of the start, no shift reaches 64 before it does, and the loop gathers the
   * number, whatever the machine makes of longer shifts.
   */
  lemma {:induction false} GatheredIsDecoded(d: Packed, cur: nat, acc: nat, shift: nat)
    requires cur <= |d.bytes| && acc < Pow2(shift)
    requires Decoded(d.bytes[cur..]).Some? && shift + 7 * Decoded(d.bytes[cur..]).value.1 <= 7 * MAX_BYTES
    ensures var r := Gathered(d, cur, acc % WORD, shift);
            r.Some? && r.value.0 == Wrap(acc + Pow2(shift) * Decoded(d.bytes[cur..]).value.0)
    decreases |d.bytes| - cur
  {
    hide Or, Extended, Shifted, Pow2, Wrap, Decoded, Gathered;
    DecodedStep(d.bytes, cur);
    var byte := d.bytes[cur];
    var x := (byte % 128) as nat;
    NextStep(acc, x, shift);
    GatheredStep(d, cur, acc, shift);
    if byte >= 128 {
      GatheredIsDecoded(d, cur + 1, acc + x * Pow2(shift), shift + 7);
      Distribute(acc, Pow2(shift), Pow2(shift + 7), Decoded(d.bytes[cur + 1..]).value.0, x);
    } else {
      GatheredLast(acc, x, shift, Pow2(shift), byte);
    }
  }

  lemma DecodedStep(b: seq<Byte>, cur: nat)
    requires cur <= |b| && Decoded(b[cur..]).Some?
    ensures cur < |b| && Decoded(b[cur..]).value.1 >= 1
    ensures if b[cur] >= 128
            then
              && Decoded(b[cur + 1..]).Some?
              && Decoded(b[cur..]).value.1 == Decoded(b[cur + 1..]).value.1 + 1
              && Decoded(b[cur..]).value.0 == 128 * Decoded(b[cur + 1..]).value.0 + b[cur] as int - 128
            else Decoded(b[cur..]).value.0 == if b[cur] < 64 then b[cur] as int else b[cur] as int - 128
  {
    assert b[cur..][1..] == b[cur + 1..];
  }

  lemma GatheredStep(d: Packed, cur: nat, acc: nat, shift: nat)
    requires cur < |d.bytes| && acc < Pow2(shift) && shift < 64
    ensures var byte := d.bytes[cur];
            var value := (acc + (byte % 128) as nat * Pow2(shift)) % WORD;
            Gathered(d, cur, acc % WORD, shift) ==
            if byte >= 128 then Gathered(d, cur + 1, value, shift + 7)
            else Some((Extended(value, shift + 7, byte), cur + 1))
  {
    hide Or, Extended, Pow2;
    OrStep(acc, (d.bytes[cur] % 128) as nat, shift);
  }

  lemma LastBits(p: int, x: int)
    ensures p * x == x * p && p * (x - 128) == x * p - 128 * p
  {
  }

  /** The last byte of a number, with its sign in bit 6. */
  lemma GatheredLast(acc: nat, x: nat, shift: nat, p: nat, byte: Byte)
    requires byte < 128 && x == byte as nat && p == Pow2(shift) && acc < p && shift <= 63
    ensures Extended((acc + x * p) % WORD, shift + 7, byte)
         == Wrap(acc + p * if x < 64 then x else x - 128)
  {
    hide Or, Pow2, SignBits;
    NextStep(acc, x, shift);
    LastBits(p, x);
    Extend(acc + x * p, shift + 7);
  }

  lemma GatheredFromStart(d: Packed, cur: nat)
    requires cur <= |d.bytes|
    ensures match Decoded(d.bytes[cur..])
      case None => true
      case Some((v, n)) => n <= MAX_BYTES ==> Gathered(d, cur, 0, 0) == Some((Wrap(v), cur + n))
  {
    GatheredEnds(d, cur, 0, 0);
    if Decoded(d.bytes[cur..]).Some? && Decoded(d.bytes[cur..]).value.1 <= MAX_BYTES {
      GatheredIsDecoded(d, cur, 0, 0);
    }
  }

  class Decoder {
    const data: Packed
    var cur: nat

    constructor (data: Packed)
      ensures this.data == data && cur == 0
    {
      this.data := data;
      cur := 0;
    }

    /**
     * xh_elf_sleb128_decoder_next: a number of up to ten bytes as a 64-bit word, some word for a longer one, or
     * None at the end of the data.
     */
    method Next() returns (r: Option<nat>)
      requires cur <= |data.bytes|
      modifies this`cur
      ensures match Decoded(data.bytes[old(cur)..])
        case None => r == None && cur == |data.bytes|
        case Some((v, n)) =>
          r.Some? && r.value < WORD && cur == old(cur) + n && (n <= MAX_BYTES ==> r.value == Wrap(v))
      ensures Gathered(data, old(cur), 0, 0) == if r == None then None else Some((r.value, cur))
    {
      hide Or;
      var value, shift, byte: Byte := 0, 0, 128;
      ghost var start := cur;
      GatheredEnds(data, start, 0, 0);
      GatheredWord(data, start, 0, 0);
      GatheredFromStart(data, start);
      while byte >= 128
        invariant start <= cur <= |data.bytes| && shift >= 0 && value >= 0
        invariant Gathered(data, start, 0, 0)
               == if byte >= 128 then Gathered(data, cur, value, shift) else Some((Extended(value, shift, byte), cur))
        decreases byte >= 128, |data.bytes| - cur
      {
        if cur >= |data.bytes| {
          return None;
        }
        byte := data.bytes[cur];
        cur := cur + 1;
        value := Or(value, Shifted(data, (byte % 128) as nat, shift));
        shift := shift + 7;
      }
      if shift < 64 && byte % 128 >= 64 {
        value := Or(value, SignBits(shift));
      }
      return Some(value);
    }
  }

  lemma Distribute(acc: int, p: int, q: int, v: int, x: int)
    requires q == 128 * p
    ensures acc + x * p + q * v == acc + p * (128 * v + x)
  {
    assert p * (128 * v + x) == p * (128 * v) + p * x;
    assert p * (128 * v) == q * v;
  }

  /** Sign extension, done only below bit 64, gives the two's complement word for numbers of up to ten bytes. */
  lemma Extend(acc: nat, shift: nat)
    requires acc < Pow2(shift) && shift <= 7 * MAX_BYTES
    ensures shift < 64 ==> Or(acc % WORD, SignBits(shift)) == Wrap(acc - Pow2(shift))
    ensures shift >= 64 ==> acc % WORD == Wrap(acc - Pow2(shift))
  {
    if shift < 64 {
      OrSign(acc, shift);
    } else {
      PowMultiple(shift);
      MulMultiple(-1, Pow2(shift));
      AddMod(acc, -1 * Pow2(shift), WORD);
    }
  }

  lemma NextStep(acc: nat, x: nat, k: nat)
    requires acc < Pow2(k) && x < 128
    ensures Pow2(k + 7) == 128 * Pow2(k) && acc + x * Pow2(k) < Pow2(k + 7)
  {
    PowAdd(7, k);
    assert (x + 1) * Pow2(k) <= 128 * Pow2(k);
  }
}
