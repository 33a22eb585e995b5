/** NUL-terminated strings, `strcmp`, and an order embedding of `strcmp` into the reals. */
module CString {

  newtype NonZeroByte = x: int | 1 <= x < 256 witness 1

  // The bytes of a C string up to, and without, its terminating NUL.
  type CStr = seq<NonZeroByte>

  /** Sign of the comparison of two C strings byte by byte, as `strcmp` gives it. */
  function Strcmp(a: CStr, b: CStr): (c: int)
    ensures c == 0 <==> a == b
  {
    if a == [] && b == [] then 0
    else if a == [] then -1
    else if b == [] then 1
    else if a[0] != b[0] then a[0] as int - b[0] as int
    else
      assert a == [a[0]] + a[1..] && b == [b[0]] + b[1..];
      Strcmp(a[1..], b[1..])
  }

  /** Position of a string on the real line; the bytes are the digits of a base-256 fraction. */
  ghost function Rank(a: CStr): (r: real)
    ensures 0.0 <= r < 1.0
    ensures a != [] ==> 0.0 < r
  {
    if a == [] then 0.0 else (a[0] as int as real + Rank(a[1..])) / 256.0
  }

  /** `strcmp` order and the order of positions are the same, so positions may replace keys in proofs. */
  lemma {:induction false} StrcmpIsRankOrder(a: CStr, b: CStr)
    ensures Strcmp(a, b) < 0 <==> Rank(a) < Rank(b)
    ensures Strcmp(a, b) == 0 <==> Rank(a) == Rank(b)
    ensures Strcmp(a, b) > 0 <==> Rank(a) > Rank(b)
  {
    if a != [] && b != [] {
      StrcmpIsRankOrder(a[1..], b[1..]);
      if a[0] < b[0] {
        assert a[0] as int + 1 <= b[0] as int;
      } else if b[0] < a[0] {
        assert b[0] as int + 1 <= a[0] as int;
      }
    }
  }

  /** Behind a common front the first bytes that differ decide, and the end of a string is below every byte. */
  lemma {:induction false} FirstDifference(front: CStr, x: CStr, y: CStr)
    requires x != y && (x != [] && y != [] ==> x[0] != y[0])
    ensures Strcmp(front + x, front + y) < 0 <==> x == [] || (y != [] && x[0] < y[0])
    ensures Strcmp(front + x, front + y) > 0 <==> y == [] || (x != [] && x[0] > y[0])
  {
    var a, b := front + x, front + y;
    if front == [] {
      assert a == x && b == y;
    } else {
      assert a[1..] == front[1..] + x && b[1..] == front[1..] + y;
      FirstDifference(front[1..], x, y);
    }
  }
}
