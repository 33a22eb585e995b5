/** Definitions shared by the other modules. */
module Prelude {

  datatype Option<T> = None | Some(value: T)

  function Pow2(k: nat): (p: nat)
    ensures p > 0
  {
    if k == 0 then 1 else 2 * Pow2(k - 1)
  }

  function Max(a: nat, b: nat): nat { if a < b then b else a }

  /** The text s starts with p. */
  predicate Starts(s: string, p: string)
  {
    |p| <= |s| && s[..|p|] == p
  }
}
