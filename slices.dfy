/**
 * Python's slice `s[start:stop]` (step 1) on sequences: a negative bound
 * counts from the end, and every bound is clamped into `0..|s|`, so a
 * slice never fails; an empty slice results when the clamped start is not
 * below the clamped stop.
 */
module Slices {

  function Min(a: int, b: int): int { if a <= b then a else b }

  /** The index a Python slice bound `i` denotes in a sequence of length `n`. */
  function Clamp(i: int, n: nat): (k: nat)
    ensures k <= n
    ensures 0 <= i <= n ==> k == i
  {
    if i < 0 then (if i + n < 0 then 0 else i + n)
    else if i > n then n
    else i
  }

  /** `s[start:stop]` as Python evaluates it. */
  function Slice<T>(s: seq<T>, start: int, stop: int): (r: seq<T>)
    ensures 0 <= start <= stop <= |s| ==> r == s[start..stop]
    ensures |r| <= |s|
  {
    var i, j := Clamp(start, |s|), Clamp(stop, |s|);
    if i < j then s[i..j] else []
  }
}
