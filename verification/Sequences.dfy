/** Sequences, whatever their elements. */
module Sequences {
  /** How often x stands at the front of s. */
  function Leading<T(==)>(s: seq<T>, x: T): (k: nat)
    ensures k <= |s| && (forall i | 0 <= i < k :: s[i] == x) && (k < |s| ==> s[k] != x)
  {
    if s != [] && s[0] == x then 1 + Leading(s[1..], x) else 0
  }

  /** n times x. */
  function Repeat<T>(x: T, n: nat): (r: seq<T>)
    ensures |r| == n && forall i | 0 <= i < n :: r[i] == x
  {
    seq(n, _ => x)
  }
}
