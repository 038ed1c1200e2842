/** Bytes, and byte strings as text. */
module Bytes {
  type byte = b: int | 0 <= b < 256

  /** A string all of whose characters are bytes. */
  predicate IsByteString(s: string) {
    forall i | 0 <= i < |s| :: s[i] as int < 256
  }

  function Ord(s: string): (r: seq<byte>)
    requires IsByteString(s)
    ensures |r| == |s| && forall i | 0 <= i < |s| :: r[i] == s[i] as int
  {
    seq(|s|, i requires 0 <= i < |s| => s[i] as int)
  }

  function Chr(b: seq<byte>): (r: string)
    ensures |r| == |b| && forall i | 0 <= i < |b| :: r[i] == b[i] as char
  {
    seq(|b|, i requires 0 <= i < |b| => b[i] as char)
  }
}
