/** Go strings on the signature path are byte strings. */
module Bytes {
  type byte = b: int | 0 <= b < 256

  /** The bytes of a string literal written in ASCII, as Go's `[]byte("...")` gives them. */
  function Ascii(s: string): (b: seq<byte>)
    requires forall i :: 0 <= i < |s| ==> s[i] as int < 128
    ensures |b| == |s|
    ensures forall i :: 0 <= i < |b| ==> b[i] == s[i] as int
  {
    if s == [] then [] else [s[0] as int] + Ascii(s[1..])
  }
}
