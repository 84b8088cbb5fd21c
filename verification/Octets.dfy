/** Bytes and byte strings. */
module Octets {
  type Byte = b: int | 0 <= b < 256
  type Bytes = seq<Byte>

  /** The bytes of a text in ASCII. */
  function Ascii(s: string): (bytes: Bytes)
    requires forall i :: 0 <= i < |s| ==> s[i] < 128 as char
    ensures |bytes| == |s| && forall i :: 0 <= i < |s| ==> bytes[i] == s[i] as int
  {
    seq(|s|, i requires 0 <= i < |s| => s[i] as int)
  }
}
