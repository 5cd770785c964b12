/** Bytes, NUL-terminated strings and ASCII literals. */
module Bytes {
  newtype byte = b: int | 0 <= b < 0x100

  const NUL: byte := 0

  /** The bytes of an ASCII literal. */
  function Ascii(s: string): (bytes: seq<byte>)
    requires forall c <- s :: c as int < 0x80
    ensures |bytes| == |s| && forall i :: 0 <= i < |s| ==> bytes[i] as int == s[i] as int
  {
    seq(|s|, i requires 0 <= i < |s| => var c := s[i]; assert c in s; c as int as byte)
  }

  /** Number of bytes before the first NUL, or the whole length when there is none. */
  function StringLength(s: seq<byte>): (n: nat)
    ensures n <= |s|
    ensures forall i :: 0 <= i < n ==> s[i] != NUL
    ensures n < |s| ==> s[n] == NUL
  {
    if s == [] || s[0] == NUL then 0 else 1 + StringLength(s[1..])
  }

  function Zeros(n: nat): (z: seq<byte>)
    ensures |z| == n && forall b <- z :: b == NUL
  {
    seq(n, _ => NUL)
  }
}
