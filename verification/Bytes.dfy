/** The `unsigned char` of the source, and zero-terminated strings. */
module Bytes {

  type byte = x: int | 0 <= x < 256

  /** The bytes of a C string before its terminator. */
  type text = s: seq<byte> | 0 !in s

  /** The bytes of an ASCII text. */
  function Ascii(s: string): (b: seq<byte>)
    requires forall i :: 0 <= i < |s| ==> s[i] < 128 as char
    ensures |b| == |s| && forall i :: 0 <= i < |s| ==> b[i] == s[i] as int
  {
    seq(|s|, i requires 0 <= i < |s| => s[i] as int)
  }

  /** Reading through a pointer into a C string: in bounds up to and including the terminator. */
  function At(s: text, i: nat): byte
    requires i <= |s|
  {
    if i < |s| then s[i] else 0
  }

  /** `str_length`. */
  method StrLength(str: array<byte>, ghost s: text) returns (n: nat)
    requires |s| < str.Length && str[..|s|] == s && str[|s|] == 0
    ensures n == |s|
  {
    n := 0;
    assert forall i :: 0 <= i < |s| ==> str[..|s|][i] == str[i];
    while str[n] != 0
      invariant n <= |s| && forall i :: 0 <= i < |s| ==> str[i] == s[i]
      decreases |s| - n
    {
      n := n + 1;
    }
  }
}
