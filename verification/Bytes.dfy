/** Bytes and the few byte strings shared by every component. */
module Bytes {
  type byte = b: int | 0 <= b < 256

  const NUL: byte := 0
  const NEWLINE: byte := 10
  const RETURN: byte := 13
  const SPACE: byte := 32
  const COLON: byte := 58

  /** The bytes of a Dafny string literal. */
  function Ascii(s: string): (r: seq<byte>)
  {
    seq(|s|, i requires 0 <= i < |s| => (s[i] as int) % 256)
  }

  /** n copies of b. */
  function Repeat(b: byte, n: nat): (r: seq<byte>)
  {
    seq(n, _ => b)
  }

  ghost predicate NulFree(s: seq<byte>)
  {
    forall i | 0 <= i < |s| :: s[i] != NUL
  }

  /** Index of the first NUL at or after i; |s| when there is none. */
  function StringEnd(s: seq<byte>, i: nat): (e: nat)
    requires i <= |s|
    ensures i <= e <= |s|
    ensures forall j | i <= j < e :: s[j] != NUL
    ensures e < |s| ==> s[e] == NUL
    decreases |s| - i
  {
    if i == |s| || s[i] == NUL then i else StringEnd(s, i + 1)
  }

  /** The byte at a position of a C string. */
  function StringByte(s: seq<byte>, i: nat): byte
    requires i <= |s|
  {
    if i < |s| then s[i] else NUL
  }
}
