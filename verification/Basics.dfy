/** Small value types shared by the other modules. */
module Basics {

  datatype Option<+T> = None | Some(value: T)

  datatype Result<+T, +E> = Ok(value: T) | Err(error: E)

  /** A Java byte: signed, eight bits. */
  type byte = x: int | -128 <= x < 128 witness 0

  const INT_MAX: int := 0x7FFF_FFFF

  /** A Java int. */
  type int32 = x: int | -INT_MAX - 1 <= x <= INT_MAX witness 0

  /** x++ on a Java int. */
  function Increment(x: int32): int32 {
    if x == INT_MAX then -INT_MAX - 1 else x + 1
  }

  function Min(x: int, y: int): int {
    if x <= y then x else y
  }

  function Max(x: nat, y: nat): nat {
    if x > y then x else y
  }

  function Repeat(x: nat, n: nat): (xs: seq<nat>)
    ensures |xs| == n && forall i :: 0 <= i < n ==> xs[i] == x
  {
    seq(n, _ => x)
  }

  /** The Java cast (byte) b: the low eight bits, signed. */
  function Narrow(b: int): byte {
    (b + 128) % 256 - 128
  }

  /** The byte as a number without sign, as a single-byte read returns it. */
  function Unsigned(b: byte): (r: int)
    ensures 0 <= r < 256
  {
    if b < 0 then b + 256 else b
  }

  /** The three operations above, by what they leave of a number modulo its width. */
  lemma Arithmetic(x: int32, b: int, c: byte)
    ensures (Increment(x) - (x + 1)) % 0x1_0000_0000 == 0 && (x < INT_MAX ==> Increment(x) == x + 1)
    ensures (Narrow(b) - b) % 256 == 0
    ensures 0 <= Unsigned(c) < 256 && (Unsigned(c) - c) % 256 == 0
  {
  }

  /** What goes out by write(int) comes back by read() as its low eight bits, and every byte comes back. */
  lemma ByteRoundTrip(b: int, c: byte)
    ensures Unsigned(Narrow(b)) == b % 256 && Narrow(Unsigned(c)) == c
  {
  }
}
