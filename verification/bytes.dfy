/** Bytes as the sensor link carries them, and the plain integer sum the
    checksum is defined against. */
module Bytes {

  /** An unsigned 8-bit value: the element type of Go's `[]byte`. */
  type byte = x: int | 0 <= x < 256

  /** Go's `+` on two bytes: the mathematical sum, wrapped modulo 256. */
  function AddByte(a: byte, b: byte): byte
  {
    (a + b) % 256
  }

  /** The unbounded integer sum of a byte sequence (no wrap-around). */
  function Sum(s: seq<byte>): nat
  {
    if |s| == 0 then 0 else Sum(s[..|s| - 1]) + s[|s| - 1]
  }

  /** The sum of a prefix one byte longer. */
  lemma SumStep(s: seq<byte>, n: nat)
    requires n < |s|
    ensures Sum(s[..n + 1]) == Sum(s[..n]) + s[n]
  {
    assert s[..n + 1][..n] == s[..n];
  }

  /** Replacing one byte changes the sum by exactly the difference. */
  lemma {:induction false} SumUpdate(s: seq<byte>, i: int, b: byte)
    requires 0 <= i < |s|
    ensures Sum(s[i := b]) == Sum(s) - s[i] + b
  {
    var n := |s| - 1;
    if i == n {
      assert s[i := b][..n] == s[..n];
    } else {
      assert s[i := b][..n] == s[..n][i := b];
      SumUpdate(s[..n], i, b);
    }
  }
}
