/**
  Bytes and the little-endian integer encodings that the container uses for
  every multi-byte field (a Java `int` in 4 bytes, a Java `long` in 8 bytes).
 */
module Bytes {

  type byte = b: int | 0 <= b < 0x100

  /** 256 to the power w: the number of values that fit in w bytes. */
  function Pow256(w: nat): (p: nat)
    ensures p >= 1
  {
    if w == 0 then 1 else 0x100 * Pow256(w - 1)
  }

  /**
    Digit i of x in base 256. Dafny's `/` and `%` floor for a positive
    divisor, so for a negative x these are the bytes of its two's
    complement, as a Java `ByteBuffer` writes them.
   */
  function Digit(x: int, i: nat): (d: byte)
    decreases i
  {
    if i == 0 then x % 0x100 else Digit(x / 0x100, i - 1)
  }

  /** The w-byte little-endian encoding of x: byte i is digit i of x. */
  function LE(x: int, w: nat): (r: seq<byte>)
    ensures |r| == w
  {
    seq(w, i requires 0 <= i < w => Digit(x, i))
  }

  /** `putInt`: a 4-byte little-endian field. */
  function Int32LE(x: int): (r: seq<byte>)
    ensures |r| == 4
  {
    LE(x, 4)
  }

  /** `putLong`: an 8-byte little-endian field. */
  function Int64LE(x: int): (r: seq<byte>)
    ensures |r| == 8
  {
    LE(x, 8)
  }

  /** Reads an unsigned little-endian number back from its bytes. */
  function FromLE(bs: seq<byte>): (n: nat)
    ensures n < Pow256(|bs|)
  {
    if bs == [] then 0 else bs[0] + 0x100 * FromLE(bs[1..])
  }

  /** Decoding undoes encoding for every value that fits in the field. */
  lemma {:induction false} FromLEOfLE(x: int, w: nat)
    requires 0 <= x < Pow256(w)
    ensures FromLE(LE(x, w)) == x
  {
    if w > 0 {
      var r := LE(x, w);
      assert r[0] == x % 0x100;
      assert r[1..] == LE(x / 0x100, w - 1);
      FromLEOfLE(x / 0x100, w - 1);
    }
  }

  /** Zero is encoded as w zero bytes. */
  lemma LEOfZero(w: nat)
    ensures LE(0, w) == seq(w, _ => 0)
  {
    forall i | 0 <= i < w
      ensures Digit(0, i) == 0
    {
      DigitOfZero(i);
    }
  }

  lemma {:induction false} DigitOfZero(i: nat)
    ensures Digit(0, i) == 0
  {
    if i > 0 {
      DigitOfZero(i - 1);
    }
  }

  /** Two values that fit in w bytes have the same encoding only if they are equal. */
  lemma LEInjective(x: int, y: int, w: nat)
    requires 0 <= x < Pow256(w) && 0 <= y < Pow256(w)
    requires LE(x, w) == LE(y, w)
    ensures x == y
  {
    FromLEOfLE(x, w);
    FromLEOfLE(y, w);
  }
}
