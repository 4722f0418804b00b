/** Raw notification bytes and the big-endian 16-bit read the decoder uses. */
module Bytes {

  /** One element of a Python `bytes` object. */
  newtype byte = x: int | 0 <= x < 256

  /** Largest value a 16-bit slot can hold. */
  const MaxShort: nat := 0xFFFF

  /** 2 to the power `n`. */
  function Pow2(n: nat): nat
  {
    if n == 0 then 1 else 2 * Pow2(n - 1)
  }

  /** Python's `x << n` on a non-negative int: multiplication by 2^n, without overflow. */
  function ShiftLeft(x: nat, n: nat): nat
  {
    x * Pow2(n)
  }

  /** Python's `a | b` on non-negative ints, one bit at a time from the least significant. */
  function BitOr(a: nat, b: nat): nat
    decreases a + b
  {
    if a == 0 then b
    else if b == 0 then a
    else 2 * BitOr(a / 2, b / 2) + (if a % 2 == 1 || b % 2 == 1 then 1 else 0)
  }

  /**
   * OR-ing a value below 2^k with a multiple of 2^k adds them: the two
   * operands have no set bit in common.
   */
  lemma {:induction false} BitOrDisjoint(lo: nat, hi: nat, k: nat)
    requires lo < Pow2(k)
    ensures BitOr(lo, ShiftLeft(hi, k)) == lo + ShiftLeft(hi, k)
  {
    if lo == 0 || hi == 0 {
    } else {
      // k > 0, since lo < Pow2(0) would force lo == 0
      var up := ShiftLeft(hi, k);
      assert up == 2 * ShiftLeft(hi, k - 1);
      assert up % 2 == 0 && up / 2 == ShiftLeft(hi, k - 1);
      BitOrDisjoint(lo / 2, hi, k - 1);
    }
  }

  /**
   * `byteArrToShort(bArr, i)`: the byte at `i + 1` OR-ed with the byte at
   * `i` shifted left by eight bits. The result is the big-endian unsigned
   * value of the two bytes, so it fits in 16 bits.
   */
  function ByteArrToShort(bArr: seq<byte>, i: nat): (r: nat)
    requires i + 1 < |bArr|
    ensures r <= MaxShort
    ensures r == bArr[i] as int * 256 + bArr[i + 1] as int
  {
    BitOrDisjoint(bArr[i + 1] as nat, bArr[i] as nat, 8);
    BitOr(bArr[i + 1] as nat, ShiftLeft(bArr[i] as nat, 8))
  }

  /** The two big-endian bytes of a 16-bit value: the inverse of ByteArrToShort. */
  function ShortToBytes(v: nat): (b: seq<byte>)
    requires v <= MaxShort
    ensures |b| == 2
  {
    [(v / 256) as byte, (v % 256) as byte]
  }

  /** Encoding a value and reading it back gives the value. */
  lemma ShortRoundTrip(v: nat)
    requires v <= MaxShort
    ensures ByteArrToShort(ShortToBytes(v), 0) == v
  {
  }

  /** Reading two bytes and encoding the value gives the same two bytes back. */
  lemma BytesRoundTrip(bArr: seq<byte>, i: nat)
    requires i + 1 < |bArr|
    ensures ShortToBytes(ByteArrToShort(bArr, i)) == bArr[i..i + 2]
  {
  }
}
