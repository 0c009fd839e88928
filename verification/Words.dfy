/** 32-bit words and their rotation. */
module Words {
  type Word = bv32

  function Rotr(x: Word, n: bv6): Word
    requires 0 < n < 32
  {
    (x >> n) | (x << (32 - n))
  }

  lemma BitOfOr(x: bv32, y: bv32, j: bv6)
    requires j < 32
    ensures ((x | y) >> j) & 1 == ((x >> j) & 1) | ((y >> j) & 1)
  {
  }

  lemma ShiftedDown(x: bv32, n: bv6, j: bv6)
    requires n < 32 && j < 32 - n
    ensures ((x >> n) >> j) & 1 == (x >> (j + n)) & 1
  {
  }

  lemma ShiftedUp(x: bv32, m: bv6, j: bv6)
    requires m < 32 && m <= j < 32
    ensures ((x << m) >> j) & 1 == (x >> (j - m)) & 1
  {
  }

  /** Rotating moves the upper bits down by `n` places. */
  lemma RotrLowBits(x: Word, n: bv6, j: bv6)
    requires 0 < n < 32 && j < 32 - n
    ensures (Rotr(x, n) >> j) & 1 == (x >> (j + n)) & 1
  {
    BitOfOr(x >> n, x << (32 - n), j);
    ShiftedDown(x, n, j);
    assert ((x << (32 - n)) >> j) & 1 == 0;
  }

  /** The lowest `n` bits come in again at the upper end. */
  lemma RotrHighBits(x: Word, n: bv6, j: bv6)
    requires 0 < n < 32 && 32 - n <= j < 32
    ensures (Rotr(x, n) >> j) & 1 == (x >> (j - (32 - n))) & 1
  {
    BitOfOr(x >> n, x << (32 - n), j);
    ShiftedUp(x, 32 - n, j);
    assert ((x >> n) >> j) & 1 == 0;
  }
}
