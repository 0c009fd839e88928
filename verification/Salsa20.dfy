/**
 * The Salsa20 and HSalsa20 cores of tweetnacl.c, run on words wider than 32
 * bits, against sections 2 to 9 of Bernstein's "Salsa20 specification".
 */
module Salsa20 {
  import opened Bytes
  import opened ModArith

  const TWO32: nat := 0x1_0000_0000
  const TWO64: nat := 0x1_0000_0000_0000_0000

  /** A word of the specification. */
  type Word = x: nat | x < 0x1_0000_0000
  /** `unsigned long`: 64 bits, of which the code means only the low 32. */
  type Wide = x: nat | x < 0x1_0000_0000_0000_0000

  // ---------- the specification ----------

  function Sum(a: Word, b: Word): Word { (a + b) % TWO32 }

  /** The c-bit left rotation: the low 32 - c bits move up, the others come round below them. */
  function Rotl(u: Word, c: nat): Word
    requires 0 < c < 32
  {
    RotlBound(u, c);
    u % Power(2, 32 - c) * Power(2, c) + u / Power(2, 32 - c)
  }

  lemma Shares(c: nat)
    requires 0 < c < 32
    ensures Power(2, c) * Power(2, 32 - c) == TWO32
  {
    PowerAdd(2, c, 32 - c);
    Pow2Words();
  }

  lemma RotlBound(u: nat, c: nat)
    requires 0 < c < 32 && u < TWO32
    ensures 0 <= u % Power(2, 32 - c) * Power(2, c) + u / Power(2, 32 - c) < TWO32
  {
    Shares(c);
    HalvesBound(u, Power(2, c), Power(2, 32 - c));
  }

  lemma HalvesBound(u: nat, p: nat, q: nat)
    requires p > 0 && q > 0 && p * q == TWO32 && u < TWO32
    ensures 0 <= u / q < p && 0 <= u % q * p + u / q < TWO32
  {
    var k, r := u / q, u % q;
    assert u == k * q + r;
    QuotientBelow(k, p, q, u);
    assert r * p <= (q - 1) * p == TWO32 - p;
  }

  lemma QuotientBelow(k: nat, p: nat, q: nat, u: nat)
    requires k * q <= u < p * q
    ensures k < p
  {
    MultipleFar(k - p, q);
    assert (k - p) * q == k * q - p * q;
  }

  function WordXor(a: Word, b: Word): Word {
    Pow2Words(); XorNatBound(a, b, 32); XorNat(a, b)
  }

  function Mix(y: Word, a: Word, b: Word, c: nat): Word
    requires 0 < c < 32
  {
    WordXor(y, Rotl(Sum(a, b), c))
  }

  datatype Quad = Quad(z0: Word, z1: Word, z2: Word, z3: Word)

  function QuarterRound(y0: Word, y1: Word, y2: Word, y3: Word): Quad {
    var z1 := Mix(y1, y0, y3, 7);
    var z2 := Mix(y2, z1, y0, 9);
    var z3 := Mix(y3, z2, z1, 13);
    Quad(Mix(y0, z3, z2, 18), z1, z2, z3)
  }

  function RowRound(y: seq<Word>): (z: seq<Word>)
    requires |y| == 16
    ensures |z| == 16
  {
    var a := QuarterRound(y[0], y[1], y[2], y[3]);
    var b := QuarterRound(y[5], y[6], y[7], y[4]);
    var c := QuarterRound(y[10], y[11], y[8], y[9]);
    var d := QuarterRound(y[15], y[12], y[13], y[14]);
    [a.z0, a.z1, a.z2, a.z3, b.z3, b.z0, b.z1, b.z2, c.z2, c.z3, c.z0, c.z1, d.z1, d.z2, d.z3, d.z0]
  }

  function ColumnRound(x: seq<Word>): (y: seq<Word>)
    requires |x| == 16
    ensures |y| == 16
  {
    var a := QuarterRound(x[0], x[4], x[8], x[12]);
    var b := QuarterRound(x[5], x[9], x[13], x[1]);
    var c := QuarterRound(x[10], x[14], x[2], x[6]);
    var d := QuarterRound(x[15], x[3], x[7], x[11]);
    [a.z0, b.z3, c.z2, d.z1, a.z1, b.z0, c.z3, d.z2, a.z2, b.z1, c.z0, d.z3, a.z3, b.z2, c.z1, d.z0]
  }

  function DoubleRounds(x: seq<Word>, n: nat): (y: seq<Word>)
    requires |x| == 16
    ensures |y| == 16
  {
    if n == 0 then x else RowRound(ColumnRound(DoubleRounds(x, n - 1)))
  }

  function SumAll(x: seq<Word>, y: seq<Word>): (z: seq<Word>)
    requires |x| == |y|
    ensures |z| == |x|
  {
    seq(|x|, i requires 0 <= i < |x| => Sum(x[i], y[i]))
  }

  /** Four bytes as a word, least significant first. */
  function LeWord(b: Bytes): Word
    requires |b| == 4
  {
    var b0: int, b1: int, b2: int, b3: int := b[0], b[1], b[2], b[3];
    b0 + 256 * b1 + 65536 * b2 + 16777216 * b3
  }

  function LeWordBytes(x: Word): (b: Bytes)
    ensures |b| == 4
  {
    [x % 256, x / 256 % 256, x / 65536 % 256, x / 16777216]
  }

  function LeWords(b: Bytes): (w: seq<Word>)
    requires |b| == 64
    ensures |w| == 16
  {
    seq(16, i requires 0 <= i < 16 => LeWord(b[4 * i..4 * i + 4]))
  }

  function WordsBytes(w: seq<Word>): (b: Bytes)
    ensures |b| == 4 * |w|
  {
    if w == [] then [] else WordsBytes(w[..|w| - 1]) + LeWordBytes(w[|w| - 1])
  }

  /** The 64-byte input block: constants on the diagonal, the key around them, the input in the middle. */
  function Expand(n: Bytes, k: Bytes, c: Bytes): (b: Bytes)
    requires |n| == 16 && |k| == 32 && |c| == 16
    ensures |b| == 64
  {
    c[..4] + k[..16] + c[4..8] + n + c[8..12] + k[16..] + c[12..]
  }

  /** Salsa20 */
  function Core(n: Bytes, k: Bytes, c: Bytes): (b: Bytes)
    requires |n| == 16 && |k| == 32 && |c| == 16
    ensures |b| == 64
  {
    var x := LeWords(Expand(n, k, c));
    WordsBytes(SumAll(DoubleRounds(x, 10), x))
  }

  /** HSalsa20: the diagonal and the input words after the rounds, without the final addition. */
  function HCore(n: Bytes, k: Bytes, c: Bytes): (b: Bytes)
    requires |n| == 16 && |k| == 32 && |c| == 16
    ensures |b| == 32
  {
    var z := DoubleRounds(LeWords(Expand(n, k, c)), 10);
    WordsBytes([z[0], z[5], z[10], z[15], z[6], z[7], z[8], z[9]])
  }

  // ---------- an example of the Salsa20 specification, section 3 ----------

  lemma ExamplePowers()
    ensures Power(2, 7) == 0x80 && Power(2, 9) == 0x200 && Power(2, 13) == 0x2000 && Power(2, 18) == 0x4_0000
    ensures Power(2, 25) == 0x200_0000 && Power(2, 23) == 0x80_0000 && Power(2, 19) == 0x8_0000
    ensures Power(2, 14) == 0x4000
  {
    assert Power(2, 5) == 0x20 && Power(2, 7) == 0x80;
    hide Power;
    PowerAdd(2, 7, 7);
    PowerNext(2, 7);
    PowerNext(2, 8);
    PowerAdd(2, 9, 9);
    PowerAdd(2, 9, 14);
    PowerAdd(2, 5, 14);
    PowerAdd(2, 7, 18);
    PowerNext(2, 13);
  }

  lemma XorNone(x: Word)
    ensures WordXor(0, x) == x
  {
    hide XorNat;
    XorNatCommutes(0, x);
    XorNatRightZero(x);
  }

  lemma XorOne(k: nat)
    requires 2 * k < TWO32
    ensures WordXor(1, 2 * k) == 2 * k + 1
  {
    XorNatStep(1, 2 * k);
    XorNone(k);
  }

  lemma MixNone(a: Word, b: Word, c: nat)
    requires 0 < c < 32
    ensures Mix(0, a, b, c) == Rotl(Sum(a, b), c)
  {
    hide Rotl, WordXor, Sum;
    XorNone(Rotl(Sum(a, b), c));
  }

  lemma RotlOf(u: Word, c: nat, p: nat, q: nat)
    requires 0 < c < 32 && Power(2, c) == p && Power(2, 32 - c) == q
    ensures q > 0 && Rotl(u, c) == u % q * p + u / q
  {
  }

  lemma ExampleRotations()
    ensures Rotl(1, 7) == 0x80 && Rotl(0x81, 9) == 0x10200
    ensures Rotl(0x10280, 13) == 0x20500000 && Rotl(0x20510200, 18) == 0x8008144
  {
    hide Power, Rotl;
    ExamplePowers();
    RotlOf(1, 7, 0x80, 0x200_0000);
    RotlOf(0x81, 9, 0x200, 0x80_0000);
    RotlOf(0x10280, 13, 0x2000, 0x8_0000);
    RotlOf(0x20510200, 18, 0x4_0000, 0x4000);
  }

  /** The four rotations take a single bit to four places, one for each amount. */
  lemma OneBit()
    ensures QuarterRound(1, 0, 0, 0) == Quad(0x8008145, 0x80, 0x10200, 0x20500000)
  {
    hide Rotl, WordXor;
    ExampleRotations();
    MixNone(1, 0, 7);
    MixNone(0x80, 1, 9);
    MixNone(0x10200, 0x80, 13);
    XorOne(0x40040a2);
  }

  // ---------- wide words ----------

  function Low(x: Wide): Word { x % TWO32 }

  function Lows(s: seq<Wide>): (w: seq<Word>)
    ensures |w| == |s|
  {
    seq(|s|, i requires 0 <= i < |s| => Low(s[i]))
  }

  function WideSum(a: Wide, b: Wide): Wide { (a + b) % TWO64 }

  function WideXor(a: Wide, b: Wide): Wide {
    Pow2Words(); XorNatBound(a, b, 64); XorNat(a, b)
  }

  function Shl(x: Wide, c: nat): Wide { x * Power(2, c) % TWO64 }

  function Shr(x: Wide, c: nat): (y: Wide)
    ensures y <= x
  {
    QuotientSmaller(x, Power(2, c)); x / Power(2, c)
  }

  lemma QuotientSmaller(x: nat, p: nat)
    requires p > 0
    ensures 0 <= x / p <= x
  {
    TimesGrows(x / p, p);
    assert x == x / p * p + x % p;
  }

  lemma TimesGrows(k: int, p: nat)
    requires p > 0
    ensures k >= 0 ==> k * p >= k
    ensures k < 0 ==> k * p < 0
  {
  }

  /** `(x << c) | ((x & 0xffffffff) >> (32 - c))`; the left shift leaves garbage above bit 31. */
  function L32(x: Wide, c: nat): Wide
    requires 0 < c < 32
  {
    Pow2Words();
    OrNatBound(Shl(x, c), Shr(Low(x), 32 - c), 64);
    OrNat(Shl(x, c), Shr(Low(x), 32 - c))
  }

  /** Shifting left in 64 bits drops what does not fit. */
  lemma ShiftKeeps(x: nat, p: nat, q: nat)
    requires p > 0 && q > 0 && p * q == TWO32
    ensures x * p % TWO64 == x % (TWO32 * q) * p
  {
    var m := TWO32 * q;
    assert m * p == TWO64;
    var k, r := x / m, x % m;
    assert x * p == (k * m + r) * p == k * (m * p) + r * p;
    assert r * p <= (m - 1) * p;
    DivModUnique(x * p, k, r * p, TWO64);
  }

  /** The bits that come round fall below the shifted ones, so or-ing them in adds them. */
  lemma L32IsSum(x: Wide, c: nat)
    requires 0 < c < 32
    ensures L32(x, c) == x % (TWO32 * Power(2, 32 - c)) * Power(2, c) + Low(x) / Power(2, 32 - c)
  {
    var p, q := Power(2, c), Power(2, 32 - c);
    Shares(c);
    ShiftKeeps(x, p, q);
    HalvesBound(Low(x), p, q);
    OrAbove(Low(x) / q, x % (TWO32 * q), c);
    OrNatCommutes(Shl(x, c), Low(x) / q);
  }

  /** Modulo 2^32 q, a number keeps its low 32 bits. */
  lemma WideMod(x: nat, q: nat)
    requires q > 0
    ensures x % (TWO32 * q) == x % TWO32 + TWO32 * (x / TWO32 % q)
  {
    var h, u := x / TWO32, x % TWO32;
    var k, t := h / q, h % q;
    assert h == k * q + t;
    assert k * (TWO32 * q) == TWO32 * (k * q);
    DivModUnique(x, k, u + TWO32 * t, TWO32 * q);
  }

  lemma UpperHalf(u: nat, p: nat, q: nat)
    requires p > 0 && q > 0 && p * q == TWO32
    ensures u * p == u / q * TWO32 + u % q * p
  {
    var k, r := u / q, u % q;
    assert u == k * q + r;
    assert (k * q + r) * p == k * (p * q) + r * p;
  }

  lemma LowOfSum(x: nat, p: nat, q: nat)
    requires p > 0 && q > 0 && p * q == TWO32
    ensures var u := x % TWO32; (x % (TWO32 * q) * p + u / q) % TWO32 == u % q * p + u / q
  {
    var u, t := x % TWO32, x / TWO32 % q;
    WideMod(x, q);
    UpperHalf(u, p, q);
    HalvesBound(u, p, q);
    assert (u + TWO32 * t) * p == u * p + TWO32 * (t * p);
    DivModUnique(x % (TWO32 * q) * p + u / q, u / q + t * p, u % q * p + u / q, TWO32);
  }

  lemma LowRot(x: Wide, c: nat)
    requires 0 < c < 32
    ensures Low(L32(x, c)) == Rotl(Low(x), c)
  {
    L32IsSum(x, c);
    Shares(c);
    LowOfSum(x, Power(2, c), Power(2, 32 - c));
  }

  lemma LowXor(a: Wide, b: Wide)
    ensures Low(WideXor(a, b)) == WordXor(Low(a), Low(b))
  {
    XorNatLow(a, b, 32);
    Pow2Words();
  }

  lemma LowSum(a: Wide, b: Wide)
    ensures Low(WideSum(a, b)) == Sum(Low(a), Low(b))
  {
    LowOfMod(a + b);
    ModSum(a, b, TWO32);
  }

  lemma LowOfMod(n: nat)
    ensures n % TWO64 % TWO32 == n % TWO32
  {
    DivModUnique(n, n / TWO64 * TWO32 + n % TWO64 / TWO32, n % TWO64 % TWO32, TWO32);
  }

  function WideMix(y: Wide, a: Wide, b: Wide, c: nat): Wide
    requires 0 < c < 32
  {
    WideXor(y, L32(WideSum(a, b), c))
  }

  /** Garbage above bit 31 never reaches the low 32 bits. */
  lemma LowMix(y: Wide, a: Wide, b: Wide, c: nat)
    requires 0 < c < 32
    ensures Low(WideMix(y, a, b, c)) == Mix(Low(y), Low(a), Low(b), c)
  {
    hide L32, Rotl, WideXor, WordXor, WideSum, Sum, Low;
    LowXor(y, L32(WideSum(a, b), c));
    LowRot(WideSum(a, b), c);
    LowSum(a, b);
  }

  // ---------- rounds as the code runs them ----------

  function Transpose(x: seq<Word>): (y: seq<Word>)
    requires |x| == 16
    ensures |y| == 16
  {
    seq(16, i requires 0 <= i < 16 => x[i % 4 * 4 + i / 4])
  }

  /** Where the inner loop takes word `m` of group `j` from, and where it puts it. */
  function From(j: nat, m: nat): (i: nat)
    requires j < 4 && m < 4
    ensures i < 16
  {
    (5 * j + 4 * m) % 16
  }

  function To(j: nat, m: nat): (i: nat)
    requires j < 4 && m < 4
    ensures 4 * j <= i < 4 * j + 4
  {
    4 * j + (j + m) % 4
  }

  /** The quarter round of group `j`. */
  function GroupQuad(x: seq<Word>, j: nat): Quad
    requires |x| == 16 && j < 4
  {
    QuarterRound(x[From(j, 0)], x[From(j, 1)], x[From(j, 2)], x[From(j, 3)])
  }

  function Pick(q: Quad, m: nat): Word {
    if m == 0 then q.z0 else if m == 1 then q.z1 else if m == 2 then q.z2 else q.z3
  }

  /** What one pass of the outer loop leaves in `x`, all groups done. */
  ghost predicate Passed(x: seq<Word>, w: seq<Word>, n: nat)
    requires |x| == 16 && |w| == 16 && n <= 4
  {
    forall j, m :: 0 <= j < n && 0 <= m < 4 ==> w[To(j, m)] == Pick(GroupQuad(x, j), m)
  }

  function Pass(x: seq<Word>): (y: seq<Word>)
    requires |x| == 16
    ensures |y| == 16
  {
    Transpose(ColumnRound(x))
  }

  lemma FromOf(j: nat, m: nat)
    requires j < 4 && m < 4
    ensures From(j, m) == if 5 * j + 4 * m < 16 then 5 * j + 4 * m else 5 * j + 4 * m - 16
  {
  }

  lemma ToOf(j: nat, m: nat)
    requires j < 4 && m < 4
    ensures To(j, m) == if j + m < 4 then 5 * j + m else 5 * j + m - 4
  {
  }

  /** Group `j` of the code is the quarter round of column `j`, and each of its words lands in row `j`. */
  lemma GroupIs(x: seq<Word>, w: seq<Word>, j: nat)
    requires |x| == 16 && |w| == 16 && Passed(x, w, 4) && j < 4
    ensures forall m :: 0 <= m < 4 ==>
      w[if j + m < 4 then 5 * j + m else 5 * j + m - 4] == Pick(GroupQuad(x, j), m)
    ensures GroupQuad(x, j) == QuarterRound(
      x[5 * j], x[if j < 3 then 5 * j + 4 else 3],
      x[if j < 2 then 5 * j + 8 else 5 * j - 8], x[if j < 1 then 12 else 5 * j - 4])
  {
    hide QuarterRound, From, To, Pick;
    FromOf(j, 0);
    FromOf(j, 1);
    FromOf(j, 2);
    FromOf(j, 3);
    forall m | 0 <= m < 4
      ensures w[if j + m < 4 then 5 * j + m else 5 * j + m - 4] == Pick(GroupQuad(x, j), m)
    {
      ToOf(j, m);
    }
  }

  /** A pass of the code is a column round followed by a transposition. */
  lemma PassIsColumnRound(x: seq<Word>, w: seq<Word>)
    requires |x| == 16 && |w| == 16 && Passed(x, w, 4)
    ensures w == Transpose(ColumnRound(x))
  {
    hide QuarterRound, From, To, Passed, GroupQuad;
    GroupIs(x, w, 0);
    GroupIs(x, w, 1);
    GroupIs(x, w, 2);
    GroupIs(x, w, 3);
    var a, b, c, d := GroupQuad(x, 0), GroupQuad(x, 1), GroupQuad(x, 2), GroupQuad(x, 3);
    assert w == [Pick(a, 0), Pick(a, 1), Pick(a, 2), Pick(a, 3), Pick(b, 3), Pick(b, 0), Pick(b, 1), Pick(b, 2),
                 Pick(c, 2), Pick(c, 3), Pick(c, 0), Pick(c, 1), Pick(d, 1), Pick(d, 2), Pick(d, 3), Pick(d, 0)];
  }

  /** A row round is a column round seen in the transposed matrix. */
  lemma RowIsColumn(x: seq<Word>)
    requires |x| == 16
    ensures RowRound(x) == Transpose(ColumnRound(Transpose(x)))
  {
    hide QuarterRound;
  }

  /** Two passes make a double round, their transpositions cancelling. */
  lemma TwoPasses(x: seq<Word>)
    requires |x| == 16
    ensures Pass(Pass(x)) == RowRound(ColumnRound(x))
  {
    hide ColumnRound, RowRound, Transpose;
    RowIsColumn(ColumnRound(x));
  }

  function Passes(x: seq<Word>, n: nat): (y: seq<Word>)
    requires |x| == 16
    ensures |y| == 16
  {
    if n == 0 then x else Pass(Passes(x, n - 1))
  }

  lemma {:induction false} PassesAreDoubleRounds(x: seq<Word>, n: nat)
    requires |x| == 16
    ensures Passes(x, 2 * n) == DoubleRounds(x, n)
  {
    hide Pass, ColumnRound, RowRound;
    if n > 0 {
      PassesAreDoubleRounds(x, n - 1);
      TwoPasses(Passes(x, 2 * n - 2));
      assert Passes(x, 2 * n) == Pass(Passes(x, 2 * n - 1));
    }
  }

  /** Both cores run the twenty rounds that give Salsa20 its name. */
  lemma TwentyRounds(n: Bytes, k: Bytes, c: Bytes)
    requires |n| == 16 && |k| == 32 && |c| == 16
    ensures var x := LeWords(Expand(n, k, c));
      && Core(n, k, c) == WordsBytes(SumAll(Passes(x, 20), x))
      && HCore(n, k, c) == var z := Passes(x, 20); WordsBytes([z[0], z[5], z[10], z[15], z[6], z[7], z[8], z[9]])
  {
    hide Passes, DoubleRounds, SumAll, WordsBytes;
    PassesAreDoubleRounds(LeWords(Expand(n, k, c)), 10);
  }

  // ---------- the code ----------

  /** ld32 */
  function Ld32(b: Bytes): Wide
    requires |b| == 4
  {
    var u0: nat := b[3];
    var u1 := OrNat(u0 * 256, b[2]);
    var u2 := OrNat(u1 * 256, b[1]);
    Ld32IsLe(b);
    OrNat(u2 * 256, b[0])
  }

  lemma OrByte(u: nat, b: byte)
    ensures OrNat(u * 256, b) == u * 256 + b
  {
    assert Power(2, 8) == 256 by { assert Power(2, 4) == 16; }
    OrAbove(b, u, 8);
    OrNatCommutes(b, u * 256);
  }

  lemma Ld32IsLe(b: Bytes)
    requires |b| == 4
    ensures OrNat(OrNat(OrNat(b[3] as nat * 256, b[2]) * 256, b[1]) * 256, b[0]) == LeWord(b)
  {
    var u0: nat := b[3];
    OrByte(u0, b[2]);
    OrByte(u0 * 256 + b[2], b[1]);
    OrByte((u0 * 256 + b[2]) * 256 + b[1], b[0]);
  }

  /** Dropping the low byte of a wide word and of its low 32 bits. */
  lemma DropByte(v: nat, h: nat, l: nat, p: nat)
    requires v == h * (256 * p) + l && l < 256 * p && p % 256 == 0
    ensures v / 256 == h * p + l / 256 && v % 256 == l % 256
  {
    assert h * (256 * p) == 256 * (h * p);
  }

  lemma St32Bytes(u: Wide)
    ensures LeWordBytes(Low(u)) == [u % 256, u / 256 % 256, u / 256 / 256 % 256, u / 256 / 256 / 256 % 256]
  {
    var h, l := u / TWO32, u % TWO32;
    DropByte(u, h, l, 16777216);
    DropByte(u / 256, h, l / 256, 65536);
    DropByte(u / 256 / 256, h, l / 65536, 256);
    TopByte(u / 256 / 256 / 256, h, l / 16777216);
  }

  lemma TopByte(v: nat, h: nat, l: nat)
    requires v == h * 256 + l && l < 256
    ensures v % 256 == l
  {
  }

  /** st32: the bytes of the low 32 bits. */
  method St32(out: array<byte>, at: nat, u0: Wide)
    requires at + 4 <= out.Length
    modifies out
    ensures out[..] == old(out[..at]) + LeWordBytes(Low(u0)) + old(out[at + 4..])
  {
    hide LeWordBytes, Low;
    St32Bytes(u0);
    var u := u0;
    for i := 0 to 4
      invariant out[..at] == old(out[..at]) && out[at + 4..] == old(out[at + 4..])
      invariant u == if i == 0 then u0 else if i == 1 then u0 / 256 else if i == 2 then u0 / 256 / 256
                     else if i == 3 then u0 / 256 / 256 / 256 else u0 / 256 / 256 / 256 / 256
      invariant forall k :: 0 <= k < i ==> out[at + k] == LeWordBytes(Low(u0))[k]
    {
      out[at + i] := u % 256;
      u := u / 256;
    }
    assert out[at..at + 4] == LeWordBytes(Low(u0));
  }

  /** The four mixing lines of the inner loop. */
  method Quarter(t: array<Wide>)
    requires t.Length == 4
    modifies t
    ensures forall m :: 0 <= m < 4 ==>
      Low(t[m]) == Pick(QuarterRound(old(Low(t[0])), old(Low(t[1])), old(Low(t[2])), old(Low(t[3]))), m)
  {
    hide Mix, WideMix, Low;
    LowMix(t[1], t[0], t[3], 7);
    t[1] := WideMix(t[1], t[0], t[3], 7);
    LowMix(t[2], t[1], t[0], 9);
    t[2] := WideMix(t[2], t[1], t[0], 9);
    LowMix(t[3], t[2], t[1], 13);
    t[3] := WideMix(t[3], t[2], t[1], 13);
    LowMix(t[0], t[3], t[2], 18);
    t[0] := WideMix(t[0], t[3], t[2], 18);
  }

  /** The first `m` words of group `j` are in their places. */
  ghost predicate GroupWritten(x: seq<Word>, w: seq<Word>, j: nat, m: nat)
    requires |x| == 16 && |w| == 16 && j < 4 && m <= 4
  {
    forall l :: 0 <= l < m ==> w[To(j, l)] == Pick(GroupQuad(x, j), l)
  }

  lemma WrittenStep(x: seq<Word>, w: seq<Word>, j: nat, m: nat)
    requires |x| == 16 && |w| == 16 && j < 4 && m < 4 && Passed(x, w, j) && GroupWritten(x, w, j, m)
    ensures var w' := w[To(j, m) := Pick(GroupQuad(x, j), m)]; Passed(x, w', j) && GroupWritten(x, w', j, m + 1)
  {
    hide Pick, GroupQuad;
  }

  lemma WrittenEnd(x: seq<Word>, w: seq<Word>, j: nat)
    requires |x| == 16 && |w| == 16 && j < 4 && Passed(x, w, j) && GroupWritten(x, w, j, 4)
    ensures Passed(x, w, j + 1)
  {
    hide Pick, GroupQuad;
  }

  /** Group `j`: read four words, mix them, write them to their places. */
  method RunGroup(x: array<Wide>, w: array<Wide>, j: nat, ghost x0: seq<Word>)
    requires x.Length == 16 && w.Length == 16 && x != w && j < 4 && x0 == Lows(x[..])
    requires Passed(x0, Lows(w[..]), j)
    modifies w
    ensures Passed(x0, Lows(w[..]), j + 1)
  {
    hide Low, Passed, GroupWritten, GroupQuad, Pick, To;
    var t := MixGroup(x, j, x0);
    assert GroupWritten(x0, Lows(w[..]), j, 0) by { WrittenNone(x0, Lows(w[..]), j); }
    for m := 0 to 4
      invariant Passed(x0, Lows(w[..]), j) && GroupWritten(x0, Lows(w[..]), j, m)
      invariant forall l :: 0 <= l < 4 ==> Low(t[l]) == Pick(GroupQuad(x0, j), l)
    {
      ghost var w0 := Lows(w[..]);
      WrittenStep(x0, w0, j, m);
      w[To(j, m)] := t[m];
      assert Lows(w[..]) == w0[To(j, m) := Low(t[m])];
    }
    WrittenEnd(x0, Lows(w[..]), j);
  }

  lemma WrittenNone(x: seq<Word>, w: seq<Word>, j: nat)
    requires |x| == 16 && |w| == 16 && j < 4
    ensures GroupWritten(x, w, j, 0)
  {
  }

  /** The four words of group `j`, mixed. */
  method MixGroup(x: array<Wide>, j: nat, ghost x0: seq<Word>) returns (t: array<Wide>)
    requires x.Length == 16 && j < 4 && x0 == Lows(x[..])
    ensures fresh(t) && t.Length == 4 && forall m :: 0 <= m < 4 ==> Low(t[m]) == Pick(GroupQuad(x0, j), m)
  {
    hide QuarterRound, Low, From, Pick;
    t := new Wide[4](m requires 0 <= m < 4 reads x => x[From(j, m)]);
    assert x[..][From(j, 0)] == x[From(j, 0)] && x[..][From(j, 1)] == x[From(j, 1)];
    Quarter(t);
  }

  method RunPass(x: array<Wide>)
    requires x.Length == 16
    modifies x
    ensures Lows(x[..]) == Pass(old(Lows(x[..])))
  {
    hide QuarterRound, Low, Passed, Pass;
    ghost var x0 := Lows(x[..]);
    var w := new Wide[16](_ => 0);
    PassedNone(x0, Lows(w[..]));
    for j := 0 to 4
      invariant Lows(x[..]) == x0
      invariant Passed(x0, Lows(w[..]), j)
    {
      RunGroup(x, w, j, x0);
    }
    ghost var ws := w[..];
    forall m | 0 <= m < 16 { x[m] := w[m]; }
    assert x[..] == ws;
    PassIsColumnRound(x0, Lows(x[..]));
    PassDef(x0);
  }

  lemma PassedNone(x: seq<Word>, w: seq<Word>)
    requires |x| == 16 && |w| == 16
    ensures Passed(x, w, 0)
  {
  }

  lemma PassDef(x: seq<Word>)
    requires |x| == 16
    ensures Pass(x) == Transpose(ColumnRound(x))
  {
  }

  lemma ExpandAt(n: Bytes, k: Bytes, c: Bytes, i: nat)
    requires |n| == 16 && |k| == 32 && |c| == 16 && i < 4
    ensures var e := Expand(n, k, c);
      && e[20 * i..20 * i + 4] == c[4 * i..4 * i + 4]
      && e[4 + 4 * i..8 + 4 * i] == k[4 * i..4 * i + 4]
      && e[24 + 4 * i..28 + 4 * i] == n[4 * i..4 * i + 4]
      && e[44 + 4 * i..48 + 4 * i] == k[16 + 4 * i..20 + 4 * i]
  {
  }

  lemma LoadedAt(n: Bytes, k: Bytes, c: Bytes, i: nat)
    requires |n| == 16 && |k| == 32 && |c| == 16 && i < 4
    ensures var w := LeWords(Expand(n, k, c));
      && w[5 * i] == Ld32(c[4 * i..4 * i + 4])
      && w[1 + i] == Ld32(k[4 * i..4 * i + 4])
      && w[6 + i] == Ld32(n[4 * i..4 * i + 4])
      && w[11 + i] == Ld32(k[16 + 4 * i..20 + 4 * i])
  {
    hide Expand, LeWord;
    ExpandAt(n, k, c, i);
    var e := Expand(n, k, c);
    Ld32IsLe(e[20 * i..20 * i + 4]);
    Ld32IsLe(e[4 + 4 * i..8 + 4 * i]);
    Ld32IsLe(e[24 + 4 * i..28 + 4 * i]);
    Ld32IsLe(e[44 + 4 * i..48 + 4 * i]);
  }

  ghost predicate GroupLoaded(x: seq<Wide>, w: seq<Wide>, l: nat)
    requires |x| == 16 && |w| == 16 && l < 4
  {
    x[5 * l] == w[5 * l] && x[1 + l] == w[1 + l] && x[6 + l] == w[6 + l] && x[11 + l] == w[11 + l]
  }

  function SetGroup(x: seq<Wide>, w: seq<Wide>, i: nat): (r: seq<Wide>)
    requires |x| == 16 && |w| == 16 && i < 4
    ensures |r| == 16
  {
    var a: seq<Wide> := x[5 * i := w[5 * i]];
    var b: seq<Wide> := a[1 + i := w[1 + i]];
    var c: seq<Wide> := b[6 + i := w[6 + i]];
    c[11 + i := w[11 + i]]
  }

  lemma StaysLoaded(x: seq<Wide>, x': seq<Wide>, w: seq<Wide>, i: nat)
    requires |x| == 16 && |w| == 16 && i < 4 && forall l :: 0 <= l < i ==> GroupLoaded(x, w, l)
    requires x' == SetGroup(x, w, i)
    ensures forall l :: 0 <= l <= i ==> GroupLoaded(x', w, l)
  {
    forall l | 0 <= l < i ensures GroupLoaded(x', w, l) {
      assert GroupLoaded(x, w, l);
    }
  }

  method Load(n: Bytes, k: Bytes, c: Bytes) returns (x: array<Wide>)
    requires |n| == 16 && |k| == 32 && |c| == 16
    ensures fresh(x) && x.Length == 16 && x[..] == LeWords(Expand(n, k, c)) && Lows(x[..]) == x[..]
  {
    hide LeWords, Expand, Ld32;
    ghost var w: seq<Wide> := LeWords(Expand(n, k, c));
    x := new Wide[16](_ => 0);
    for i := 0 to 4
      invariant forall l :: 0 <= l < i ==> GroupLoaded(x[..], w, l)
    {
      ghost var before := x[..];
      LoadedAt(n, k, c, i);
      x[5 * i] := Ld32(c[4 * i..4 * i + 4]);
      x[1 + i] := Ld32(k[4 * i..4 * i + 4]);
      x[6 + i] := Ld32(n[4 * i..4 * i + 4]);
      x[11 + i] := Ld32(k[16 + 4 * i..20 + 4 * i]);
      assert x[..] == SetGroup(before, w, i);
      StaysLoaded(before, x[..], w, i);
    }
    AllLoaded(x[..], w);
    assert forall i :: 0 <= i < 16 ==> x[i] < TWO32;
  }

  lemma AllLoaded(x: seq<Wide>, w: seq<Wide>)
    requires |x| == 16 && |w| == 16 && forall l :: 0 <= l < 4 ==> GroupLoaded(x, w, l)
    ensures x == w
  {
    forall i | 0 <= i < 16 ensures x[i] == w[i] {
      if 1 <= i < 5 { assert GroupLoaded(x, w, i - 1); }
      else if 6 <= i < 10 { assert GroupLoaded(x, w, i - 6); }
      else if 11 <= i < 15 { assert GroupLoaded(x, w, i - 11); }
      else { assert GroupLoaded(x, w, i / 5); }
    }
  }

  method TwentyPasses(x: array<Wide>)
    requires x.Length == 16
    modifies x
    ensures Lows(x[..]) == DoubleRounds(old(Lows(x[..])), 10)
  {
    hide Pass;
    ghost var x0 := Lows(x[..]);
    for i := 0 to 20
      invariant Lows(x[..]) == Passes(x0, i)
    {
      RunPass(x);
    }
    PassesAreDoubleRounds(x0, 10);
  }

  lemma WordsBytesSnoc(w: seq<Word>, x: Word)
    ensures WordsBytes(w + [x]) == WordsBytes(w) + LeWordBytes(x)
  {
    assert (w + [x])[..|w|] == w;
  }

  /** The branch h = 0: words plus the words before the rounds. */
  method StoreSums(out: array<byte>, x: array<Wide>, y: array<Wide>)
    requires x.Length == 16 && y.Length == 16 && out.Length == 64
    modifies out
    ensures out[..] == WordsBytes(SumAll(Lows(x[..]), Lows(y[..])))
  {
    hide LeWordBytes, WordsBytes, Sum, Low;
    ghost var z := SumAll(Lows(x[..]), Lows(y[..]));
    WordsBytesNone();
    for i := 0 to 16
      invariant z == SumAll(Lows(x[..]), Lows(y[..]))
      invariant out[..4 * i] == WordsBytes(z[..i])
    {
      ghost var before := out[..4 * i];
      LowSum(x[i], y[i]);
      St32(out, 4 * i, WideSum(x[i], y[i]));
      assert z[..i + 1] == z[..i] + [z[i]];
      WordsBytesSnoc(z[..i], z[i]);
      assert out[..4 * (i + 1)] == before + LeWordBytes(z[i]);
    }
    assert z[..16] == z && out[..64] == out[..];
  }

  lemma WordsBytesNone()
    ensures WordsBytes([]) == []
  {
  }

  function WideDiff(a: Wide, b: Wide): Wide { (a - b) % TWO64 }

  lemma DiffUndoesSum(a: Wide, b: Wide)
    ensures WideDiff(WideSum(a, b), b) == a
  {
  }

  /** The words HSalsa20 hands out. */
  function Diagonal(z: seq<Word>): seq<Word>
    requires |z| == 16
  {
    [z[0], z[5], z[10], z[15]]
  }

  function Middle(z: seq<Word>): seq<Word>
    requires |z| == 16
  {
    [z[6], z[7], z[8], z[9]]
  }

  /** The branch h = 1 before it stores: add the old words, take the constants and the input off again. */
  method Unadd(x: array<Wide>, y: array<Wide>, n: Bytes, c: Bytes)
    requires x.Length == 16 && y.Length == 16 && x != y && |n| == 16 && |c| == 16
    requires forall i :: 0 <= i < 4 ==> y[5 * i] == Ld32(c[4 * i..4 * i + 4]) && y[6 + i] == Ld32(n[4 * i..4 * i + 4])
    modifies x
    ensures Diagonal(Lows(x[..])) == old(Diagonal(Lows(x[..]))) && Middle(Lows(x[..])) == old(Middle(Lows(x[..])))
  {
    hide WideSum, WideDiff, Ld32, HalfState, Diagonal, Middle;
    ghost var x0, y0 := x[..], y[..];
    forall i | 0 <= i < 16 { x[i] := WideSum(x[i], y[i]); }
    AllSummed(x[..], x0, y0);
    for i := 0 to 4
      invariant y[..] == y0
      invariant forall l :: 0 <= l < 4 ==> HalfState(x[..], x0, y0, l, i)
    {
      ghost var before := x[..];
      HalfSummed(before, x0, y0, i);
      var a, b := WideDiff(x[5 * i], Ld32(c[4 * i..4 * i + 4])), WideDiff(x[6 + i], Ld32(n[4 * i..4 * i + 4]));
      x[5 * i] := a;
      x[6 + i] := b;
      assert x[..] == before[5 * i := a][6 + i := b];
      ghost var next := i + 1;
      forall l | 0 <= l < 4 ensures HalfState(x[..], x0, y0, l, next) {
        HalfStep(before, x0, y0, l, i);
      }
    }
    SameHalves(x[..], x0, y0);
  }

  /** The two words of index `l` that HSalsa20 hands out: back to what they were below `i`, summed from there on. */
  ghost predicate HalfState(x: seq<Wide>, x0: seq<Wide>, y: seq<Wide>, l: nat, i: nat)
    requires |x| == 16 && |x0| == 16 && |y| == 16 && l < 4
  {
    if l < i then x[5 * l] == x0[5 * l] && x[6 + l] == x0[6 + l]
    else x[5 * l] == WideSum(x0[5 * l], y[5 * l]) && x[6 + l] == WideSum(x0[6 + l], y[6 + l])
  }

  lemma AllSummed(x: seq<Wide>, x0: seq<Wide>, y: seq<Wide>)
    requires |x| == 16 && |x0| == 16 && |y| == 16 && forall i :: 0 <= i < 16 ==> x[i] == WideSum(x0[i], y[i])
    ensures forall l :: 0 <= l < 4 ==> HalfState(x, x0, y, l, 0)
  {
    hide WideSum;
  }

  lemma HalfSummed(x: seq<Wide>, x0: seq<Wide>, y: seq<Wide>, i: nat)
    requires |x| == 16 && |x0| == 16 && |y| == 16 && i < 4 && HalfState(x, x0, y, i, i)
    ensures WideDiff(x[5 * i], y[5 * i]) == x0[5 * i] && WideDiff(x[6 + i], y[6 + i]) == x0[6 + i]
  {
    DiffUndoesSum(x0[5 * i], y[5 * i]);
    DiffUndoesSum(x0[6 + i], y[6 + i]);
  }

  lemma HalfStep(x: seq<Wide>, x0: seq<Wide>, y: seq<Wide>, l: nat, i: nat)
    requires |x| == 16 && |x0| == 16 && |y| == 16 && l < 4 && i < 4 && HalfState(x, x0, y, l, i)
    ensures HalfState(x[5 * i := x0[5 * i]][6 + i := x0[6 + i]], x0, y, l, i + 1)
  {
    hide WideSum;
  }

  lemma HalvesAt(z: seq<Word>, i: nat)
    requires |z| == 16 && i < 4
    ensures Diagonal(z)[i] == z[5 * i] && Middle(z)[i] == z[6 + i]
    ensures Diagonal(z)[..i + 1] == Diagonal(z)[..i] + [z[5 * i]]
    ensures Middle(z)[..i + 1] == Middle(z)[..i] + [z[6 + i]]
  {
  }

  /** The stores of the branch h = 1. */
  method StoreHalves(out: array<byte>, x: array<Wide>)
    requires x.Length == 16 && out.Length == 32
    modifies out
    ensures out[..16] == WordsBytes(Diagonal(Lows(x[..])))
    ensures out[16..] == WordsBytes(Middle(Lows(x[..])))
  {
    hide LeWordBytes, WordsBytes, Low, Diagonal, Middle;
    ghost var z := Lows(x[..]);
    WordsBytesNone();
    HalvesStart(z);
    for i := 0 to 4
      invariant z == Lows(x[..])
      invariant out[..4 * i] == WordsBytes(Diagonal(z)[..i])
      invariant out[16..16 + 4 * i] == WordsBytes(Middle(z)[..i])
    {
      HalvesAt(z, i);
      WordsBytesSnoc(Diagonal(z)[..i], z[5 * i]);
      WordsBytesSnoc(Middle(z)[..i], z[6 + i]);
      StoreTwo(out, i, x[5 * i], x[6 + i]);
    }
  }

  lemma HalvesStart(z: seq<Word>)
    requires |z| == 16
    ensures |Diagonal(z)| == 4 && |Middle(z)| == 4
    ensures Diagonal(z)[..4] == Diagonal(z) && Middle(z)[..4] == Middle(z)
  {
  }

  method StoreTwo(out: array<byte>, i: nat, a: Wide, b: Wide)
    requires out.Length == 32 && i < 4
    modifies out
    ensures out[..4 * (i + 1)] == old(out[..4 * i]) + LeWordBytes(Low(a))
    ensures out[16..16 + 4 * (i + 1)] == old(out[16..16 + 4 * i]) + LeWordBytes(Low(b))
  {
    hide LeWordBytes, Low;
    St32(out, 4 * i, a);
    St32(out, 16 + 4 * i, b);
  }

  /** crypto_core_salsa20 */
  method CoreSalsa20(out: array<byte>, n: Bytes, k: Bytes, c: Bytes)
    requires out.Length == 64 && |n| == 16 && |k| == 32 && |c| == 16
    modifies out
    ensures out[..] == Core(n, k, c)
  {
    hide LeWords, Expand, WordsBytes, SumAll, DoubleRounds;
    var x := Load(n, k, c);
    var y := new Wide[16](i requires 0 <= i < 16 reads x => x[i]);
    assert y[..] == x[..];
    TwentyPasses(x);
    StoreSums(out, x, y);
  }

  /** crypto_core_hsalsa20 */
  method CoreHSalsa20(out: array<byte>, n: Bytes, k: Bytes, c: Bytes)
    requires out.Length == 32 && |n| == 16 && |k| == 32 && |c| == 16
    modifies out
    ensures out[..] == HCore(n, k, c)
  {
    hide LeWords, Expand, WordsBytes, DoubleRounds, Ld32, Low;
    var x := Load(n, k, c);
    var y := new Wide[16](i requires 0 <= i < 16 reads x => x[i]);
    assert y[..] == x[..];
    TwentyPasses(x);
    forall i | 0 <= i < 4
      ensures y[5 * i] == Ld32(c[4 * i..4 * i + 4]) && y[6 + i] == Ld32(n[4 * i..4 * i + 4])
    {
      LoadedAt(n, k, c, i);
    }
    ghost var z := Lows(x[..]);
    Unadd(x, y, n, c);
    StoreHalves(out, x);
    WordsBytesConcat(Diagonal(z), Middle(z));
    assert Diagonal(z) + Middle(z) == [z[0], z[5], z[10], z[15], z[6], z[7], z[8], z[9]];
    assert out[..] == out[..16] + out[16..];
  }

  lemma SameHalves(x: seq<Wide>, x0: seq<Wide>, y: seq<Wide>)
    requires |x| == 16 && |x0| == 16 && |y| == 16 && forall l :: 0 <= l < 4 ==> HalfState(x, x0, y, l, 4)
    ensures Diagonal(Lows(x)) == Diagonal(Lows(x0)) && Middle(Lows(x)) == Middle(Lows(x0))
  {
    hide Low;
    assert HalfState(x, x0, y, 0, 4) && HalfState(x, x0, y, 1, 4) && HalfState(x, x0, y, 2, 4)
      && HalfState(x, x0, y, 3, 4);
  }

  lemma {:induction false} WordsBytesConcat(a: seq<Word>, b: seq<Word>)
    ensures WordsBytes(a + b) == WordsBytes(a) + WordsBytes(b)
  {
    if b == [] {
      assert a + b == a;
    } else {
      var n := |b| - 1;
      WordsBytesConcat(a, b[..n]);
      assert (a + b)[..|a| + n] == a + b[..n];
    }
  }
}
