/** Bytes, the bitwise operations the C library applies to them, and optional values. */
module Bytes {
  import opened ModArith

  type byte = x: int | 0 <= x < 256
  type Bytes = seq<byte>

  datatype Option<+T> = None | Some(value: T)

  function Zeros(n: nat): (z: Bytes)
    ensures |z| == n
  {
    seq(n, _ => 0)
  }

  function Code(c: char): byte {
    c as int % 256
  }

  /** The bytes of a C string, without its NUL. */
  function Ascii(s: string): (b: Bytes)
    ensures |b| == |s|
  {
    seq(|s|, i requires 0 <= i < |s| => Code(s[i]))
  }

  /** Bitwise exclusive or of two naturals, lowest bit first. */
  function XorNat(a: nat, b: nat): nat
    decreases a + b
  {
    if a == 0 && b == 0 then 0 else 2 * XorNat(a / 2, b / 2) + (a % 2 + b % 2) % 2
  }

  /** Bitwise or of two naturals, lowest bit first. */
  function OrNat(a: nat, b: nat): nat
    decreases a + b
  {
    if a == 0 && b == 0 then 0
    else 2 * OrNat(a / 2, b / 2) + (if a % 2 == 0 && b % 2 == 0 then 0 else 1)
  }

  /** Bitwise and of two naturals, lowest bit first. */
  function AndNat(a: nat, b: nat): nat
    decreases a
  {
    if a == 0 then 0 else 2 * AndNat(a / 2, b / 2) + (if a % 2 == 1 && b % 2 == 1 then 1 else 0)
  }

  lemma {:induction false} XorNatBound(a: nat, b: nat, n: nat)
    requires a < Power(2, n) && b < Power(2, n)
    ensures XorNat(a, b) < Power(2, n)
    decreases n
  {
    if n > 0 {
      XorNatBound(a / 2, b / 2, n - 1);
    }
  }

  lemma {:induction false} OrNatBound(a: nat, b: nat, n: nat)
    requires a < Power(2, n) && b < Power(2, n)
    ensures OrNat(a, b) < Power(2, n)
    decreases n
  {
    if n > 0 {
      OrNatBound(a / 2, b / 2, n - 1);
    }
  }

  lemma Pow2Of8()
    ensures Power(2, 8) == 256
  {
    assert Power(2, 4) == 16;
  }

  function Xor(a: byte, b: byte): byte {
    Pow2Of8(); XorNatBound(a, b, 8); XorNat(a, b)
  }

  function Or(a: byte, b: byte): byte {
    Pow2Of8(); OrNatBound(a, b, 8); OrNat(a, b)
  }

  lemma ParityCancels(a: nat, b: nat)
    ensures ((a % 2 + b % 2) % 2 + b % 2) % 2 == a % 2
  {
  }

  lemma XorNatStep(x: nat, b: nat)
    ensures XorNat(x, b) == 2 * XorNat(x / 2, b / 2) + (x % 2 + b % 2) % 2
  {
  }

  lemma {:induction false} XorNatCancels(a: nat, b: nat)
    ensures XorNat(XorNat(a, b), b) == a
    decreases a + b
  {
    hide XorNat;
    if a == 0 && b == 0 {
      XorNatStep(0, 0);
    } else {
      XorNatCancels(a / 2, b / 2);
      XorNatStep(a, b);
      XorNatStep(XorNat(a, b), b);
      ParityCancels(a, b);
    }
  }

  lemma {:induction false} XorNatZero(a: nat, b: nat)
    ensures XorNat(a, b) == 0 <==> a == b
    decreases a + b
  {
    if a != 0 || b != 0 {
      XorNatZero(a / 2, b / 2);
    }
  }

  lemma {:induction false} OrNatZero(a: nat, b: nat)
    ensures OrNat(a, b) == 0 <==> a == 0 && b == 0
    decreases a + b
  {
    if a != 0 || b != 0 {
      OrNatZero(a / 2, b / 2);
    }
  }

  lemma {:induction false} XorNatCommutes(a: nat, b: nat)
    ensures XorNat(a, b) == XorNat(b, a)
    decreases a + b
  {
    if a != 0 || b != 0 {
      XorNatCommutes(a / 2, b / 2);
    }
  }

  /** A mask of `n` ones keeps a number of at most `n` bits. */
  lemma {:induction false} AndNatOnes(n: nat, x: nat)
    requires x < Power(2, n)
    ensures AndNat(Power(2, n) - 1, x) == x
  {
    if n > 0 {
      AndNatOnes(n - 1, x / 2);
      assert (Power(2, n) - 1) / 2 == Power(2, n - 1) - 1;
    }
  }

  lemma AndNatStep(a: nat, b: nat)
    ensures AndNat(a, b) == 2 * AndNat(a / 2, b / 2) + if a % 2 == 1 && b % 2 == 1 then 1 else 0
  {
  }

  lemma AddEven(a: nat, q: nat)
    ensures (a + 2 * q) / 2 == a / 2 + q && (a + 2 * q) % 2 == a % 2
  {
  }

  /** A mask of `n` ones leaves the low `n` bits. */
  lemma {:induction false} AndNatLow(n: nat, x: nat)
    ensures AndNat(Power(2, n) - 1, x) == x % Power(2, n)
  {
    hide AndNat, Power;
    if n == 0 {
      PowerNone(2);
      AndNatStep(0, x);
      AndNatNone(x);
    } else {
      PowerNext(2, n - 1);
      AndNatLow(n - 1, x / 2);
      AddEven(1, Power(2, n - 1) - 1);
      AndNatStep(Power(2, n) - 1, x);
      HalfLow(x, Power(2, n - 1));
    }
  }

  lemma AndNatNone(x: nat)
    ensures AndNat(0, x) == 0
  {
  }

  /** The bits below and above position `n` are combined apart. */
  lemma {:induction false} AndNatSplit(n: nat, a: nat, b: nat, x: nat, y: nat)
    requires a < Power(2, n) && b < Power(2, n)
    ensures AndNat(a + Power(2, n) * x, b + Power(2, n) * y) == AndNat(a, b) + Power(2, n) * AndNat(x, y)
  {
    hide AndNat, Power;
    if n == 0 {
      PowerNone(2);
      AndNatNone(0);
    } else {
      PowerNext(2, n - 1);
      var p := Power(2, n - 1);
      AndNatSplit(n - 1, a / 2, b / 2, x, y);
      AndNatStep(a, b);
      Regroup(2, p, x);
      Regroup(2, p, y);
      Regroup(2, p, AndNat(x, y));
      AddEven(a, p * x);
      AddEven(b, p * y);
      AndNatStep(a + 2 * (p * x), b + 2 * (p * y));
    }
  }

  lemma AndNatByte(a: byte, b: byte, x: nat, y: nat)
    ensures AndNat(a + 256 * x, b + 256 * y) == AndNat(a, b) + 256 * AndNat(x, y)
  {
    hide AndNat, Power;
    Pow2Of8();
    AndNatSplit(8, a, b, x, y);
  }

  /** Or-ing in bits above those already there adds them. */
  lemma {:induction false} OrAbove(low: nat, high: nat, shift: nat)
    requires low < Power(2, shift)
    ensures OrNat(low, high * Power(2, shift)) == low + high * Power(2, shift)
  {
    if shift > 0 {
      assert high * Power(2, shift) == 2 * (high * Power(2, shift - 1));
      OrAbove(low / 2, high, shift - 1);
    } else {
      OrZeroLeft(high);
    }
  }

  lemma {:induction false} OrZeroLeft(a: nat)
    ensures OrNat(0, a) == a
  {
    if a > 0 {
      OrZeroLeft(a / 2);
    }
  }

  lemma {:induction false} OrNatCommutes(a: nat, b: nat)
    ensures OrNat(a, b) == OrNat(b, a)
    decreases a + b
  {
    if a != 0 || b != 0 {
      OrNatCommutes(a / 2, b / 2);
    }
  }

  /** The low `n` bits of an exclusive or are the exclusive or of the low `n` bits. */
  lemma {:induction false} XorNatLow(a: nat, b: nat, n: nat)
    ensures XorNat(a, b) % Power(2, n) == XorNat(a % Power(2, n), b % Power(2, n))
    decreases n
  {
    hide XorNat, Power;
    if n == 0 {
      PowerNone(2);
      XorNatStep(0, 0);
    } else {
      XorNatLow(a / 2, b / 2, n - 1);
      PowerNext(2, n - 1);
      XorNatLowStep(a, b, Power(2, n - 1));
    }
  }

  lemma XorNatLowStep(a: nat, b: nat, p: nat)
    requires p > 0 && XorNat(a / 2, b / 2) % p == XorNat(a / 2 % p, b / 2 % p)
    ensures XorNat(a, b) % (2 * p) == XorNat(a % (2 * p), b % (2 * p))
  {
    hide XorNat;
    XorNatHalves(a, b);
    HalfLow(XorNat(a, b), p);
    LowHalves(a, p);
    LowHalves(b, p);
    XorNatStep(a % (2 * p), b % (2 * p));
  }

  lemma XorNatHalves(a: nat, b: nat)
    ensures XorNat(a, b) / 2 == XorNat(a / 2, b / 2) && XorNat(a, b) % 2 == (a % 2 + b % 2) % 2
  {
    hide XorNat;
    XorNatStep(a, b);
  }

  lemma LowHalves(a: nat, p: nat)
    requires p > 0
    ensures a % (2 * p) / 2 == a / 2 % p && a % (2 * p) % 2 == a % 2
  {
    HalfLow(a, p);
  }

  /** Reducing modulo 2p keeps the lowest bit and reduces the rest modulo p. */
  lemma HalfLow(a: nat, p: nat)
    requires p > 0
    ensures a % (2 * p) == 2 * (a / 2 % p) + a % 2
    ensures a % (2 * p) / 2 == a / 2 % p && a % (2 * p) % 2 == a % 2
  {
    var q, r := a / 2 / p, a / 2 % p;
    assert a == q * (2 * p) + (2 * r + a % 2) by {
      assert a / 2 == q * p + r;
      assert q * (2 * p) == 2 * (q * p);
    }
    DivModUnique(a, q, 2 * r + a % 2, 2 * p);
  }

  lemma {:induction false} XorNatRightZero(a: nat)
    ensures XorNat(a, 0) == a
  {
    if a > 0 { XorNatRightZero(a / 2); }
  }

  lemma Pow2Of16()
    ensures Power(2, 16) == 0x1_0000
  {
    assert Power(2, 4) == 16;
    assert Power(2, 8) == 256;
    PowerAdd(2, 8, 8);
  }

  lemma Pow2Words()
    ensures Power(2, 32) == 0x1_0000_0000 && Power(2, 64) == 0x1_0000_0000_0000_0000
  {
    Pow2Of16();
    hide Power;
    PowerAdd(2, 16, 16);
    PowerAdd(2, 32, 32);
  }

  /** The `len` little-endian bytes of `n`. */
  function LeBytes(n: nat, len: nat): (b: Bytes)
    ensures |b| == len
  {
    if len == 0 then [] else [n % 256] + LeBytes(n / 256, len - 1)
  }
}
