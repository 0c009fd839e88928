/** crypto_onetimeauth of tweetnacl.c, on 17 byte limbs, against section 2.5 of RFC 8439. */
module Poly1305 {
  import opened Bytes
  import opened ModArith

  /** 2^130 - 5 */
  const P := 1361129467683753853853498429727072845819
  const TWO128 := 0x1_0000_0000_0000_0000_0000_0000_0000_0000
  const TWO136 := 0x100_0000_0000_0000_0000_0000_0000_0000_0000

  /** The C type of the limbs: what is assigned to it never leaves 32 bits. */
  type u32 = x: int | 0 <= x < 0x1_0000_0000

  // ---------- RFC 8439 ----------

  function Le(b: Bytes): nat {
    if b == [] then 0 else b[0] + 256 * Le(b[1..])
  }

  /** Clear the top four bits of bytes 3, 7, 11, 15 and the bottom two of bytes 4, 8, 12. */
  function Clamp(k: Bytes): (r: Bytes)
    requires |k| >= 16
    ensures |r| == 16
  {
    seq(16, i requires 0 <= i < 16 => ClampByte(i, k[i]))
  }

  function ClampByte(i: nat, b: byte): byte {
    if i == 3 || i == 7 || i == 11 || i == 15 then b % 16
    else if i == 4 || i == 8 || i == 12 then b - b % 4
    else b
  }

  // ---------- clamping as the one number of RFC 8439 ----------

  function MaskByte(i: nat): byte {
    if i % 4 == 3 then 15 else if i % 4 == 0 && i > 0 then 252 else 255
  }

  function Mask(i: nat): (m: Bytes)
    requires i <= 16
    ensures |m| == 16 - i
    decreases 16 - i
  {
    if i == 16 then [] else [MaskByte(i)] + Mask(i + 1)
  }

  lemma MaskIs()
    ensures Le(Mask(0)) == 0x0ffffffc0ffffffc0ffffffc0fffffff
  {
    MaskNext(12, 0);
    MaskNext(8, 0x0ffffffc);
    MaskNext(4, 0x0ffffffc0ffffffc);
    MaskNext(0, 0x0ffffffc0ffffffc0ffffffc);
  }

  lemma MaskNext(i: nat, v: nat)
    requires i <= 12 && i % 4 == 0 && Le(Mask(i + 4)) == v
    ensures Le(Mask(i)) == (if i == 0 then 0x0fffffff else 0x0ffffffc) + 0x1_0000_0000 * v
  {
    hide Le, Mask;
    MaskFirst(i);
    MaskFirst(i + 1);
    MaskFirst(i + 2);
    MaskFirst(i + 3);
  }

  lemma MaskFirst(i: nat)
    requires i < 16
    ensures Le(Mask(i)) == MaskByte(i) + 256 * Le(Mask(i + 1))
  {
    hide Le;
    LeFirst(MaskByte(i), Mask(i + 1));
  }

  lemma LeFirst(x: byte, b: Bytes)
    ensures Le([x] + b) == x + 256 * Le(b)
  {
    assert ([x] + b)[1..] == b;
  }

  lemma LowNibble(b: byte)
    ensures AndNat(15, b) == b % 16
  {
    hide AndNat;
    assert Power(2, 4) == 16;
    AndNatLow(4, b);
  }

  lemma UpperBits(b: byte)
    ensures AndNat(252, b) == b - b % 4
  {
    hide AndNat;
    assert Power(2, 2) == 4 && Power(2, 6) == 64;
    AndNatSplit(2, 0, b % 4, 63, b / 4);
    AndNatNone(b % 4);
    AndNatLow(6, b / 4);
  }

  lemma AllBits(b: byte)
    ensures AndNat(255, b) == b
  {
    hide AndNat, Power;
    Pow2Of8();
    AndNatLow(8, b);
  }

  lemma ClampByteMasks(i: nat, b: byte)
    requires i < 16
    ensures ClampByte(i, b) == AndNat(MaskByte(i), b)
  {
    hide AndNat;
    LowNibble(b);
    UpperBits(b);
    AllBits(b);
  }

  /** The masked bytes from `i` on are those of the mask and of the key, and-ed. */
  ghost predicate MaskedFrom(k: Bytes, i: nat)
    requires |k| >= 16 && i <= 16
  {
    Le(Clamp(k)[i..]) == AndNat(Le(Mask(i)), Le(k[i..16]))
  }

  lemma MaskedEnd(k: Bytes)
    requires |k| >= 16
    ensures MaskedFrom(k, 16)
  {
    AndNatNone(0);
  }

  lemma MaskedStep(k: Bytes, i: nat)
    requires |k| >= 16 && i < 16 && MaskedFrom(k, i + 1)
    ensures MaskedFrom(k, i)
  {
    hide AndNat, ClampByte, MaskByte, Mask, Le, Clamp;
    ClampByteMasks(i, k[i]);
    AndNatByte(MaskByte(i), k[i], Le(Mask(i + 1)), Le(k[i + 1..16]));
    MaskFirst(i);
    ClampedFirst(k, i);
  }

  lemma {:induction false} ClampMasksFrom(k: Bytes, i: nat)
    requires |k| >= 16 && i <= 16
    ensures MaskedFrom(k, i)
    decreases 16 - i
  {
    hide MaskedFrom;
    if i == 16 {
      MaskedEnd(k);
    } else {
      ClampMasksFrom(k, i + 1);
      MaskedStep(k, i);
    }
  }

  lemma ClampedFirst(k: Bytes, i: nat)
    requires |k| >= 16 && i < 16
    ensures Le(Clamp(k)[i..]) == ClampByte(i, k[i]) + 256 * Le(Clamp(k)[i + 1..])
    ensures Le(k[i..16]) == k[i] + 256 * Le(k[i + 1..16])
  {
    hide Le, ClampByte;
    LeFirst(ClampByte(i, k[i]), Clamp(k)[i + 1..]);
    LeFirst(k[i], k[i + 1..16]);
    assert Clamp(k)[i..] == [ClampByte(i, k[i])] + Clamp(k)[i + 1..];
    assert k[i..16] == [k[i]] + k[i + 1..16];
  }

  /** Section 2.5.1 of RFC 8439: r is the first half of the key, and-ed with one number. */
  lemma ClampMasks(k: Bytes)
    requires |k| >= 16
    ensures Le(Clamp(k)) == AndNat(0x0ffffffc0ffffffc0ffffffc0fffffff, Le(k[..16]))
  {
    hide AndNat, Clamp, Le;
    ClampMasksFrom(k, 0);
    MaskIs();
    assert Clamp(k)[0..] == Clamp(k) && k[0..16] == k[..16];
  }

  /** A block of up to 16 bytes as a number, with a one bit added just above it. */
  function Block(b: Bytes): nat {
    Le(b) + Power(256, |b|)
  }

  function Accumulate(m: Bytes, a: nat, r: nat): nat
    decreases |m|
  {
    if m == [] then a
    else
      var n := if |m| < 16 then |m| else 16;
      Accumulate(m[n..], (a + Block(m[..n])) * r % P, r)
  }

  function Tag(m: Bytes, k: Bytes): (t: Bytes)
    requires |k| == 32
    ensures |t| == 16
  {
    LeBytes((Accumulate(m, 0, Le(Clamp(k))) + Le(k[16..])) % TWO128, 16)
  }

  // ---------- bytes and limbs ----------

  lemma {:induction false} LeIsVal(b: Bytes)
    ensures Le(b) == Val(b, 256)
  {
    if b != [] { LeIsVal(b[1..]); }
  }

  lemma Powers()
    ensures Power(256, 16) == TWO128 && Power(256, 17) == TWO136
  {
    assert Power(256, 2) == 65536;
    PowerAdd(256, 2, 2);
    PowerAdd(256, 4, 4);
    PowerAdd(256, 8, 8);
    assert Power(256, 4) == 0x1_0000_0000;
    assert Power(256, 8) == 0x1_0000_0000_0000_0000;
  }

  lemma WeightAdd(u: int, a: int, b: int, p: int)
    ensures (u + a + b) * p == u * p + a * p + b * p
  {
  }

  /** Seventeen limbs that are bytes. */
  predicate Reduced(h: seq<int>) {
    |h| == 17 && forall j :: 0 <= j < 17 ==> 0 <= h[j] < 256
  }

  lemma AddStart(h: seq<int>, h0: seq<int>, c: seq<int>)
    requires |h| == |h0| == |c| == 0
    ensures Val(h, 256) + 0 * Power(256, 0) == Val(h0, 256) + Val(c, 256)
  {
  }

  /** One limb of the addition, with the carry that goes on. */
  lemma AddStep(done: seq<int>, h0: seq<int>, c: seq<int>, u: nat, j: nat)
    requires j < |h0| && j < |c| && |done| == j && h0[j] >= 0 && c[j] >= 0
    requires Val(done, 256) + u * Power(256, j) == Val(h0[..j], 256) + Val(c[..j], 256)
    ensures var v := u + (h0[j] + c[j]);
      Val(done + [v % 256], 256) + v / 256 * Power(256, j + 1) == Val(h0[..j + 1], 256) + Val(c[..j + 1], 256)
  {
    hide Val, Power;
    CarryOut(done, u + (h0[j] + c[j]), 256);
    ValSnoc(h0[..j], h0[j], 256);
    ValSnoc(c[..j], c[j], 256);
    WeightAdd(u, h0[j], c[j], Power(256, j));
    assert h0[..j + 1] == h0[..j] + [h0[j]] && c[..j + 1] == c[..j] + [c[j]];
  }

  method Add1305(h: array<u32>, c: seq<u32>)
    requires h.Length == 17 && |c| == 17
    requires forall j :: 0 <= j < 17 ==> h[j] < 0x10000 && c[j] < 0x10000
    modifies h
    ensures Reduced(h[..]) && Val(h[..], 256) == (old(Val(h[..], 256)) + Val(c, 256)) % TWO136
  {
    hide Val, Power;
    ghost var h0: seq<int> := h[..];
    var u: u32 := 0;
    AddStart(h[..0], h0[..0], c[..0]);
    for j := 0 to 17
      invariant u < 0x20000
      invariant forall i :: 0 <= i < j ==> 0 <= h[i] < 256
      invariant h[j..] == h0[j..]
      invariant Val(h[..j], 256) + u * Power(256, j) == Val(h0[..j], 256) + Val(c[..j], 256)
    {
      ghost var done: seq<int> := h[..j];
      AddStep(done, h0, c, u, j);
      u := u + (h[j] + c[j]);
      h[j] := u % 256;
      assert h[..j + 1] == done + [u % 256];
      u := u / 256;
    }
    assert h[..17] == h[..] && h0[..17] == h0 && c[..17] == c;
    ValBound(h[..], 256);
    Powers();
    DivModUnique(Val(h0, 256) + Val(c, 256), u, Val(h[..], 256), TWO136);
  }

  // ---------- the product ----------

  /** What limb `j` of one factor is multiplied by in each column: the other factor, wrapped at 2^136 as 320. */
  function Row(r: seq<int>, j: nat): (w: seq<int>)
    requires |r| == 17 && j < 17
    ensures |w| == 17
  {
    seq(17, i requires 0 <= i < 17 => if j <= i then r[i - j] else 320 * r[i + 17 - j])
  }

  /** The columns after the first `n` limbs of `h` have been multiplied in. */
  function Columns(h: seq<int>, r: seq<int>, n: nat): (x: seq<int>)
    requires |h| == 17 && |r| == 17 && n <= 17
    ensures |x| == 17
  {
    if n == 0 then seq(17, _ => 0) else AddScaled(Columns(h, r, n - 1), h[n - 1], Row(r, n - 1))
  }

  /** Moving on by one limb multiplies a row by 256, up to a multiple of 64 P. */
  lemma RowShift(r: seq<int>, j: nat)
    requires |r| == 17 && j < 16
    ensures Val(Row(r, j + 1), 256) == 256 * Val(Row(r, j), 256) - r[16 - j] * 64 * P
  {
    hide Power;
    RowNext(r, j);
    var w, w' := Row(r, j), Row(r, j + 1);
    hide Row;
    ValSnoc(w[..16], w[16], 256);
    assert Val(w', 256) == w'[0] + 256 * Val(w'[1..], 256);
    Powers();
  }

  lemma RowNext(r: seq<int>, j: nat)
    requires |r| == 17 && j < 16
    ensures var w, w' := Row(r, j), Row(r, j + 1);
      w == w[..16] + [w[16]] && w'[1..] == w[..16] && w[16] == r[16 - j] && w'[0] == 320 * r[16 - j]
  {
  }

  lemma {:induction false} RowCong(r: seq<int>, j: nat)
    requires |r| == 17 && j < 17
    ensures Cong(Val(Row(r, j), 256), Power(256, j) * Val(r, 256), P)
  {
    if j == 0 {
      assert Row(r, 0) == r;
    } else {
      RowCong(r, j - 1);
      RowShift(r, j - 1);
      CongOf(Val(Row(r, j), 256), 256 * Val(Row(r, j - 1), 256), -(r[17 - j] * 64), P);
      CongMul(256, 256, Val(Row(r, j - 1), 256), Power(256, j - 1) * Val(r, 256), P);
      assert 256 * (Power(256, j - 1) * Val(r, 256)) == Power(256, j) * Val(r, 256);
    }
  }

  /** The columns are the product modulo P. */
  lemma {:induction false} ColumnsCong(h: seq<int>, r: seq<int>, n: nat)
    requires |h| == 17 && |r| == 17 && n <= 17
    ensures Cong(Val(Columns(h, r, n), 256), Val(h[..n], 256) * Val(r, 256), P)
  {
    if n == 0 {
      ValZeros(17, 256);
      assert Val(h[..0], 256) * Val(r, 256) == 0;
    } else {
      hide Val, Power, Row, Cong;
      ColumnsCong(h, r, n - 1);
      var x, w, v := Columns(h, r, n - 1), Row(r, n - 1), Val(r, 256);
      ValAddScaled(x, h[n - 1], w, 256);
      RowCong(r, n - 1);
      assert h[..n] == h[..n - 1] + [h[n - 1]];
      ValSnoc(h[..n - 1], h[n - 1], 256);
      ColumnsStep(Val(x, 256), Val(h[..n - 1], 256), h[n - 1], Val(w, 256), Power(256, n - 1), v);
    }
  }

  lemma ColumnsStep(x: int, y: int, d: int, w: int, p: int, v: int)
    requires Cong(x, y * v, P) && Cong(w, p * v, P)
    ensures Cong(x + d * w, (y + d * p) * v, P)
  {
    hide Cong;
    CongRefl(d, P);
    CongMul(d, d, w, p * v, P);
    CongAdd(x, y * v, d * w, d * (p * v), P);
    FactorOut(y, d, p, v);
  }

  lemma FactorOut(a: int, x: int, p: int, v: int)
    ensures a * v + x * (p * v) == (a + x * p) * v
  {
  }

  /** No column of the product reaches 2^32. */
  lemma ProductFits(x: int, hj: int, w: int, j: nat)
    requires 0 <= x <= j * 20808000 && j < 17 && 0 <= hj < 256 && 0 <= w <= 320 * 255
    ensures 0 <= x + hj * w <= (j + 1) * 20808000 <= 353736000
  {
    assert 0 <= hj * w <= 255 * w;
  }

  /** The inner loop, for column `i`. */
  method Column(h: array<u32>, r: array<u32>, i: nat) returns (x: u32)
    requires i < 17 && h.Length == 17 && r.Length == 17 && Reduced(h[..]) && Reduced(r[..])
    ensures x == Columns(h[..], r[..], 17)[i] && x <= 353736000
  {
    ghost var hs, rs := h[..], r[..];
    x := 0;
    for j := 0 to 17
      invariant x == Columns(hs, rs, j)[i] && x <= j * 20808000
    {
      var w: u32 := if j <= i then r[i - j] else 320 * r[i + 17 - j];
      ProductFits(x, h[j], w, j);
      assert w == Row(rs, j)[i];
      x := x + h[j] * w;
    }
  }

  /** The outer loop that fills `x`. */
  method Multiply(x: array<u32>, h: array<u32>, r: array<u32>)
    requires x.Length == 17 && h.Length == 17 && r.Length == 17 && x != h && x != r
    requires Reduced(h[..]) && Reduced(r[..])
    modifies x
    ensures x[..] == Columns(h[..], r[..], 17)
    ensures forall i :: 0 <= i < 17 ==> x[i] <= 353736000
  {
    hide Columns, Row, Reduced;
    ghost var cols := Columns(h[..], r[..], 17);
    for i := 0 to 17
      invariant h[..] == old(h[..]) && r[..] == old(r[..])
      invariant forall k :: 0 <= k < i ==> x[k] == cols[k] && x[k] <= 353736000
    {
      x[i] := Column(h, r, i);
    }
  }

  // ---------- the carries ----------

  lemma CarryStart(h: seq<int>, h0: seq<int>, u0: int)
    requires |h| == |h0| == 0
    ensures Val(h, 256) + u0 * Power(256, 0) == Val(h0, 256) + u0
  {
  }

  lemma CarryOn(done: seq<int>, h0: seq<int>, u: nat, j: nat, u0: int)
    requires j < |h0| && |done| == j && h0[j] >= 0
    requires Val(done, 256) + u * Power(256, j) == Val(h0[..j], 256) + u0
    ensures var v := u + h0[j]; Val(done + [v % 256], 256) + v / 256 * Power(256, j + 1) == Val(h0[..j + 1], 256) + u0
  {
    hide Val, Power;
    CarryOut(done, u + h0[j], 256);
    ValSnoc(h0[..j], h0[j], 256);
    WeightAdd(u, h0[j], 0, Power(256, j));
    assert h0[..j + 1] == h0[..j] + [h0[j]];
  }

  /** One run of carries through the sixteen low limbs, starting with `u0`. */
  method CarryPass(h: array<u32>, u0: u32) returns (u: u32)
    requires h.Length == 17 && u0 < 0x2000_0000 && forall j :: 0 <= j < 16 ==> h[j] < 0x2000_0000
    modifies h
    ensures h[16] == old(h[16]) && u < 0x40_0000
    ensures forall j :: 0 <= j < 16 ==> 0 <= h[j] < 256
    ensures Val(h[..16], 256) + u * TWO128 == old(Val(h[..16], 256)) + u0
  {
    hide Val, Power;
    ghost var h0: seq<int> := h[..];
    u := u0;
    CarryStart(h[..0], h0[..0], u0);
    for j := 0 to 16
      invariant if j == 0 then u == u0 else u < 0x40_0000
      invariant forall i :: 0 <= i < j ==> 0 <= h[i] < 256
      invariant h[j..] == h0[j..]
      invariant Val(h[..j], 256) + u * Power(256, j) == Val(h0[..j], 256) + u0
    {
      ghost var done: seq<int> := h[..j];
      CarryOn(done, h0, u, j, u0);
      u := u + h[j];
      h[j] := u % 256;
      assert h[..j + 1] == done + [u % 256];
      u := u / 256;
    }
    Powers();
  }

  /** The two passes after a product, folding what is above 2^130 back in five times. */
  method Squeeze(h: array<u32>)
    requires h.Length == 17 && forall j :: 0 <= j < 17 ==> h[j] <= 353736000
    modifies h
    ensures Reduced(h[..]) && h[16] <= 4
    ensures Cong(Val(h[..], 256), old(Val(h[..], 256)), P)
  {
    hide Cong, Val, Power;
    ghost var h0: seq<int> := h[..];
    var u := CarryPass(h, 0);
    var top: u32 := u + h[16];
    h[16] := top % 4;
    ghost var h1: seq<int> := h[..16];
    var u': u32 := 5 * (top / 4);
    u := CarryPass(h, u');
    LastCarry(h1, h[..16], u, u');
    h[16] := u + h[16];
    TopSplit(h0);
    TopSplit(h[..]);
    CongOf(Val(h[..], 256), Val(h0, 256), -(top / 4), P);
  }

  lemma TopSplit(h: seq<int>)
    requires |h| == 17
    ensures Val(h, 256) == Val(h[..16], 256) + h[16] * TWO128
  {
    hide Val, Power;
    assert h == h[..16] + [h[16]];
    ValSnoc(h[..16], h[16], 256);
    Powers();
  }

  /** The second pass carries out at most one unit. */
  lemma LastCarry(h1: seq<int>, h2: seq<int>, u: nat, u0: nat)
    requires |h1| == |h2| == 16 && u0 < 0x2000_0000
    requires (forall j :: 0 <= j < 16 ==> 0 <= h1[j] < 256) && (forall j :: 0 <= j < 16 ==> 0 <= h2[j] < 256)
    requires Val(h2, 256) + u * TWO128 == Val(h1, 256) + u0
    ensures u <= 1
  {
    hide Val, Power;
    ValBound(h1, 256);
    ValBound(h2, 256);
    Powers();
  }

  // ---------- the masked choice ----------

  const TWO32: nat := 0x1_0000_0000

  /** `h ^= s & (g ^ h)` */
  function Select(s: nat, g: nat, h: nat): nat {
    XorNat(h, AndNat(s, XorNat(g, h)))
  }

  /** An all-zero mask keeps `h`, an all-ones mask takes `g`. */
  lemma SelectMask(g: u32, h: u32)
    ensures Select(0, g, h) == h
    ensures Select(TWO32 - 1, g, h) == g
  {
    XorNatCommutes(h, 0);
    XorNatRightZero(h);
    Pow2Words();
    XorNatBound(g, h, 32);
    AndNatOnes(32, XorNat(g, h));
    XorNatCommutes(h, XorNat(g, h));
    XorNatCancels(g, h);
  }

  /** minusp: 2^136 - P in limbs. */
  const MINUSP: seq<u32> := [5, 0, 0, 0, 0, 0, 0, 0, 0, 0, 0, 0, 0, 0, 0, 0, 252]

  lemma MinusP()
    ensures Val(MINUSP, 256) == TWO136 - P
  {
    assert Val([5], 256) == 5 + 256 * Val([5][1..], 256) == 5;
    hide Val, Power;
    var z: seq<int> := seq(15, _ => 0);
    assert MINUSP == [5] + z + [252];
    ValConcat([5], z, 256);
    ValZeros(15, 256);
    assert Val([5] + z, 256) == 5;
    ValSnoc([5] + z, 252, 256);
    Powers();
  }

  /** The value of limbs with a small top limb. */
  lemma TopLimb(h: seq<int>)
    requires Reduced(h)
    ensures 0 <= h[16] * TWO128 <= Val(h, 256) < (h[16] + 1) * TWO128
  {
    ValBound(h[..16], 256);
    Powers();
    assert h == h[..16] + [h[16]];
    ValSnoc(h[..16], h[16], 256);
  }

  /** The loop of masked choices: an all-ones mask takes `g`, an all-zero one keeps `h`. */
  method SelectLimbs(h: array<u32>, g: array<u32>, s: u32)
    requires h.Length == 17 && g.Length == 17 && h != g && (s == 0 || s == TWO32 - 1)
    modifies h
    ensures h[..] == if s == 0 then old(h[..]) else g[..]
  {
    hide Select;
    for j := 0 to 17
      invariant forall i :: j <= i < 17 ==> h[i] == old(h[i])
      invariant forall i :: 0 <= i < j ==> h[i] == if s == 0 then old(h[i]) else g[i]
    {
      SelectMask(g[j], h[j]);
      h[j] := Select(s, g[j], h[j]);
    }
  }

  /** Adding minusp and keeping the old limbs when the sign bit shows leaves the canonical residue. */
  method Freeze(h: array<u32>)
    requires h.Length == 17 && Reduced(h[..]) && h[16] <= 4
    modifies h
    ensures Reduced(h[..]) && Val(h[..], 256) == old(Val(h[..], 256)) % P
  {
    hide Val;
    ghost var v := Val(h[..], 256);
    TopLimb(h[..]);
    var g := new u32[17](i requires 0 <= i < 17 reads h => h[i]);
    assert g[..] == h[..];
    MinusP();
    Add1305(h, MINUSP);
    TopLimb(h[..]);
    FrozenSign(v, Val(h[..], 256), h[16]);
    var s: u32 := (TWO32 - h[16] / 128) % TWO32;
    SelectLimbs(h, g, s);
  }

  lemma FrozenSign(v: int, v': int, top: int)
    requires 0 <= v < 5 * TWO128 && v' == (v + TWO136 - P) % TWO136 && 0 <= top < 256
    requires top * TWO128 <= v' < (top + 1) * TWO128
    ensures v < P ==> top / 128 == 1 && v % P == v
    ensures v >= P ==> top / 128 == 0 && v % P == v'
  {
  }

  // ---------- the whole ----------

  lemma {:induction false} LePrefix(b: Bytes)
    ensures Le(b) < Power(256, |b|)
  {
    LeIsVal(b);
    ValBound(b, 256);
  }

  /** The limbs of a block: its bytes, a one, and zeros. */
  lemma BlockLimbs(c: seq<int>, b: Bytes)
    requires |b| <= 16 && c == b + [1] + seq(16 - |b|, _ => 0)
    ensures Val(c, 256) == Block(b) <= 2 * TWO128
  {
    LeIsVal(b);
    LePrefix(b);
    ValConcat(b + [1], seq(16 - |b|, _ => 0), 256);
    ValZeros(16 - |b|, 256);
    ValSnoc(b, 1, 256);
    PowerGrows(|b|, 16);
    Powers();
  }

  lemma {:induction false} PowerGrows(m: nat, n: nat)
    requires m <= n
    ensures Power(256, m) <= Power(256, n)
  {
    if m < n { PowerGrows(m, n - 1); }
  }

  method AddBlock(h: array<u32>, b: Bytes)
    requires h.Length == 17 && |b| <= 16 && Reduced(h[..]) && h[16] <= 4
    modifies h
    ensures Reduced(h[..]) && Val(h[..], 256) == old(Val(h[..], 256)) + Block(b)
  {
    hide Val, Block;
    ghost var h0 := h[..];
    var c := new u32[17](_ => 0);
    forall j | 0 <= j < |b| { c[j] := b[j]; }
    c[|b|] := 1;
    BlockLimbs(c[..], b);
    TopLimb(h0);
    assert h[..] == h0;
    Add1305(h, c[..]);
  }

  method MulReduce(h: array<u32>, r: array<u32>)
    requires h.Length == 17 && r.Length == 17 && h != r && Reduced(h[..]) && Reduced(r[..])
    modifies h
    ensures Reduced(h[..]) && h[16] <= 4
    ensures Cong(Val(h[..], 256), old(Val(h[..], 256)) * Val(r[..], 256), P)
  {
    hide Columns, Row, Val, Cong;
    ghost var hs, rs := h[..], r[..];
    var x := new u32[17](_ => 0);
    assert h[..] == hs && r[..] == rs;
    Multiply(x, h, r);
    ColumnsCong(hs, rs, 17);
    assert hs[..17] == hs;
    ghost var xs := x[..];
    forall i | 0 <= i < 17 { h[i] := x[i]; }
    assert h[..] == xs;
    Squeeze(h);
    assert r[..] == rs;
    CongTrans(Val(h[..], 256), Val(xs, 256), Val(hs, 256) * Val(rs, 256), P);
  }

  /** One pass of the loop: add a block, multiply, carry. */
  method Absorb(h: array<u32>, r: array<u32>, b: Bytes, ghost a: nat)
    requires h.Length == 17 && r.Length == 17 && h != r && |b| <= 16
    requires Reduced(h[..]) && h[16] <= 4 && Reduced(r[..]) && Cong(Val(h[..], 256), a, P)
    modifies h
    ensures Reduced(h[..]) && h[16] <= 4
    ensures Cong(Val(h[..], 256), (a + Block(b)) * Val(r[..], 256), P)
  {
    hide Val, Cong, Block;
    ghost var v, w := Val(h[..], 256), Val(r[..], 256);
    AddBlock(h, b);
    CongRefl(Block(b), P);
    CongAdd(v, a, Block(b), Block(b), P);
    CongRefl(w, P);
    CongMul(v + Block(b), a + Block(b), w, w, P);
    assert r[..] == old(r[..]);
    MulReduce(h, r);
    CongTrans(Val(h[..], 256), (v + Block(b)) * w, (a + Block(b)) * w, P);
  }

  /** The loop over the message. */
  method AbsorbAll(h: array<u32>, r: array<u32>, m: Bytes)
    requires h.Length == 17 && r.Length == 17 && h != r
    requires Reduced(h[..]) && h[16] <= 4 && Val(h[..], 256) == 0 && Reduced(r[..]) && Val(r[..], 256) >= 0
    modifies h
    ensures Reduced(h[..]) && h[16] <= 4
    ensures Cong(Val(h[..], 256), Accumulate(m, 0, Val(r[..], 256)), P)
  {
    hide Val, Cong, Block;
    ghost var a: nat, w: nat := 0, Val(r[..], 256);
    ghost var rs := r[..];
    var pos := 0;
    assert m[0..] == m;
    CongRefl(0, P);
    while pos < |m|
      invariant pos <= |m| && Reduced(h[..]) && h[16] <= 4 && r[..] == rs
      invariant Cong(Val(h[..], 256), a, P)
      invariant Accumulate(m[pos..], a, w) == Accumulate(m, 0, w)
    {
      var j := if |m| - pos < 16 then |m| - pos else 16;
      ghost var b := m[pos..pos + j];
      assert m[pos..][..j] == b && m[pos..][j..] == m[pos + j..];
      Absorb(h, r, m[pos..pos + j], a);
      CongMod((a + Block(b)) * w, P);
      CongTrans((a + Block(b)) * w % P, (a + Block(b)) * w, (a + Block(b)) * w, P);
      CongTrans(Val(h[..], 256), (a + Block(b)) * w, (a + Block(b)) * w % P, P);
      a := (a + Block(b)) * w % P;
      pos := pos + j;
    }
  }

  /** `r[j] &= 15` or `r[j] &= 252`, as the position asks. */
  method ClampLimb(r: array<u32>, j: nat)
    requires r.Length == 17 && j < 16 && r[j] < 256
    modifies r
    ensures r[..] == old(r[..])[j := ClampByte(j, old(r[j]))]
  {
    r[j] := if j % 4 == 3 then r[j] % 16 else if j % 4 == 0 && j > 0 then r[j] - r[j] % 4 else r[j];
  }

  /** The limbs after the seven lines that mask bits of r. */
  function ClampedLimbs(s: seq<u32>): (t: seq<u32>)
    requires |s| == 17 && forall j :: 0 <= j < 16 ==> s[j] < 256
    ensures |t| == 17
  {
    s[3 := ClampByte(3, s[3])][4 := ClampByte(4, s[4])][7 := ClampByte(7, s[7])][8 := ClampByte(8, s[8])]
     [11 := ClampByte(11, s[11])][12 := ClampByte(12, s[12])][15 := ClampByte(15, s[15])]
  }

  lemma ClampUpdates(k: Bytes, s: seq<u32>)
    requires |k| == 32 && s == k[..16] + [0]
    ensures ClampedLimbs(s) == Clamp(k) + [0]
  {
  }

  /** The clamped key half as limbs. */
  method LoadR(k: Bytes) returns (r: array<u32>)
    requires |k| == 32
    ensures fresh(r) && r.Length == 17 && Reduced(r[..]) && Val(r[..], 256) == Le(Clamp(k))
  {
    hide ClampByte, Val;
    r := new u32[17](_ => 0);
    forall j | 0 <= j < 16 { r[j] := k[j]; }
    ghost var s: seq<u32> := k[..16] + [0];
    assert r[..] == s;
    ClampAll(r);
    ClampUpdates(k, s);
    ClampedValue(k);
  }

  lemma ClampedValue(k: Bytes)
    requires |k| == 32
    ensures Reduced(Clamp(k) + [0]) && Val(Clamp(k) + [0], 256) == Le(Clamp(k))
  {
    hide Val;
    ValSnoc(Clamp(k), 0, 256);
    LeIsVal(Clamp(k));
  }

  /** The seven lines that mask bits of r. */
  method ClampAll(r: array<u32>)
    requires r.Length == 17 && forall j :: 0 <= j < 16 ==> r[j] < 256
    modifies r
    ensures r[..] == ClampedLimbs(old(r[..]))
  {
    hide ClampByte;
    ClampLimb(r, 3);
    ClampLimb(r, 4);
    ClampLimb(r, 7);
    ClampLimb(r, 8);
    ClampLimb(r, 11);
    ClampLimb(r, 12);
    ClampLimb(r, 15);
  }

  /** The low sixteen limbs spell the value modulo 2^128. */
  lemma LowLimbs(h: seq<int>)
    requires Reduced(h)
    ensures LeBytes(Val(h, 256) % TWO128, 16) == h[..16]
  {
    assert h == h[..16] + [h[16]];
    ValSnoc(h[..16], h[16], 256);
    ValBound(h[..16], 256);
    Powers();
    DivModUnique(Val(h, 256), h[16], Val(h[..16], 256), TWO128);
    LeBytesOfVal(h[..16]);
  }

  lemma {:induction false} LeBytesOfVal(s: seq<int>)
    requires forall j :: 0 <= j < |s| ==> 0 <= s[j] < 256
    ensures Val(s, 256) >= 0 && LeBytes(Val(s, 256), |s|) == s
  {
    ValBound(s, 256);
    if s != [] {
      LeBytesOfVal(s[1..]);
    }
  }

  lemma {:induction false} AccumulateReduced(m: Bytes, a: nat, r: nat)
    requires a < P
    ensures Accumulate(m, a, r) < P
    decreases |m|
  {
    hide Block;
    if m != [] {
      var n := if |m| < 16 then |m| else 16;
      AccumulateReduced(m[n..], (a + Block(m[..n])) * r % P, r);
    }
  }

  lemma CanonicalIs(v: int, acc: int)
    requires Cong(v, acc, P) && 0 <= acc < P
    ensures v % P == acc
  {
  }

  lemma ModMod(x: int)
    ensures x % TWO136 % TWO128 == x % TWO128
  {
  }

  /** The last addition: the key's second half, kept modulo 2^128. */
  method AddKeyHalf(h: array<u32>, k: Bytes)
    requires h.Length == 17 && Reduced(h[..]) && |k| == 32
    modifies h
    ensures Reduced(h[..])
    ensures h[..16] == LeBytes((old(Val(h[..], 256)) + Le(k[16..])) % TWO128, 16)
  {
    hide Val, Le, LeBytes;
    ghost var h0 := h[..];
    ghost var v := Val(h0, 256);
    var c := new u32[17](_ => 0);
    forall j | 0 <= j < 16 { c[j] := k[j + 16]; }
    assert c[..] == k[16..] + [0];
    ValSnoc(k[16..], 0, 256);
    LeIsVal(k[16..]);
    assert h[..] == h0;
    Add1305(h, c[..]);
    LowLimbs(h[..]);
    ModMod(v + Le(k[16..]));
  }

  /** crypto_onetimeauth; the output may lie over the key or the message, which are read before it is written. */
  method OneTimeAuth(out: array<byte>, o: nat, m: array<byte>, mp: nat, n: nat, k: array<byte>, kp: nat)
    requires o + 16 <= out.Length && mp + n <= m.Length && kp + 32 <= k.Length
    modifies out
    ensures out[..] == old(out[..o] + Tag(m[mp..mp + n], k[kp..kp + 32]) + out[o + 16..])
  {
    hide Val, Cong, Le, Accumulate, Clamp, LeBytes;
    ghost var key, msg := k[kp..kp + 32], m[mp..mp + n];
    var h := new u32[17](_ => 0);
    ValZeros(17, 256);
    assert h[..] == seq(17, _ => 0);
    var r := LoadR(k[kp..kp + 32]);
    AbsorbAll(h, r, m[mp..mp + n]);
    ghost var v := Val(h[..], 256);
    Freeze(h);
    ghost var acc := Accumulate(msg, 0, Le(Clamp(key)));
    AccumulateReduced(msg, 0, Le(Clamp(key)));
    CanonicalIs(v, acc);
    AddKeyHalf(h, k[kp..kp + 32]);
    forall j | 0 <= j < 16 { out[o + j] := h[j]; }
    assert out[o..o + 16] == h[..16] == Tag(msg, key);
  }
}
