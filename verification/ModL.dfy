/** modL of tweetnacl.c: 64 signed byte limbs reduced modulo the group order of section 5.1 of RFC 8032. */
module ModL {
  import opened Bytes
  import opened ModArith

  /** 2^252 + 27742317777372353535851937790883648493 */
  const L := 7237005577332262213973186563042994240857116359379907606001950938285454250989
  const TWO248 := 0x1_0000_0000_0000_0000_0000_0000_0000_0000_0000_0000_0000_0000_0000_0000_0000_00
  const TWO256 := 256 * TWO248

  /** The C type of the limbs; every value assigned to one is checked to stay in range. */
  type i64 = x: int | -0x8000_0000_0000_0000 <= x < 0x8000_0000_0000_0000

  /** The bytes of the order, lowest first. */
  const LB: seq<byte> := [
    0xed, 0xd3, 0xf5, 0x5c, 0x1a, 0x63, 0x12, 0x58, 0xd6, 0x9c, 0xf7, 0xa2, 0xde, 0xf9, 0xde, 0x14,
    0, 0, 0, 0, 0, 0, 0, 0, 0, 0, 0, 0, 0, 0, 0, 0x10]

  function Value(s: seq<int>): int { Val(s, 256) }

  const DELTA := 27742317777372353535851937790883648493

  lemma Powers()
    ensures Power(256, 31) == TWO248 && Power(256, 32) == TWO256
  {
    assert Power(256, 1) == 256;
    assert Power(256, 2) == 65536;
    assert Power(256, 4) == 0x1_0000_0000;
    hide Power;
    PowerAdd(256, 4, 4);
    PowerAdd(256, 8, 8);
    PowerAdd(256, 16, 8);
    PowerAdd(256, 24, 4);
    PowerAdd(256, 28, 2);
    PowerAdd(256, 30, 1);
    PowerAdd(256, 31, 1);
  }

  /** The low twenty bytes of the order spell what it has above 2^252. */
  lemma LowOrder()
    ensures Value(LB[..20]) == DELTA && L == DELTA + 16 * TWO248
  {
    LowOrder8();
    var s := LB[..20];
    assert s == LB[..8] + (LB[8..16] + [0, 0, 0, 0]);
    ValConcat(LB[..8], LB[8..16] + [0, 0, 0, 0], 256);
    ValConcat(LB[8..16], [0, 0, 0, 0], 256);
    assert [0, 0, 0, 0] == seq(4, _ => 0);
    ValZeros(4, 256);
    assert Power(256, 8) == 0x1_0000_0000_0000_0000 by {
      assert Power(256, 4) == 0x1_0000_0000;
      PowerAdd(256, 4, 4);
    }
  }

  function Eight(a: int, b: int, c: int, d: int, e: int, f: int, g: int, h: int): int {
    a + 256 * (b + 256 * (c + 256 * (d + 256 * (e + 256 * (f + 256 * (g + 256 * h))))))
  }

  lemma ValOfEight(s: seq<int>)
    requires |s| == 8
    ensures Val(s, 256) == Eight(s[0], s[1], s[2], s[3], s[4], s[5], s[6], s[7])
  {
    assert Val(s[7..], 256) == s[7] + 256 * Val(s[8..], 256) == s[7];
    assert Val(s[6..], 256) == s[6] + 256 * Val(s[7..], 256);
    assert Val(s[5..], 256) == s[5] + 256 * Val(s[6..], 256);
    assert Val(s[4..], 256) == s[4] + 256 * Val(s[5..], 256);
    assert Val(s[3..], 256) == s[3] + 256 * Val(s[4..], 256);
    assert Val(s[2..], 256) == s[2] + 256 * Val(s[3..], 256);
    assert Val(s[1..], 256) == s[1] + 256 * Val(s[2..], 256);
  }

  lemma OrderBytes()
    ensures LB[..8] == [0xed, 0xd3, 0xf5, 0x5c, 0x1a, 0x63, 0x12, 0x58]
    ensures LB[8..16] == [0xd6, 0x9c, 0xf7, 0xa2, 0xde, 0xf9, 0xde, 0x14]
  {
    assert LB[8] == 0xd6 && LB[9] == 0x9c && LB[10] == 0xf7 && LB[11] == 0xa2;
    assert LB[12] == 0xde && LB[13] == 0xf9 && LB[14] == 0xde && LB[15] == 0x14;
  }

  lemma LowOrder8()
    ensures Val(LB[..8], 256) == 0x5812_631a_5cf5_d3ed && Val(LB[8..16], 256) == 0x14de_f9de_a2f7_9cd6
  {
    hide Val;
    OrderBytes();
    ValOfEight([0xed, 0xd3, 0xf5, 0x5c, 0x1a, 0x63, 0x12, 0x58]);
    ValOfEight([0xd6, 0x9c, 0xf7, 0xa2, 0xde, 0xf9, 0xde, 0x14]);
  }

  // ---------- folding one limb down ----------

  const INPUT := 0x20_0000
  const ANY := 0x40_0000

  predicate Balanced(v: int) { -128 <= v < 128 }

  predicate Near(v: int) { -129 <= v <= 129 }

  /** The balanced carry of `w`: what is left in the limb, and what goes on. */
  lemma BalancedCarry(w: int)
    ensures Balanced(w - (w + 128) / 256 * 256)
  {
  }

  /** How large the carry into offset `k` can be; behind offset 16, where the order has zeros, it dies down. */
  function CarryLimit(k: nat): int {
    if k <= 16 then 0x800_0000 else if k == 17 then 0x8_8000 else if k == 18 then 0x4900 else 0x4100
  }

  /** Behind zeros and over balanced limbs only a unit is left. */
  function CarryLimitBalanced(k: nat): int {
    if k <= 16 then 0x800_0000 else if k == 17 then 0x8_0002 else if k == 18 then 0x804 else if k == 19 then 10 else 1
  }

  /** The limbs from `from` on for `n` places are balanced. */
  predicate BalancedRange(x: seq<int>, from: nat, n: nat) {
    from + n <= |x| && forall j :: from <= j < from + n ==> Balanced(x[j])
  }

  predicate AllWithin(x: seq<int>, b: int) {
    forall j :: 0 <= j < |x| ==> -b <= x[j] <= b
  }

  lemma CarryDies(v: int, xi: int, l: int, c: int, k: nat, balanced: bool)
    requires k < 20 && 0 <= l < 256 && (k >= 16 ==> l == 0)
    requires -ANY <= v <= ANY && -ANY <= xi <= ANY && (balanced ==> Balanced(v))
    requires -CarryLimit(k) <= c <= CarryLimit(k)
    requires balanced ==> -CarryLimitBalanced(k) <= c <= CarryLimitBalanced(k)
    ensures var w := v + (c - 16 * xi * l);
      && -0x8_0000_0000 <= w <= 0x8_0000_0000 && -0x8_0000_0000 <= 16 * xi * l <= 0x8_0000_0000
      && -CarryLimit(k + 1) <= (w + 128) / 256 <= CarryLimit(k + 1)
      && (balanced ==> -CarryLimitBalanced(k + 1) <= (w + 128) / 256 <= CarryLimitBalanced(k + 1))
  {
    TimesByte(16 * xi, l, 16 * ANY);
  }

  lemma TimesByte(x: int, l: int, b: int)
    requires -b <= x <= b && 0 <= l < 256 && b >= 0
    ensures -255 * b <= x * l <= 255 * b
    ensures l == 0 ==> x * l == 0
  {
    if x >= 0 { assert x * l <= x * 255; } else { assert x * l >= x * 255; }
  }

  /** The inner loop of pass `i`, after offset `k`, against the limbs `y` it started from. */
  ghost predicate PassState(x: seq<int>, y: seq<int>, i: nat, k: nat, carry: int, balanced: bool)
    requires |x| == 64 && |y| == 64 && 32 <= i < 64 && k <= 20
  {
    && (forall j :: 0 <= j < i - 32 || i - 32 + k <= j < 64 ==> x[j] == y[j])
    && BalancedRange(x, i - 32, k)
    && -CarryLimit(k) <= carry <= CarryLimit(k)
    && (balanced ==> -CarryLimitBalanced(k) <= carry <= CarryLimitBalanced(k))
    && Value(x) + carry * Power(256, i - 32 + k) == Value(y) - 16 * y[i] * Value(LB[..k]) * Power(256, i - 32)
  }

  /** Where the limbs behind offset 16 were balanced by the pass before. */
  predicate Prepared(y: seq<int>, i: nat, balanced: bool)
    requires |y| == 64 && 32 <= i < 64
  {
    AllWithin(y, ANY) && (balanced ==> BalancedRange(y, i - 16, 4))
  }

  lemma PassStep(x: seq<int>, x': seq<int>, y: seq<int>, i: nat, k: nat, carry: int, carry': int, balanced: bool)
    requires |x| == 64 && |x'| == 64 && |y| == 64 && 32 <= i < 64 && k < 20
    requires PassState(x, y, i, k, carry, balanced) && Prepared(y, i, balanced)
    requires var j := i - 32 + k; var w := x[j] + (carry - 16 * y[i] * LB[k]);
      carry' == (w + 128) / 256 && x' == x[j := w - carry' * 256]
    ensures PassState(x', y, i, k + 1, carry', balanced)
  {
    hide Value, CarryLimit, CarryLimitBalanced;
    var j := i - 32 + k;
    var w := x[j] + (carry - 16 * y[i] * LB[k]);
    BalancedCarry(w);
    StepBounds(y, i, k, carry, balanced);
    StepValue(x, x', y, i, k, carry, carry');
  }

  lemma StepBounds(y: seq<int>, i: nat, k: nat, carry: int, balanced: bool)
    requires |y| == 64 && 32 <= i < 64 && k < 20 && Prepared(y, i, balanced)
    requires -CarryLimit(k) <= carry <= CarryLimit(k)
    requires balanced ==> -CarryLimitBalanced(k) <= carry <= CarryLimitBalanced(k)
    ensures var w := y[i - 32 + k] + (carry - 16 * y[i] * LB[k]);
      && -0x8_0000_0000 <= w <= 0x8_0000_0000 && -0x8_0000_0000 <= 16 * y[i] * LB[k] <= 0x8_0000_0000
      && -CarryLimit(k + 1) <= (w + 128) / 256 <= CarryLimit(k + 1)
      && (balanced ==> -CarryLimitBalanced(k + 1) <= (w + 128) / 256 <= CarryLimitBalanced(k + 1))
  {
    ZerosOfOrder(k);
    if k < 16 && balanced {
      CarryDies(y[i - 32 + k], y[i], LB[k], carry, k, false);
      SameLimit(k);
    } else {
      CarryDies(y[i - 32 + k], y[i], LB[k], carry, k, balanced);
    }
  }

  lemma SameLimit(k: nat)
    requires k < 16
    ensures CarryLimitBalanced(k + 1) == CarryLimit(k + 1)
  {
  }

  lemma ZerosOfOrder(k: nat)
    requires 16 <= k < 20 || k < 16
    ensures k >= 16 ==> LB[k] == 0
  {
  }

  lemma StepValue(x: seq<int>, x': seq<int>, y: seq<int>, i: nat, k: nat, carry: int, carry': int)
    requires |x| == 64 && |y| == 64 && 32 <= i < 64 && k < 20
    requires Value(x) + carry * Power(256, i - 32 + k) == Value(y) - 16 * y[i] * Value(LB[..k]) * Power(256, i - 32)
    requires var j := i - 32 + k; x' == x[j := x[j] + (carry - 16 * y[i] * LB[k]) - carry' * 256]
    ensures Value(x') + carry' * Power(256, i - 32 + k + 1)
      == Value(y) - 16 * y[i] * Value(LB[..k + 1]) * Power(256, i - 32)
  {
    hide Power, Value;
    var j := i - 32 + k;
    var p, q, a, l := Power(256, i - 32), Power(256, k), 16 * y[i], LB[k] as int;
    var d := carry - a * l - carry' * 256;
    LimbUpdate(x, j, x[j] + d);
    PowerNext(256, i - 32 + k);
    PowerAdd(256, i - 32, k);
    assert LB[..k + 1] == LB[..k] + [LB[k]];
    TopLimb(LB[..k], LB[k]);
    Telescope(carry, carry', a, l, Value(LB[..k]), p, q);
  }

  lemma Telescope(c: int, c': int, a: int, l: int, v: int, p: int, q: int)
    ensures (c - a * l - c' * 256) * (p * q) + c' * (256 * (p * q)) == c * (p * q) - a * (l * q) * p
    ensures a * (v + l * q) * p == a * v * p + a * (l * q) * p
  {
    var w := p * q;
    assert (c - a * l - c' * 256) * w == c * w - a * l * w - c' * 256 * w;
    assert a * l * (p * q) == a * (l * q) * p;
    assert a * (v + l * q) == a * v + a * (l * q);
  }

  lemma PassStart(y: seq<int>, i: nat, balanced: bool)
    requires |y| == 64 && 32 <= i < 64
    ensures PassState(y, y, i, 0, 0, balanced)
  {
    assert LB[..0] == [];
    assert 16 * y[i] * 0 * Power(256, i - 32) == 0;
  }

  /** After the inner loop: the last carry goes on, and limb `i` is spent. */
  lemma PassEnd(x: seq<int>, x': seq<int>, y: seq<int>, i: nat, carry: int, balanced: bool)
    requires |x| == 64 && |y| == 64 && 32 <= i < 64
    requires PassState(x, y, i, 20, carry, balanced)
    requires x' == x[i - 12 := x[i - 12] + carry][i := 0]
    ensures Value(x') == Value(y) - 16 * y[i] * Power(256, i - 32) * L
  {
    hide Power, Value;
    var p := Power(256, i - 32);
    var z := x[i - 12 := x[i - 12] + carry];
    LimbUpdate(x, i - 12, x[i - 12] + carry);
    LimbUpdate(z, i, 0);
    assert z[i] == y[i];
    PowerAdd(256, i - 32, 32);
    Powers();
    LowOrder();
    Spent(y[i], p);
  }

  lemma LimbUpdate(s: seq<int>, i: nat, v: int)
    requires i < |s|
    ensures Value(s[i := v]) == Value(s) + (v - s[i]) * Power(256, i)
  {
    ValUpdate(s, i, v, 256);
  }

  lemma Spent(v: int, p: int)
    ensures 16 * v * DELTA * p + v * (p * TWO256) == 16 * v * p * (DELTA + 16 * TWO248)
  {
    assert v * (p * TWO256) == v * p * (256 * TWO248);
    assert 16 * v * DELTA * p == 16 * v * p * DELTA;
  }

  /** The inner loop and the two lines after it. */
  method FoldLimb(x: array<i64>, i: nat, ghost balanced: bool)
    requires x.Length == 64 && 32 <= i < 64 && Prepared(x[..], i, balanced)
    modifies x
    ensures Value(x[..]) == old(Value(x[..]) - 16 * x[i] * Power(256, i - 32) * L)
    ensures Folded(old(x[..]), x[..], i, balanced)
  {
    hide Value, PassState, Prepared, CarryLimit, CarryLimitBalanced, Power, Folded;
    ghost var y := x[..];
    var carry: i64 := 0;
    PassStart(y, i, balanced);
    for j := i - 32 to i - 12
      invariant PassState(x[..], y, i, j - (i - 32), carry, balanced)
    {
      ghost var k: nat, before: seq<int> := j - (i - 32), x[..];
      PassLimb(before, y, i, k, carry, balanced);
      StepBounds(y, i, k, carry, balanced);
      LimitsSmall(k + 1);
      var w: i64 := x[j] + (carry - 16 * x[i] * LB[j - (i - 32)]);
      x[j] := w;
      ghost var carry0 := carry;
      carry := (x[j] + 128) / 256;
      x[j] := x[j] - carry * 256;
      assert x[..] == before[j := w - carry * 256];
      PassStep(before, x[..], y, i, k, carry0, carry, balanced);
    }
    ghost var before: seq<int> := x[..];
    PassTop(before, y, i, carry, balanced);
    x[i - 12] := x[i - 12] + carry;
    x[i] := 0;
    assert x[..] == before[i - 12 := before[i - 12] + carry][i := 0];
    PassEnd(before, x[..], y, i, carry, balanced);
    PassFolded(before, x[..], y, i, carry, balanced);
  }

  /** What pass `i` does to the limbs, as far as later passes care. */
  ghost predicate Folded(y: seq<int>, x: seq<int>, i: nat, balanced: bool)
    requires |x| == 64 && |y| == 64 && 32 <= i < 64
  {
    && BalancedRange(x, i - 32, 20)
    && x[i] == 0
    && (if balanced then -1 <= x[i - 12] - y[i - 12] <= 1 else -0x4100 <= x[i - 12] - y[i - 12] <= 0x4100)
    && forall j :: 0 <= j < i - 32 || i - 12 < j < i || i < j < 64 ==> x[j] == y[j]
  }

  lemma LimitsSmall(k: nat)
    ensures 0 <= CarryLimit(k) <= 0x800_0000
  {
  }

  /** The limb that the loop is at, and the one being folded, are still as they were. */
  lemma PassLimb(x: seq<int>, y: seq<int>, i: nat, k: nat, carry: int, balanced: bool)
    requires |x| == 64 && |y| == 64 && 32 <= i < 64 && k < 20 && PassState(x, y, i, k, carry, balanced)
    requires Prepared(y, i, balanced)
    ensures x[i - 32 + k] == y[i - 32 + k] && x[i] == y[i] && -ANY <= x[i] <= ANY
    ensures -CarryLimit(k) <= carry <= CarryLimit(k)
    ensures balanced ==> -CarryLimitBalanced(k) <= carry <= CarryLimitBalanced(k)
  {
  }

  lemma PassTop(x: seq<int>, y: seq<int>, i: nat, carry: int, balanced: bool)
    requires |x| == 64 && |y| == 64 && 32 <= i < 64 && PassState(x, y, i, 20, carry, balanced)
      && Prepared(y, i, balanced)
    ensures x[i - 12] == y[i - 12] && -ANY <= x[i - 12] <= ANY && -0x4100 <= carry <= 0x4100
  {
  }

  lemma PassFolded(x: seq<int>, x': seq<int>, y: seq<int>, i: nat, carry: int, balanced: bool)
    requires |x| == 64 && |y| == 64 && 32 <= i < 64 && PassState(x, y, i, 20, carry, balanced)
    requires x' == x[i - 12 := x[i - 12] + carry][i := 0]
    ensures Folded(y, x', i, balanced)
  {
  }

  // ---------- all passes ----------

  /** The limbs before pass `i`. */
  ghost predicate Before(x: seq<int>, i: nat) {
    && |x| == 64 && 31 <= i < 64
    && AllWithin(x, ANY)
    && (forall j :: i < j < 64 ==> x[j] == 0)
    && (i == 63 ==> AllWithin(x, INPUT))
    && (i < 63 ==> BalancedRange(x, i - 31, 20) && forall j :: i - 31 <= j <= i && j <= 50 ==> Near(x[j]))
  }

  lemma BeforeNext(y: seq<int>, x: seq<int>, i: nat)
    requires |x| == 64 && 32 <= i < 64 && Before(y, i) && Folded(y, x, i, i < 63)
    ensures Before(x, i - 1)
  {
    forall j | 0 <= j < 64 ensures -ANY <= x[j] <= ANY {
      if i - 32 <= j < i - 12 { assert Balanced(x[j]); }
    }
    forall j | i - 32 <= j <= i - 1 && j <= 50 ensures Near(x[j]) {
      if j < i - 12 { assert Balanced(x[j]); }
      else if j == i - 12 { assert Balanced(y[j]); }
      else { assert Near(y[j]); }
    }
  }

  lemma BeforePrepared(y: seq<int>, i: nat)
    requires |y| == 64 && 32 <= i < 64 && Before(y, i)
    ensures Prepared(y, i, i < 63)
  {
  }

  method Pass(x: array<i64>, i: nat, ghost v: int)
    requires x.Length == 64 && 32 <= i < 64 && Before(x[..], i) && Cong(Value(x[..]), v, L)
    modifies x
    ensures Before(x[..], i - 1) && Cong(Value(x[..]), v, L)
  {
    hide Value, Cong, Folded, Prepared, Before, Power;
    ghost var y: seq<int> := x[..];
    ghost var c := -16 * y[i] * Power(256, i - 32);
    BeforePrepared(y, i);
    FoldLimb(x, i, i < 63);
    BeforeNext(y, x[..], i);
    CongOf(Value(x[..]), Value(y), c, L);
    CongTrans(Value(x[..]), Value(y), v, L);
  }

  method FoldAll(x: array<i64>)
    requires x.Length == 64 && AllWithin(x[..], INPUT)
    modifies x
    ensures Cong(Value(x[..]), old(Value(x[..])), L)
    ensures forall j :: 0 <= j < 32 ==> Near(x[j])
    ensures forall j :: 32 <= j < 64 ==> x[j] == 0
  {
    hide Value, Cong, Before;
    ghost var v := Value(x[..]);
    CongRefl(v, L);
    BeforeStart(x[..]);
    for i := 64 downto 32
      invariant Before(x[..], i - 1)
      invariant Cong(Value(x[..]), v, L)
    {
      Pass(x, i, v);
    }
    BeforeEnd(x[..]);
  }

  lemma BeforeStart(x: seq<int>)
    requires |x| == 64 && AllWithin(x, INPUT)
    ensures Before(x, 63)
  {
  }

  lemma BeforeEnd(x: seq<int>)
    requires |x| == 64 && Before(x, 31)
    ensures forall j :: 0 <= j < 32 ==> Near(x[j])
    ensures forall j :: 32 <= j < 64 ==> x[j] == 0
  {
  }

  // ---------- the last pass ----------

  lemma {:induction false} NearBound(s: seq<int>)
    requires forall j :: 0 <= j < |s| ==> Near(s[j])
    ensures -129 * (Power(256, |s|) - 1) <= 255 * Value(s) <= 129 * (Power(256, |s|) - 1)
  {
    if s != [] { NearBound(s[1..]); }
  }

  /** Taking off the order as often as the top limb tells leaves less than one order, up to sign. */
  lemma QuotientFits(x: seq<int>)
    requires |x| == 32 && forall j :: 0 <= j < 32 ==> Near(x[j])
    ensures -9 <= x[31] / 16 <= 8 && -L < Value(x) - x[31] / 16 * L < L
  {
    var low := x[..31];
    NearBound(low);
    Powers();
    LowOrder();
    assert x == low + [x[31]];
    ValSnoc(low, x[31], 256);
    assert Near(x[31]);
  }

  lemma ByteStep(done: seq<int>, t: int)
    ensures Value(done + [t % 256]) + t / 256 * Power(256, |done| + 1) == Value(done) + t * Power(256, |done|)
  {
    CarryOut(done, t, 256);
  }

  /** The prefix of limbs that the subtract pass has been through. */
  ghost predicate Subtracted(x: seq<int>, y: seq<int>, q: int, carry: int, j: nat)
    requires |x| == 64 && |y| == 64 && j <= 32
  {
    && (forall k :: 0 <= k < j ==> 0 <= x[k] < 256)
    && (forall k :: j <= k < 64 ==> x[k] == y[k])
    && -12 <= carry <= 12
    && Value(x[..j]) + carry * Power(256, j) == Value(y[..j]) - q * Value(LB[..j])
  }

  lemma SubtractedStep(x: seq<int>, x': seq<int>, y: seq<int>, q: int, carry: int, j: nat)
    requires |x| == 64 && |y| == 64 && j < 32 && Subtracted(x, y, q, carry, j) && -9 <= q <= 8 && Near(y[j])
    requires var t := x[j] + (carry - q * LB[j]); x' == x[j := t % 256]
    ensures -4000 <= x[j] + (carry - q * LB[j]) <= 4000
    ensures Subtracted(x', y, q, (x[j] + (carry - q * LB[j])) / 256, j + 1)
  {
    TimesByte(q, LB[j], 9);
    SubtractedValue(x, x', y, q, carry, j);
  }

  lemma SubtractedValue(x: seq<int>, x': seq<int>, y: seq<int>, q: int, carry: int, j: nat)
    requires |x| == 64 && |y| == 64 && j < 32 && x[j] == y[j]
    requires Value(x[..j]) + carry * Power(256, j) == Value(y[..j]) - q * Value(LB[..j])
    requires var t := x[j] + (carry - q * LB[j]); x' == x[j := t % 256]
    ensures Value(x'[..j + 1]) + (x[j] + (carry - q * LB[j])) / 256 * Power(256, j + 1)
      == Value(y[..j + 1]) - q * Value(LB[..j + 1])
  {
    hide Value, Power;
    var l: int := LB[j];
    var t := x[j] + (carry - q * l);
    assert x'[..j + 1] == x[..j] + [t % 256];
    assert y[..j + 1] == y[..j] + [y[j]] && LB[..j + 1] == LB[..j] + [LB[j]];
    ByteStep(x[..j], t);
    TopLimb(y[..j], y[j]);
    TopLimb(LB[..j], l);
    Gather(x[j], carry, q, l, Value(LB[..j]), Power(256, j));
  }

  lemma Gather(a: int, c: int, q: int, l: int, v: int, p: int)
    ensures (a + (c - q * l)) * p == a * p + c * p - q * (l * p)
    ensures q * (v + l * p) == q * v + q * (l * p)
  {
    assert q * l * p == q * (l * p);
  }

  /** The loop that takes off the order, carrying as it goes. */
  method Subtract(x: array<i64>) returns (carry: i64)
    requires x.Length == 64 && forall j :: 0 <= j < 32 ==> Near(x[j])
    modifies x
    ensures Subtracted(x[..], old(x[..]), old(x[31]) / 16, carry, 32)
  {
    hide Subtracted, Value, Near;
    ghost var y: seq<int>, q := x[..], x[31] / 16;
    QuotientFits(y[..32]);
    carry := 0;
    SubtractedStart(y, q);
    for j := 0 to 32
      invariant Subtracted(x[..], y, q, carry, j)
    {
      ghost var before: seq<int> := x[..];
      SubtractedRest(before, y, q, carry, j);
      ghost var t := x[j] + (carry - q * LB[j]);
      SubtractedStep(before, before[j := t % 256], y, q, carry, j);
      SubtractFits(q, LB[j], carry);
      x[j] := x[j] + (carry - x[31] / 16 * LB[j]);
      carry := x[j] / 256;
      x[j] := x[j] % 256;
      assert x[..] == before[j := t % 256];
    }
  }

  lemma SubtractFits(q: int, l: byte, carry: int)
    requires -9 <= q <= 8 && -12 <= carry <= 12
    ensures -4000 <= q * l <= 4000 && -4000 <= carry - q * l <= 4000
  {
    TimesByte(q, l, 9);
  }

  lemma SubtractedStart(y: seq<int>, q: int)
    requires |y| == 64
    ensures Subtracted(y, y, q, 0, 0)
  {
    assert y[..0] == [] && LB[..0] == [];
  }

  lemma SubtractedRest(x: seq<int>, y: seq<int>, q: int, carry: int, j: nat)
    requires |x| == 64 && |y| == 64 && j < 32 && Subtracted(x, y, q, carry, j)
    ensures x[j] == y[j] && x[31] == y[31] && -12 <= carry <= 12
  {
  }

  lemma OrderShape()
    ensures LB == (LB[..20] + seq(11, _ => 0)) + [0x10]
  {
    assert LB[20..31] == [0, 0, 0, 0, 0, 0, 0, 0, 0, 0, 0];
    assert LB[31] == 0x10;
  }

  lemma OrderValue()
    ensures Value(LB) == L
  {
    hide Power, Value;
    var low: seq<int> := LB[..20];
    OrderShape();
    assert Value(low + seq(11, _ => 0)) == DELTA by {
      LowOrder();
      PadZeros(low, 11);
    }
    TopLimb(low + seq(11, _ => 0), 0x10);
    Powers();
    LowOrder();
  }

  lemma PadZeros(s: seq<int>, n: nat)
    ensures Value(s + seq(n, _ => 0)) == Value(s)
  {
    ValConcat(s, seq(n, _ => 0), 256);
    ValZeros(n, 256);
  }

  lemma TopLimb(s: seq<int>, d: int)
    ensures Value(s + [d]) == Value(s) + d * Power(256, |s|)
  {
    ValSnoc(s, d, 256);
  }

  /** The carry out of the subtraction is its sign. */
  lemma CarryIsSign(x: seq<int>, y: seq<int>, carry: int)
    requires |x| == 64 && |y| == 64 && (forall j :: 0 <= j < 32 ==> Near(y[j]))
      && Subtracted(x, y, y[31] / 16, carry, 32)
    ensures var d := Value(y[..32]) - y[31] / 16 * L;
      && -L < d < L && carry == (if d < 0 then -1 else 0)
      && Value(x[..32]) + carry * TWO256 == d
  {
    hide Power, Value;
    QuotientFits(y[..32]);
    OrderValue();
    assert LB[..32] == LB;
    Powers();
    BytesBound(x[..32]);
    SignOf(Value(x[..32]), carry);
  }

  lemma BytesBound(s: seq<int>)
    requires |s| == 32 && forall j :: 0 <= j < 32 ==> 0 <= s[j] < 256
    ensures 0 <= Value(s) < TWO256
  {
    ValBound(s, 256);
    Powers();
  }

  lemma SignOf(v: int, c: int)
    requires 0 <= v < TWO256 && -L < v + c * TWO256 < L
    ensures c == if v + c * TWO256 < 0 then -1 else 0
  {
  }

  /** The limbs below `j` have the order added `-c` times. */
  ghost predicate AddedBack(x: seq<int>, y: seq<int>, c: int, j: nat)
    requires |x| == 64 && |y| == 64 && j <= 32
  {
    && (forall k :: 0 <= k < j ==> x[k] == y[k] - c * LB[k])
    && (forall k :: j <= k < 64 ==> x[k] == y[k])
  }

  lemma AddedBackEnd(x: seq<int>, y: seq<int>, c: int)
    requires |x| == 64 && |y| == 64 && AddedBack(x, y, c, 32) && -1 <= c <= 0
    requires forall j :: 0 <= j < 32 ==> 0 <= y[j] < 256
    ensures forall j :: 0 <= j < 32 ==> 0 <= x[j] <= 510
    ensures forall j :: 32 <= j < 64 ==> x[j] == y[j]
    ensures Value(x[..32]) == Value(y[..32]) - c * L
  {
    hide Power, Value, Val;
    AddedBackScaled(x, y, c);
    ScaledValue(y[..32], -c);
    OrderValue();
    assert -c * L == -(c * L);
  }

  lemma AddedBackScaled(x: seq<int>, y: seq<int>, c: int)
    requires |x| == 64 && |y| == 64 && AddedBack(x, y, c, 32)
    ensures x[..32] == AddScaled(y[..32], -c, LB)
  {
    forall k | 0 <= k < 32 ensures x[..32][k] == AddScaled(y[..32], -c, LB)[k] {
      assert -c * LB[k] == -(c * LB[k]);
    }
  }

  lemma ScaledValue(y: seq<int>, c: int)
    requires |y| == 32
    ensures Value(AddScaled(y, c, LB)) == Value(y) + c * Value(LB)
  {
    ValAddScaled(y, c, LB, 256);
  }

  /** Adding the order back when the carry asks for it. */
  method AddBack(x: array<i64>, carry: i64)
    requires x.Length == 64 && -1 <= carry <= 0 && forall j :: 0 <= j < 32 ==> 0 <= x[j] < 256
    modifies x
    ensures forall j :: 0 <= j < 32 ==> 0 <= x[j] <= 510
    ensures forall j :: 32 <= j < 64 ==> x[j] == old(x[j])
    ensures Value(x[..32]) == old(Value(x[..32])) - carry * L
  {
    hide Value;
    ghost var y: seq<int> := x[..];
    for j := 0 to 32
      invariant AddedBack(x[..], y, carry, j)
    {
      x[j] := x[j] - carry * LB[j];
    }
    AddedBackEnd(x[..], y, carry);
    assert y[..32] == old(x[..32]);
  }

  /** The bytes below `i` are out, and what they leave is in limb `i`. */
  ghost predicate Emitted(r: seq<int>, x: seq<int>, y: seq<int>, c: int, i: nat)
    requires |x| == 64 && |y| == 64 && i <= 32 && |r| == i
  {
    && 0 <= c <= 1
    && x[i] == y[i] + c
    && (forall k :: i < k <= 32 ==> x[k] == y[k])
    && Value(r) + c * Power(256, i) == Value(y[..i])
  }

  lemma EmittedStep(r: seq<int>, x: seq<int>, x': seq<int>, y: seq<int>, c: int, i: nat)
    requires |x| == 64 && |y| == 64 && i < 32 && |r| == i && Emitted(r, x, y, c, i) && 0 <= y[i] <= 510
    requires x' == x[i + 1 := x[i + 1] + x[i] / 256]
    ensures Emitted(r + [x[i] % 256], x', y, x[i] / 256, i + 1)
  {
    ByteStep(r, x[i]);
    TopLimb(y[..i], y[i]);
    assert y[..i + 1] == y[..i] + [y[i]];
    AddOne(y[i], c, Power(256, i));
  }

  lemma EmittedLimb(r: seq<int>, x: seq<int>, y: seq<int>, c: int, i: nat)
    requires |x| == 64 && |y| == 64 && i < 32 && |r| == i && Emitted(r, x, y, c, i)
    requires y[32] == 0 && forall j :: 0 <= j < 32 ==> 0 <= y[j] <= 510
    ensures 0 <= x[i] <= 511 && 0 <= x[i + 1] <= 510
  {
  }

  /** The last loop: bytes out, carries up. */
  method Emit(r: array<byte>, x: array<i64>)
    requires r.Length >= 32 && x.Length == 64 && x[32] == 0 && forall j :: 0 <= j < 32 ==> 0 <= x[j] <= 510
    modifies r, x
    ensures r[32..] == old(r[32..])
    ensures Value(r[..32]) == old(Value(x[..32])) % TWO256
  {
    hide Value, Emitted;
    ghost var y: seq<int> := x[..];
    ghost var c := 0;
    EmitStart(r[..0], y);
    for i := 0 to 32
      invariant r[32..] == old(r[32..])
      invariant Emitted(r[..i], x[..], y, c, i)
    {
      ghost var done: seq<int>, before: seq<int> := r[..i], x[..];
      EmittedLimb(done, before, y, c, i);
      ghost var c0 := c;
      c := before[i] / 256;
      EmittedStep(done, before, before[i + 1 := before[i + 1] + before[i] / 256], y, c0, i);
      x[i + 1] := x[i + 1] + x[i] / 256;
      r[i] := x[i] % 256;
      assert x[..] == before[i + 1 := before[i + 1] + before[i] / 256];
      assert r[..i + 1] == done + [before[i] % 256];
    }
    EmitEnd(r[..32], x[..], y, c);
    assert y[..32] == old(x[..32]);
  }

  lemma AddOne(a: int, c: int, p: int)
    ensures (a + c) * p == a * p + c * p
  {
  }

  lemma EmitStart(r: seq<int>, y: seq<int>)
    requires |r| == 0 && |y| == 64
    ensures Emitted(r, y, y, 0, 0)
  {
    assert y[..0] == r;
  }

  lemma EmitEnd(r: Bytes, x: seq<int>, y: seq<int>, c: int)
    requires |r| == 32 && |x| == 64 && |y| == 64 && Emitted(r, x, y, c, 32)
    ensures Value(r) == Value(y[..32]) % TWO256
  {
    ValBound(r, 256);
    Powers();
    DivModUnique(Value(y[..32]), c, Value(r), TWO256);
  }

  lemma Canonical(d: int, carry: int, v: int, n: int)
    requires -L < d < L && carry == (if d < 0 then -1 else 0) && v == d - carry * TWO256 - carry * L && Cong(d, n, L)
    ensures v % TWO256 == n % L
  {
    if d < 0 {
      DivModUnique(v, 1, d + L, TWO256);
      CongOf(d + L, d, 1, L);
      CongSmall(d + L, n, L);
    } else {
      DivModUnique(v, 0, d, TWO256);
      CongSmall(d, n, L);
    }
  }

  /** modL: the bytes of the one representative in [0, L). */
  method Reduce(r: array<byte>, x: array<i64>)
    requires r.Length >= 32 && x.Length == 64 && AllWithin(x[..], INPUT)
    modifies r, x
    ensures r[..32] == LeBytes(old(Value(x[..])) % L, 32) && r[32..] == old(r[32..])
  {
    hide Value, Subtracted, Cong, Near;
    ghost var n := Value(x[..]);
    FoldAll(x);
    ghost var y: seq<int> := x[..];
    UpperZero(y);
    var carry := Subtract(x);
    ghost var z: seq<int> := x[..];
    CarryIsSign(z, y, carry);
    SubtractedBytes(z, y, y[31] / 16, carry);
    AddBack(x, carry);
    ghost var v := Value(x[..32]);
    Emit(r, x);
    ghost var d := Value(y[..32]) - y[31] / 16 * L;
    CongOf(d, Value(y), -(y[31] / 16), L);
    CongTrans(d, Value(y), n, L);
    Canonical(d, carry, v, n);
    BytesOf(r[..32], n % L);
  }

  lemma UpperZero(y: seq<int>)
    requires |y| == 64 && forall j :: 32 <= j < 64 ==> y[j] == 0
    ensures Value(y[..32]) == Value(y)
  {
    hide Value;
    assert y == y[..32] + seq(32, _ => 0);
    PadZeros(y[..32], 32);
  }

  lemma SubtractedBytes(x: seq<int>, y: seq<int>, q: int, carry: int)
    requires |x| == 64 && |y| == 64 && Subtracted(x, y, q, carry, 32)
    ensures (forall j :: 0 <= j < 32 ==> 0 <= x[j] < 256) && x[32] == y[32]
  {
  }

  lemma {:induction false} BytesOf(b: Bytes, n: nat)
    requires Value(b) == n
    ensures b == LeBytes(n, |b|)
  {
    ValBound(b, 256);
    if b != [] {
      ValBound(b[1..], 256);
      BytesOf(b[1..], Value(b[1..]));
    }
  }
}
