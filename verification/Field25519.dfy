/** The field of tweetnacl.c: arithmetic modulo 2^255 - 19 on sixteen signed 64-bit limbs of 16 bits each. */
module Field25519 {
  import opened Bytes
  import opened ModArith
  import Box = SecretBox

  /** 2^255 - 19 */
  const P := 57896044618658097711785492504343953926634992332820282019728792003956564819949
  const B: nat := 65536
  const TWO256 := 0x1_0000_0000_0000_0000_0000_0000_0000_0000_0000_0000_0000_0000_0000_0000_0000_0000

  /** The C type of the limbs; every value assigned to one is checked to stay in range. */
  type i64 = x: int | -0x8000_0000_0000_0000 <= x < 0x8000_0000_0000_0000

  function Value(s: seq<int>): int { Val(s, B) }

  lemma Power16()
    ensures Power(B, 16) == TWO256
  {
    assert Power(B, 2) == 0x1_0000_0000;
    PowerAdd(B, 2, 2);
    PowerAdd(B, 4, 4);
    PowerAdd(B, 8, 8);
  }

  // ---------- carrying ----------

  /** The carry out of limb `i`, a floored division. */
  function Carry(s: seq<int>, i: int): int
    requires |s| == 16 && -1 <= i < 16
    decreases i + 1
  {
    if i < 0 then 0 else (s[i] + Carry(s, i - 1)) / 65536
  }

  /** What car25519 leaves: every limb reduced, the last carry folded into the first limb 38 times. */
  function Carried(s: seq<int>): (r: seq<int>)
    requires |s| == 16
    ensures |r| == 16
  {
    seq(16, i requires 0 <= i < 16 =>
      (s[i] + Carry(s, i - 1)) % 65536 + if i == 0 then 38 * Carry(s, 15) else 0)
  }

  /** Limbs of up to `n` in absolute value. */
  predicate Within(s: seq<int>, n: int) {
    |s| == 16 && forall i :: 0 <= i < 16 ==> -n <= s[i] <= n
  }

  const WIDE := 0x4000_0000_0000_0000

  lemma {:induction false} CarryBound(s: seq<int>, i: int)
    requires Within(s, WIDE) && -1 <= i < 16
    ensures -0x4001_0000_0000 <= Carry(s, i) <= 0x4001_0000_0000
    decreases i + 1
  {
    if i >= 0 { CarryBound(s, i - 1); }
  }

  /** The limbs when the loop of car25519 reaches `i`. */
  ghost predicate CarState(o: seq<int>, s: seq<int>, i: nat)
    requires |o| == 16 && |s| == 16 && i < 16
  {
    && (forall k :: 0 <= k < i ==> o[k] == (s[k] + Carry(s, k - 1)) % 65536)
    && o[i] == s[i] + Carry(s, i - 1)
    && (forall k :: i < k < 16 ==> o[k] == s[k])
  }

  /** The body of the loop of car25519: limb `i` gives its carry to the next, the last one 38 times to the first. */
  method CarStep(o: array<i64>, i: nat)
    requires o.Length == 16 && i < 16
    requires forall k :: 0 <= k < 16 ==> -0x5000_0000_0000_0000 <= o[k] <= 0x5000_0000_0000_0000
    modifies o
    ensures i < 15 ==> o[..] == old(o[..])[i := old(o[i]) % 65536][i + 1 := old(o[i + 1]) + old(o[i]) / 65536]
    ensures i == 15 ==> o[..] == old(o[..])[15 := old(o[15]) % 65536][0 := old(o[0]) + 38 * (old(o[15]) / 65536)]
  {
    o[i] := o[i] + 0x10000;
    var c: i64 := o[i] / 0x10000;
    if i < 15 {
      o[i + 1] := o[i + 1] + (c - 1);
    } else {
      o[0] := o[0] + (c - 1 + 37 * (c - 1));
    }
    o[i] := o[i] - c * 0x10000;
  }

  lemma CarStateStep(o: seq<int>, o': seq<int>, s: seq<int>, i: nat)
    requires |o| == 16 && |s| == 16 && i < 15 && CarState(o, s, i)
    requires o' == o[i := o[i] % 65536][i + 1 := o[i + 1] + o[i] / 65536]
    ensures CarState(o', s, i + 1)
  {
  }

  lemma CarStateEnd(o: seq<int>, o': seq<int>, s: seq<int>)
    requires |o| == 16 && |s| == 16 && CarState(o, s, 15)
    requires o' == o[15 := o[15] % 65536][0 := o[0] + 38 * (o[15] / 65536)]
    ensures o' == Carried(s)
  {
    hide Carry;
    CarryAt(s, 15);
  }

  lemma CarryAt(s: seq<int>, i: nat)
    requires |s| == 16 && i < 16
    ensures Carry(s, i) == (s[i] + Carry(s, i - 1)) / 65536
  {
  }

  lemma CarStateInRange(o: seq<int>, s: seq<int>, i: nat)
    requires |o| == 16 && Within(s, WIDE) && i < 16 && CarState(o, s, i)
    ensures forall k :: 0 <= k < 16 ==> -0x5000_0000_0000_0000 <= o[k] <= 0x5000_0000_0000_0000
  {
    CarryBound(s, i - 1);
  }

  method Car25519(o: array<i64>)
    requires o.Length == 16 && Within(o[..], WIDE)
    modifies o
    ensures o[..] == Carried(old(o[..]))
  {
    hide CarState, Carried, Within;
    ghost var s := o[..];
    CarStateStart(s);
    for i := 0 to 15
      invariant CarState(o[..], s, i)
    {
      CarStateInRange(o[..], s, i);
      ghost var before := o[..];
      CarStep(o, i);
      CarStateStep(before, o[..], s, i);
    }
    CarStateInRange(o[..], s, 15);
    ghost var before := o[..];
    CarStep(o, 15);
    CarStateEnd(before, o[..], s);
  }

  lemma CarStateStart(s: seq<int>)
    requires |s| == 16
    ensures CarState(s, s, 0)
  {
  }

  /** The limbs below `i` with the carry out of them weigh what they weighed. */
  lemma {:induction false} CarryKeeps(s: seq<int>, i: nat)
    requires |s| == 16 && i <= 16
    ensures Value(Reduced(s, i)) + Carry(s, i - 1) * Power(B, i) == Value(s[..i])
  {
    hide Value, Power, Carry, Reduced;
    if i == 0 {
      NothingReduced(s);
    } else {
      CarryKeeps(s, i - 1);
      CarryKeepsStep(s, i - 1);
    }
  }

  lemma NothingReduced(s: seq<int>)
    requires |s| == 16
    ensures Value(Reduced(s, 0)) == 0 && Carry(s, -1) == 0 && Value(s[..0]) == 0
  {
  }

  lemma CarryKeepsStep(s: seq<int>, i: nat)
    requires |s| == 16 && i < 16
    requires Value(Reduced(s, i)) + Carry(s, i - 1) * Power(B, i) == Value(s[..i])
    ensures Value(Reduced(s, i + 1)) + Carry(s, i) * Power(B, i + 1) == Value(s[..i + 1])
  {
    hide Value, Power, Carry, Reduced;
    ReducedNext(s, i);
    assert s[..i + 1] == s[..i] + [s[i]];
    LimbBehind(s[..i], s[i]);
    LimbOut(Reduced(s, i), s[i] + Carry(s, i - 1));
    assert (s[i] + Carry(s, i - 1)) * Power(B, i) == s[i] * Power(B, i) + Carry(s, i - 1) * Power(B, i);
  }

  lemma ReducedNext(s: seq<int>, i: nat)
    requires |s| == 16 && i < 16
    ensures Reduced(s, i + 1) == Reduced(s, i) + [(s[i] + Carry(s, i - 1)) % 65536]
    ensures Carry(s, i) == (s[i] + Carry(s, i - 1)) / 65536
  {
    hide Carry;
    CarryAt(s, i);
  }

  lemma LimbBehind(s: seq<int>, x: int)
    ensures Value(s + [x]) == Value(s) + x * Power(B, |s|)
  {
    ValSnoc(s, x, B);
  }

  lemma LimbOut(done: seq<int>, t: int)
    ensures Value(done + [t % 65536]) + t / 65536 * Power(B, |done| + 1) == Value(done) + t * Power(B, |done|)
  {
    CarryOut(done, t, B);
  }

  lemma LimbUpdate(s: seq<int>, i: nat, v: int)
    requires i < |s|
    ensures Value(s[i := v]) == Value(s) + (v - s[i]) * Power(B, i)
  {
    ValUpdate(s, i, v, B);
  }

  function Reduced(s: seq<int>, i: nat): (r: seq<int>)
    requires |s| == 16 && i <= 16
    ensures |r| == i
  {
    seq(i, k requires 0 <= k < i => (s[k] + Carry(s, k - 1)) % 65536)
  }

  /** Carrying never changes the value modulo P. */
  lemma CarriedCong(s: seq<int>)
    requires |s| == 16
    ensures Cong(Value(Carried(s)), Value(s), P)
  {
    hide Value, Power, Cong;
    var r := Reduced(s, 16);
    var c := Carry(s, 15);
    CarryKeeps(s, 16);
    assert s[..16] == s;
    Power16();
    PowerNone(B);
    assert Carried(s) == r[0 := r[0] + 38 * c];
    LimbUpdate(r, 0, r[0] + 38 * c);
    CongOf(Value(Carried(s)), Value(s), -2 * c, P);
  }

  /** All limbs but the first are below 2^16. */
  predicate Loose(s: seq<int>) {
    |s| == 16 && forall i :: 1 <= i < 16 ==> 0 <= s[i] < 65536
  }

  /** A product's limbs: the first one may miss its range by 38. */
  predicate Tight(s: seq<int>) {
    Loose(s) && -38 <= s[0] < 65536 + 38
  }

  predicate Strict(s: seq<int>) {
    Loose(s) && 0 <= s[0] < 65536
  }

  /** One pass from anywhere makes limbs loose. */
  lemma CarriedLoose(s: seq<int>)
    requires Within(s, WIDE)
    ensures Loose(Carried(s)) && -0x40_0000_0000_0000 <= Carried(s)[0] <= 0x40_0000_0000_0000
  {
    CarryBound(s, 15);
  }

  /** Through loose limbs a carry shrinks to one unit. */
  lemma {:induction false} CarryShrinks(s: seq<int>, i: nat)
    requires Loose(s) && -0x40_0000_0000_0000 <= s[0] <= 0x40_0000_0000_0000 && i < 16
    ensures -0x40_0000_0000 <= Carry(s, i) <= 0x40_0000_0000
    ensures i >= 1 ==> -0x40_0001 <= Carry(s, i) <= 0x40_0001
    ensures i >= 2 ==> -66 <= Carry(s, i) <= 66
    ensures i >= 3 ==> -1 <= Carry(s, i) <= 1
  {
    if i > 0 { CarryShrinks(s, i - 1); }
  }

  /** A second pass makes them tight. */
  lemma CarriedTight(s: seq<int>)
    requires Loose(s) && -0x40_0000_0000_0000 <= s[0] <= 0x40_0000_0000_0000
    ensures Tight(Carried(s))
  {
    CarryShrinks(s, 15);
  }

  /** From tight limbs a carry goes all the way round only when the first limb is out of range. */
  lemma {:induction false} CarryOfTight(s: seq<int>, i: nat)
    requires Tight(s) && i < 16
    ensures -1 <= Carry(s, i) <= 1
    ensures Carry(s, i) == 1 ==> s[0] >= 65536
    ensures Carry(s, i) == -1 ==> s[0] < 0
  {
    if i > 0 { CarryOfTight(s, i - 1); }
  }

  lemma NoCarryIn(s: seq<int>)
    requires |s| == 16
    ensures Carry(s, -1) == 0
  {
  }

  lemma FirstLimb(x: int, c: int)
    requires -38 <= x < 65536 + 38 && -1 <= c <= 1 && (c == 1 ==> x >= 65536) && (c == -1 ==> x < 0)
    ensures 0 <= x % 65536 + 38 * c < 65536
  {
  }

  /** A third pass makes them strict. */
  lemma CarriedStrict(s: seq<int>)
    requires Tight(s)
    ensures Strict(Carried(s))
  {
    CarryOfTight(s, 15);
    NoCarryIn(s);
    FirstLimb(s[0], Carry(s, 15));
    hide Carry;
    assert Carried(s)[0] == s[0] % 65536 + 38 * Carry(s, 15);
  }

  // ---------- multiplication ----------

  const LIMB := 0x400_0000
  const PRODUCT := 0x10_0000_0000_0000

  /** Columns after `i` rows and `j` products of the next: none holds more than one product per row. */
  ghost predicate ColumnsFit(t: seq<int>, i: nat, j: nat) {
    |t| == 31 && forall k :: 0 <= k < 31 ==>
      var n := i + if i <= k < i + j then 1 else 0;
      -PRODUCT * n <= t[k] <= PRODUCT * n
  }

  lemma ProductBound(a: int, b: int)
    requires -LIMB < a < LIMB && -LIMB < b < LIMB
    ensures -PRODUCT <= a * b <= PRODUCT
  {
    var x, y := if a < 0 then -a else a, if b < 0 then -b else b;
    PositiveProduct(x, y, LIMB);
    assert a * b == x * y || a * b == -(x * y);
  }

  lemma PositiveProduct(x: int, y: int, l: int)
    requires 0 <= x < l && 0 <= y < l
    ensures 0 <= x * y <= l * l
  {
    assert x * y <= x * l;
    assert x * l <= l * l;
  }

  lemma ColumnStep(t: seq<int>, i: nat, j: nat, x: int)
    requires ColumnsFit(t, i, j) && i < 16 && j < 16 && -PRODUCT <= x <= PRODUCT
    ensures ColumnsFit(t[i + j := t[i + j] + x], i, j + 1)
    ensures -0x8000_0000_0000_0000 <= t[i + j] + x < 0x8000_0000_0000_0000
  {
  }

  lemma RowDone(t: seq<int>, i: nat)
    requires ColumnsFit(t, i, 16)
    ensures ColumnsFit(t, i + 1, 0)
  {
  }

  /** Adding one product to its column adds its weight. */
  lemma ProductWeight(t: seq<int>, i: nat, j: nat, x: int, y: int)
    requires |t| == 31 && i + j < 31
    ensures Value(t[i + j := t[i + j] + x * y]) == Value(t) + x * Power(B, i) * (y * Power(B, j))
  {
    ValUpdate(t, i + j, t[i + j] + x * y, B);
    PowerAdd(B, i, j);
    Regroup(x, y, Power(B, i), Power(B, j));
  }

  lemma Regroup(x: int, y: int, p: int, q: int)
    ensures x * y * (p * q) == x * p * (y * q)
  {
  }

  /** Row `i`: limb `i` of `a` times every limb of `b`. */
  method MulRow(t: array<i64>, a: array<i64>, b: array<i64>, i: nat)
    requires t.Length == 31 && a.Length == 16 && b.Length == 16 && t != a && t != b && i < 16
    requires Within(a[..], LIMB - 1) && Within(b[..], LIMB - 1) && ColumnsFit(t[..], i, 0)
    modifies t
    ensures ColumnsFit(t[..], i + 1, 0)
    ensures Value(t[..]) == old(Value(t[..])) + a[i] * Power(B, i) * Value(b[..])
  {
    hide Value, ColumnsFit;
    ghost var t0, bs := t[..], b[..];
    ghost var w := a[i] * Power(B, i);
    ValueNone();
    for j := 0 to 16
      invariant a[..] == old(a[..]) && b[..] == bs && a[i] * Power(B, i) == w
      invariant ColumnsFit(t[..], i, j)
      invariant Value(t[..]) == Value(t0) + w * Value(bs[..j])
    {
      ghost var before := t[..];
      ProductBound(a[i], b[j]);
      ColumnStep(before, i, j, a[i] * b[j]);
      ProductWeight(before, i, j, a[i], b[j]);
      ValueSnoc(bs, j);
      AddWeighted(w, Value(bs[..j]), b[j] * Power(B, j));
      t[i + j] := t[i + j] + a[i] * b[j];
      assert t[..] == before[i + j := before[i + j] + a[i] * b[j]];
    }
    RowDone(t[..], i);
    assert bs[..16] == bs;
  }

  lemma ValueNone()
    ensures forall s: seq<int> :: Value(s[..0]) == 0
  {
  }

  lemma ValueSnoc(s: seq<int>, j: nat)
    requires j < |s|
    ensures Value(s[..j + 1]) == Value(s[..j]) + s[j] * Power(B, j)
  {
    assert s[..j + 1] == s[..j] + [s[j]];
    ValSnoc(s[..j], s[j], B);
  }

  lemma AddWeighted(w: int, v: int, x: int)
    ensures w * (v + x) == w * v + w * x
  {
  }

  /** The double loop of M. */
  method MulColumns(t: array<i64>, a: array<i64>, b: array<i64>)
    requires t.Length == 31 && a.Length == 16 && b.Length == 16 && t != a && t != b
    requires Within(a[..], LIMB - 1) && Within(b[..], LIMB - 1) && forall k :: 0 <= k < 31 ==> t[k] == 0
    modifies t
    ensures ColumnsFit(t[..], 16, 0)
    ensures Value(t[..]) == Value(a[..]) * Value(b[..])
  {
    hide Value;
    ghost var as0, vb := a[..], Value(b[..]);
    ValueNone();
    ValueZero(t[..]);
    assert Value(as0[..0]) * vb == 0;
    assert ColumnsFit(t[..], 0, 0);
    hide ColumnsFit, Within;
    for i := 0 to 16
      invariant a[..] == as0 && b[..] == old(b[..])
      invariant ColumnsFit(t[..], i, 0)
      invariant Value(t[..]) == Value(as0[..i]) * vb
    {
      MulRow(t, a, b, i);
      ValueSnoc(as0, i);
      AddWeighted(vb, Value(as0[..i]), as0[i] * Power(B, i));
    }
    assert as0[..16] == as0;
  }

  lemma ValueZero(t: seq<int>)
    requires forall k :: 0 <= k < |t| ==> t[k] == 0
    ensures Value(t) == 0
  {
    assert t == seq(|t|, _ => 0);
    ValZeros(|t|, B);
  }

  /** What limb `i` of the fold of `t` is. */
  function FoldLimb(t: seq<int>, i: nat): int
    requires |t| == 31 && i < 16
  {
    if i < 15 then t[i] + 38 * t[i + 16] else t[15]
  }

  /** Folding the upper columns in 38 times keeps the value modulo P, because 2^256 - 38 is 2 P. */
  lemma FoldCong(t: seq<int>, o: seq<int>)
    requires |t| == 31 && |o| == 16 && forall i :: 0 <= i < 16 ==> o[i] == FoldLimb(t, i)
    ensures Cong(Value(o), Value(t), P)
  {
    hide Val, Power, Cong;
    var low, high := t[..16], t[16..];
    assert t == low + high;
    ValConcat(low, high, B);
    forall i | 0 <= i < 16 ensures o[i] == AddScaled(low, 38, high + [0])[i] {
      if i < 15 { assert high[i] == t[16 + i]; }
    }
    assert o == AddScaled(low, 38, high + [0]);
    ValAddScaled(low, 38, high + [0], B);
    ValSnoc(high, 0, B);
    Power16();
    CongOf(Value(o), Value(t), -2 * Value(high), P);
  }

  lemma FoldFits(t: seq<int>, k: nat)
    requires ColumnsFit(t, 16, 0) && k < 16
    ensures -WIDE <= FoldLimb(t, k) <= WIDE
    ensures k < 15 ==> -0x8000_0000_0000_0000 <= 38 * t[k + 16] < 0x8000_0000_0000_0000
  {
  }

  /** The fold and the copy to the output. */
  method Fold(o: array<i64>, t: array<i64>)
    requires o.Length == 16 && t.Length == 31 && o != t && ColumnsFit(t[..], 16, 0)
    modifies o, t
    ensures Within(o[..], WIDE) && Cong(Value(o[..]), old(Value(t[..])), P)
  {
    hide ColumnsFit, Value, Cong;
    ghost var ts := t[..];
    for i := 0 to 15
      invariant forall k :: 0 <= k < i ==> t[k] == FoldLimb(ts, k)
      invariant forall k :: i <= k < 31 ==> t[k] == ts[k]
    {
      FoldFits(ts, i);
      t[i] := t[i] + 38 * t[i + 16];
    }
    forall k | 0 <= k < 16 ensures -WIDE <= FoldLimb(ts, k) <= WIDE && t[k] == FoldLimb(ts, k) {
      FoldFits(ts, k);
    }
    forall i | 0 <= i < 16 { o[i] := t[i]; }
    FoldCong(ts, o[..]);
  }

  method CarryTwice(o: array<i64>)
    requires o.Length == 16 && Within(o[..], WIDE)
    modifies o
    ensures Tight(o[..]) && Cong(Value(o[..]), old(Value(o[..])), P)
  {
    hide Carried, Value, Cong, Within, Loose, Tight;
    ghost var o0 := o[..];
    Car25519(o);
    ghost var o1 := o[..];
    CarriedCong(o0);
    CarriedLoose(o0);
    LooseWithin(o1);
    Car25519(o);
    CarriedCong(o1);
    CarriedTight(o1);
    CongTrans(Value(o[..]), Value(o1), Value(o0), P);
  }

  /** M(o, a, b); the three arrays may be the same. */
  method M(o: array<i64>, a: array<i64>, b: array<i64>)
    requires o.Length == 16 && a.Length == 16 && b.Length == 16
    requires Within(a[..], LIMB - 1) && Within(b[..], LIMB - 1)
    modifies o
    ensures Tight(o[..])
    ensures Cong(Value(o[..]), old(Value(a[..]) * Value(b[..])), P)
  {
    hide Value, ColumnsFit, Cong, Within, Tight;
    ghost var as0, bs0 := a[..], b[..];
    var t := new i64[31](_ => 0);
    assert a[..] == as0 && b[..] == bs0;
    MulColumns(t, a, b);
    Fold(o, t);
    ghost var v := Value(o[..]);
    CarryTwice(o);
    CongTrans(Value(o[..]), v, Value(as0) * Value(bs0), P);
  }

  lemma LooseWithin(s: seq<int>)
    requires Loose(s) && -0x40_0000_0000_0000 <= s[0] <= 0x40_0000_0000_0000
    ensures Within(s, WIDE)
  {
  }

  lemma TightWithin(s: seq<int>)
    requires Tight(s)
    ensures Within(s, LIMB - 1) && Within(s, WIDE)
  {
  }

  /** S(o, a) */
  method S(o: array<i64>, a: array<i64>)
    requires o.Length == 16 && a.Length == 16 && Within(a[..], LIMB - 1)
    modifies o
    ensures Tight(o[..])
    ensures Cong(Value(o[..]), old(Value(a[..]) * Value(a[..])), P)
  {
    M(o, a, a);
  }

  // ---------- powers ----------

  /** One step of square-and-multiply. */
  method PowerStep(c: array<i64>, i: array<i64>, multiply: bool, ghost e: nat)
    requires c.Length == 16 && i.Length == 16 && c != i
    requires Within(c[..], LIMB - 1) && Within(i[..], LIMB - 1)
    requires Cong(Value(c[..]), Power(Value(i[..]), e), P)
    modifies c
    ensures Within(c[..], LIMB - 1)
    ensures Cong(Value(c[..]), Power(Value(i[..]), if multiply then 2 * e + 1 else 2 * e), P)
  {
    hide Value, Cong, Within, Tight, Power;
    ghost var v, x := Value(c[..]), Value(i[..]);
    ghost var is0 := i[..];
    S(c, c);
    TightWithin(c[..]);
    ghost var w := Value(c[..]);
    CongMul(v, Power(x, e), v, Power(x, e), P);
    PowerAdd(x, e, e);
    CongTrans(w, v * v, Power(x, e + e), P);
    assert i[..] == is0;
    if multiply {
      M(c, c, i);
      TightWithin(c[..]);
      assert i[..] == is0;
      CongRefl(x, P);
      CongMul(w, Power(x, e + e), x, x, P);
      PowerTimes(x, e + e);
      CongTrans(Value(c[..]), w * x, Power(x, e + e + 1), P);
    }
  }

  lemma PowerTimes(x: int, e: nat)
    ensures Power(x, e) * x == Power(x, e + 1) && Power(x, 1) == x
  {
    assert Power(x, 1) == x * Power(x, 0);
  }

  /**
   * The exponent that `a` remaining steps started from: 1 before the first, then doubled and,
   * unless skipped, one more.
   */
  function InvExp(a: nat): nat
    requires a <= 254
    decreases 254 - a
  {
    if a == 254 then 1 else 2 * InvExp(a + 1) + if a != 2 && a != 4 then 1 else 0
  }

  function Pow2523Exp(a: nat): nat
    requires a <= 251
    decreases 251 - a
  {
    if a == 251 then 1 else 2 * Pow2523Exp(a + 1) + if a != 1 then 1 else 0
  }

  lemma Pow2Of25()
    ensures Power(2, 25) == 0x200_0000
  {
    assert Power(2, 5) == 32;
    assert Power(2, 10) == 1024;
    assert Power(2, 15) == 32768;
    assert Power(2, 20) == 1048576;
  }

  lemma Pow2Of100()
    ensures Power(2, 100) == 0x10_0000_0000_0000_0000_0000_0000
  {
    Pow2Of25();
    hide Power;
    PowerAdd(2, 25, 25);
    PowerAdd(2, 50, 50);
  }

  lemma Pow2Of250()
    ensures 32 * Power(2, 250) == P + 19
  {
    Pow2Of25();
    Pow2Of100();
    hide Power;
    PowerAdd(2, 25, 25);
    PowerAdd(2, 100, 100);
    PowerAdd(2, 200, 50);
  }

  lemma {:induction false} InvExpOnes(a: nat)
    requires 5 <= a <= 254
    ensures InvExp(a) == Power(2, 255 - a) - 1
    decreases 254 - a
  {
    if a < 254 { InvExpOnes(a + 1); }
  }

  /** The skipped bits make the exponent P - 2. */
  lemma InvExpIs()
    ensures InvExp(0) == P - 2
  {
    InvExpOnes(5);
    Pow2Of250();
    assert InvExp(4) == 2 * InvExp(5);
    assert InvExp(3) == 2 * InvExp(4) + 1;
    assert InvExp(2) == 2 * InvExp(3);
    assert InvExp(1) == 2 * InvExp(2) + 1;
  }

  lemma {:induction false} Pow2523ExpOnes(a: nat)
    requires 2 <= a <= 251
    ensures Pow2523Exp(a) == Power(2, 252 - a) - 1
    decreases 251 - a
  {
    if a < 251 { Pow2523ExpOnes(a + 1); }
  }

  lemma Pow2523ExpIs()
    ensures Pow2523Exp(0) == (P - 5) / 8
  {
    Pow2523ExpOnes(2);
    Pow2Of250();
    assert Pow2523Exp(1) == 2 * Pow2523Exp(2);
  }

  method Copy(a: array<i64>) returns (c: array<i64>)
    requires a.Length == 16
    ensures fresh(c) && c[..] == a[..]
  {
    c := new i64[16](k requires 0 <= k < 16 reads a => a[k]);
  }

  /** inv25519; the input may be the output. */
  method Inv25519(o: array<i64>, i: array<i64>)
    requires o.Length == 16 && i.Length == 16 && Within(i[..], LIMB - 1)
    modifies o
    ensures Within(o[..], LIMB - 1) && Cong(Value(o[..]), Power(old(Value(i[..])), P - 2), P)
  {
    hide Value, Cong, Within, Power, InvExp;
    ghost var x, is0 := Value(i[..]), i[..];
    var c := Copy(i);
    PowerTimes(x, 0);
    CongRefl(x, P);
    InvExpStart();
    for a := 254 downto 0
      invariant i[..] == is0 && Within(c[..], LIMB - 1) && Cong(Value(c[..]), Power(x, InvExp(a)), P)
    {
      InvExpStep(a);
      PowerStep(c, i, a != 2 && a != 4, InvExp(a + 1));
    }
    InvExpIs();
    ghost var cs := c[..];
    forall k | 0 <= k < 16 { o[k] := c[k]; }
    assert o[..] == cs;
  }

  lemma InvExpStart()
    ensures InvExp(254) == 1 && Pow2523Exp(251) == 1
  {
  }

  lemma InvExpStep(a: nat)
    requires a < 254
    ensures InvExp(a) == 2 * InvExp(a + 1) + if a != 2 && a != 4 then 1 else 0
  {
  }

  /** pow2523; the input may be the output. */
  method Pow2523(o: array<i64>, i: array<i64>)
    requires o.Length == 16 && i.Length == 16 && Within(i[..], LIMB - 1)
    modifies o
    ensures Within(o[..], LIMB - 1) && Cong(Value(o[..]), Power(old(Value(i[..])), (P - 5) / 8), P)
  {
    hide Value, Cong, Within, Power, Pow2523Exp;
    ghost var x, is0 := Value(i[..]), i[..];
    var c := Copy(i);
    PowerTimes(x, 0);
    CongRefl(x, P);
    InvExpStart();
    for a := 251 downto 0
      invariant i[..] == is0 && Within(c[..], LIMB - 1) && Cong(Value(c[..]), Power(x, Pow2523Exp(a)), P)
    {
      Pow2523ExpStep(a);
      PowerStep(c, i, a != 1, Pow2523Exp(a + 1));
    }
    Pow2523ExpIs();
    ghost var cs := c[..];
    forall k | 0 <= k < 16 { o[k] := c[k]; }
    assert o[..] == cs;
  }

  lemma Pow2523ExpStep(a: nat)
    requires a < 251
    ensures Pow2523Exp(a) == 2 * Pow2523Exp(a + 1) + if a != 1 then 1 else 0
  {
  }

  // ---------- the masked swap ----------

  const TWO64: nat := 0x1_0000_0000_0000_0000

  /** The 64 bits of a signed limb, and the signed limb of 64 bits. */
  function ToBits(x: i64): (u: nat)
    ensures u < TWO64
  {
    x % TWO64
  }

  function OfBits(u: nat): i64
    requires u < TWO64
  {
    if u < 0x8000_0000_0000_0000 then u else u - TWO64
  }

  function Xor64(x: i64, y: i64): i64 {
    Pow2Words(); XorNatBound(ToBits(x), ToBits(y), 64); OfBits(XorNat(ToBits(x), ToBits(y)))
  }

  function And64(x: i64, y: i64): i64 {
    AndNatBelow(ToBits(x), ToBits(y)); OfBits(AndNat(ToBits(x), ToBits(y)))
  }

  lemma {:induction false} AndNatBelow(a: nat, b: nat)
    ensures AndNat(a, b) <= b
  {
    if a > 0 { AndNatBelow(a / 2, b / 2); }
  }

  lemma BitsRoundTrip(x: i64, u: nat)
    requires u < TWO64
    ensures OfBits(ToBits(x)) == x && ToBits(OfBits(u)) == u
  {
  }

  /** Exclusive or with the difference of two numbers turns one into the other. */
  lemma XorNatSwaps(u: nat, v: nat)
    ensures XorNat(u, XorNat(u, v)) == v && XorNat(v, XorNat(u, v)) == u
  {
    hide XorNat;
    XorNatCommutes(u, v);
    XorNatCommutes(u, XorNat(v, u));
    XorNatCommutes(v, XorNat(u, v));
    XorNatCancels(v, u);
    XorNatCancels(u, v);
  }

  /** The body of the loop of sel25519, with the mask `c` made of `b`. */
  function SelDiff(b: int, p: i64, q: i64): i64
    requires b == 0 || b == 1
  {
    And64(-b, Xor64(p, q))
  }

  lemma SelSwaps(b: int, p: i64, q: i64)
    requires b == 0 || b == 1
    ensures Xor64(p, SelDiff(b, p, q)) == if b == 1 then q else p
    ensures Xor64(q, SelDiff(b, p, q)) == if b == 1 then p else q
  {
    hide XorNat, AndNat;
    var u, v := ToBits(p), ToBits(q);
    var d := XorNat(u, v);
    Pow2Words();
    XorNatBound(u, v, 64);
    BitsRoundTrip(p, d);
    BitsRoundTrip(q, 0);
    if b == 1 {
      AndNatOnes(64, d);
      assert ToBits(-1) == Power(2, 64) - 1;
      XorNatSwaps(u, v);
    } else {
      AndNatZeros(d);
      XorNatRightZero(u);
      XorNatRightZero(v);
    }
  }

  lemma AndNatZeros(d: nat)
    ensures AndNat(0, d) == 0
  {
  }

  /** sel25519: swap when `b` is 1, leave alone when it is 0. */
  method Sel25519(p: array<i64>, q: array<i64>, b: int)
    requires p.Length == 16 && q.Length == 16 && p != q && (b == 0 || b == 1)
    modifies p, q
    ensures b == 1 ==> p[..] == old(q[..]) && q[..] == old(p[..])
    ensures b == 0 ==> p[..] == old(p[..]) && q[..] == old(q[..])
  {
    hide Xor64, SelDiff;
    for i := 0 to 16
      invariant forall k :: 0 <= k < i ==> p[k] == old(if b == 1 then q[k] else p[k])
      invariant forall k :: 0 <= k < i ==> q[k] == old(if b == 1 then p[k] else q[k])
      invariant forall k :: i <= k < 16 ==> p[k] == old(p[k]) && q[k] == old(q[k])
    {
      SelSwaps(b, p[i], q[i]);
      var t := SelDiff(b, p[i], q[i]);
      p[i] := Xor64(p[i], t);
      q[i] := Xor64(q[i], t);
    }
  }

  // ---------- packing ----------

  /** P in limbs. */
  function PLimb(i: nat): int {
    if i == 0 then 0xffed else if i == 15 then 0x7fff else 0xffff
  }

  function MinusP(t: seq<int>): (s: seq<int>)
    requires |t| == 16
    ensures |s| == 16
  {
    seq(16, i requires 0 <= i < 16 => t[i] - PLimb(i))
  }

  lemma MinusPValue(t: seq<int>)
    requires |t| == 16
    ensures Value(MinusP(t)) == Value(t) - P
  {
    var p := seq(16, i requires 0 <= i < 16 => PLimb(i));
    assert MinusP(t) == AddScaled(t, -1, p);
    ValAddScaled(t, -1, p, B);
    PValue(p);
  }

  lemma PValue(p: seq<int>)
    requires |p| == 16 && forall i :: 0 <= i < 16 ==> p[i] == PLimb(i)
    ensures Value(p) == P
  {
    var ones := seq(16, _ => 0xffff);
    OnesValue(16);
    Power16();
    PowerAdd(B, 15, 1);
    assert p == ones[0 := 0xffed][15 := 0x7fff];
    ValUpdate(ones, 0, 0xffed, B);
    ValUpdate(ones[0 := 0xffed], 15, 0x7fff, B);
    assert Power(B, 1) == 65536;
  }

  lemma {:induction false} OnesValue(n: nat)
    ensures Value(seq(n, _ => 0xffff)) == Power(B, n) - 1
  {
    if n > 0 {
      OnesValue(n - 1);
      assert seq(n, _ => 0xffff)[1..] == seq(n - 1, _ => 0xffff);
    }
  }

  /** Borrows out of strict limbs minus P are at most one. */
  lemma {:induction false} BorrowBound(t: seq<int>, i: int)
    requires Strict(t) && -1 <= i < 16
    ensures -1 <= Carry(MinusP(t), i) <= 0
    decreases i + 1
  {
    if i >= 0 { BorrowBound(t, i - 1); }
  }

  /** The difference is the reduced limbs, less 2^256 when the last borrow shows. */
  lemma BorrowDecides(t: seq<int>)
    requires Strict(t)
    ensures var s := MinusP(t);
      && Strict(Reduced(s, 16))
      && (Carry(s, 15) == 0 <==> Value(t) >= P)
      && (Carry(s, 15) == 0 ==> Value(Reduced(s, 16)) == Value(t) - P)
  {
    hide Value, Carry;
    var s := MinusP(t);
    BorrowBound(t, 15);
    CarryKeeps(s, 16);
    assert s[..16] == s;
    MinusPValue(t);
    Power16();
    StrictBound(Reduced(s, 16));
    StrictBound(t);
    Decide(Value(Reduced(s, 16)), Carry(s, 15), Value(t));
  }

  lemma Decide(r: int, c: int, v: int)
    requires 0 <= r < TWO256 && 0 <= v < TWO256 && -1 <= c <= 0 && r + c * TWO256 == v - P
    ensures (c == 0 <==> v >= P) && (c == 0 ==> r == v - P)
  {
  }

  lemma StrictBound(t: seq<int>)
    requires Strict(t)
    ensures 0 <= Value(t) < TWO256
  {
    ValBound(t, B);
    Power16();
  }

  /** `(x >> 16) & 1`: the borrow that a limb in [-2^16, 2^16) shows. */
  lemma ShownBorrow(x: int)
    requires -65536 <= x < 65536
    ensures x / 65536 % 2 == if x < 0 then 1 else 0
    ensures -(x / 65536) == x / 65536 % 2
  {
  }

  /** The limbs of `m` when limb `i` has been written and those below it masked. */
  ghost predicate BorrowState(m: seq<int>, s: seq<int>, i: nat)
    requires |m| == 16 && |s| == 16 && i < 16
  {
    && (forall k :: 0 <= k < i ==> m[k] == (s[k] + Carry(s, k - 1)) % 65536)
    && m[i] == s[i] + Carry(s, i - 1)
  }

  lemma BorrowStateStep(m: seq<int>, m': seq<int>, t: seq<int>, i: nat)
    requires |m| == 16 && Strict(t) && i < 15 && BorrowState(m, MinusP(t), i)
    requires m' == m[i + 1 := t[i + 1] - PLimb(i + 1) - m[i] / 65536 % 2][i := m[i] % 65536]
    ensures BorrowState(m', MinusP(t), i + 1)
  {
    hide Carry;
    Borrow(t, i);
  }

  lemma BorrowStateEnd(m: seq<int>, t: seq<int>)
    requires |m| == 16 && Strict(t) && BorrowState(m, MinusP(t), 15)
    ensures -65536 <= m[15] < 65536 && m[15] / 65536 % 2 == -Carry(MinusP(t), 15)
    ensures m[15] / 65536 % 2 == 0 ==> m == Reduced(MinusP(t), 16)
  {
    hide Carry;
    Borrow(t, 15);
    if m[15] / 65536 % 2 == 0 {
      SmallReduced(m[15]);
    }
  }

  lemma SmallReduced(x: int)
    requires -65536 <= x < 65536 && x / 65536 % 2 == 0
    ensures x % 65536 == x
  {
  }

  /** The limb that the chain reaches is in range. */
  lemma BorrowStateRange(m: seq<int>, t: seq<int>, i: nat)
    requires |m| == 16 && Strict(t) && i < 16 && BorrowState(m, MinusP(t), i)
    ensures -65536 <= m[i] < 65536 && 0 <= m[i] / 65536 % 2 <= 1 && (i < 15 ==> 0 <= t[i + 1] < 65536)
  {
    hide Carry;
    Borrow(t, i);
  }

  /** The borrow chain of pack25519: `m` is `t` minus P, its last limb left unmasked; returns the last borrow. */
  method SubtractP(m: array<i64>, t: array<i64>) returns (b: int)
    requires m.Length == 16 && t.Length == 16 && m != t && Strict(t[..])
    modifies m
    ensures b == -Carry(MinusP(t[..]), 15) && 0 <= b <= 1
    ensures b == 0 ==> m[..] == Reduced(MinusP(t[..]), 16)
  {
    hide Carry, Strict, BorrowState, MinusP, Reduced;
    ghost var ts := t[..];
    LimbRange(ts);
    m[0] := t[0] - 0xffed;
    BorrowStateStart(m[..], ts);
    for i := 1 to 16
      invariant t[..] == ts
      invariant BorrowState(m[..], MinusP(ts), i - 1)
    {
      ghost var before := m[..];
      BorrowStateRange(before, ts, i - 1);
      m[i] := t[i] - PLimb(i) - m[i - 1] / 0x10000 % 2;
      m[i - 1] := m[i - 1] % 0x10000;
      assert m[..] == before[i := ts[i] - PLimb(i) - before[i - 1] / 65536 % 2][i - 1 := before[i - 1] % 65536];
      BorrowStateStep(before, m[..], ts, i - 1);
    }
    BorrowStateEnd(m[..], ts);
    BorrowStateRange(m[..], ts, 15);
    b := m[15] / 0x10000 % 2;
  }

  lemma BorrowStateStart(m: seq<int>, t: seq<int>)
    requires |m| == 16 && |t| == 16 && m[0] == t[0] - 0xffed
    ensures BorrowState(m, MinusP(t), 0)
  {
  }

  lemma LimbRange(t: seq<int>)
    requires Strict(t)
    ensures forall i :: 0 <= i < 16 ==> 0 <= t[i] < 65536
  {
  }

  /** At limb `i` the shown borrow is the carry, negated. */
  lemma Borrow(t: seq<int>, i: nat)
    requires Strict(t) && i < 16
    ensures var s := MinusP(t); var x := s[i] + Carry(s, i - 1);
      -65536 <= x < 65536 && Carry(s, i) == -(x / 65536 % 2) && 0 <= x / 65536 % 2 <= 1
  {
    var s := MinusP(t);
    BorrowBound(t, i - 1);
    CarryAt(s, i);
    ShownBorrow(s[i] + Carry(s, i - 1));
  }

  /** One of the two rounds: subtract P if that leaves something. */
  method SubtractRound(t: array<i64>, m: array<i64>)
    requires m.Length == 16 && t.Length == 16 && m != t && Strict(t[..])
    modifies m, t
    ensures Strict(t[..])
    ensures var v := old(Value(t[..])); Value(t[..]) == if v >= P then v - P else v
  {
    hide Value, Carry, Strict, MinusP, Reduced;
    ghost var ts := t[..];
    BorrowDecides(ts);
    var b := SubtractP(m, t);
    Sel25519(t, m, 1 - b);
  }

  /** Two bytes of each limb. */
  function LimbBytes(t: seq<int>): (b: Bytes)
    requires forall i :: 0 <= i < |t| ==> 0 <= t[i] < 65536
    ensures |b| == 2 * |t|
  {
    if t == [] then [] else [t[0] % 256, t[0] / 256] + LimbBytes(t[1..])
  }

  lemma {:induction false} LimbBytesAre(t: seq<int>)
    requires forall i :: 0 <= i < |t| ==> 0 <= t[i] < 65536
    ensures Value(t) >= 0 && LimbBytes(t) == LeBytes(Value(t), 2 * |t|)
  {
    if t == [] {
      LeBytesNone(Value(t));
    } else {
      ValFirst(t, B);
      hide Val, LeBytes, LimbBytes;
      LimbBytesAre(t[1..]);
      LimbBytesFirst(t);
      LimbBytesStep(t[0], Value(t[1..]), 2 * |t| - 2);
    }
  }

  lemma LeBytesNone(n: int)
    requires n == 0
    ensures LeBytes(n, 0) == []
  {
  }

  lemma LimbBytesFirst(t: seq<int>)
    requires t != [] && forall i :: 0 <= i < |t| ==> 0 <= t[i] < 65536
    ensures LimbBytes(t) == [t[0] % 256, t[0] / 256] + LimbBytes(t[1..])
  {
  }

  /** Two bytes of a limb, and those of the limbs behind it. */
  lemma LimbBytesStep(x: int, v: int, n: nat)
    requires 0 <= x < 65536 && v >= 0
    ensures LeBytes(x + 65536 * v, n + 2) == [x % 256, x / 256] + LeBytes(v, n)
  {
    LeBytesNext(x + 65536 * v, n + 1);
    LeBytesNext(x / 256 + 256 * v, n);
    hide LeBytes;
    LowByte(x, v);
    assert [x % 256] + ([x / 256] + LeBytes(v, n)) == [x % 256, x / 256] + LeBytes(v, n);
  }

  lemma LeBytesNext(n: nat, len: nat)
    ensures LeBytes(n, len + 1) == [n % 256] + LeBytes(n / 256, len)
  {
  }

  lemma LowByte(x: int, v: int)
    requires 0 <= x < 65536 && v >= 0
    ensures (x + 65536 * v) % 256 == x % 256 && (x + 65536 * v) / 256 == x / 256 + 256 * v
    ensures (x / 256 + 256 * v) % 256 == x / 256 && (x / 256 + 256 * v) / 256 == v
  {
  }

  lemma {:induction false} LimbBytesAt(t: seq<int>, i: nat)
    requires i < |t| && forall i :: 0 <= i < |t| ==> 0 <= t[i] < 65536
    ensures LimbBytes(t)[2 * i] == t[i] % 256 && LimbBytes(t)[2 * i + 1] == t[i] / 256
  {
    if i > 0 { LimbBytesAt(t[1..], i - 1); }
  }

  /** The two rounds take a value below 2^256 to its residue. */
  lemma TwoRounds(v: int, v1: int, v2: int, n: int)
    requires 0 <= v < TWO256 && Cong(v, n, P)
    requires v1 == (if v >= P then v - P else v) && v2 == if v1 >= P then v1 - P else v1
    ensures v2 == n % P
  {
    assert 0 <= v2 < P;
  }

  method CarryThrice(t: array<i64>)
    requires t.Length == 16 && Within(t[..], WIDE)
    modifies t
    ensures Strict(t[..]) && Cong(Value(t[..]), old(Value(t[..])), P)
  {
    hide Carried, Value, Cong, Within, Loose, Tight, Strict;
    ghost var t0 := t[..];
    CarryTwice(t);
    ghost var t1 := t[..];
    TightWithin(t1);
    Car25519(t);
    CarriedCong(t1);
    CarriedStrict(t1);
    CongTrans(Value(t[..]), Value(t1), Value(t0), P);
  }

  /** The bytes that pack25519 writes for limbs `n`. */
  function Packed(n: seq<int>): (b: Bytes)
    ensures |b| == 32
  {
    LeBytes(Value(n) % P, 32)
  }

  /** pack25519 */
  method Pack25519(n: array<i64>) returns (o: array<byte>)
    requires n.Length == 16 && Within(n[..], WIDE)
    ensures fresh(o) && o[..] == Packed(n[..])
  {
    hide Value, Cong, Within, Strict, LeBytes, LimbBytes;
    var t := Copy(n);
    ghost var n0 := n[..];
    CarryThrice(t);
    ghost var v := Value(t[..]);
    StrictBound(t[..]);
    var m := new i64[16](_ => 0);
    assert t[..] == t[..];
    SubtractRound(t, m);
    ghost var v1 := Value(t[..]);
    SubtractRound(t, m);
    TwoRounds(v, v1, Value(t[..]), Value(n0));
    ghost var ts := t[..];
    LimbRange(ts);
    LimbBytesAre(ts);
    o := new byte[32](_ => 0);
    for i := 0 to 16
      invariant t[..] == ts
      invariant forall k :: 0 <= k < 2 * i ==> o[k] == LimbBytes(ts)[k]
    {
      LimbBytesAt(ts, i);
      o[2 * i] := t[i] % 256;
      o[2 * i + 1] := t[i] / 256;
    }
    assert o[..] == LimbBytes(ts);
  }

  lemma {:induction false} LeBytesInjective(a: nat, b: nat, len: nat)
    requires a < Power(256, len) && b < Power(256, len) && LeBytes(a, len) == LeBytes(b, len)
    ensures a == b
  {
    if len > 0 {
      assert LeBytes(a, len)[0] == LeBytes(b, len)[0];
      assert LeBytes(a, len)[1..] == LeBytes(a / 256, len - 1) && LeBytes(b, len)[1..] == LeBytes(b / 256, len - 1);
      LeBytesInjective(a / 256, b / 256, len - 1);
    }
  }

  /** Packed forms agree exactly when the values are congruent. */
  lemma PackedDecides(a: seq<int>, b: seq<int>)
    ensures Packed(a) == Packed(b) <==> Cong(Value(a), Value(b), P)
  {
    hide LeBytes, Value;
    BelowPower32();
    if Packed(a) == Packed(b) {
      LeBytesInjective(Value(a) % P, Value(b) % P, 32);
    }
  }

  lemma BelowPower32()
    ensures P < Power(256, 32)
  {
    assert Power(256, 2) == 65536;
    assert Power(256, 4) == 0x1_0000_0000;
    PowerAdd(256, 4, 4);
    PowerAdd(256, 8, 8);
    PowerAdd(256, 16, 16);
  }

  /** neq25519: 0 for limbs of the same element, -1 otherwise. */
  method Neq25519(a: array<i64>, b: array<i64>) returns (r: int)
    requires a.Length == 16 && b.Length == 16 && Within(a[..], WIDE) && Within(b[..], WIDE)
    ensures r == if Cong(Value(a[..]), Value(b[..]), P) then 0 else -1
  {
    hide Value, Packed;
    var c := Pack25519(a);
    var d := Pack25519(b);
    PackedDecides(a[..], b[..]);
    assert c[..32] == c[..] && d[..32] == d[..];
    r := Box.Vn(c[..], d[..], 32);
  }
}
