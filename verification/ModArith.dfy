/** Congruence, and numbers as sequences of limbs in a base. */
module ModArith {

  ghost predicate Cong(a: int, b: int, m: int)
    requires m > 0
  {
    a % m == b % m
  }

  lemma DivModUnique(x: int, q: int, r: int, m: int)
    requires m > 0 && x == q * m + r && 0 <= r < m
    ensures x / m == q && x % m == r
  {
    var d := q - x / m;
    assert d * m == q * m - x / m * m;
    assert d * m == x % m - r;
    MultipleFar(d, m);
  }

  lemma ModSum(x: int, y: int, m: int)
    requires m > 0
    ensures (x % m + y % m) % m == (x + y) % m
  {
    var r := x % m + y % m;
    var q := x / m + y / m;
    assert q * m == x / m * m + y / m * m;
    if r < m {
      DivModUnique(x + y, q, r, m);
      DivModUnique(r, 0, r, m);
    } else {
      assert (q + 1) * m == q * m + m;
      DivModUnique(x + y, q + 1, r - m, m);
      DivModUnique(r, 1, r - m, m);
    }
  }

  lemma MultipleFar(d: int, m: int)
    requires m > 0
    ensures d > 0 ==> d * m >= m
    ensures d < 0 ==> d * m <= -m
  {
  }

  /** Numbers that differ by a multiple of `m` are congruent. */
  lemma CongOf(a: int, b: int, k: int, m: int)
    requires m > 0 && a == b + k * m
    ensures Cong(a, b, m)
  {
    assert (b / m + k) * m == b / m * m + k * m;
    DivModUnique(a, b / m + k, b % m, m);
  }

  /** Congruent numbers differ by a multiple of `m`. */
  lemma CongWitness(a: int, b: int, m: int) returns (k: int)
    requires m > 0 && Cong(a, b, m)
    ensures a == b + k * m
  {
    k := a / m - b / m;
    assert k * m == a / m * m - b / m * m;
  }

  lemma CongMod(a: int, m: int)
    requires m > 0
    ensures Cong(a % m, a, m)
  {
    CongOf(a % m, a, -(a / m), m);
  }

  lemma CongTrans(a: int, b: int, c: int, m: int)
    requires m > 0 && Cong(a, b, m) && Cong(b, c, m)
    ensures Cong(a, c, m) && Cong(c, a, m)
  {
  }

  lemma CongRefl(a: int, m: int)
    requires m > 0
    ensures Cong(a, a, m)
  {
  }

  lemma CongAdd(a: int, b: int, c: int, d: int, m: int)
    requires m > 0 && Cong(a, b, m) && Cong(c, d, m)
    ensures Cong(a + c, b + d, m)
  {
    var j := CongWitness(a, b, m);
    var k := CongWitness(c, d, m);
    assert (j + k) * m == j * m + k * m;
    CongOf(a + c, b + d, j + k, m);
  }

  lemma CongMul(a: int, b: int, c: int, d: int, m: int)
    requires m > 0 && Cong(a, b, m) && Cong(c, d, m)
    ensures Cong(a * c, b * d, m)
  {
    var j := CongWitness(a, b, m);
    var k := CongWitness(c, d, m);
    MulExpand(b, j, d, k, m);
    CongOf(a * c, b * d, b * k + j * d + j * k * m, m);
  }

  lemma MulExpand(b: int, j: int, d: int, k: int, m: int)
    ensures (b + j * m) * (d + k * m) == b * d + (b * k + j * d + j * k * m) * m
  {
    calc {
      (b + j * m) * (d + k * m);
      b * (d + k * m) + j * m * (d + k * m);
      b * d + b * (k * m) + (j * m * d + j * m * (k * m));
      b * d + b * k * m + j * d * m + j * k * m * m;
      b * d + (b * k + j * d + j * k * m) * m;
    }
  }

  /** A number below the modulus is determined by what it is congruent to. */
  lemma CongSmall(a: int, b: int, m: int)
    requires m > 0 && Cong(a, b, m) && 0 <= a < m
    ensures a == b % m
  {
    DivModUnique(a, 0, a, m);
  }

  // ---------- limbs ----------

  function Power(b: int, n: nat): (p: int)
    ensures b > 0 ==> p > 0
  {
    if n == 0 then 1 else b * Power(b, n - 1)
  }

  /** The number whose limbs in base `b`, lowest first, are `s`; limbs may be of any size and sign. */
  function Val(s: seq<int>, b: nat): int {
    if s == [] then 0 else s[0] + b * Val(s[1..], b)
  }

  lemma {:induction false} ValSnoc(s: seq<int>, x: int, b: nat)
    ensures Val(s + [x], b) == Val(s, b) + x * Power(b, |s|)
  {
    if s == [] {
      assert Val([x], b) == x + b * Val([x][1..], b);
    } else {
      ValSnoc(s[1..], x, b);
      assert (s + [x])[1..] == s[1..] + [x];
      Distribute(b, Val(s[1..], b), x, Power(b, |s| - 1));
    }
  }

  lemma Distribute(b: int, v: int, x: int, p: int)
    ensures b * (v + x * p) == b * v + x * (b * p)
  {
    calc {
      b * (v + x * p);
      b * v + b * (x * p);
      b * v + x * (b * p);
    }
  }

  lemma {:induction false} ValBound(s: seq<int>, b: nat)
    requires b > 0 && forall i :: 0 <= i < |s| ==> 0 <= s[i] < b
    ensures 0 <= Val(s, b) < Power(b, |s|)
  {
    if s != [] {
      ValBound(s[1..], b);
      BelowTimes(Val(s[1..], b), Power(b, |s| - 1), b, s[0]);
    }
  }

  lemma BelowTimes(v: int, p: int, b: int, x: int)
    requires 0 <= v < p && 0 <= x < b
    ensures 0 <= x + b * v < b * p
  {
    assert b * v <= b * (p - 1);
  }

  /** `s` with limb `i` changed. */
  lemma {:induction false} ValUpdate(s: seq<int>, i: nat, x: int, b: nat)
    requires i < |s|
    ensures Val(s[i := x], b) == Val(s, b) + (x - s[i]) * Power(b, i)
  {
    if i == 0 {
      assert s[0 := x][1..] == s[1..];
    } else {
      ValUpdate(s[1..], i - 1, x, b);
      assert s[i := x][1..] == s[1..][i - 1 := x];
      Distribute(b, Val(s[1..], b), x - s[i], Power(b, i - 1));
    }
  }

  /** Limb by limb, `s + k * t`. */
  function AddScaled(s: seq<int>, k: int, t: seq<int>): seq<int>
    requires |s| == |t|
  {
    seq(|s|, i requires 0 <= i < |s| => s[i] + k * t[i])
  }

  lemma {:induction false} ValAddScaled(s: seq<int>, k: int, t: seq<int>, b: nat)
    requires |s| == |t|
    ensures Val(AddScaled(s, k, t), b) == Val(s, b) + k * Val(t, b)
  {
    if s != [] {
      ValAddScaled(s[1..], k, t[1..], b);
      var a := AddScaled(s, k, t);
      assert a[1..] == AddScaled(s[1..], k, t[1..]);
      ValFirst(s, b);
      ValFirst(t, b);
      ValFirst(a, b);
      hide Val;
      ScaledFirst(s[0], Val(s[1..], b), t[0], Val(t[1..], b), k, b);
    }
  }

  lemma ValFirst(s: seq<int>, b: nat)
    requires s != []
    ensures Val(s, b) == s[0] + b * Val(s[1..], b)
  {
  }

  lemma ScaledFirst(x: int, v: int, y: int, w: int, k: int, b: int)
    ensures x + k * y + b * (v + k * w) == x + b * v + k * (y + b * w)
  {
    assert b * (v + k * w) == b * v + b * (k * w);
    assert k * (y + b * w) == k * y + k * (b * w);
    assert b * (k * w) == k * (b * w);
  }

  lemma {:induction false} ValConcat(s: seq<int>, t: seq<int>, b: nat)
    ensures Val(s + t, b) == Val(s, b) + Power(b, |s|) * Val(t, b)
  {
    if s == [] {
      assert s + t == t;
    } else {
      ValConcat(s[1..], t, b);
      assert (s + t)[1..] == s[1..] + t;
      var p, v := Power(b, |s| - 1), Val(t, b);
      Distribute(b, Val(s[1..], b), v, p);
      assert p * v == v * p && b * p * v == v * (b * p);
    }
  }

  lemma {:induction false} PowerAdd(b: int, m: nat, n: nat)
    ensures Power(b, m + n) == Power(b, m) * Power(b, n)
  {
    if m == 0 {
      PowerNone(b);
    } else {
      PowerAdd(b, m - 1, n);
      PowerNext(b, m - 1);
      PowerNext(b, m - 1 + n);
      hide Power;
      Regroup(b, Power(b, m - 1), Power(b, n));
    }
  }

  lemma PowerNone(b: int)
    ensures Power(b, 0) == 1
  {
  }

  lemma PowerNext(b: int, n: nat)
    ensures Power(b, n + 1) == b * Power(b, n)
  {
  }

  lemma Regroup(x: int, y: int, z: int)
    ensures x * (y * z) == x * y * z
  {
  }

  lemma {:induction false} ValZeros(n: nat, b: nat)
    ensures Val(seq(n, _ => 0), b) == 0
  {
    if n > 0 {
      ValZeros(n - 1, b);
      assert seq(n, _ => 0)[1..] == seq(n - 1, _ => 0);
    }
  }

  /** Floored division splits a limb into a digit and what is carried on, and keeps its weight. */
  lemma SplitDigit(t: int, b: nat, p: int)
    requires b > 0
    ensures t % b * p + t / b * (b * p) == t * p
  {
    var q, r := t / b, t % b;
    assert t == r + q * b;
    assert (r + q * b) * p == r * p + q * b * p;
    Regroup(q, b, p);
  }

  /** One more digit behind those already out, and the carry that goes on. */
  lemma CarryOut(done: seq<int>, t: int, b: nat)
    requires b > 0
    ensures Val(done + [t % b], b) + t / b * Power(b, |done| + 1) == Val(done, b) + t * Power(b, |done|)
  {
    hide Val, Power;
    ValSnoc(done, t % b, b);
    PowerNext(b, |done|);
    SplitDigit(t, b, Power(b, |done|));
  }
}
