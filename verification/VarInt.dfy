/** varint.c: base-128 integers, least significant group first. */
module VarInt {
  import opened Bytes
  import opened Buffers
  import opened ModArith

  const U64 := 0x1_0000_0000_0000_0000

  /** The encoding that packvarint writes. */
  function Pack(v: nat): (s: Bytes)
    ensures |s| >= 1
  {
    if v < 128 then [v] else [v % 128 + 128] + Pack(v / 128)
  }

  /** The number that the 7-bit groups of `s` spell. */
  function Groups(s: Bytes): nat {
    if s == [] then 0 else s[0] % 128 + 128 * Groups(s[1..])
  }

  /** The length of the first complete group sequence at the front of `s`, or 0 when there is none. */
  function Span(s: Bytes): (n: nat)
    ensures n <= |s|
    ensures n > 0 ==> s[n - 1] < 128
  {
    if s == [] then 0
    else if s[0] < 128 then 1
    else if Span(s[1..]) == 0 then 0
    else Span(s[1..]) + 1
  }

  /** What unpackvarint accepts: at most ten groups, kept modulo 2^64. */
  function Unpack(s: Bytes): Option<(nat, nat)> {
    if 1 <= Span(s) <= 10 then Some((Groups(s[..Span(s)]) % U64, Span(s))) else None
  }

  /** Seven bits to a byte, lowest first; the high bit says that more follow. */
  lemma PackText(v: nat)
    ensures v < 128 ==> Pack(v) == [v]
    ensures 128 <= v < 16384 ==> Pack(v) == [128 + v % 128, v / 128]
  {
  }

  // ---------- properties of the encoding ----------

  lemma {:induction false} PackSpan(v: nat, t: Bytes)
    ensures Span(Pack(v) + t) == |Pack(v)|
    ensures Groups(Pack(v)) == v
  {
    if v >= 128 {
      PackSpan(v / 128, t);
      assert (Pack(v) + t)[1..] == Pack(v / 128) + t;
      assert Pack(v)[1..] == Pack(v / 128);
    }
  }

  lemma {:induction false} PackShort(v: nat, n: nat)
    requires n >= 1 && v < Power(128, n)
    ensures |Pack(v)| <= n
  {
    if v >= 128 {
      PackShort(v / 128, n - 1);
    }
  }

  lemma {:induction false} GroupsBound(s: Bytes)
    ensures Groups(s) < Power(128, |s|)
  {
    if s != [] {
      GroupsBound(s[1..]);
    }
  }

  lemma TenGroups()
    ensures U64 <= Power(128, 10) && Power(128, 9) < U64 && Power(128, 8) * 128 == Power(128, 9)
  {
    assert Power(128, 2) == 16384;
    assert Power(128, 4) == 268435456;
    assert Power(128, 6) == 268435456 * 16384;
    assert Power(128, 8) == 268435456 * 268435456;
  }

  /** unpackvarint undoes packvarint on every 64-bit value, whatever follows. */
  lemma PackUnpack(v: nat, t: Bytes)
    requires v < U64
    ensures Unpack(Pack(v) + t) == Some((v, |Pack(v)|))
  {
    hide Pack, Span, Groups, Power;
    TenGroups();
    PackShort(v, 10);
    PackSpan(v, t);
    assert (Pack(v) + t)[..|Pack(v)|] == Pack(v);
  }

  /** packvarint writes the shortest encoding that unpackvarint accepts for its value. */
  lemma PackShortest(s: Bytes)
    requires Unpack(s).Some?
    ensures |Pack(Unpack(s).value.0)| <= Unpack(s).value.1
  {
    var n := Span(s);
    GroupsBound(s[..n]);
    PackShort(Unpack(s).value.0, n);
  }

  // ---------- the code ----------

  lemma PackFirst(done: Bytes, v: nat)
    requires v >= 128
    ensures done + Pack(v) == done + [v % 128 + 128] + Pack(v / 128) && |Pack(v)| == 1 + |Pack(v / 128)|
  {
  }

  lemma PackLast(v: nat)
    requires v < 128
    ensures Pack(v) == [v]
  {
  }

  method PackVarint(v0: nat, data: array<byte>, ptr0: nat) returns (ptr: nat)
    requires v0 < U64 && ptr0 + |Pack(v0)| <= data.Length
    modifies data
    ensures ptr == ptr0 + |Pack(v0)|
    ensures Wrote(old(data[..]), data[..], ptr0, Pack(v0))
  {
    hide Wrote, Pack;
    var v: nat := v0;
    ptr := ptr0;
    ghost var done: Bytes := [];
    WroteNothing(data[..], ptr0);
    assert [] + Pack(v0) == Pack(v0);
    while v >= 128
      invariant v < U64 && ptr == ptr0 + |done|
      invariant done + Pack(v) == Pack(v0)
      invariant Wrote(old(data[..]), data[..], ptr0, done)
    {
      var b: byte := v % 128 + 128;
      ghost var before := data[..];
      PackFirst(done, v);
      PutByte(b, data, ptr);
      WroteMore(old(data[..]), before, data[..], ptr0, done, [b]);
      ptr := ptr + 1;
      done := done + [b];
      v := v / 128;
    }
    PackLast(v);
    ghost var before := data[..];
    PutByte(v, data, ptr);
    WroteMore(old(data[..]), before, data[..], ptr0, done, [v]);
    ptr := ptr + 1;
  }

  method VarintLength(v0: nat) returns (len: nat)
    requires v0 < U64
    ensures len == |Pack(v0)|
  {
    var v: nat := v0;
    len := 1;
    while v >= 128
      invariant len - 1 + |Pack(v)| == |Pack(v0)|
    {
      v := v / 128;
      len := len + 1;
    }
  }

  lemma {:induction false} GroupsSnoc(s: Bytes, b: byte)
    ensures Groups(s + [b]) == Groups(s) + b % 128 * Power(128, |s|)
  {
    if s == [] {
      assert Groups([b][1..]) == 0;
    } else {
      GroupsSnoc(s[1..], b);
      assert (s + [b])[1..] == s[1..] + [b];
      Scale(b % 128, Power(128, |s| - 1));
    }
  }

  lemma Scale(c: nat, p: nat)
    ensures c * (128 * p) == 128 * (c * p)
  {
  }

  lemma {:induction false} Pow2Of7(k: nat)
    ensures Power(2, 7 * k) == Power(128, k)
  {
    if k > 0 {
      Pow2Of7(k - 1);
      var n := 7 * (k - 1);
      assert Power(2, n + 2) == 4 * Power(2, n);
      assert Power(2, n + 4) == 4 * Power(2, n + 2);
      assert Power(2, n + 6) == 4 * Power(2, n + 4);
      assert 7 * k == n + 7;
    }
  }

  /** Groups that all announce a successor complete nothing. */
  lemma {:induction false} SpanOfOpen(s: Bytes, k: nat)
    requires k <= |s| && forall i :: 0 <= i < k ==> s[i] >= 128
    ensures Span(s) == if Span(s[k..]) == 0 then 0 else k + Span(s[k..])
  {
    if k == 0 {
      assert s[0..] == s;
    } else {
      SpanOfOpen(s[1..], k - 1);
      assert s[1..][k - 1..] == s[k..];
    }
  }

  /** `result |= group << shift` in 64 bits, for the k-th group. */
  function OrGroup(result: nat, group: nat, shift: nat): nat {
    OrNat(result, group * Power(2, shift) % U64)
  }

  /** A group below the tenth fits whole; of the tenth only one bit does. */
  lemma OrGroupFits(low: nat, g: nat, k: nat)
    requires k <= 9 && low < Power(128, k) && g < 128
    ensures OrGroup(low, g, 7 * k) == (low + g * Power(128, k)) % U64
  {
    hide OrNat, Power, Power;
    Pow2Of7(k);
    if k < 9 {
      Pow128Monotone(k, 8);
      FitsWhole(low, g, Power(128, k));
      OrAbove(low, g, 7 * k);
    } else {
      TopGroup(g, low);
      OrAbove(low, g % 2, 63);
    }
  }

  lemma FitsWhole(low: nat, g: nat, p: nat)
    requires low < p <= Power(128, 8) && g < 128
    ensures g * p % U64 == g * p && (low + g * p) % U64 == low + g * p
  {
    hide Power;
    TenGroups();
    assert g * p <= 127 * p;
  }

  lemma NineGroups(k: nat)
    requires k <= 9
    ensures Power(128, k) < U64
  {
    hide Power;
    TenGroups();
    Pow128Monotone(k, 9);
  }

  lemma OrGroupAdds(s: Bytes, b: byte)
    requires |s| <= 9
    ensures Groups(s) < U64
    ensures OrGroup(Groups(s), b % 128, 7 * |s|) == Groups(s + [b]) % U64
  {
    hide OrGroup, Groups, Power;
    GroupsSnoc(s, b);
    GroupsBound(s);
    NineGroups(|s|);
    OrGroupFits(Groups(s), b % 128, |s|);
  }

  lemma {:induction false} Pow128Monotone(m: nat, n: nat)
    requires m <= n
    ensures Power(128, m) <= Power(128, n)
  {
    if m < n { Pow128Monotone(m, n - 1); }
  }

  /** Only the lowest bit of a tenth group fits in 64 bits. */
  lemma TopGroup(g: nat, low: nat)
    requires low < Power(128, 9)
    ensures Power(128, 9) == Power(2, 63) && g * Power(2, 63) % U64 == g % 2 * Power(2, 63)
    ensures (low + g * Power(2, 63)) % U64 == low + g % 2 * Power(2, 63)
  {
    Pow2Of7(9);
    TenGroups();
    assert Power(128, 9) == 0x8000_0000_0000_0000 by {
      assert Power(128, 2) == 16384;
      assert Power(128, 4) == 268435456;
      assert Power(128, 8) == 268435456 * 268435456;
    }
  }

  lemma NoGroups(s: Bytes)
    ensures Groups(s[..0]) == 0
  {
  }

  lemma SpanOfFirst(s: Bytes)
    ensures s == [] ==> Span(s) == 0
    ensures s != [] && s[0] < 128 ==> Span(s) == 1
  {
  }

  method UnpackVarint(s: Bytes) returns (r: Option<(nat, nat)>)
    ensures r == Unpack(s)
  {
    hide OrGroup, Groups, Span;
    var result: nat, shift, ptr := 0, 0, 0;
    NoGroups(s);
    while shift <= 63 && ptr < |s|
      invariant 0 <= ptr <= |s| && ptr <= 10 && shift == 7 * ptr
      invariant forall i :: 0 <= i < ptr ==> s[i] >= 128
      invariant result == Groups(s[..ptr]) % U64
    {
      var b := s[ptr];
      assert s[..ptr + 1] == s[..ptr] + [b];
      OrGroupAdds(s[..ptr], b);
      SpanOfOpen(s, ptr);
      SpanOfFirst(s[ptr..]);
      ptr := ptr + 1;
      result := OrGroup(result, b % 128, shift);
      if b < 128 {
        return Some((result, ptr));
      }
      shift := shift + 7;
    }
    SpanOfOpen(s, ptr);
    SpanOfFirst(s[ptr..]);
    return None;
  }
}
