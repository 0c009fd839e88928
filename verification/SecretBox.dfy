/**
 * crypto_stream_*, crypto_verify_16 and crypto_secretbox(_open) of
 * tweetnacl.c: the keystream, and that opening undoes sealing.
 */
module SecretBox {
  import opened Bytes
  import opened ModArith
  import Salsa20
  import Poly = Poly1305

  const TWO64: nat := 0x1_0000_0000_0000_0000

  /** "expand 32-byte k" */
  const SIGMA: Bytes := [101, 120, 112, 97, 110, 100, 32, 51, 50, 45, 98, 121, 116, 101, 32, 107]

  lemma SigmaText()
    ensures SIGMA == Ascii("expand 32-byte k")
  {
    assert |"expand 32-byte k"| == 16;
  }

  // ---------- the keystream ----------

  /** Block `i` of the stream: the core on the nonce and the block number, 8 bytes each, little-endian. */
  function StreamBlock(n: Bytes, k: Bytes, i: nat): (b: Bytes)
    requires |n| == 8 && |k| == 32
    ensures |b| == 64
  {
    Salsa20.Core(n + LeBytes(i % TWO64, 8), k, SIGMA)
  }

  /** Byte `i` of the stream; how much of the stream is used plays no part. */
  function StreamByte(n: Bytes, k: Bytes, i: nat): byte
    requires |n| == 8 && |k| == 32
  {
    StreamBlock(n, k, i / 64)[i % 64]
  }

  function SalsaXor(m: Bytes, n: Bytes, k: Bytes): (c: Bytes)
    requires |n| == 8 && |k| == 32
    ensures |c| == |m|
  {
    seq(|m|, i requires 0 <= i < |m| => Xor(m[i], StreamByte(n, k, i)))
  }

  /** XSalsa20: a key for the second half of the nonce is derived from the first. */
  function StreamXor(m: Bytes, n: Bytes, k: Bytes): (c: Bytes)
    requires |n| == 24 && |k| == 32
    ensures |c| == |m|
  {
    SalsaXor(m, n[16..], Salsa20.HCore(n[..16], k, SIGMA))
  }

  /** The first 32 bytes of the stream, which key the authenticator. */
  function OneTimeKey(n: Bytes, k: Bytes): (x: Bytes)
    requires |n| == 24 && |k| == 32
    ensures |x| == 32
  {
    StreamXor(Zeros(32), n, k)
  }

  // ---------- secretbox ----------

  /** Sixteen zeros, the tag, the ciphertext; None for a message too short to hold its 32 leading zeros. */
  function Seal(m: Bytes, n: Bytes, k: Bytes): (c: Option<Bytes>)
    requires |n| == 24 && |k| == 32
  {
    if |m| < 32 then None
    else
      var c := StreamXor(m, n, k);
      Some(Zeros(16) + Poly.Tag(c[32..], c[..32]) + c[32..])
  }

  function Open(c: Bytes, n: Bytes, k: Bytes): (m: Option<Bytes>)
    requires |n| == 24 && |k| == 32
  {
    if |c| < 32 then None
    else if c[16..32] != Poly.Tag(c[32..], OneTimeKey(n, k)) then None
    else Some(Zeros(32) + StreamXor(c, n, k)[32..])
  }

  lemma SalsaXorTwice(m: Bytes, n: Bytes, k: Bytes)
    requires |n| == 8 && |k| == 32
    ensures SalsaXor(SalsaXor(m, n, k), n, k) == m
  {
    hide StreamByte;
    forall i | 0 <= i < |m|
      ensures Xor(Xor(m[i], StreamByte(n, k, i)), StreamByte(n, k, i)) == m[i]
    {
      XorNatCancels(m[i], StreamByte(n, k, i));
    }
  }

  /** Messages that agree at a byte have ciphertexts that agree at that byte, whatever their lengths. */
  lemma SalsaXorAt(m: Bytes, m': Bytes, n: Bytes, k: Bytes, i: nat)
    requires |n| == 8 && |k| == 32 && i < |m| && i < |m'| && m[i] == m'[i]
    ensures SalsaXor(m, n, k)[i] == SalsaXor(m', n, k)[i]
  {
    hide StreamByte;
  }

  /** Opening undoes sealing, for every message that starts with 32 zero bytes. */
  lemma OpenSeal(m: Bytes, n: Bytes, k: Bytes)
    requires |n| == 24 && |k| == 32 && |m| >= 32 && m[..32] == Zeros(32)
    ensures Seal(m, n, k).Some? && |Seal(m, n, k).value| == |m|
    ensures Open(Seal(m, n, k).value, n, k) == Some(m)
  {
    hide SalsaXor, Salsa20.HCore, Poly.Tag;
    var n', k' := n[16..], Salsa20.HCore(n[..16], k, SIGMA);
    var x := SalsaXor(m, n', k');
    var c := Seal(m, n, k).value;
    forall i | 0 <= i < 32 ensures x[i] == SalsaXor(Zeros(32), n', k')[i] {
      assert m[..32][i] == 0;
      SalsaXorAt(m, Zeros(32), n', k', i);
    }
    assert x[..32] == OneTimeKey(n, k);
    assert c[16..32] == Poly.Tag(x[32..], x[..32]) && c[32..] == x[32..];
    SalsaXorTwice(m, n', k');
    forall i | 32 <= i < |m| ensures SalsaXor(c, n', k')[i] == m[i] {
      assert c[i] == x[i];
      SalsaXorAt(c, x, n', k', i);
    }
    assert Zeros(32) + SalsaXor(c, n', k')[32..] == m;
  }

  /** Whatever opens has 32 leading zeros and seals back to itself behind its first sixteen bytes. */
  lemma SealOpen(c: Bytes, n: Bytes, k: Bytes)
    requires |n| == 24 && |k| == 32 && Open(c, n, k).Some?
    ensures var m := Open(c, n, k).value;
      && |m| == |c| && m[..32] == Zeros(32)
      && Seal(m, n, k) == Some(Zeros(16) + c[16..])
  {
    hide SalsaXor, Salsa20.HCore, Poly.Tag;
    var n', k' := n[16..], Salsa20.HCore(n[..16], k, SIGMA);
    var m := Open(c, n, k).value;
    var x := SalsaXor(m, n', k');
    forall i | 0 <= i < 32 ensures x[i] == SalsaXor(Zeros(32), n', k')[i] {
      SalsaXorAt(m, Zeros(32), n', k', i);
    }
    assert x[..32] == OneTimeKey(n, k);
    SalsaXorTwice(c, n', k');
    var y := SalsaXor(c, n', k');
    forall i | 32 <= i < |c| ensures x[i] == c[i] {
      SalsaXorAt(m, y, n', k', i);
    }
    assert x[32..] == c[32..];
    assert Zeros(16) + c[16..] == Zeros(16) + c[16..32] + c[32..];
  }

  // ---------- the code ----------

  lemma {:induction false} ValOfLeBytes(n: nat, len: nat)
    requires n < Power(256, len)
    ensures Val(LeBytes(n, len), 256) == n
  {
    if len > 0 {
      ValOfLeBytes(n / 256, len - 1);
    }
  }

  lemma Power8()
    ensures Power(256, 8) == TWO64
  {
    assert Power(256, 2) == 65536;
    assert Power(256, 4) == 0x1_0000_0000;
    PowerAdd(256, 4, 4);
  }

  /** The carry loop that steps the block counter in the second half of the core's input. */
  method Increment(z: array<byte>, ghost i: nat)
    requires z.Length == 16 && z[8..] == LeBytes(i % TWO64, 8)
    modifies z
    ensures z[..8] == old(z[..8]) && z[8..] == LeBytes((i + 1) % TWO64, 8)
  {
    hide LeBytes, Val, Power;
    ghost var z0: seq<int> := z[8..];
    var u: nat := 1;
    Poly.CarryStart(z[8..8], z0[..0], 1);
    for j := 0 to 8
      invariant z[..8] == old(z[..8]) && z[8 + j..] == z0[j..] && u <= 1
      invariant Val(z[8..8 + j], 256) + u * Power(256, j) == Val(z0[..j], 256) + 1
    {
      ghost var done: seq<int> := z[8..8 + j];
      Poly.CarryOn(done, z0, u, j, 1);
      u := u + z[8 + j];
      z[8 + j] := u % 256;
      assert z[8..8 + j + 1] == done + [u % 256];
      u := u / 256;
    }
    assert z[8..16] == z[8..] == z[8..][..8] && z0[..8] == z0;
    Stepped(z0, z[8..], u, i);
  }

  lemma Stepped(z0: Bytes, z: Bytes, u: nat, i: nat)
    requires |z| == 8 && z0 == LeBytes(i % TWO64, 8)
    requires Val(z[..8], 256) + u * Power(256, 8) == Val(z0[..8], 256) + 1
    ensures z == LeBytes((i + 1) % TWO64, 8)
  {
    hide LeBytes, Val;
    Power8();
    assert z[..8] == z && z0[..8] == z0;
    ValOfLeBytes(i % TWO64, 8);
    ValBound(z, 256);
    Poly.LeBytesOfVal(z);
    Wraps(Val(z, 256), u, i);
  }

  lemma Wraps(v: int, u: nat, i: nat)
    requires 0 <= v < TWO64 && v + u * TWO64 == i % TWO64 + 1
    ensures v == (i + 1) % TWO64
  {
  }

  /** What a possibly absent message stands for. */
  function Input(m: array?<byte>, mp: nat, b: nat): (r: Bytes)
    requires m != null ==> mp + b <= m.Length
    reads m
    ensures |r| == b
  {
    if m == null then Zeros(b) else m[mp..mp + b]
  }

  function XorBytes(a: Bytes, b: Bytes): (r: Bytes)
    requires |a| == |b|
    ensures |r| == |a|
  {
    seq(|a|, i requires 0 <= i < |a| => Xor(a[i], b[i]))
  }

  /** `FOR(i,len) c[i] = (m?m[i]:0) ^ x[i]` */
  method XorChunk(c: array<byte>, cp: nat, m: array?<byte>, mp: nat, len: nat, x: Bytes)
    requires len == |x| && cp + len <= c.Length && (m != null ==> mp + len <= m.Length) && (m == c ==> mp == cp)
    modifies c
    ensures c[..cp] == old(c[..cp]) && c[cp + len..] == old(c[cp + len..])
    ensures c[cp..cp + len] == XorBytes(old(Input(m, mp, len)), x)
  {
    for i := 0 to len
      invariant c[..cp] == old(c[..cp]) && c[cp + i..] == old(c[cp + i..])
      invariant m != null && m != c ==> m[..] == old(m[..])
      invariant forall l :: 0 <= l < i ==> c[cp + l] == Xor(old(Input(m, mp, len)[l]), x[l])
    {
      assert m != null ==> m[mp + i] == old(m[mp + i]);
      c[cp + i] := Xor(if m != null then m[mp + i] else 0, x[i]);
    }
  }

  lemma ChunkOfStream(m: Bytes, n: Bytes, k: Bytes, pos: nat, len: nat)
    requires |n| == 8 && |k| == 32 && pos % 64 == 0 && len <= 64 && pos + len <= |m|
    ensures SalsaXor(m, n, k)[pos..pos + len] == XorBytes(m[pos..pos + len], StreamBlock(n, k, pos / 64)[..len])
  {
    hide StreamBlock;
    forall i | 0 <= i < len
      ensures StreamByte(n, k, pos + i) == StreamBlock(n, k, pos / 64)[i]
    {
      assert (pos + i) / 64 == pos / 64 && (pos + i) % 64 == i;
    }
  }

  /** One block of the stream over the next `len` bytes. */
  method XorBlock(c: array<byte>, cp: nat, m: array?<byte>, mp: nat, n: Bytes, k: Bytes, z: array<byte>,
                  pos: nat, len: nat, ghost msg: Bytes)
    requires |n| == 8 && |k| == 32 && pos % 64 == 0 && len <= 64 && pos + len <= |msg|
    requires cp + len <= c.Length && (m != null ==> mp + len <= m.Length) && (m == c ==> mp == cp)
    requires z.Length == 16 && z != c && z[..8] == n && z[8..] == LeBytes(pos / 64 % TWO64, 8)
    requires Input(m, mp, len) == msg[pos..pos + len]
    modifies c
    ensures c[..cp] == old(c[..cp]) && c[cp + len..] == old(c[cp + len..])
    ensures c[cp..cp + len] == SalsaXor(msg, n, k)[pos..pos + len]
  {
    hide SalsaXor, Salsa20.Core, LeBytes, XorBytes;
    assert z[..] == n + LeBytes(pos / 64 % TWO64, 8);
    ghost var input := Input(m, mp, len);
    var x := new byte[64](_ => 0);
    Salsa20.CoreSalsa20(x, z[..], k, SIGMA);
    ChunkOfStream(msg, n, k, pos, len);
    assert Input(m, mp, len) == input;
    XorChunk(c, cp, m, mp, len, x[..len]);
  }

  /** The state of the loop of crypto_stream_salsa20_xor after `pos` bytes. */
  ghost predicate Streamed(c: Bytes, c0: Bytes, cp: nat, pos: nat, s: Bytes) {
    && |c| == |c0| && pos <= |s| && cp + |s| <= |c|
    && c == c0[..cp] + s[..pos] + c0[cp + pos..]
  }

  lemma StreamedMore(c: Bytes, c': Bytes, c0: Bytes, cp: nat, pos: nat, len: nat, s: Bytes)
    requires Streamed(c, c0, cp, pos, s) && pos + len <= |s| && |c'| == |c|
    requires c'[..cp + pos] == c[..cp + pos] && c'[cp + pos + len..] == c[cp + pos + len..]
    requires c'[cp + pos..cp + pos + len] == s[pos..pos + len]
    ensures Streamed(c', c0, cp, pos + len, s)
  {
    StreamedFront(c, c0, cp, pos, s);
    StreamedBehind(c, c0, cp, pos, len, s);
    Reassembled(c', c0[..cp], s[..pos], s[pos..pos + len]);
    assert s[..pos] + s[pos..pos + len] == s[..pos + len];
  }

  lemma StreamedFront(c: Bytes, c0: Bytes, cp: nat, pos: nat, s: Bytes)
    requires Streamed(c, c0, cp, pos, s)
    ensures c[..cp + pos] == c0[..cp] + s[..pos]
  {
  }

  lemma StreamedBehind(c: Bytes, c0: Bytes, cp: nat, pos: nat, len: nat, s: Bytes)
    requires Streamed(c, c0, cp, pos, s) && pos + len <= |s|
    ensures c[cp + pos + len..] == c0[cp + pos + len..]
  {
    StreamedRest(c, c0, cp, pos, s);
    assert c[cp + pos..][len..] == c[cp + pos + len..];
    assert c0[cp + pos..][len..] == c0[cp + pos + len..];
  }

  lemma Reassembled(c: Bytes, a: Bytes, b: Bytes, d: Bytes)
    requires |a| + |b| + |d| <= |c| && c[..|a| + |b|] == a + b && c[|a| + |b|..|a| + |b| + |d|] == d
    ensures c == a + (b + d) + c[|a| + |b| + |d|..]
  {
    var n := |a| + |b|;
    assert c == c[..n] + c[n..n + |d|] + c[n + |d|..];
  }

  lemma StreamedRest(c: Bytes, c0: Bytes, cp: nat, pos: nat, s: Bytes)
    requires Streamed(c, c0, cp, pos, s)
    ensures c[cp + pos..] == c0[cp + pos..]
  {
  }

  lemma SliceOfSlice(s: Bytes, a: nat, n: nat, pos: nat, len: nat)
    requires a + n <= |s| && pos + len <= n
    ensures s[a..a + n][pos..pos + len] == s[a + pos..a + pos + len]
  {
    var t, u := s[a..a + n][pos..pos + len], s[a + pos..a + pos + len];
    forall i | 0 <= i < len ensures t[i] == u[i] {
      assert t[i] == s[a..a + n][pos + i];
    }
  }

  /** In place, what the loop has not reached yet is still the message. */
  lemma InPlaceRest(c: Bytes, c0: Bytes, cp: nat, pos: nat, len: nat, s: Bytes, msg: Bytes)
    requires Streamed(c, c0, cp, pos, s) && |msg| == |s| && pos + len <= |s| && c0[cp..cp + |msg|] == msg
    ensures c[cp + pos..cp + pos + len] == msg[pos..pos + len]
  {
    SliceOfSlice(c0, cp, |msg|, pos, len);
    assert c[cp + pos..][..len] == c0[cp + pos..][..len] == c0[cp + pos..cp + pos + len];
    assert c[cp + pos..][..len] == c[cp + pos..cp + pos + len];
  }

  /** The chunk at `pos` is still to be read as it was. */
  lemma InputOfChunk(c: array<byte>, cp: nat, m: array?<byte>, mp: nat, pos: nat, len: nat, s: Bytes, msg: Bytes,
    c0: Bytes)
    requires cp + |msg| <= c.Length && (m != null ==> mp + |msg| <= m.Length) && (m == c ==> mp == cp)
    requires Streamed(c[..], c0, cp, pos, s) && |s| == |msg| && pos + len <= |msg|
    requires if m == null then msg == Zeros(|msg|)
             else if m == c then c0[cp..cp + |msg|] == msg else m[mp..mp + |msg|] == msg
    ensures Input(m, mp + pos, len) == msg[pos..pos + len]
  {
    hide Streamed;
    if m == c {
      StreamedRest(c[..], c0, cp, pos, s);
      InPlaceRest(c[..], c0, cp, pos, len, s, msg);
      assert m[mp + pos..mp + pos + len] == c[..][cp + pos..cp + pos + len];
    } else if m != null {
      SliceOfSlice(m[..], mp, |msg|, pos, len);
      assert m[..][mp..mp + |msg|] == m[mp..mp + |msg|];
      assert m[..][mp + pos..mp + pos + len] == m[mp + pos..mp + pos + len];
    }
  }

  /** Step through one chunk, in place or between buffers that do not meet. */
  method StreamChunk(c: array<byte>, cp: nat, m: array?<byte>, mp: nat, n: Bytes, k: Bytes, z: array<byte>,
                     pos: nat, len: nat, ghost msg: Bytes, ghost c0: Bytes)
    requires |n| == 8 && |k| == 32 && pos % 64 == 0 && len <= 64 && pos + len <= |msg|
    requires cp + |msg| <= c.Length && (m != null ==> mp + |msg| <= m.Length) && (m == c ==> mp == cp)
    requires z.Length == 16 && z != c && z[..8] == n && z[8..] == LeBytes(pos / 64 % TWO64, 8)
    requires Streamed(c[..], c0, cp, pos, SalsaXor(msg, n, k))
    requires if m == null then msg == Zeros(|msg|)
             else if m == c then c0[cp..cp + |msg|] == msg else m[mp..mp + |msg|] == msg
    modifies c
    ensures Streamed(c[..], c0, cp, pos + len, SalsaXor(msg, n, k))
  {
    hide SalsaXor, Streamed, LeBytes;
    ghost var before := c[..];
    InputOfChunk(c, cp, m, mp, pos, len, SalsaXor(msg, n, k), msg, c0);
    XorBlock(c, cp + pos, m, mp + pos, n, k, z, pos, len, msg);
    StreamedMore(before, c[..], c0, cp, pos, len, SalsaXor(msg, n, k));
  }

  /** The nonce, and a block counter of zero. */
  method FirstCounter(n: Bytes) returns (z: array<byte>)
    requires |n| == 8
    ensures fresh(z) && z.Length == 16 && z[..8] == n && z[8..] == Zeros(8)
  {
    z := new byte[16](_ => 0);
    forall i | 0 <= i < 8 { z[i] := n[i]; }
  }

  /** crypto_stream_salsa20_xor: in place, or between buffers that do not meet. */
  method StreamSalsa20Xor(c: array<byte>, cp: nat, m: array?<byte>, mp: nat, b: nat, n: Bytes, k: Bytes)
    requires |n| == 8 && |k| == 32
    requires cp + b <= c.Length && (m != null ==> mp + b <= m.Length) && (m == c ==> mp == cp)
    modifies c
    ensures c[..] == old(c[..cp]) + SalsaXor(old(Input(m, mp, b)), n, k) + old(c[cp + b..])
  {
    hide SalsaXor, LeBytes, Streamed;
    ghost var msg, c0 := Input(m, mp, b), c[..];
    ghost var s := SalsaXor(msg, n, k);
    StreamedStart(c0, cp, s);
    if b > 0 {
      var z := FirstCounter(n);
      LeBytesZero();
      assert 0 / 64 % TWO64 == 0;
      var left: nat, pos: nat := b, 0;
      while left >= 64
        invariant pos + left == b && pos % 64 == 0
        invariant z[..8] == n && z[8..] == LeBytes(pos / 64 % TWO64, 8)
        invariant Streamed(c[..], c0, cp, pos, s)
        invariant m != null && m != c ==> m[mp..mp + b] == msg
      {
        StreamChunk(c, cp, m, mp, n, k, z, pos, 64, msg, c0);
        Increment(z, pos / 64);
        assert pos / 64 + 1 == (pos + 64) / 64;
        left := left - 64;
        pos := pos + 64;
      }
      if left > 0 {
        StreamChunk(c, cp, m, mp, n, k, z, pos, left, msg, c0);
      }
    }
    StreamedAll(c[..], c0, cp, s);
  }

  lemma StreamedStart(c0: Bytes, cp: nat, s: Bytes)
    requires cp + |s| <= |c0|
    ensures Streamed(c0, c0, cp, 0, s)
  {
  }

  lemma StreamedAll(c: Bytes, c0: Bytes, cp: nat, s: Bytes)
    requires Streamed(c, c0, cp, |s|, s)
    ensures c == c0[..cp] + s + c0[cp + |s|..]
  {
    assert s[..|s|] == s;
  }

  lemma LeBytesZero()
    ensures LeBytes(0, 8) == Zeros(8)
  {
    assert LeBytes(0, 4) == Zeros(4);
    assert LeBytes(0, 6) == [0, 0] + LeBytes(0, 4);
    assert LeBytes(0, 8) == [0, 0] + LeBytes(0, 6);
  }

  /** crypto_stream_xor, and crypto_stream when there is no message */
  method CryptoStreamXor(c: array<byte>, m: array?<byte>, d: nat, n: Bytes, k: Bytes)
    requires |n| == 24 && |k| == 32 && d <= c.Length && (m != null ==> d <= m.Length)
    modifies c
    ensures c[..] == StreamXor(old(Input(m, 0, d)), n, k) + old(c[d..])
  {
    hide SalsaXor, Salsa20.HCore;
    ghost var msg := Input(m, 0, d);
    var s := new byte[32](_ => 0);
    Salsa20.CoreHSalsa20(s, n[..16], k, SIGMA);
    assert Input(m, 0, d) == msg;
    StreamSalsa20Xor(c, 0, m, 0, d, n[16..], s[..]);
  }

  /** vn(x, y, n): 0 when all bytes agree, otherwise -1. */
  method Vn(x: Bytes, y: Bytes, n: nat) returns (r: int)
    requires n <= |x| && n <= |y|
    ensures r == if x[..n] == y[..n] then 0 else -1
  {
    var d: byte := 0;
    for i := 0 to n
      invariant d == 0 <==> x[..i] == y[..i]
    {
      XorNatZero(x[i], y[i]);
      OrNatZero(d, Xor(x[i], y[i]));
      assert x[..i + 1] == x[..i] + [x[i]] && y[..i + 1] == y[..i] + [y[i]];
      d := Or(d, Xor(x[i], y[i]));
    }
    VnWord(d);
    r := (d - 1) % TWO64 / 256 % 2 - 1;
  }

  /** `(1 & ((d - 1) >> 8)) - 1`: the subtraction borrows through bit 8 only from zero. */
  lemma VnWord(d: byte)
    ensures (d - 1) % TWO64 / 256 % 2 - 1 == if d == 0 then 0 else -1
  {
  }

  method OneTimeAuthVerify(h: Bytes, m: array<byte>, mp: nat, n: nat, k: array<byte>) returns (r: int)
    requires |h| == 16 && mp + n <= m.Length && k.Length == 32
    ensures r == if h == Poly.Tag(m[mp..mp + n], k[..]) then 0 else -1
  {
    hide Poly.Tag;
    var x := new byte[16](_ => 0);
    Poly.OneTimeAuth(x, 0, m, mp, n, k, 0);
    assert k[0..32] == k[..] && x[..] == Poly.Tag(m[mp..mp + n], k[..]);
    assert h[..16] == h && x[..][..16] == x[..];
    r := Vn(h, x[..], 16);
  }

  /** crypto_secretbox: the authenticator's key, its output and the message it reads all lie in `c`. */
  method CryptoSecretBox(c: array<byte>, m: array<byte>, d: nat, n: Bytes, k: Bytes) returns (rc: int)
    requires |n| == 24 && |k| == 32 && d <= c.Length && d <= m.Length
    modifies c
    ensures d < 32 ==> rc == -1 && c[..] == old(c[..]) && Seal(old(m[..d]), n, k) == None
    ensures d >= 32 ==> rc == 0 && Seal(old(m[..d]), n, k).Some?
    ensures d >= 32 ==> c[..] == Seal(old(m[..d]), n, k).value + old(c[d..])
  {
    hide StreamXor, Poly.Tag;
    if d < 32 {
      return -1;
    }
    ghost var rest, x := c[d..], StreamXor(m[..d], n, k);
    CryptoStreamXor(c, m, d, n, k);
    Authenticate(c, d, x, rest);
    rc := 0;
  }

  /** The tag over its own key and behind it, and the sixteen zeros. */
  method Authenticate(c: array<byte>, d: nat, ghost x: Bytes, ghost rest: Bytes)
    requires 32 <= d == |x| && c[..] == x + rest
    modifies c
    ensures c[..] == Zeros(16) + Poly.Tag(x[32..], x[..32]) + x[32..] + rest
  {
    hide Poly.Tag;
    assert c[32..32 + (d - 32)] == x[32..] && c[0..32] == x[..32];
    ghost var t := Poly.Tag(x[32..], x[..32]);
    Poly.OneTimeAuth(c, 16, c, 32, d - 32, c, 0);
    Assembled(x, t, rest);
    ZeroPrefix(c, 16);
  }

  lemma Assembled(x: Bytes, t: Bytes, rest: Bytes)
    requires |x| >= 32 && |t| == 16
    ensures (x + rest)[..16] + t + (x + rest)[16 + 16..] == x[..16] + (t + x[32..] + rest)
    ensures (x[..16] + (t + x[32..] + rest))[16..] == t + x[32..] + rest
    ensures Zeros(16) + (t + x[32..] + rest) == Zeros(16) + t + x[32..] + rest
  {
  }

  /** `FOR(i,n) a[i] = 0` */
  method ZeroPrefix(a: array<byte>, n: nat)
    requires n <= a.Length
    modifies a
    ensures a[..] == Zeros(n) + old(a[n..])
  {
    for i := 0 to n
      invariant a[..i] == Zeros(i) && a[i..] == old(a[i..])
    {
      a[i] := 0;
    }
  }

  /** crypto_secretbox_open: on a wrong tag nothing is written. */
  method CryptoSecretBoxOpen(m: array<byte>, c: array<byte>, d: nat, n: Bytes, k: Bytes) returns (rc: int)
    requires |n| == 24 && |k| == 32 && d <= c.Length && d <= m.Length
    modifies m
    ensures rc == 0 || rc == -1
    ensures rc == 0 <==> Open(old(c[..d]), n, k).Some?
    ensures rc == 0 ==> m[..] == Open(old(c[..d]), n, k).value + old(m[d..])
    ensures rc != 0 ==> m[..] == old(m[..])
  {
    hide StreamXor, Poly.Tag;
    if d < 32 {
      return -1;
    }
    ghost var cs, m0 := c[..d], m[..];
    var x := new byte[32](_ => 0);
    CryptoStreamXor(x, null, 32, n, k);
    assert x[..] == OneTimeKey(n, k);
    assert c[..d] == cs && c[16..32] == cs[16..32] && c[32..32 + (d - 32)] == cs[32..];
    var bad := OneTimeAuthVerify(c[16..32], c, 32, d - 32, x);
    assert m[..] == m0 && c[..d] == cs;
    if bad != 0 {
      return -1;
    }
    Decrypt(m, c, d, n, k);
    rc := 0;
  }

  /** The second half of crypto_secretbox_open. */
  method Decrypt(m: array<byte>, c: array<byte>, d: nat, n: Bytes, k: Bytes)
    requires |n| == 24 && |k| == 32 && 32 <= d <= c.Length && d <= m.Length
    modifies m
    ensures m[..] == Zeros(32) + StreamXor(old(c[..d]), n, k)[32..] + old(m[d..])
  {
    hide StreamXor;
    ghost var rest, y := m[d..], StreamXor(c[..d], n, k);
    assert Input(c, 0, d) == c[..d];
    CryptoStreamXor(m, c, d, n, k);
    assert m[32..] == y[32..] + rest;
    ZeroPrefix(m, 32);
    assert m[..] == Zeros(32) + y[32..] + rest;
  }
}
