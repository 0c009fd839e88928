/**
 * The streaming hasher and HMAC of sha256.c: however a message is cut into
 * SHA256_Update calls, the digest is the one-shot hash of the concatenation.
 */
module Sha256Stream {
  import opened Bytes
  import opened ModArith
  import opened Sha256
  import opened Sha256Constants
  import opened Words

  const TWO64 := 0x1_0000_0000_0000_0000

  /** The longest prefix of whole blocks. */
  function Blocks(m: Bytes): (b: Bytes)
    ensures |b| % 64 == 0 && |b| <= |m| < |b| + 64
  {
    m[..|m| - |m| % 64]
  }

  lemma AbsorbBlock(d: Bytes, block: Bytes)
    requires |d| % 64 == 0 && |block| == 64
    ensures Absorb(d + block) == Compress(Absorb(d), block)
  {
    hide Compress;
    assert (d + block)[..|d|] == d && (d + block)[|d|..] == block;
  }

  lemma PendingTail(m: Bytes)
    ensures |m| - |Blocks(m)| == |m| % 64 && Blocks(m) <= m
  {
  }

  /** A message and a cut of it that leaves whole blocks in front and less than a block behind. */
  lemma BlocksUnique(m: Bytes, n: nat)
    requires n % 64 == 0 && n <= |m| < n + 64
    ensures Blocks(m) == m[..n] && |m| % 64 == |m| - n
  {
  }

  /** Topping up the pending block and then taking whole blocks leaves the tail of the input. */
  lemma CutAt(m: Bytes, src: Bytes, first: nat, pos: nat)
    requires first == 64 - |m| % 64 && first <= pos <= |src| < pos + 64 && (pos - first) % 64 == 0
    ensures var m' := m + src;
      && Blocks(m') == Blocks(m) + (m[|Blocks(m)|..] + src[..first]) + src[first..pos]
      && m'[|Blocks(m')|..] == src[pos..] && |m'| % 64 == |src| - pos
  {
    var m' := m + src;
    BlocksUnique(m', |m| + pos);
    assert m'[..|m| + pos] == Blocks(m) + (m[|Blocks(m)|..] + src[..first]) + src[first..pos];
  }

  /** Input that does not fill the pending block completes none. */
  lemma StaysPending(m: Bytes, src: Bytes)
    requires |src| < 64 - |m| % 64
    ensures var m' := m + src;
      Blocks(m') == Blocks(m) && m'[|Blocks(m)|..] == m[|Blocks(m)|..] + src && |m'| % 64 == |m| % 64 + |src|
  {
    var m' := m + src;
    BlocksUnique(m', |Blocks(m)|);
    assert m'[..|Blocks(m)|] == Blocks(m);
  }

  /** State, bit count and buffer after the bytes of `m`. */
  ghost predicate Held(state: seq<Word>, count: nat, buf: Bytes, m: Bytes) {
    && |buf| == 64
    && state == Absorb(Blocks(m))
    && count == 8 * |m| % TWO64
    && buf[..|m| % 64] == m[|Blocks(m)|..]
  }

  lemma HeldParts(state: seq<Word>, count: nat, buf: Bytes, m: Bytes)
    requires Held(state, count, buf, m)
    ensures state == Absorb(Blocks(m)) && count == 8 * |m| % TWO64
    ensures |buf| == 64 && |m| - |Blocks(m)| == |m| % 64 && Blocks(m) <= m && buf[..|m| % 64] == m[|Blocks(m)|..]
  {
    hide Absorb;
    PendingTail(m);
  }

  lemma HeldStays(state: seq<Word>, count: nat, buf0: Bytes, buf: Bytes, m: Bytes, src: Bytes)
    requires |buf0| == |buf| == 64 && |src| < 64 - |m| % 64 && buf0[..|m| % 64] == m[|Blocks(m)|..]
    requires state == Absorb(Blocks(m)) && count == 8 * (|m| + |src|) % TWO64
    requires buf[..|m| % 64 + |src|] == buf0[..|m| % 64] + src
    ensures Held(state, count, buf, m + src)
  {
    hide Absorb, Blocks;
    StaysPending(m, src);
  }

  lemma HeldCut(state: seq<Word>, count: nat, buf: Bytes, m: Bytes, src: Bytes, pos: nat)
    requires var first := 64 - |m| % 64;
      && first <= pos <= |src| < pos + 64 && (pos - first) % 64 == 0
      && state == Absorb(Blocks(m) + (m[|Blocks(m)|..] + src[..first]) + src[first..pos])
    requires |buf| == 64 && buf[..|src| - pos] == src[pos..] && count == 8 * (|m| + |src|) % TWO64
    ensures Held(state, count, buf, m + src)
  {
    hide Absorb, Blocks;
    CutAt(m, src, 64 - |m| % 64, pos);
  }

  lemma EightDivides(n: int, q: int, c: int, k: int)
    requires 8 * n == q * (8 * k) + c
    ensures c == 8 * (n - q * k)
  {
    assert q * (8 * k) == 8 * (q * k);
  }

  /** The bit count modulo 2^64 still tells the byte count modulo 64. */
  lemma PendingBytes(n: nat)
    ensures 8 * n % TWO64 / 8 % 64 == n % 64
  {
    var q, c := 8 * n / TWO64, 8 * n % TWO64;
    var b := n - q * 0x2000_0000_0000_0000;
    EightDivides(n, q, c, 0x2000_0000_0000_0000);
    DivModUnique(c, b, 0, 8);
    DivModUnique(n, q * 0x80_0000_0000_0000 + b / 64, b % 64, 64);
  }

  // ---------- SHA256_CTX ----------

  class Context {
    const state: array<Word>
    var count: nat
    const buf: array<byte>

    ghost predicate Valid()
      reads this
    {
      state.Length == 8 && buf.Length == 64
    }

    ghost function Repr(): set<object> { {this, state, buf} }

    /** The context after the bytes of `m`, however they came. */
    ghost predicate Holds(m: Bytes)
      reads Repr()
    {
      Valid() && Held(state[..], count, buf[..], m)
    }

    constructor Init()
      ensures Holds([]) && fresh(Repr())
    {
      state := new Word[8](i requires 0 <= i < 8 => IV[i]);
      buf := new byte[64](_ => 0);
      count := 0;
      new;
      assert state[..] == IV;
    }

    /** How many bytes the unfinished block holds, read off the bit count. */
    function Pending(): (r: nat)
      reads this
      ensures r < 64
    {
      count / 8 % 64
    }

    lemma PendingOf(n: nat)
      requires count == 8 * n % TWO64
      ensures Pending() == n % 64
    {
      PendingBytes(n);
    }

    method Update(src: Bytes, ghost m: Bytes)
      requires Holds(m)
      modifies Repr()
      ensures Holds(m + src)
    {
      hide Absorb, Compress, Pending, Blocks, Held;
      if |src| == 0 {
        assert m + src == m;
        return;
      }
      ghost var buf0 := buf[..];
      HeldParts(state[..], count, buf0, m);
      PendingOf(|m|);
      var r := Pending();
      count := (count + |src| * 8 % TWO64) % TWO64;
      CountAdds(|m|, |src|);
      if |src| < 64 - r {
        CopyIn(buf, r, src);
        HeldStays(state[..], count, buf0, buf[..], m, src);
      } else {
        Overflow(src, r, m);
      }
    }

    /** Input that completes at least one block. */
    method Overflow(src: Bytes, r: nat, ghost m: Bytes)
      requires Valid() && r == |m| % 64 && |src| >= 64 - r
      requires state[..] == Absorb(Blocks(m)) && buf[..r] == m[|Blocks(m)|..] && count == 8 * (|m| + |src|) % TWO64
      modifies state, buf
      ensures Holds(m + src)
    {
      hide Absorb, Compress, Blocks, Held;
      ghost var whole := Blocks(m) + (m[|Blocks(m)|..] + src[..64 - r]);
      PendingTail(m);
      TopUp(src, r, m);
      var pos := CompleteBlocks(src, 64 - r, whole);
      CopyIn(buf, 0, src[pos..]);
      assert buf[..|src| - pos] == src[pos..];
      HeldCut(state[..], count, buf[..], m, src, pos);
    }

    /** Finishing the current block. */
    method TopUp(src: Bytes, r: nat, ghost m: Bytes)
      requires Valid() && r == |m| % 64 && |src| >= 64 - r
      requires state[..] == Absorb(Blocks(m)) && buf[..r] == m[|Blocks(m)|..]
      modifies state, buf
      ensures state[..] == Absorb(Blocks(m) + (m[|Blocks(m)|..] + src[..64 - r]))
    {
      hide Absorb, Compress, Blocks;
      PendingTail(m);
      ghost var block := m[|Blocks(m)|..] + src[..64 - r];
      CopyIn(buf, r, src[..64 - r]);
      assert buf[..] == buf[..64] == block;
      AbsorbBlock(Blocks(m), block);
      Transform(state, buf[..]);
    }

    /** The loop over the whole blocks of the input. */
    method CompleteBlocks(src: Bytes, pos0: nat, ghost whole: Bytes) returns (pos: nat)
      requires Valid() && pos0 <= |src| && |whole| % 64 == 0 && state[..] == Absorb(whole)
      modifies state
      ensures pos0 <= pos <= |src| < pos + 64 && (pos - pos0) % 64 == 0
      ensures state[..] == Absorb(whole + src[pos0..pos])
    {
      hide Absorb, Compress;
      pos := pos0;
      assert whole + src[pos0..pos] == whole;
      while |src| - pos >= 64
        invariant pos0 <= pos <= |src| && (pos - pos0) % 64 == 0
        invariant state[..] == Absorb(whole + src[pos0..pos])
      {
        AbsorbBlock(whole + src[pos0..pos], src[pos..pos + 64]);
        assert whole + src[pos0..pos + 64] == whole + src[pos0..pos] + src[pos..pos + 64];
        Transform(state, src[pos..pos + 64]);
        pos := pos + 64;
      }
    }

    /** SHA256_Pad */
    method Pad(ghost m: Bytes)
      requires Holds(m)
      modifies Repr()
      ensures Holds(m + Padding(|m|))
    {
      hide Absorb, Compress, Pending, Blocks, Held;
      HeldParts(state[..], count, buf[..], m);
      PendingOf(|m|);
      var len := BigEndian(count, 8);
      var r := Pending();
      var plen := if r < 56 then 56 - r else 120 - r;
      PadLength(|m|, plen);
      var pad := [0x80] + Zeros(63);
      Update(pad[..plen], m);
      Update(len, m + pad[..plen]);
      assert m + pad[..plen] + len == m + Padding(|m|);
    }

    /** SHA256_Final */
    method Final(ghost m: Bytes) returns (digest: Bytes)
      requires Holds(m)
      modifies Repr()
      ensures digest == Hash(m)
    {
      hide Absorb, Compress, Padding;
      Pad(m);
      ghost var p := m + Padding(|m|);
      assert |p| % 64 == 0;
      BlocksUnique(p, |p|);
      assert p[..|p|] == p;
      digest := EncodeState(state);
    }
  }

  lemma CountAdds(a: nat, b: nat)
    ensures (8 * a % TWO64 + b * 8 % TWO64) % TWO64 == 8 * (a + b) % TWO64
  {
    ModSum(8 * a, b * 8, TWO64);
  }

  lemma PadLength(n: nat, plen: nat)
    requires plen == if n % 64 < 56 then 56 - n % 64 else 120 - n % 64
    ensures 1 <= plen <= 64 && ([0x80] + Zeros(63))[..plen] == PadStart(n)
  {
  }

  /** memcpy(&buf[r], src, len) */
  method CopyIn(buf: array<byte>, r: nat, src: Bytes)
    requires r + |src| <= buf.Length
    modifies buf
    ensures buf[..r + |src|] == old(buf[..r]) + src
    ensures buf[r + |src|..] == old(buf[r + |src|..])
  {
    forall i | 0 <= i < |src| { buf[r + i] := src[i]; }
  }

  /** be32enc_vect */
  method EncodeState(state: array<Word>) returns (b: Bytes)
    ensures b == BeBytesVect(state[..])
  {
    hide BeBytes;
    b := [];
    for i := 0 to state.Length
      invariant b == BeBytesVect(state[..i])
    {
      assert state[..i + 1][..i] == state[..i];
      b := b + BeBytes(state[i]);
    }
    assert state[..state.Length] == state[..];
  }

  /** SHA256_Buf */
  method HashBuf(src: Bytes) returns (digest: Bytes)
    ensures digest == Hash(src)
  {
    var ctx := new Context.Init();
    ctx.Update(src, []);
    assert [] + src == src;
    digest := ctx.Final(src);
  }

  function Flatten(pieces: seq<Bytes>): Bytes {
    if pieces == [] then [] else Flatten(pieces[..|pieces| - 1]) + pieces[|pieces| - 1]
  }

  lemma FlattenNext(pieces: seq<Bytes>, i: nat)
    ensures Flatten(pieces[..0]) == []
    ensures i < |pieces| ==> Flatten(pieces[..i + 1]) == Flatten(pieces[..i]) + pieces[i]
  {
    if i < |pieces| { assert pieces[..i + 1][..i] == pieces[..i]; }
  }

  /** Init, one Update for each piece, Final: the cuts do not show in the digest. */
  method HashPieces(pieces: seq<Bytes>) returns (digest: Bytes)
    ensures digest == Hash(Flatten(pieces))
  {
    hide Hash, Flatten, Context.Holds;
    var ctx := new Context.Init();
    FlattenNext(pieces, 0);
    for i := 0 to |pieces|
      invariant ctx.Holds(Flatten(pieces[..i]))
      invariant fresh(ctx.Repr())
    {
      FlattenNext(pieces, i);
      ctx.Update(pieces[i], Flatten(pieces[..i]));
    }
    assert pieces[..|pieces|] == pieces;
    digest := ctx.Final(Flatten(pieces));
  }

  // ---------- HMAC, section 2 of RFC 2104 ----------

  /** The key as one block: hashed first when it is longer than a block, then padded with zeros. */
  function KeyBlock(key: Bytes): (k: Bytes)
    ensures |k| == 64
  {
    var k := if |key| > 64 then Hash(key) else key;
    k + Zeros(64 - |k|)
  }

  function XorPad(k: Bytes, c: byte): (p: Bytes)
    ensures |p| == |k|
  {
    seq(|k|, i requires 0 <= i < |k| => Xor(c, k[i]))
  }

  function Hmac(key: Bytes, text: Bytes): (h: Bytes)
    ensures |h| == 32
  {
    Hash(XorPad(KeyBlock(key), 0x5c) + Hash(XorPad(KeyBlock(key), 0x36) + text))
  }

  lemma BareMask(c: byte)
    ensures XorPad(KeyBlock([]), c) == seq(64, _ => c)
  {
    XorNatRightZero(c);
  }

  /** Under the empty key the two masks are seen bare: 54 inside, 92 outside. */
  lemma HmacBare(text: Bytes)
    ensures Hmac([], text) == Hash(seq(64, _ => 92) + Hash(seq(64, _ => 54) + text))
  {
    hide Hash, XorPad, KeyBlock;
    BareMask(92);
    BareMask(54);
  }

  /** A key longer than a block stands for its digest, and zeros behind a shorter one change nothing. */
  lemma HmacKeys(key: Bytes, text: Bytes)
    ensures |key| > 64 ==> Hmac(key, text) == Hmac(Hash(key), text)
    ensures |key| < 64 ==> Hmac(key, text) == Hmac(key + [0], text)
  {
    hide Hash, XorPad;
    if |key| > 64 {
      assert KeyBlock(key) == KeyBlock(Hash(key));
    } else if |key| < 64 {
      assert KeyBlock(key) == KeyBlock(key + [0]);
    }
  }

  /** memset to `c`, then xor the key over the front. */
  method MakePad(key: Bytes, c: byte) returns (pad: array<byte>)
    requires |key| <= 64
    ensures fresh(pad) && pad[..] == XorPad(key + Zeros(64 - |key|), c)
  {
    pad := new byte[64](_ => c);
    for i := 0 to |key|
      invariant forall j :: 0 <= j < i ==> pad[j] == Xor(c, key[j])
      invariant forall j :: i <= j < 64 ==> pad[j] == c
    {
      pad[i] := Xor(pad[i], key[i]);
    }
    XorNatRightZero(c);
  }

  /** A fresh context that has taken the key block masked with `c`. */
  method PadContext(key: Bytes, c: byte) returns (ctx: Context)
    requires |key| <= 64
    ensures ctx.Holds(XorPad(key + Zeros(64 - |key|), c)) && fresh(ctx.Repr())
  {
    hide XorPad;
    var pad := MakePad(key, c);
    ctx := new Context.Init();
    assert [] + pad[..] == pad[..];
    ctx.Update(pad[..], []);
  }

  class HmacContext {
    const ictx: Context
    const octx: Context

    /** After HMAC_SHA256_Init with `key` and updates by `text`. */
    ghost predicate Holds(key: Bytes, text: Bytes)
      reads this, ictx.Repr(), octx.Repr()
    {
      && ictx.Repr() !! octx.Repr()
      && ictx.Holds(XorPad(KeyBlock(key), 0x36) + text)
      && octx.Holds(XorPad(KeyBlock(key), 0x5c))
    }

    constructor Init(key: Bytes)
      ensures Holds(key, [])
      ensures fresh(ictx.Repr()) && fresh(octx.Repr())
    {
      hide Hash, Context.Holds, XorPad;
      var k := key;
      if |key| > 64 {
        k := HashBuf(key);
      }
      var i := PadContext(k, 0x36);
      var o := PadContext(k, 0x5c);
      assert XorPad(KeyBlock(key), 0x36) + [] == XorPad(KeyBlock(key), 0x36);
      ictx, octx := i, o;
    }

    method Update(src: Bytes, ghost key: Bytes, ghost text: Bytes)
      requires Holds(key, text)
      modifies ictx.Repr()
      ensures Holds(key, text + src)
    {
      hide Hash, KeyBlock, XorPad, Context.Holds;
      ictx.Update(src, XorPad(KeyBlock(key), 0x36) + text);
      assert XorPad(KeyBlock(key), 0x36) + text + src == XorPad(KeyBlock(key), 0x36) + (text + src);
    }

    method Final(ghost key: Bytes, ghost text: Bytes) returns (digest: Bytes)
      requires Holds(key, text)
      modifies ictx.Repr(), octx.Repr()
      ensures digest == Hmac(key, text)
    {
      hide Hash, KeyBlock, XorPad, Context.Holds;
      var ihash := ictx.Final(XorPad(KeyBlock(key), 0x36) + text);
      octx.Update(ihash, XorPad(KeyBlock(key), 0x5c));
      digest := octx.Final(XorPad(KeyBlock(key), 0x5c) + ihash);
    }
  }

  /** HMAC_SHA256_Buf */
  method HmacBuf(key: Bytes, text: Bytes) returns (digest: Bytes)
    ensures digest == Hmac(key, text)
  {
    hide Hmac, KeyBlock, XorPad;
    var ctx := new HmacContext.Init(key);
    ctx.Update(text, key, []);
    assert [] + text == text;
    digest := ctx.Final(key, text);
  }

  /** The key as macaroon_hmac hands it on: cut or padded to 32 bytes. */
  function HmacKey(key: Bytes): (k: Bytes)
    ensures |k| == 32
  {
    if |key| < 32 then key + Zeros(32 - |key|) else key[..32]
  }

  /** macaroon_hmac of port.c */
  method MacaroonHmac(key: Bytes, text: Bytes) returns (digest: Bytes)
    ensures digest == Hmac(HmacKey(key), text)
  {
    hide Hmac;
    var k := new byte[32](_ => 0);
    var n := if |key| < 32 then |key| else 32;
    CopyIn(k, 0, key[..n]);
    assert k[..] == k[..n] + k[n..] == HmacKey(key);
    digest := HmacBuf(k[..], text);
  }
}
