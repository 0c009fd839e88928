/**
 * sha256.c: the compression function with its rotating register file, against
 * FIPS 180-4. Sha256Stream has the streaming context and HMAC.
 */
module Sha256 {
  import opened Bytes
  import opened Sha256Constants
  import opened Words

  // ---------- FIPS 180-4 ----------

  function Ch(x: Word, y: Word, z: Word): Word { (x & y) ^ (!x & z) }
  function Maj(x: Word, y: Word, z: Word): Word { (x & y) ^ (x & z) ^ (y & z) }
  function BigSigma0(x: Word): Word { Rotr(x, 2) ^ Rotr(x, 13) ^ Rotr(x, 22) }
  function BigSigma1(x: Word): Word { Rotr(x, 6) ^ Rotr(x, 11) ^ Rotr(x, 25) }
  function SmallSigma0(x: Word): Word { Rotr(x, 7) ^ Rotr(x, 18) ^ (x >> 3) }
  function SmallSigma1(x: Word): Word { Rotr(x, 17) ^ Rotr(x, 19) ^ (x >> 10) }

  function ByteBits(b: byte): bv8 { b as bv8 }
  function BitsByte(v: bv8): byte { v as byte }

  function Join(v0: bv8, v1: bv8, v2: bv8, v3: bv8): Word {
    (v3 as Word) + ((v2 as Word) << 8) + ((v1 as Word) << 16) + ((v0 as Word) << 24)
  }

  function Part(x: Word, shift: bv6): bv8
    requires shift <= 24
  {
    ((x >> shift) & 0xff) as bv8
  }

  /** Four bytes as a word, most significant first. */
  function BeWord(b: Bytes): Word
    requires |b| == 4
  {
    Join(ByteBits(b[0]), ByteBits(b[1]), ByteBits(b[2]), ByteBits(b[3]))
  }

  function BeBytes(x: Word): (b: Bytes)
    ensures |b| == 4
  {
    [BitsByte(Part(x, 24)), BitsByte(Part(x, 16)), BitsByte(Part(x, 8)), BitsByte(Part(x, 0))]
  }

  function BeBytesVect(ws: seq<Word>): (b: Bytes)
    ensures |b| == 4 * |ws|
  {
    if ws == [] then [] else BeBytesVect(ws[..|ws| - 1]) + BeBytes(ws[|ws| - 1])
  }

  /** `n` in `len` bytes, most significant first. */
  function BigEndian(n: nat, len: nat): (b: Bytes)
    ensures |b| == len
  {
    if len == 0 then [] else BigEndian(n / 256, len - 1) + [n % 256]
  }

  /** Word `t` of the message schedule. */
  function Schedule(block: Bytes, t: nat): Word
    requires |block| == 64 && t < 64
  {
    if t < 16 then BeWord(block[4 * t..4 * t + 4])
    else ScheduleStep(Schedule(block, t - 2), Schedule(block, t - 7), Schedule(block, t - 15), Schedule(block, t - 16))
  }

  function ScheduleStep(w2: Word, w7: Word, w15: Word, w16: Word): Word {
    SmallSigma1(w2) + w7 + SmallSigma0(w15) + w16
  }

  datatype Regs = Regs(a: Word, b: Word, c: Word, d: Word, e: Word, f: Word, g: Word, h: Word)

  function Add(x: Word, y: Word): Word { x + y }

  function Sum(a: Word, b: Word, c: Word, d: Word, e: Word): Word { a + b + c + d + e }

  function T1(r: Regs, k: Word, w: Word): Word {
    Sum(r.h, BigSigma1(r.e), Ch(r.e, r.f, r.g), k, w)
  }

  function T2(r: Regs): Word {
    Add(BigSigma0(r.a), Maj(r.a, r.b, r.c))
  }

  /** One round: every register shifts down by one. */
  function Round(r: Regs, k: Word, w: Word): Regs {
    Regs(Add(T1(r, k, w), T2(r)), r.a, r.b, r.c, Add(r.d, T1(r, k, w)), r.e, r.f, r.g)
  }

  /** The constant of round `t`. */
  function K(t: nat): Word
    requires t < 64
  {
    ROUND[t / 8][t % 8]
  }

  function Rounds(r: Regs, block: Bytes, t: nat): Regs
    requires |block| == 64 && t <= 64
  {
    if t == 0 then r else Round(Rounds(r, block, t - 1), K(t - 1), Schedule(block, t - 1))
  }

  function ToRegs(s: seq<Word>): Regs
    requires |s| == 8
  {
    Regs(s[0], s[1], s[2], s[3], s[4], s[5], s[6], s[7])
  }

  function AddAll(s: seq<Word>, t: seq<Word>): (r: seq<Word>)
    requires |s| == |t|
    ensures |r| == |s|
  {
    seq(|s|, i requires 0 <= i < |s| => Add(s[i], t[i]))
  }

  function Compress(s: seq<Word>, block: Bytes): (r: seq<Word>)
    requires |s| == 8 && |block| == 64
    ensures |r| == 8
  {
    var x := Rounds(ToRegs(s), block, 64);
    AddAll(s, [x.a, x.b, x.c, x.d, x.e, x.f, x.g, x.h])
  }

  /** The state after the blocks of `d`. */
  function Absorb(d: Bytes): (r: seq<Word>)
    requires |d| % 64 == 0
    ensures |r| == 8
  {
    if d == [] then IV else Compress(Absorb(d[..|d| - 64]), d[|d| - 64..])
  }

  /** The message length in bits, as a 64-bit big-endian number. */
  function LengthField(n: nat): (b: Bytes)
    ensures |b| == 8
  {
    BigEndian(8 * n % 0x1_0000_0000_0000_0000, 8)
  }

  /** 0x80, then as few zeros as end eight bytes short of a block, then the length. */
  function Padding(n: nat): (p: Bytes)
    ensures (n + |p|) % 64 == 0
  {
    hide LengthField;
    PadAligned(n, |PadStart(n)|);
    PadStart(n) + LengthField(n)
  }

  lemma PadAligned(n: nat, p: nat)
    requires (n + p) % 64 == 56
    ensures (n + (p + 8)) % 64 == 0
  {
  }

  function PadStart(n: nat): (p: Bytes)
    ensures (n + |p|) % 64 == 56 && 1 <= |p| <= 64
  {
    [0x80] + Zeros((119 - n % 64) % 64)
  }

  function Hash(m: Bytes): (h: Bytes)
    ensures |h| == 32
  {
    BeBytesVect(Absorb(m + Padding(|m|)))
  }

  // ---------- the compression function ----------

  function CodeCh(x: Word, y: Word, z: Word): Word { (x & (y ^ z)) ^ z }
  function CodeMaj(x: Word, y: Word, z: Word): Word { (x & (y | z)) | (y & z) }

  /** The two sums of a round as RND writes them, with its own forms of Ch and Maj. */
  function CodeT0(r: Regs, w: Word, k: Word): Word {
    Sum(r.h, BigSigma1(r.e), CodeCh(r.e, r.f, r.g), w, k)
  }

  function CodeT1(r: Regs): Word {
    Add(BigSigma0(r.a), CodeMaj(r.a, r.b, r.c))
  }

  lemma BvCh(x: bv32, y: bv32, z: bv32)
    ensures (x & (y ^ z)) ^ z == (x & y) ^ (!x & z)
  {
  }

  lemma BvMaj(x: bv32, y: bv32, z: bv32)
    ensures (x & (y | z)) | (y & z) == (x & y) ^ (x & z) ^ (y & z)
  {
  }

  lemma ChMaj(x: Word, y: Word, z: Word)
    ensures CodeCh(x, y, z) == Ch(x, y, z)
    ensures CodeMaj(x, y, z) == Maj(x, y, z)
  {
    BvCh(x, y, z);
    BvMaj(x, y, z);
  }

  lemma SumReorder(a: Word, b: Word, c: Word, d: Word, e: Word)
    ensures Sum(a, b, c, e, d) == Sum(a, b, c, d, e)
  {
  }

  lemma CodeSums(r: Regs, k: Word, w: Word)
    ensures CodeT0(r, w, k) == T1(r, k, w)
    ensures CodeT1(r) == T2(r)
  {
    hide BigSigma0, BigSigma1, Ch, Maj, CodeCh, CodeMaj, Add, Sum;
    ChMaj(r.e, r.f, r.g);
    ChMaj(r.a, r.b, r.c);
    SumReorder(r.h, BigSigma1(r.e), Ch(r.e, r.f, r.g), k, w);
  }

  /** Register `j` of round `i`, in the array whose start moves back by one each round. */
  function At(i: nat, j: nat): (x: nat)
    requires i <= 64 && j < 8
    ensures x < 8
  {
    (64 - i + j) % 8
  }

  function View(s: seq<Word>, i: nat): Regs
    requires |s| == 8 && i <= 64
  {
    Regs(s[At(i, 0)], s[At(i, 1)], s[At(i, 2)], s[At(i, 3)], s[At(i, 4)], s[At(i, 5)], s[At(i, 6)], s[At(i, 7)])
  }

  /** Next round's register `j + 1` is where this round's register `j` was, and its first is where the last was. */
  lemma AtShifts(i: nat)
    requires i < 64
    ensures At(i + 1, 0) == At(i, 7)
    ensures forall j :: 0 <= j < 7 ==> At(i + 1, j + 1) == At(i, j)
    ensures forall j, k :: 0 <= j < k < 8 ==> At(i, j) != At(i, k)
  {
    hide At;
    NextAt(i, 0, 7);
    forall j | 0 <= j < 7 ensures At(i + 1, j + 1) == At(i, j) { NextAt(i, j + 1, j); }
    forall j, k | 0 <= j < k < 8 ensures At(i, j) != At(i, k) { AtDiffer(i, j, k); }
  }

  lemma NextAt(i: nat, j: nat, k: nat)
    requires i < 64 && j < 8 && k < 8 && j == (k + 1) % 8
    ensures At(i + 1, j) == At(i, k)
  {
  }

  lemma AtDiffer(i: nat, j: nat, k: nat)
    requires i <= 64 && j < k < 8
    ensures At(i, j) != At(i, k)
  {
  }

  /** The two writes of a round. */
  function TwoWrites(s: seq<Word>, i: nat, d: Word, h: Word): seq<Word>
    requires |s| == 8 && i < 64
  {
    s[At(i, 3) := d][At(i, 7) := h]
  }

  /** Writing two registers in place is the shift of all eight. */
  lemma WritesShift(s: seq<Word>, i: nat, d: Word, h: Word)
    requires |s| == 8 && i < 64
    ensures var r := View(s, i);
      View(TwoWrites(s, i, d, h), i + 1) == Regs(h, r.a, r.b, r.c, d, r.e, r.f, r.g)
  {
    AtShifts(i);
  }

  /** RNDr(S, W, i, k), given W[i]. */
  method Rnd(s: array<Word>, i: nat, w: Word, k: Word)
    requires s.Length == 8 && i < 64
    modifies s
    ensures s[..] == old(var r := View(s[..], i);
      TwoWrites(s[..], i, Add(r.d, CodeT0(r, w, k)), Add(CodeT0(r, w, k), CodeT1(r))))
  {
    hide CodeT0, CodeT1, Add;
    AtShifts(i);
    ghost var s0 := s[..];
    var r := View(s[..], i);
    var t0 := CodeT0(r, w, k);
    var t1 := CodeT1(r);
    s[At(i, 3)] := Add(s[At(i, 3)], t0);
    s[At(i, 7)] := Add(t0, t1);
    assert s[..] == TwoWrites(s0, i, Add(r.d, t0), Add(t0, t1));
  }

  /** A round in place is a round of the standard, seen through the moved start. */
  lemma RndIsRound(s: seq<Word>, i: nat, k: Word, w: Word)
    requires |s| == 8 && i < 64
    ensures var r := View(s, i);
      View(TwoWrites(s, i, Add(r.d, CodeT0(r, w, k)), Add(CodeT0(r, w, k), CodeT1(r))), i + 1)
      == Round(r, k, w)
  {
    hide CodeT0, CodeT1, T1, T2, Add;
    CodeSums(View(s, i), k, w);
    WritesShift(s, i, Add(View(s, i).d, CodeT0(View(s, i), w, k)), Add(CodeT0(View(s, i), w, k), CodeT1(View(s, i))));
  }

  /** be32dec_vect on the block, then the recurrence. */
  method PrepareSchedule(block: Bytes, w: array<Word>)
    requires |block| == 64 && w.Length == 64
    modifies w
    ensures forall j :: 0 <= j < 64 ==> w[j] == Schedule(block, j)
  {
    hide Schedule, BeWord, ScheduleStep;
    for i := 0 to 16
      invariant forall j :: 0 <= j < i ==> w[j] == Schedule(block, j)
    {
      ScheduleLow(block, i);
      w[i] := BeWord(block[4 * i..4 * i + 4]);
    }
    for i := 16 to 64
      invariant forall j :: 0 <= j < i ==> w[j] == Schedule(block, j)
    {
      ScheduleHigh(block, i);
      w[i] := ScheduleStep(w[i - 2], w[i - 7], w[i - 15], w[i - 16]);
    }
  }

  lemma ScheduleLow(block: Bytes, t: nat)
    requires |block| == 64 && t < 16
    ensures Schedule(block, t) == BeWord(block[4 * t..4 * t + 4])
  {
  }

  lemma ScheduleHigh(block: Bytes, t: nat)
    requires |block| == 64 && 16 <= t < 64
    ensures Schedule(block, t) ==
      ScheduleStep(Schedule(block, t - 2), Schedule(block, t - 7), Schedule(block, t - 15), Schedule(block, t - 16))
  {
    hide ScheduleStep, BeWord;
  }

  /** The 64 rounds that the code writes out, with `K` for their constants. */
  method Mix(s: array<Word>, w: array<Word>, ghost block: Bytes)
    requires |block| == 64 && s.Length == 8 && w.Length == 64 && s != w
    requires forall j :: 0 <= j < 64 ==> w[j] == Schedule(block, j)
    modifies s
    ensures ToRegs(s[..]) == Rounds(ToRegs(old(s[..])), block, 64)
  {
    hide Round, Schedule, View, TwoWrites, Add, CodeT0, CodeT1, Rounds, ToRegs, At;
    ghost var r0 := ToRegs(s[..]);
    ViewAtStart(s[..], block);
    for i := 0 to 64
      invariant View(s[..], i) == Rounds(r0, block, i)
    {
      RndIsRound(s[..], i, K(i), w[i]);
      RoundsNext(r0, block, i);
      Rnd(s, i, w[i], K(i));
    }
    ViewAtEnd(s[..]);
  }

  /** SHA256_Transform */
  method Transform(state: array<Word>, block: Bytes)
    requires state.Length == 8 && |block| == 64
    modifies state
    ensures state[..] == Compress(old(state[..]), block)
  {
    hide Schedule, Add, Rounds, Compress, ToRegs;
    ghost var s0 := state[..];
    var w := new Word[64](_ => 0);
    var s := new Word[8](_ => 0);
    PrepareSchedule(block, w);
    forall i | 0 <= i < 8 { s[i] := state[i]; }
    assert s[..] == s0;
    Mix(s, w, block);
    CompressAdds(s0, s[..], block);
    forall i | 0 <= i < 8 { state[i] := Add(state[i], s[i]); }
  }

  lemma CompressAdds(s0: seq<Word>, s: seq<Word>, block: Bytes)
    requires |s0| == 8 && |s| == 8 && |block| == 64 && ToRegs(s) == Rounds(ToRegs(s0), block, 64)
    ensures Compress(s0, block) == AddAll(s0, s)
  {
    hide Add, Rounds, AddAll;
    var x := ToRegs(s);
    assert s == [x.a, x.b, x.c, x.d, x.e, x.f, x.g, x.h];
  }

  lemma RoundsNext(r: Regs, block: Bytes, t: nat)
    requires |block| == 64 && t < 64
    ensures Rounds(r, block, t + 1) == Round(Rounds(r, block, t), K(t), Schedule(block, t))
  {
    hide Round, Schedule;
  }

  lemma ViewAtStart(s: seq<Word>, block: Bytes)
    requires |s| == 8 && |block| == 64
    ensures View(s, 0) == ToRegs(s) == Rounds(ToRegs(s), block, 0)
  {
  }

  lemma ViewAtEnd(s: seq<Word>)
    requires |s| == 8
    ensures View(s, 64) == ToRegs(s)
  {
  }
}
