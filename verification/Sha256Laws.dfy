/** What the byte orders and the padding of Sha256.dfy mean, and an example that pins them. */
module Sha256Laws {
  import opened Bytes
  import opened ModArith
  import opened Sha256
  import opened Sha256Constants
  import opened Words

  lemma BitsOfByte(v: bv8)
    ensures ByteBits(BitsByte(v)) == v
  {
  }

  lemma PartsJoin(x: Word)
    ensures Join(Part(x, 24), Part(x, 16), Part(x, 8), Part(x, 0)) == x
  {
  }

  /** be32dec undoes be32enc. */
  lemma WordOfBytes(x: Word)
    ensures BeWord(BeBytes(x)) == x
  {
    hide ByteBits, BitsByte, Join, Part;
    BitsOfByte(Part(x, 24));
    BitsOfByte(Part(x, 16));
    BitsOfByte(Part(x, 8));
    BitsOfByte(Part(x, 0));
    PartsJoin(x);
  }

  /** The number whose digits in base 256, highest first, are `b`. */
  function BeValue(b: Bytes): nat {
    if b == [] then 0 else b[0] * Power(256, |b| - 1) + BeValue(b[1..])
  }

  lemma {:induction false} BeValueSnoc(b: Bytes, x: byte)
    ensures BeValue(b + [x]) == 256 * BeValue(b) + x
  {
    if b == [] {
      PowerNone(256);
      assert [x][1..] == [];
    } else {
      BeValueSnoc(b[1..], x);
      assert (b + [x])[1..] == b[1..] + [x];
      PowerNext(256, |b| - 1);
      hide Power, BeValue;
      Regroup(b[0], 256, Power(256, |b| - 1));
      Regroup(256, b[0], Power(256, |b| - 1));
    }
  }

  /** The bytes of `n`, highest first. */
  lemma {:induction false} BigEndianValue(n: nat, len: nat)
    requires n < Power(256, len)
    ensures BeValue(BigEndian(n, len)) == n
  {
    if len > 0 {
      BigEndianValue(n / 256, len - 1);
      BeValueSnoc(BigEndian(n / 256, len - 1), n % 256);
    }
  }

  lemma Power256Of8()
    ensures Power(256, 8) == 0x1_0000_0000_0000_0000
  {
    assert Power(256, 4) == 0x1_0000_0000;
    PowerAdd(256, 4, 4);
  }

  /** The last eight bytes of the padding are the length in bits, modulo 2^64. */
  lemma PaddingLength(n: nat)
    ensures var p := Padding(n); BeValue(p[|p| - 8..]) == 8 * n % 0x1_0000_0000_0000_0000
  {
    hide BeValue, BigEndian;
    Power256Of8();
    BigEndianValue(8 * n % 0x1_0000_0000_0000_0000, 8);
    var p := Padding(n);
    assert p[|p| - 8..] == LengthField(n);
  }

  // ---------- steps of the example of FIPS 180-4, the digest of "abc" ----------

  /** One bit, 59 more bytes up to the last, and the 24 bits of the message. */
  lemma AbcPadding()
    ensures Padding(3) == [128] + Zeros(59) + [24]
  {
  }

  /** The first round takes the first word of the message: it fixes the rotations, the sums and their places. */
  lemma AbcFirstRound()
    ensures Round(ToRegs(IV), K(0), 0x61626380)
      == Regs(0x5d6aebcd, 0x6a09e667, 0xbb67ae85, 0x3c6ef372, 0xfa2a4622, 0x510e527f, 0x9b05688c, 0x1f83d9ab)
  {
  }

  /** The last word of its schedule. */
  lemma AbcLastWord()
    ensures ScheduleStep(0x668b2ff8, 0xef57b9cd, 0xfb3e89cb, 0x065c43da) == 0x12b1edeb
  {
  }

  /** The first word of its digest. */
  lemma AbcDigestBytes()
    ensures BeBytes(0xba7816bf) == [0xba, 0x78, 0x16, 0xbf]
  {
  }
}
