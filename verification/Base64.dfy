/** base64.c: the URL-safe alphabet of section 5 of RFC 4648 without padding, and a lenient decoder. */
module Base64 {
  import opened Buffers
  import opened Bytes
  import opened ModArith

  /** A six-bit group. */
  type sextet = x: int | 0 <= x < 64

  /** The character that stands for a group: A-Z, a-z, 0-9, '-' and '_'. */
  function Char(v: sextet): byte {
    if v < 26 then 65 + v
    else if v < 52 then 97 + (v - 26)
    else if v < 62 then 48 + (v - 52)
    else if v == 62 then 45
    else 95
  }

  const PAD: byte := 61

  /** isspace in the C locale */
  predicate IsSpace(c: byte) { 9 <= c <= 13 || c == 32 }

  /** What '+' and '/' are replaced with, before the table is searched for the character. */
  function Normal(c: byte): byte {
    if c == 43 then 45 else if c == 47 then 95 else c
  }

  /** strchr over the table: the group that a character stands for. */
  function Digit(c: byte): Option<sextet> {
    if 65 <= c <= 90 then Some(c - 65)
    else if 97 <= c <= 122 then Some(c - 97 + 26)
    else if 48 <= c <= 57 then Some(c - 48 + 52)
    else if c == 45 then Some(62)
    else if c == 95 then Some(63)
    else None
  }

  /** The table has every group once, and no character of it is a space, padding, or replaced. */
  lemma DigitOfChar(c: byte, v: sextet)
    ensures Digit(c) == Some(v) <==> c == Char(v)
    ensures !IsSpace(Char(v)) && Char(v) != PAD && Normal(Char(v)) == Char(v) && Char(v) != 0
  {
  }

  // ---------- the table in characters ----------

  /** The groups in order: upper case, lower case, digits, '-' and '_'. */
  lemma TableText(c: char)
    ensures 'A' <= c <= 'Z' ==> Char(c as int - 'A' as int) == Code(c)
    ensures 'a' <= c <= 'z' ==> Char(26 + (c as int - 'a' as int)) == Code(c)
    ensures '0' <= c <= '9' ==> Char(52 + (c as int - '0' as int)) == Code(c)
    ensures Char(62) == Code('-') && Char(63) == Code('_')
  {
  }

  /** The characters that are treated apart. */
  lemma OtherCharacters(c: byte)
    ensures PAD == Code('=') && Normal(Code('+')) == Code('-') && Normal(Code('/')) == Code('_')
    ensures IsSpace(c) <==> c in [Code(' '), Code('\t'), Code('\n'), Code('\r'), 11, 12]
  {
  }

  // ---------- groups of a byte string ----------

  /** `a >> n` */
  function Shifted(a: nat, n: nat): nat {
    if n == 0 then a else Shifted(a / 2, n - 1)
  }

  /** Bit `j` of a byte string, the high bit of each byte first, with zeros behind its end. */
  function Bit(s: Bytes, j: nat): nat {
    Shifted(At(s, j / 8), 7 - j % 8) % 2
  }

  function At(s: Bytes, k: nat): byte {
    if k < |s| then s[k] else 0
  }

  /** Group `r` of three bytes. */
  function GroupOf(a: byte, b: byte, c: byte, r: nat): sextet
    requires r < 4
  {
    if r == 0 then a / 4
    else if r == 1 then a % 4 * 16 + b / 16
    else if r == 2 then b % 16 * 4 + c / 64
    else c % 64
  }

  function Sextet(s: Bytes, k: nat): sextet {
    GroupOf(At(s, k / 4 * 3), At(s, k / 4 * 3 + 1), At(s, k / 4 * 3 + 2), k % 4)
  }

  /** The groups of a byte string, the last one filled up with zero bits: ceil(8n / 6) of them. */
  function Digits(s: Bytes): (d: seq<sextet>)
    ensures |d| == (8 * |s| + 5) / 6
  {
    seq((8 * |s| + 5) / 6, k requires 0 <= k => Sextet(s, k))
  }

  /** The number that six bits from `j` on spell. */
  function Six(s: Bytes, j: nat): nat {
    32 * Bit(s, j) + 16 * Bit(s, j + 1) + 8 * Bit(s, j + 2) + 4 * Bit(s, j + 3) + 2 * Bit(s, j + 4) + Bit(s, j + 5)
  }

  lemma BitAt(s: Bytes, i: nat, b: nat)
    requires b < 8
    ensures Bit(s, 8 * i + b) == Shifted(At(s, i), 7 - b) % 2
  {
    assert (8 * i + b) / 8 == i && (8 * i + b) % 8 == b;
  }

  /** Shifting out one more bit. */
  lemma {:induction false} ShiftedOnce(a: nat, n: nat)
    ensures Shifted(a, n) == 2 * Shifted(a, n + 1) + Shifted(a, n) % 2
  {
    if n > 0 { ShiftedOnce(a / 2, n - 1); }
  }

  lemma {:induction false} ShiftedOut(a: nat, n: nat)
    requires a < Power(2, n)
    ensures Shifted(a, n) == 0
  {
    if n > 0 { ShiftedOut(a / 2, n - 1); }
  }

  /** The bits of one byte, high bit first. */
  ghost predicate BitsOf(a: byte, s: Bytes, j: nat) {
    && a == 128 * Bit(s, j) + 64 * Bit(s, j + 1) + 32 * Bit(s, j + 2) + 16 * Bit(s, j + 3)
            + 8 * Bit(s, j + 4) + 4 * Bit(s, j + 5) + 2 * Bit(s, j + 6) + Bit(s, j + 7)
    && (forall i :: j <= i < j + 8 ==> Bit(s, i) <= 1)
  }

  lemma ByteIsBits(s: Bytes, i: nat)
    ensures BitsOf(At(s, i), s, 8 * i)
  {
    hide Bit, At, Shifted;
    var a, j := At(s, i), 8 * i;
    BitAt(s, i, 0);
    BitAt(s, i, 1);
    BitAt(s, i, 2);
    BitAt(s, i, 3);
    BitAt(s, i, 4);
    BitAt(s, i, 5);
    BitAt(s, i, 6);
    BitAt(s, i, 7);
    ShiftedByte(a);
    forall k | j <= k < j + 8 ensures Bit(s, k) <= 1 {
      BitAtMostOne(s, k);
    }
  }

  lemma ShiftedByte(a: byte)
    ensures a == 128 * (Shifted(a, 7) % 2) + 64 * (Shifted(a, 6) % 2) + 32 * (Shifted(a, 5) % 2)
      + 16 * (Shifted(a, 4) % 2)
               + 8 * (Shifted(a, 3) % 2) + 4 * (Shifted(a, 2) % 2) + 2 * (Shifted(a, 1) % 2) + Shifted(a, 0) % 2
  {
    assert Shifted(a, 0) == a;
    hide Shifted;
    ShiftedOnce(a, 0);
    ShiftedOnce(a, 1);
    ShiftedOnce(a, 2);
    ShiftedOnce(a, 3);
    ShiftedOnce(a, 4);
    ShiftedOnce(a, 5);
    ShiftedOnce(a, 6);
    ShiftedOnce(a, 7);
    Pow2Of8();
    ShiftedOut(a, 8);
  }

  lemma BitAtMostOne(s: Bytes, j: nat)
    ensures Bit(s, j) <= 1
  {
  }

  lemma FirstGroup(s: Bytes, j: nat, a: byte)
    requires BitsOf(a, s, j)
    ensures a / 4 == Six(s, j)
  {
    hide Bit;
  }

  lemma SecondGroup(s: Bytes, j: nat, a: byte, b: byte)
    requires BitsOf(a, s, j) && BitsOf(b, s, j + 8)
    ensures a % 4 * 16 + b / 16 == Six(s, j + 6)
  {
    hide Bit;
  }

  lemma ThirdGroup(s: Bytes, j: nat, b: byte, c: byte)
    requires BitsOf(b, s, j) && BitsOf(c, s, j + 8)
    ensures b % 16 * 4 + c / 64 == Six(s, j + 4)
  {
    hide Bit;
    assert b % 16 == 8 * Bit(s, j + 4) + 4 * Bit(s, j + 5) + 2 * Bit(s, j + 6) + Bit(s, j + 7);
    assert c / 64 == 2 * Bit(s, j + 8) + Bit(s, j + 9);
  }

  lemma FourthGroup(s: Bytes, j: nat, c: byte)
    requires BitsOf(c, s, j)
    ensures c % 64 == Six(s, j + 2)
  {
    hide Bit;
  }

  /** RFC 4648: group `k` is bits 6k to 6k + 5 of the input, most significant first. */
  lemma SextetIsBits(s: Bytes, k: nat)
    ensures Sextet(s, k) == Six(s, 6 * k)
  {
    hide Bit, At, Six, BitsOf;
    var q, r := k / 4, k % 4;
    var a, b, c := At(s, 3 * q), At(s, 3 * q + 1), At(s, 3 * q + 2);
    ByteIsBits(s, 3 * q);
    ByteIsBits(s, 3 * q + 1);
    ByteIsBits(s, 3 * q + 2);
    if r == 0 {
      FirstGroup(s, 24 * q, a);
    } else if r == 1 {
      SecondGroup(s, 24 * q, a, b);
    } else if r == 2 {
      ThirdGroup(s, 24 * q + 8, b, c);
    } else {
      FourthGroup(s, 24 * q + 16, c);
    }
  }

  // ---------- reading text ----------

  /** Behind the first '=' only more of them and spaces may come. */
  predicate OnlyPadding(s: Bytes) {
    forall c <- s :: IsSpace(c) || c == PAD
  }

  /** The groups that a text stands for: spaces are skipped, '=' ends it. */
  function Scan(s: Bytes): Option<seq<sextet>> {
    if s == [] then Some([])
    else if IsSpace(s[0]) then Scan(s[1..])
    else if s[0] == PAD then (if OnlyPadding(s[1..]) then Some([]) else None)
    else
      match (Digit(Normal(s[0])), Scan(s[1..]))
      case (Some(v), Some(d)) => Some([v] + d)
      case _ => None
  }

  /** Byte `r` of the three that four groups make. */
  function ByteOf(a: sextet, b: sextet, c: sextet, d: sextet, r: nat): byte {
    if r == 0 then a * 4 + b / 16
    else if r == 1 then b % 16 * 16 + c / 4
    else c % 4 * 64 + d
  }

  function GroupAt(d: seq<sextet>, k: nat): sextet {
    if k < |d| then d[k] else 0
  }

  function ByteAt(d: seq<sextet>, k: nat): byte {
    var i := k / 3 * 4;
    ByteOf(GroupAt(d, i), GroupAt(d, i + 1), GroupAt(d, i + 2), GroupAt(d, i + 3), k % 3)
  }

  /** The whole bytes of the bits that the groups hold. */
  function Undigits(d: seq<sextet>): (s: Bytes)
    ensures |s| == 6 * |d| / 8
  {
    seq(6 * |d| / 8, k requires 0 <= k => ByteAt(d, k))
  }

  /** The byte that the bits behind the last whole one begin. */
  function Leftover(d: seq<sextet>): byte {
    if |d| % 4 == 0 then 0
    else
      var last: nat := d[|d| - 1];
      if |d| % 4 == 1 then last * 4
      else if |d| % 4 == 2 then last % 16 * 16
      else last % 4 * 64
  }

  /** Every group needs the byte that it begins or goes on with to be inside the target. */
  predicate Fits(n: nat, targsize: nat) {
    n == 0 || 6 * (n - 1) / 8 < targsize
  }

  /** What a text decodes to, if it is one. */
  function Decode(s: Bytes, targsize: nat): Option<Bytes> {
    match Scan(s)
    case None => None
    case Some(d) => if Leftover(d) == 0 && Fits(|d|, targsize) then Some(Undigits(d)) else None
  }

  function Chars(d: seq<sextet>): (t: Bytes)
    ensures |t| == |d|
  {
    seq(|d|, k requires 0 <= k < |d| => Char(d[k]))
  }

  /** The text of a byte string. */
  function Encode(s: Bytes): Bytes { Chars(Digits(s)) }

  lemma {:induction false} ScanChars(d: seq<sextet>)
    ensures Scan(Chars(d)) == Some(d)
  {
    if d != [] {
      ScanChars(d[1..]);
      DigitOfChar(Char(d[0]), d[0]);
      assert Chars(d)[1..] == Chars(d[1..]);
      assert d == [d[0]] + d[1..];
    }
  }

  lemma {:induction false} ScanOnlyPadding(s: Bytes)
    requires OnlyPadding(s)
    ensures Scan(s) == Some([])
  {
    if s != [] { ScanOnlyPadding(s[1..]); }
  }

  lemma ScanFirst(c: byte, rest: Bytes)
    ensures Scan([c] + rest) ==
      if IsSpace(c) then Scan(rest)
      else if c == PAD then (if OnlyPadding(rest) then Some([]) else None)
      else match (Digit(Normal(c)), Scan(rest)) { case (Some(v), Some(d)) => Some([v] + d) case _ => None }
  {
    hide OnlyPadding, IsSpace, Digit, Normal;
    assert ([c] + rest)[1..] == rest;
  }

  lemma Regroup(s: Bytes, m: Bytes, t: Bytes)
    requires s != []
    ensures s + m + t == [s[0]] + (s[1..] + m + t)
  {
    assert s == [s[0]] + s[1..];
  }

  /** White space may be put in anywhere. */
  lemma {:induction false} SpaceAnywhere(s: Bytes, t: Bytes, c: byte)
    requires IsSpace(c)
    ensures Scan(s + [c] + t) == Scan(s + t)
  {
    hide OnlyPadding, IsSpace, Digit, Normal, Scan;
    if s == [] {
      assert [] + [c] + t == [c] + t && [] + t == t;
      ScanFirst(c, t);
    } else {
      SpaceAnywhere(s[1..], t, c);
      PaddingWithSpace(s[1..], t, c);
      Regroup(s, [c], t);
      Regroup(s, [], t);
      assert s + [] == s && s[1..] + [] == s[1..];
      ScanFirst(s[0], s[1..] + [c] + t);
      ScanFirst(s[0], s[1..] + t);
    }
  }

  lemma OnlyPaddingParts(s: Bytes, m: Bytes, t: Bytes)
    ensures OnlyPadding(s + m + t) <==> OnlyPadding(s) && OnlyPadding(m) && OnlyPadding(t)
  {
    if OnlyPadding(s + m + t) {
      forall x | x in s || x in m || x in t ensures IsSpace(x) || x == PAD { assert x in s + m + t; }
    }
  }

  lemma PaddingWithSpace(s: Bytes, t: Bytes, c: byte)
    requires IsSpace(c)
    ensures OnlyPadding(s + [c] + t) <==> OnlyPadding(s + t)
  {
    OnlyPaddingParts(s, [c], t);
    OnlyPaddingParts(s, [], t);
    assert s + [] == s;
  }

  /** Padding may be added at the end. */
  lemma {:induction false} PaddingAppended(s: Bytes)
    ensures Scan(s + [PAD]) == Scan(s)
  {
    hide OnlyPadding, IsSpace, Digit, Normal, Scan;
    if s == [] {
      PaddingIsPadding();
      ScanOnlyPadding([PAD]);
      ScanOnlyPadding([]);
      assert [] + [PAD] == [PAD];
    } else {
      PaddingAppended(s[1..]);
      PaddingIsPadding();
      PaddingBehind(s[1..]);
      FirstOut(s);
      FirstOut(s + [PAD]);
      assert (s + [PAD])[1..] == s[1..] + [PAD];
      ScanFirst(s[0], s[1..] + [PAD]);
      ScanFirst(s[0], s[1..]);
    }
  }

  lemma FirstOut(s: Bytes)
    requires s != []
    ensures s == [s[0]] + s[1..]
  {
  }

  lemma PaddingBehind(s: Bytes)
    ensures OnlyPadding(s + [PAD]) <==> OnlyPadding(s)
  {
    if OnlyPadding(s + [PAD]) {
      forall x | x in s ensures IsSpace(x) || x == PAD { assert x in s + [PAD]; }
    }
  }

  lemma PaddingIsPadding()
    ensures OnlyPadding([PAD]) && OnlyPadding([])
  {
  }

  /** The characters of the standard alphabet stand for what their URL-safe replacements do. */
  lemma {:induction false} StandardAlphabet(s: Bytes, t: Bytes, c: byte)
    ensures Scan(s + [Normal(c)] + t) == Scan(s + [c] + t)
  {
    NormalStays(c);
    hide OnlyPadding, IsSpace, Digit, Normal, Scan;
    if s == [] {
      assert [] + [c] + t == [c] + t && [] + [Normal(c)] + t == [Normal(c)] + t;
      ScanFirst(c, t);
      ScanFirst(Normal(c), t);
    } else {
      StandardAlphabet(s[1..], t, c);
      OnlyPaddingParts(s[1..], [c], t);
      OnlyPaddingParts(s[1..], [Normal(c)], t);
      Regroup(s, [c], t);
      Regroup(s, [Normal(c)], t);
      ScanFirst(s[0], s[1..] + [c] + t);
      ScanFirst(s[0], s[1..] + [Normal(c)] + t);
    }
  }

  lemma NormalStays(c: byte)
    ensures Normal(Normal(c)) == Normal(c)
    ensures (IsSpace(Normal(c)) <==> IsSpace(c)) && (Normal(c) == PAD <==> c == PAD)
    ensures OnlyPadding([Normal(c)]) <==> OnlyPadding([c])
  {
  }

  lemma JoinBy16(x: nat, y: nat)
    requires y < 16
    ensures (x * 16 + y) / 16 == x && (x * 16 + y) % 16 == y
  {
  }

  lemma JoinBy4(x: nat, y: nat)
    requires y < 4
    ensures (x * 4 + y) / 4 == x && (x * 4 + y) % 4 == y
  {
  }

  lemma ByteAgain(a: byte, b: byte, c: byte, r: nat)
    requires r < 3
    ensures ByteOf(GroupOf(a, b, c, 0), GroupOf(a, b, c, 1), GroupOf(a, b, c, 2), GroupOf(a, b, c, 3), r)
         == if r == 0 then a else if r == 1 then b else c
  {
    JoinBy16(a % 4, b / 16);
    JoinBy4(b % 16, c / 64);
  }

  lemma GroupOfDigits(s: Bytes, k: nat)
    requires k < (8 * |s| + 5) / 6
    ensures GroupAt(Digits(s), k) == Sextet(s, k)
  {
  }

  /** Groups behind the last one hold no bit of the input. */
  lemma GroupBehind(s: Bytes, k: nat)
    requires k >= (8 * |s| + 5) / 6
    ensures GroupAt(Digits(s), k) == Sextet(s, k) == 0
  {
  }

  lemma DigitAt(s: Bytes, q: nat, r: nat)
    requires r < 4
    ensures GroupAt(Digits(s), 4 * q + r) == GroupOf(At(s, 3 * q), At(s, 3 * q + 1), At(s, 3 * q + 2), r)
  {
    hide GroupOf, Digits;
    if 4 * q + r < (8 * |s| + 5) / 6 { GroupOfDigits(s, 4 * q + r); } else { GroupBehind(s, 4 * q + r); }
    assert (4 * q + r) / 4 == q && (4 * q + r) % 4 == r;
  }

  lemma ByteOfDigits(s: Bytes, k: nat)
    requires k < |s|
    ensures ByteAt(Digits(s), k) == s[k]
  {
    hide GroupOf, ByteOf, Digits;
    var q := k / 3;
    DigitAt(s, q, 0);
    DigitAt(s, q, 1);
    DigitAt(s, q, 2);
    DigitAt(s, q, 3);
    ByteAgain(At(s, 3 * q), At(s, 3 * q + 1), At(s, 3 * q + 2), k % 3);
    assert k == 3 * q + k % 3;
  }

  lemma NothingLeft(s: Bytes)
    ensures Leftover(Digits(s)) == 0
  {
    var n := (8 * |s| + 5) / 6;
    if s != [] && n % 4 != 0 {
      GroupOfDigits(s, n - 1);
      var q := |s| / 3;
      assert |s| == 3 * q + |s| % 3;
      if |s| % 3 == 1 {
        assert n == 4 * q + 2 && (n - 1) / 4 == q;
      } else {
        assert |s| % 3 == 2 && n == 4 * q + 3 && (n - 1) / 4 == q;
      }
    }
  }

  /** Decoding undoes encoding, exactly when the target has room for the bytes. */
  lemma RoundTrip(s: Bytes, targsize: nat)
    ensures Decode(Encode(s), targsize) == if |s| <= targsize then Some(s) else None
  {
    hide ByteAt, Leftover, Scan;
    var d := Digits(s);
    ScanChars(d);
    NothingLeft(s);
    assert 6 * |d| / 8 == |s|;
    assert Undigits(d) == s by {
      forall k | 0 <= k < |s| ensures Undigits(d)[k] == s[k] { ByteOfDigits(s, k); }
    }
    assert Fits(|d|, targsize) <==> |s| <= targsize;
  }

  lemma EncodeInjective(s: Bytes, t: Bytes)
    requires Encode(s) == Encode(t)
    ensures s == t
  {
    var n := if |s| <= |t| then |t| else |s|;
    RoundTrip(s, n);
    RoundTrip(t, n);
  }

  lemma GroupAgain(a: sextet, b: sextet, c: sextet, d: sextet, r: nat)
    requires r < 4
    ensures GroupOf(ByteOf(a, b, c, d, 0), ByteOf(a, b, c, d, 1), ByteOf(a, b, c, d, 2), r)
         == if r == 0 then a else if r == 1 then b else if r == 2 then c else d
  {
    JoinBy4(a, b / 16);
    JoinBy16(b % 16, c / 4);
    JoinBy64(c % 4, d);
  }

  lemma JoinBy64(x: nat, y: nat)
    requires y < 64
    ensures (x * 64 + y) / 64 == x && (x * 64 + y) % 64 == y
  {
  }

  /** With nothing left over, the bits behind the last whole byte are zeros. */
  lemma ByteEverywhere(d: seq<sextet>, q: nat, r: nat)
    requires Leftover(d) == 0 && r < 3
    ensures At(Undigits(d), 3 * q + r)
         == ByteOf(GroupAt(d, 4 * q), GroupAt(d, 4 * q + 1), GroupAt(d, 4 * q + 2), GroupAt(d, 4 * q + 3), r)
  {
    assert (3 * q + r) / 3 == q && (3 * q + r) % 3 == r;
    if 3 * q + r >= 6 * |d| / 8 { ByteBehind(d, q, r); }
  }

  lemma ByteBehind(d: seq<sextet>, q: nat, r: nat)
    requires Leftover(d) == 0 && r < 3 && 3 * q + r >= 6 * |d| / 8
    ensures ByteOf(GroupAt(d, 4 * q), GroupAt(d, 4 * q + 1), GroupAt(d, 4 * q + 2), GroupAt(d, 4 * q + 3), r) == 0
  {
    var p := |d| / 4;
    assert |d| == 4 * p + |d| % 4;
  }

  lemma SextetAgain(d: seq<sextet>, k: nat)
    requires Leftover(d) == 0
    ensures Sextet(Undigits(d), k) == GroupAt(d, k)
  {
    hide GroupOf, ByteOf, Undigits, Leftover, GroupAt, At;
    var q := k / 4;
    ByteEverywhere(d, q, 0);
    ByteEverywhere(d, q, 1);
    ByteEverywhere(d, q, 2);
    GroupAgain(GroupAt(d, 4 * q), GroupAt(d, 4 * q + 1), GroupAt(d, 4 * q + 2), GroupAt(d, 4 * q + 3), k % 4);
    assert k == 4 * q + k % 4;
  }

  /**
   * Whatever the decoder accepts is the encoding of what it returns, up to spaces, padding and
   * the two replaced characters; the one exception is a stray 'A' behind whole groups of four.
   */
  lemma Canonical(t: Bytes, targsize: nat)
    requires Decode(t, targsize).Some?
    ensures var d, s := Scan(t).value, Decode(t, targsize).value;
      if |d| % 4 == 1 then d == Digits(s) + [0] else d == Digits(s)
  {
    hide Scan, Undigits, Digits, Leftover;
    DigitsAgain(Scan(t).value);
  }

  /** The exception is real: the lone character 'A' decodes to nothing, and nothing encodes to nothing. */
  lemma StrayAccepted()
    ensures Decode([65], 1) == Some([]) && Encode([]) == []
  {
    assert Scan([65]) == Some([0]) by { ScanChars([0]); assert Chars([0]) == [65]; }
    assert Undigits([0]) == [];
  }

  lemma DigitsAgain(d: seq<sextet>)
    requires Leftover(d) == 0
    ensures if |d| % 4 == 1 then d == Digits(Undigits(d)) + [0] else d == Digits(Undigits(d))
  {
    hide GroupOf, ByteAt;
    var s := Undigits(d);
    LengthAgain(|d|);
    forall k: nat | k < |Digits(s)| ensures d[k] == Digits(s)[k] { GroupOfDigits(s, k); SextetAgain(d, k); }
    if |d| % 4 == 1 {
      assert d[|d| - 1] == 0;
      assert d == Digits(s) + [d[|d| - 1]];
    } else {
      assert d == Digits(s);
    }
  }

  lemma LengthAgain(n: nat)
    ensures (8 * (6 * n / 8) + 5) / 6 == if n % 4 == 1 then n - 1 else n
  {
    var p, r := n / 4, n % 4;
    assert n == 4 * p + r;
    assert 6 * n / 8 == 3 * p + 6 * r / 8;
  }

  // ---------- the encoder ----------

  /** The target size that the encoder asks for: a partial group is checked as if it filled four characters. */
  function Room(n: nat): nat {
    if n % 3 == 0 then n / 3 * 4 + 1 else n / 3 * 4 + 4
  }

  lemma EncodeAt(s: Bytes, q: nat, r: nat)
    requires r < 4 && 4 * q + r < (8 * |s| + 5) / 6
    ensures Encode(s)[4 * q + r] == Char(GroupOf(At(s, 3 * q), At(s, 3 * q + 1), At(s, 3 * q + 2), r))
  {
    assert (4 * q + r) / 4 == q && (4 * q + r) % 4 == r;
  }

  /** The first `n` characters that three bytes turn into. */
  function Quad(a: byte, b: byte, c: byte, n: nat): Bytes
    requires n <= 4
  {
    [Char(GroupOf(a, b, c, 0)), Char(GroupOf(a, b, c, 1)), Char(GroupOf(a, b, c, 2)), Char(GroupOf(a, b, c, 3))][..n]
  }

  lemma EncodeQuad(s: Bytes, q: nat, n: nat)
    requires n <= 4 && 4 * q + n <= (8 * |s| + 5) / 6
    ensures Encode(s)[..4 * q + n] == Encode(s)[..4 * q] + Quad(At(s, 3 * q), At(s, 3 * q + 1), At(s, 3 * q + 2), n)
  {
    hide Encode, GroupOf;
    assert |Encode(s)| == (8 * |s| + 5) / 6 by { EncodeLength(s); }
    if n > 0 { EncodeAt(s, q, 0); }
    if n > 1 { EncodeAt(s, q, 1); }
    if n > 2 { EncodeAt(s, q, 2); }
    if n > 3 { EncodeAt(s, q, 3); }
    assert Encode(s)[4 * q..4 * q + n] == Quad(At(s, 3 * q), At(s, 3 * q + 1), At(s, 3 * q + 2), n);
  }

  lemma EncodeLength(s: Bytes)
    ensures |Encode(s)| == (8 * |s| + 5) / 6
  {
  }

  lemma QuadNext(a: byte, b: byte, c: byte, n: nat)
    requires n < 4
    ensures Quad(a, b, c, 0) == [] && Quad(a, b, c, n + 1) == Quad(a, b, c, n) + [Char(GroupOf(a, b, c, n))]
  {
    hide GroupOf, Char;
  }

  lemma QuadLength(a: byte, b: byte, c: byte, n: nat)
    requires n <= 4
    ensures |Quad(a, b, c, n)| == n
  {
  }

  /** Character `i` of the four. */
  method PutNext(a: byte, b: byte, c: byte, i: nat, target: array<byte>, at: nat, ghost s0: Bytes)
    requires i < 4 && at + i < target.Length && Wrote(s0, target[..], at, Quad(a, b, c, i))
    modifies target
    ensures Wrote(s0, target[..], at, Quad(a, b, c, i + 1))
  {
    hide Quad, Char, GroupOf, Wrote;
    ghost var s := target[..];
    QuadNext(a, b, c, i);
    QuadLength(a, b, c, i);
    PutByte(Char(GroupOf(a, b, c, i)), target, at + i);
    WroteMore(s0, s, target[..], at, Quad(a, b, c, i), [Char(GroupOf(a, b, c, i))]);
  }

  /** The first `n` of the four characters. */
  method PutQuad(a: byte, b: byte, c: byte, n: nat, target: array<byte>, at: nat)
    requires 2 <= n <= 4 && at + n <= target.Length
    modifies target
    ensures Wrote(old(target[..]), target[..], at, Quad(a, b, c, n))
  {
    hide Quad, Char, GroupOf, Wrote;
    ghost var s0 := target[..];
    QuadNext(a, b, c, 0);
    WroteNothing(s0, at);
    PutNext(a, b, c, 0, target, at, s0);
    PutNext(a, b, c, 1, target, at, s0);
    if n > 2 { PutNext(a, b, c, 2, target, at, s0); }
    if n > 3 { PutNext(a, b, c, 3, target, at, s0); }
  }

  /** The target holds the first `q` groups of four, and nothing else has changed. */
  ghost predicate Coded(t0: Bytes, t: Bytes, s: Bytes, q: nat) {
    3 * q <= |s| && 4 * q <= |Encode(s)| && Wrote(t0, t, 0, Encode(s)[..4 * q])
  }

  lemma CodedStart(t: Bytes, s: Bytes)
    ensures Coded(t, t, s, 0)
  {
  }

  lemma CodedQuad(t0: Bytes, t: Bytes, t': Bytes, s: Bytes, q: nat)
    requires Coded(t0, t, s, q) && 3 * q + 3 <= |s|
    requires Wrote(t, t', 4 * q, Quad(s[3 * q], s[3 * q + 1], s[3 * q + 2], 4))
    ensures Coded(t0, t', s, q + 1)
  {
    hide Encode, Quad, Wrote;
    EncodeLength(s);
    EncodeQuad(s, q, 4);
    WroteMore(t0, t, t', 0, Encode(s)[..4 * q], Quad(s[3 * q], s[3 * q + 1], s[3 * q + 2], 4));
  }

  lemma CodedTail(t0: Bytes, t: Bytes, t': Bytes, s: Bytes, q: nat)
    requires Coded(t0, t, s, q) && 1 <= |s| - 3 * q <= 2
    requires Wrote(t, t', 4 * q, Quad(s[3 * q], At(s, 3 * q + 1), 0, |s| - 3 * q + 1))
    ensures Wrote(t0, t', 0, Encode(s))
  {
    hide Encode, Quad, Wrote;
    EncodeLength(s);
    var n := |s| - 3 * q + 1;
    EncodeQuad(s, q, n);
    assert Encode(s)[..4 * q + n] == Encode(s);
    WroteMore(t0, t, t', 0, Encode(s)[..4 * q], Quad(s[3 * q], At(s, 3 * q + 1), 0, n));
  }

  lemma CodedAll(t0: Bytes, t: Bytes, s: Bytes, q: nat)
    requires Coded(t0, t, s, q) && |s| == 3 * q
    ensures Wrote(t0, t, 0, Encode(s))
  {
    hide Encode, Wrote;
    EncodeLength(s);
    assert Encode(s)[..4 * q] == Encode(s);
  }

  lemma RoomOf(n: nat, q: nat)
    requires 3 * q <= n
    ensures n - 3 * q >= 3 ==> Room(n) >= 4 * q + 4
    ensures n == 3 * q ==> Room(n) == 4 * q + 1
    ensures 1 <= n - 3 * q <= 2 ==> Room(n) == 4 * q + 4
  {
    assert n == 3 * (n / 3) + n % 3;
  }

  /** The loop over the whole groups of three. */
  method CodeGroups(src: array<byte>, srclength0: nat, target: array<byte>, targsize: nat)
    returns (ok: bool, pos: nat, srclength: nat, datalength: nat)
    requires srclength0 <= src.Length && targsize <= target.Length && src != target
    modifies target
    ensures ok ==> srclength == srclength0 % 3 && pos == 3 * (srclength0 / 3) && datalength == 4 * (srclength0 / 3)
    ensures ok ==> Coded(old(target[..]), target[..], src[..srclength0], srclength0 / 3)
    ensures !ok ==> Room(srclength0) > targsize
  {
    hide Encode, Quad, Wrote, Coded, Room;
    ghost var s, t0 := src[..srclength0], target[..];
    ghost var q := 0;
    ok, pos, srclength, datalength := true, 0, srclength0, 0;
    CodedStart(t0, s);
    while 2 < srclength
      invariant pos == 3 * q && datalength == 4 * q && srclength == srclength0 - pos && pos <= srclength0
      invariant Coded(t0, target[..], s, q) && src[..srclength0] == s
    {
      RoomOf(srclength0, q);
      var a, b, c := src[pos], src[pos + 1], src[pos + 2];
      pos, srclength := pos + 3, srclength - 3;
      if datalength + 4 > targsize { return false, pos, srclength, datalength; }
      ghost var t := target[..];
      PutQuad(a, b, c, 4, target, datalength);
      CodedQuad(t0, t, target[..], s, q);
      datalength := datalength + 4;
      q := q + 1;
    }
  }

  /** b64_ntop */
  method Ntop(src: array<byte>, srclength0: nat, target: array<byte>, targsize: nat) returns (rc: int)
    requires srclength0 <= src.Length && targsize <= target.Length && src != target
    modifies target
    ensures rc == if Room(srclength0) <= targsize then (8 * srclength0 + 5) / 6 else -1
    ensures rc >= 0 ==> Wrote(old(target[..]), target[..], 0, Encode(src[..srclength0]) + [0])
  {
    hide Encode, Quad, Wrote, Coded, Room;
    ghost var s, t0, q := src[..srclength0], target[..], srclength0 / 3;
    EncodeLength(s);
    RoomOf(srclength0, q);
    var ok, pos, srclength, datalength := CodeGroups(src, srclength0, target, targsize);
    if !ok { return -1; }
    ghost var t := target[..];
    if srclength != 0 {
      var a, b, c: byte := src[pos], 0, 0;
      if srclength == 2 { b := src[pos + 1]; }
      assert b == At(s, 3 * q + 1);
      if datalength + 4 > targsize { return -1; }
      PutQuad(a, b, c, srclength + 1, target, datalength);
      CodedTail(t0, t, target[..], s, q);
      datalength := datalength + srclength + 1;
    } else {
      CodedAll(t0, t, s, q);
    }
    if datalength >= targsize { return -1; }
    t := target[..];
    PutByte(0, target, datalength);
    WroteMore(t0, t, target[..], 0, Encode(s), [0]);
    return datalength;
  }

  // ---------- the decoder ----------

  /** The decoder's position after the groups `d`: the whole bytes are out, the rest waits in the next one. */
  ghost predicate Held(t: Bytes, d: seq<sextet>, targsize: nat) {
    var n := 6 * |d| / 8;
    && n <= targsize <= |t| && Fits(|d|, targsize)
    && t[..n] == Undigits(d)
    && (if n < targsize then |d| % 4 != 0 ==> t[n] == Leftover(d) else Leftover(d) == 0)
  }

  /** No text whose groups begin with `d` can be accepted any more. */
  ghost predicate Dead(d: seq<sextet>, targsize: nat) {
    !Fits(|d|, targsize) || (Leftover(d) != 0 && !Fits(|d| + 1, targsize))
  }

  /** Groups already read, and what the rest of the text scans to. */
  function Continue(d: seq<sextet>, rest: Option<seq<sextet>>): Option<seq<sextet>> {
    match rest
    case None => None
    case Some(e) => Some(d + e)
  }

  lemma DeadStays(d: seq<sextet>, e: seq<sextet>, targsize: nat)
    requires Dead(d, targsize)
    ensures Leftover(d + e) != 0 || !Fits(|d + e|, targsize)
  {
    hide Leftover;
    if e == [] { assert d + e == d; }
  }

  /** What the groups up to `d` leave for the next byte, and what one more makes of it. */
  function Added(d: seq<sextet>, v: sextet): nat {
    Leftover(d) + (if |d| % 4 == 1 then v / 16 else if |d| % 4 == 2 then v / 4 else v)
  }

  lemma ByteStable(d: seq<sextet>, v: sextet, k: nat)
    requires k < 6 * |d| / 8
    ensures ByteAt(d + [v], k) == ByteAt(d, k)
  {
    var q, r := k / 3, k % 3;
    assert k == 3 * q + r;
  }

  lemma UndigitsSnoc(d: seq<sextet>, v: sextet)
    ensures |d| % 4 == 0 ==> Undigits(d + [v]) == Undigits(d)
    ensures |d| % 4 != 0 ==> Added(d, v) < 256 && Undigits(d + [v]) == Undigits(d) + [Added(d, v)]
  {
    hide ByteAt, Undigits, Added;
    var n := 6 * |d| / 8;
    LengthSnoc(|d|);
    var s, t := Undigits(d), Undigits(d + [v]);
    forall k: nat | k < n ensures t[k] == s[k] {
      ByteStable(d, v, k);
      UndigitsAt(d, k);
      UndigitsAt(d + [v], k);
    }
    if |d| % 4 == 0 {
      assert t == s;
    } else {
      LastByte(d, v);
      UndigitsAt(d + [v], n);
      assert t == s + [t[n]];
    }
  }

  lemma UndigitsAt(d: seq<sextet>, k: nat)
    requires k < 6 * |d| / 8
    ensures Undigits(d)[k] == ByteAt(d, k)
  {
  }

  lemma LastByte(d: seq<sextet>, v: sextet)
    requires |d| % 4 != 0
    ensures ByteAt(d + [v], 6 * |d| / 8) == Added(d, v)
  {
    var p, r := |d| / 4, |d| % 4;
    assert |d| == 4 * p + r;
    assert 6 * |d| / 8 == 3 * p + (r - 1);
  }

  lemma LeftoverSnoc(d: seq<sextet>, v: sextet)
    ensures Leftover(d + [v]) ==
      if |d| % 4 == 0 then v * 4 else if |d| % 4 == 1 then v % 16 * 16 else if |d| % 4 == 2 then v % 4 * 64 else 0
  {
  }

  /** The bits put in are below those already there. */
  lemma OrAdds(d: seq<sextet>, v: sextet)
    requires |d| % 4 != 0
    ensures Or(Leftover(d), if |d| % 4 == 1 then v / 16 else if |d| % 4 == 2 then v / 4 else v) == Added(d, v)
  {
    hide OrNat;
    assert Power(2, 2) == 4;
    assert Power(2, 4) == 16;
    assert Power(2, 6) == 64;
    var last: nat := d[|d| - 1];
    if |d| % 4 == 1 {
      OrHighLow(v / 16, last, 2);
    } else if |d| % 4 == 2 {
      OrHighLow(v / 4, last % 16, 4);
    } else {
      OrHighLow(v, last % 4, 6);
    }
  }

  lemma OrHighLow(low: nat, high: nat, shift: nat)
    requires low < Power(2, shift)
    ensures OrNat(high * Power(2, shift), low) == low + high * Power(2, shift)
  {
    OrAbove(low, high, shift);
    OrNatCommutes(low, high * Power(2, shift));
  }

  /** The group completes the byte at `tarindex`, and what is left of it begins the next one, if that is there. */
  lemma HeldByte(t: Bytes, t': Bytes, d: seq<sextet>, v: sextet, targsize: nat)
    requires Held(t, d, targsize) && |d| % 4 != 0 && 6 * |d| / 8 < targsize && |t'| == |t|
    requires Added(d, v) < 256
    requires var n := 6 * |d| / 8;
      && t'[..n] == t[..n] && t'[n] == Added(d, v)
      && (if n + 1 < targsize then |d| % 4 == 3 || t'[n + 1] == Leftover(d + [v]) else Leftover(d + [v]) == 0)
    ensures Held(t', d + [v], targsize)
  {
    hide Leftover, Undigits, Added, Held;
    HeldNow(t, d, targsize);
    HeldBytes(t, t', d, v, targsize);
    LengthSnoc(|d|);
    LeftoverSnoc(d, v);
    HeldIntro(t', d + [v], 6 * |d| / 8 + 1, targsize);
  }

  lemma HeldIntro(t: Bytes, d: seq<sextet>, n: nat, targsize: nat)
    requires n == 6 * |d| / 8 && n <= targsize <= |t| && Fits(|d|, targsize) && t[..n] == Undigits(d)
    requires if n < targsize then |d| % 4 != 0 ==> t[n] == Leftover(d) else Leftover(d) == 0
    ensures Held(t, d, targsize)
  {
    hide Leftover, Undigits;
  }

  lemma HeldBytes(t: Bytes, t': Bytes, d: seq<sextet>, v: sextet, targsize: nat)
    requires Held(t, d, targsize) && |d| % 4 != 0 && 6 * |d| / 8 < targsize && |t'| == |t|
    requires Added(d, v) < 256 && t'[..6 * |d| / 8] == t[..6 * |d| / 8] && t'[6 * |d| / 8] == Added(d, v)
    ensures t'[..6 * |d| / 8 + 1] == Undigits(d + [v])
  {
    hide Leftover, Undigits, Added;
    UndigitsSnoc(d, v);
    var n := 6 * |d| / 8;
    assert t'[..n + 1] == t'[..n] + [t'[n]];
  }

  lemma LengthSnoc(n: nat)
    ensures 6 * (n + 1) / 8 == if n % 4 == 0 then 6 * n / 8 else 6 * n / 8 + 1
  {
    assert n == 4 * (n / 4) + n % 4;
  }

  lemma HeldFirst(t: Bytes, t': Bytes, d: seq<sextet>, v: sextet, targsize: nat)
    requires Held(t, d, targsize) && |d| % 4 == 0 && 6 * |d| / 8 < targsize && |t'| == |t|
    requires var n := 6 * |d| / 8; t'[..n] == t[..n] && t'[n] == v * 4
    ensures Held(t', d + [v], targsize)
  {
    hide Leftover, Undigits;
    UndigitsSnoc(d, v);
    LeftoverSnoc(d, v);
    LengthSnoc(|d|);
  }

  lemma HeldDead(d: seq<sextet>, v: sextet, targsize: nat)
    requires 6 * |d| / 8 >= targsize || (6 * |d| / 8 + 1 >= targsize && |d| % 4 != 0 && Leftover(d + [v]) != 0)
    ensures Dead(d + [v], targsize)
  {
    hide Leftover;
    LengthSnoc(|d|);
  }

  lemma HeldNow(t: Bytes, d: seq<sextet>, targsize: nat)
    requires Held(t, d, targsize)
    ensures |t| >= targsize && (|d| % 4 != 0 && 6 * |d| / 8 < targsize ==> t[6 * |d| / 8] == Leftover(d))
  {
    hide Leftover, Undigits;
  }

  lemma AddedFits(d: seq<sextet>, v: sextet)
    requires |d| % 4 != 0
    ensures Added(d, v) < 256
  {
  }

  /** One pass through the switch for the group `v`. */
  method PutGroup(v: sextet, state0: nat, tarindex0: nat, target: array<byte>, targsize: nat, ghost d: seq<sextet>)
    returns (ok: bool, state: nat, tarindex: nat)
    requires targsize <= target.Length && Held(target[..], d, targsize)
    requires state0 == |d| % 4 && tarindex0 == 6 * |d| / 8
    modifies target
    ensures target[targsize..] == old(target[targsize..])
    ensures ok ==> Held(target[..], d + [v], targsize) && state == (|d| + 1) % 4 && tarindex == 6 * (|d| + 1) / 8
    ensures !ok ==> Dead(d + [v], targsize)
  {
    hide Leftover, Undigits, Or, Held, Dead, Added;
    LengthSnoc(|d|);
    LeftoverSnoc(d, v);
    HeldNow(target[..], d, targsize);
    ok, state, tarindex := true, state0, tarindex0;
    if tarindex >= targsize {
      HeldDead(d, v, targsize);
      return false, state, tarindex;
    }
    if state == 0 {
      PutFirst(v, tarindex, target, targsize, d);
      return true, 1, tarindex;
    }
    OrAdds(d, v);
    if state == 1 {
      ok := PutAcross(v / 16, v % 16 * 16, tarindex, target, targsize, d, v);
      return ok, 2, tarindex + 1;
    } else if state == 2 {
      ok := PutAcross(v / 4, v % 4 * 64, tarindex, target, targsize, d, v);
      return ok, 3, tarindex + 1;
    } else {
      PutLast(v, tarindex, target, targsize, d);
      return true, 0, tarindex + 1;
    }
  }

  method PutFirst(v: sextet, tarindex: nat, target: array<byte>, targsize: nat, ghost d: seq<sextet>)
    requires targsize <= target.Length && Held(target[..], d, targsize)
    requires |d| % 4 == 0 && tarindex == 6 * |d| / 8 < targsize
    modifies target
    ensures target[targsize..] == old(target[targsize..]) && Held(target[..], d + [v], targsize)
  {
    hide Held;
    ghost var t0 := target[..];
    target[tarindex] := v * 4;
    HeldFirst(t0, target[..], d, v, targsize);
  }

  method PutLast(v: sextet, tarindex: nat, target: array<byte>, targsize: nat, ghost d: seq<sextet>)
    requires targsize <= target.Length && Held(target[..], d, targsize)
    requires |d| % 4 == 3 && tarindex == 6 * |d| / 8 < targsize
    modifies target
    ensures target[targsize..] == old(target[targsize..]) && Held(target[..], d + [v], targsize)
  {
    hide Leftover, Undigits, Or, Held, Added;
    ghost var t0 := target[..];
    HeldNow(t0, d, targsize);
    OrAdds(d, v);
    AddedFits(d, v);
    LeftoverSnoc(d, v);
    target[tarindex] := Or(target[tarindex], v);
    HeldByte(t0, target[..], d, v, targsize);
  }

  /** The two middle cases: the group ends one byte and begins another. */
  method PutAcross(bits: byte, nextbyte: byte, tarindex: nat, target: array<byte>, targsize: nat, ghost d: seq<sextet>,
                   ghost v: sextet)
    returns (ok: bool)
    requires targsize <= target.Length && Held(target[..], d, targsize)
    requires 1 <= |d| % 4 <= 2 && tarindex == 6 * |d| / 8 < targsize
    requires Or(Leftover(d), bits) == Added(d, v) && nextbyte == Leftover(d + [v])
    modifies target
    ensures target[targsize..] == old(target[targsize..])
    ensures if ok then Held(target[..], d + [v], targsize) else Dead(d + [v], targsize)
  {
    hide Leftover, Undigits, Or, Held, Dead, Added;
    ghost var t0 := target[..];
    HeldNow(t0, d, targsize);
    target[tarindex] := Or(target[tarindex], bits);
    if tarindex + 1 < targsize {
      target[tarindex + 1] := nextbyte;
    } else if nextbyte != 0 {
      HeldDead(d, v, targsize);
      return false;
    }
    HeldByte(t0, target[..], d, v, targsize);
    return true;
  }

  /** What the state machine has done with the text before `i`. */
  ghost predicate Reading(t: Bytes, s: Bytes, i: nat, d: seq<sextet>, targsize: nat) {
    i <= |s| && Held(t, d, targsize) && Continue(d, Scan(s[i..])) == Scan(s)
  }

  lemma ReadingStart(t: Bytes, s: Bytes, targsize: nat)
    requires targsize <= |t|
    ensures Reading(t, s, 0, [], targsize)
  {
    assert s[0..] == s;
    if Scan(s).Some? { assert [] + Scan(s).value == Scan(s).value; }
  }

  lemma ReadingSpace(t: Bytes, s: Bytes, i: nat, d: seq<sextet>, targsize: nat)
    requires Reading(t, s, i, d, targsize) && i < |s| && IsSpace(s[i])
    ensures Reading(t, s, i + 1, d, targsize)
  {
    hide Held, IsSpace;
    assert s[i..][1..] == s[i + 1..];
  }

  /** A character outside the alphabet: no text. */
  lemma ReadingStray(t: Bytes, s: Bytes, i: nat, d: seq<sextet>, targsize: nat)
    requires Reading(t, s, i, d, targsize) && i < |s| && !IsSpace(s[i]) && s[i] != PAD && Digit(Normal(s[i])).None?
    ensures Scan(s).None?
  {
    hide Held, IsSpace;
  }

  lemma ReadingDigit(s: Bytes, i: nat, d: seq<sextet>, v: sextet)
    requires i < |s| && !IsSpace(s[i]) && s[i] != PAD && Digit(Normal(s[i])) == Some(v)
    requires Continue(d, Scan(s[i..])) == Scan(s)
    ensures Continue(d + [v], Scan(s[i + 1..])) == Scan(s)
  {
    hide IsSpace;
    assert s[i..][1..] == s[i + 1..];
    if Scan(s[i + 1..]).Some? {
      var e := Scan(s[i + 1..]).value;
      assert d + ([v] + e) == d + [v] + e;
    }
  }

  lemma ReadingDead(s: Bytes, i: nat, d: seq<sextet>, targsize: nat)
    requires i <= |s| && Continue(d, Scan(s[i..])) == Scan(s) && Dead(d, targsize)
    ensures Decode(s, targsize).None?
  {
    hide Scan, Dead, Leftover, Fits, Undigits;
    match Scan(s[i..])
    case None =>
    case Some(e) => DeadStays(d, e, targsize);
  }

  /** At the end of the text, or at a '=': what is left over decides. */
  lemma ReadingEnd(t: Bytes, s: Bytes, i: nat, d: seq<sextet>, targsize: nat)
    requires Reading(t, s, i, d, targsize) && (i == |s| || s[i] == PAD)
    requires i < |s| ==> OnlyPadding(s[i + 1..])
    ensures Fits(|d|, targsize) && Scan(s) == Some(d)
  {
    assert d + [] == d;
    if i < |s| { assert s[i..][1..] == s[i + 1..]; }
  }

  lemma ReadingBadTail(t: Bytes, s: Bytes, i: nat, d: seq<sextet>, targsize: nat)
    requires Reading(t, s, i, d, targsize) && i < |s| && s[i] == PAD && !OnlyPadding(s[i + 1..])
    ensures Scan(s) == None
  {
    hide Held;
    assert s[i..][1..] == s[i + 1..];
  }

  /** The final look at the target: it sees what is left over, unless there is no room for it. */
  lemma HeldEnd(t: Bytes, s: Bytes, d: seq<sextet>, targsize: nat)
    requires Held(t, d, targsize) && Scan(s) == Some(d)
    ensures var n := 6 * |d| / 8;
      Decode(s, targsize) == if n < targsize && t[n] != 0 && |d| % 4 != 0 then None else Some(t[..n])
  {
    hide Scan, Undigits;
  }

  /** The loop behind the first '='. */
  method OnlyPads(src: array<byte>, ghost length: nat, pos0: nat) returns (ok: bool)
    requires pos0 <= length < src.Length && src[length] == 0 && forall i :: 0 <= i < length ==> src[i] != 0
    ensures ok <==> OnlyPadding(src[pos0..length])
  {
    var pos := pos0;
    while src[pos] != 0
      invariant pos0 <= pos <= length && OnlyPadding(src[pos0..pos])
      decreases length - pos
    {
      if !IsSpace(src[pos]) && src[pos] != PAD {
        assert src[pos] in src[pos0..length];
        return false;
      }
      pos := pos + 1;
    }
    return true;
  }

  /** b64_pton on a text that the NUL at `length` ends. */
  method Pton(src: array<byte>, ghost length: nat, target: array<byte>, targsize: nat) returns (rc: int)
    requires length < src.Length && src[length] == 0 && forall i :: 0 <= i < length ==> src[i] != 0
    requires targsize <= target.Length && src != target
    modifies target
    ensures target[targsize..] == old(target[targsize..])
    ensures rc == match Decode(src[..length], targsize) { case None => -1 case Some(b) => |b| }
    ensures rc >= 0 ==> rc <= targsize && target[..rc] == Decode(src[..length], targsize).value
  {
    hide Reading, Held, Dead, Decode, Scan, IsSpace, Digit, Normal, Leftover, Undigits, OnlyPadding;
    ghost var s, d: seq<sextet> := src[..length], [];
    var state, tarindex, pos := 0, 0, 0;
    ReadingStart(target[..], s, targsize);
    while src[pos] != 0
      invariant pos <= length && s == src[..length]
      invariant Reading(target[..], s, pos, d, targsize)
      invariant state == |d| % 4 && tarindex == 6 * |d| / 8
      invariant target[targsize..] == old(target[targsize..])
      decreases length - pos
    {
      var ch := src[pos];
      if IsSpace(ch) {
        ReadingSpace(target[..], s, pos, d, targsize);
        pos := pos + 1;
        continue;
      }
      if ch == PAD { break; }
      var digit := Digit(Normal(ch));
      if digit.None? {
        ReadingStray(target[..], s, pos, d, targsize);
        DecodeNone(s, targsize);
        return -1;
      }
      ReadingHeld(target[..], s, pos, d, targsize);
      ReadingDigit(s, pos, d, digit.value);
      var ok;
      ok, state, tarindex := PutGroup(digit.value, state, tarindex, target, targsize, d);
      d := d + [digit.value];
      pos := pos + 1;
      if !ok {
        ReadingDead(s, pos, d, targsize);
        return -1;
      }
      ReadingAgain(target[..], s, pos, d, targsize);
    }
    ReadingHeld(target[..], s, pos, d, targsize);
    if src[pos] == PAD {
      var ok := OnlyPads(src, length, pos + 1);
      assert s[pos + 1..] == src[pos + 1..length];
      if !ok {
        ReadingBadTail(target[..], s, pos, d, targsize);
        DecodeNone(s, targsize);
        return -1;
      }
    }
    ReadingEnd(target[..], s, pos, d, targsize);
    HeldEnd(target[..], s, d, targsize);
    HeldBounds(target[..], d, targsize);
    if tarindex < targsize && target[tarindex] != 0 && state != 0 { return -1; }
    return tarindex;
  }

  lemma DecodeNone(s: Bytes, targsize: nat)
    requires Scan(s).None?
    ensures Decode(s, targsize) == None
  {
    hide Scan;
  }

  lemma ReadingHeld(t: Bytes, s: Bytes, i: nat, d: seq<sextet>, targsize: nat)
    requires Reading(t, s, i, d, targsize)
    ensures i <= |s| && Held(t, d, targsize) && Continue(d, Scan(s[i..])) == Scan(s)
  {
    hide Held, Scan, Continue;
  }

  lemma ReadingAgain(t: Bytes, s: Bytes, i: nat, d: seq<sextet>, targsize: nat)
    requires i <= |s| && Held(t, d, targsize) && Continue(d, Scan(s[i..])) == Scan(s)
    ensures Reading(t, s, i, d, targsize)
  {
    hide Held, Scan, Continue;
  }

  lemma HeldBounds(t: Bytes, d: seq<sextet>, targsize: nat)
    requires Held(t, d, targsize)
    ensures 6 * |d| / 8 <= targsize <= |t|
  {
    hide Leftover, Undigits;
  }
}
