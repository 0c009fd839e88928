/** packet.c: length-prefixed `key value` lines, the unit of the first wire format. */
module Packet {
  import opened Buffers
  import opened Bytes
  import opened ModArith

  const PREFIX := 4
  const MAX_SIZE := 65535
  const SPACE: byte := 32
  const NEWLINE: byte := 10

  /** The hexadecimal digit for `v`, in lower case. */
  function Hex(v: nat): byte
    requires v < 16
  {
    if v < 10 then 48 + v else 97 + (v - 10)
  }

  /** The table of digits as a text. */
  lemma HexText(v: nat)
    requires v < 16
    ensures Hex(v) == Code("0123456789abcdef"[v])
  {
  }

  /** strchr over the digits: it finds the terminating NUL of the table, too, at index 16. */
  function HexIndex(c: byte): Option<nat> {
    if 48 <= c <= 57 then Some(c - 48)
    else if 97 <= c <= 102 then Some(c - 97 + 10)
    else if c == 0 then Some(16)
    else None
  }

  /** The four digits of a size. */
  function Header(sz: nat): (h: Bytes)
    requires sz < 65536
    ensures |h| == PREFIX
  {
    [Hex(sz / 4096 % 16), Hex(sz / 256 % 16), Hex(sz / 16 % 16), Hex(sz % 16)]
  }

  /** The size that the first `n` digits spell; each digit is or-ed in behind a shift. */
  function SizeOf(s: Bytes, n: nat): Option<nat>
    requires n <= |s|
  {
    if n == 0 then Some(0)
    else
      match (SizeOf(s, n - 1), HexIndex(s[n - 1]))
      case (Some(sz), Some(v)) => Some(OrNat(16 * sz, v))
      case _ => None
  }

  /** The size of the packet that `s` begins with. */
  function Next(s: Bytes): (sz: Option<nat>)
    ensures sz.Some? ==> sz.value <= |s|
  {
    if |s| < PREFIX then None
    else
      match SizeOf(s, PREFIX)
      case Some(sz) => if |s| < sz then None else Some(sz)
      case None => None
  }

  /** The place of the first space at or behind `i`. */
  function FindSpace(s: Bytes, i: nat): (r: Option<nat>)
    ensures r.Some? ==> i <= r.value < |s| && s[r.value] == SPACE
    decreases |s| - i
  {
    if i >= |s| then None
    else if s[i] == SPACE then Some(i)
    else FindSpace(s, i + 1)
  }

  /** Key and value of a packet. */
  function KeyValue(p: Bytes): Option<(Bytes, Bytes)> {
    if |p| > MAX_SIZE || |p| < PREFIX + 2 || p[..PREFIX] != Header(|p|) || p[|p| - 1] != NEWLINE then None
    else
      match FindSpace(p, PREFIX)
      case None => None
      case Some(i) => Some((p[PREFIX..i], p[i + 1..|p| - 1]))
  }

  /** What serialize_slice_as_packet writes. */
  function Line(key: Bytes, value: Bytes): (p: Bytes)
    requires |key| + |value| + 6 <= MAX_SIZE
    ensures |p| == |key| + |value| + 6
  {
    Header(|key| + |value| + 6) + key + [SPACE] + value + [NEWLINE]
  }

  /** A line shorter than 256 bytes, written out: two zeros, two digits for its size, key, space, value, newline. */
  lemma LineText(key: Bytes, value: Bytes)
    requires |key| + |value| < 250
    ensures var n := |key| + |value| + 6;
      Line(key, value) == Ascii("00") + [Hex(n / 16), Hex(n % 16)] + key + Ascii(" ") + value + Ascii("\n")
  {
    var n := |key| + |value| + 6;
    assert n / 4096 % 16 == 0 && n / 256 % 16 == 0 && n / 16 % 16 == n / 16;
    assert Ascii("00") == [48, 48] && Ascii(" ") == [SPACE] && Ascii("\n") == [NEWLINE];
    assert Header(n) == Ascii("00") + [Hex(n / 16), Hex(n % 16)];
  }

  // ---------- reading what was written ----------

  lemma HexAgain(v: nat)
    requires v < 16
    ensures HexIndex(Hex(v)) == Some(v)
  {
  }

  lemma ShiftIn(sz: nat, v: nat)
    requires v < 16
    ensures OrNat(16 * sz, v) == 16 * sz + v
  {
    assert Power(2, 4) == 16;
    hide OrNat, Power;
    OrAbove(v, sz, 4);
    OrNatCommutes(v, 16 * sz);
  }

  lemma FourDigits(sz: nat)
    requires sz < 65536
    ensures 16 * (16 * (16 * (sz / 4096 % 16) + sz / 256 % 16) + sz / 16 % 16) + sz % 16 == sz
  {
    assert sz / 16 / 16 == sz / 256 && sz / 256 / 16 == sz / 4096;
  }

  lemma SizeOfHeader(s: Bytes, sz: nat)
    requires sz < 65536 && PREFIX <= |s| && s[..PREFIX] == Header(sz)
    ensures SizeOf(s, PREFIX) == Some(sz)
  {
    hide OrNat, Hex, HexIndex;
    var a, b, c, d := sz / 4096 % 16, sz / 256 % 16, sz / 16 % 16, sz % 16;
    assert s[0] == s[..PREFIX][0] && s[1] == s[..PREFIX][1] && s[2] == s[..PREFIX][2] && s[3] == s[..PREFIX][3];
    HexAgain(a);
    HexAgain(b);
    HexAgain(c);
    HexAgain(d);
    ShiftIn(0, a);
    ShiftIn(a, b);
    ShiftIn(16 * a + b, c);
    ShiftIn(16 * (16 * a + b) + c, d);
    FourDigits(sz);
    assert SizeOf(s, 1) == Some(a);
    assert SizeOf(s, 2) == Some(16 * a + b);
    assert SizeOf(s, 3) == Some(16 * (16 * a + b) + c);
  }

  /** The parser cuts a written line off whatever follows it. */
  lemma NextOfLine(key: Bytes, value: Bytes, rest: Bytes)
    requires |key| + |value| + 6 <= MAX_SIZE
    ensures Next(Line(key, value) + rest) == Some(|Line(key, value)|)
  {
    hide Header, SizeOf;
    var p := Line(key, value);
    assert (p + rest)[..PREFIX] == Header(|p|);
    SizeOfHeader(p + rest, |p|);
  }

  lemma {:induction false} FindFirstSpace(s: Bytes, i: nat, k: nat)
    requires i <= k < |s| && s[k] == SPACE && forall j :: i <= j < k ==> s[j] != SPACE
    ensures FindSpace(s, i) == Some(k)
    decreases k - i
  {
    if i < k { FindFirstSpace(s, i + 1, k); }
  }

  /** Key and value come back, whatever spaces, newlines or NULs the value has. */
  lemma KeyValueOfLine(key: Bytes, value: Bytes)
    requires |key| + |value| + 6 <= MAX_SIZE && SPACE !in key
    ensures KeyValue(Line(key, value)) == Some((key, value))
  {
    hide Header;
    var p, k := Line(key, value), PREFIX + |key|;
    assert p[..PREFIX] == Header(|p|);
    forall j | PREFIX <= j < k ensures p[j] != SPACE {
      assert p[j] == key[j - PREFIX];
    }
    FindFirstSpace(p, PREFIX, k);
    assert p[PREFIX..k] == key && p[k + 1..|p| - 1] == value;
  }

  /** A line is the only packet with its key and value. */
  lemma LineOfKeyValue(p: Bytes)
    requires KeyValue(p).Some?
    ensures var (key, value) := KeyValue(p).value;
      SPACE !in key && |key| + |value| + 6 == |p| <= MAX_SIZE && Line(key, value) == p
  {
    hide Header;
    var i := FindSpace(p, PREFIX).value;
    FindIsFirst(p, PREFIX);
    var (key, value) := KeyValue(p).value;
    assert p == p[..PREFIX] + p[PREFIX..i] + [p[i]] + p[i + 1..|p| - 1] + [p[|p| - 1]];
  }

  lemma {:induction false} FindIsFirst(s: Bytes, i: nat)
    ensures FindSpace(s, i).Some? ==> SPACE !in s[i..FindSpace(s, i).value]
    decreases |s| - i
  {
    if i < |s| && s[i] != SPACE {
      FindIsFirst(s, i + 1);
      if FindSpace(s, i).Some? {
        var k := FindSpace(s, i).value;
        assert s[i..k] == [s[i]] + s[i + 1..k];
      }
    }
  }

  /** The size never outgrows the 32-bit variable it is built in. */
  lemma {:induction false} SizeFits(s: Bytes, n: nat)
    requires n <= |s| && SizeOf(s, n).Some?
    ensures SizeOf(s, n).value < Power(2, 4 * n + 1)
  {
    if n > 0 {
      hide OrNat;
      SizeFits(s, n - 1);
      var sz, v := SizeOf(s, n - 1).value, HexIndex(s[n - 1]).value;
      ShiftFour(4 * n - 3);
      assert Power(2, 5) == 32;
      PowAtLeast(4 * n + 1);
      OrNatBound(16 * sz, v, 4 * n + 1);
    }
  }

  lemma ShiftFour(n: nat)
    ensures Power(2, n + 4) == 16 * Power(2, n)
  {
    assert Power(2, n + 4) == 2 * Power(2, n + 3) && Power(2, n + 3) == 2 * Power(2, n + 2)
      && Power(2, n + 2) == 2 * Power(2, n + 1);
  }

  lemma {:induction false} PowAtLeast(n: nat)
    requires n >= 5
    ensures Power(2, n) >= 32
  {
    if n > 5 { PowAtLeast(n - 1); } else { assert Power(2, 3) == 8; }
  }

  // ---------- the code ----------

  /** packet_header */
  method PacketHeader(sz: nat, data: array<byte>, ptr: nat) returns (next: nat)
    requires sz < 65536 && ptr + PREFIX <= data.Length
    modifies data
    ensures next == ptr + PREFIX && Wrote(old(data[..]), data[..], ptr, Header(sz))
  {
    hide Hex;
    data[ptr] := Hex(sz / 4096 % 16);
    data[ptr + 1] := Hex(sz / 256 % 16);
    data[ptr + 2] := Hex(sz / 16 % 16);
    data[ptr + 3] := Hex(sz % 16);
    return ptr + PREFIX;
  }

  lemma Overwrite(s0: Bytes, s1: Bytes, s2: Bytes, at: nat, w1: Bytes, w2: Bytes)
    requires Wrote(s0, s1, at, w1) && Wrote(s1, s2, at, w2) && |w1| == |w2|
    ensures Wrote(s0, s2, at, w2)
  {
  }

  /** Header, key and the space. */
  method PutKey(sz: nat, key: Bytes, data: array<byte>, ptr0: nat) returns (ptr: nat)
    requires sz < 65536 && ptr0 + PREFIX + |key| < data.Length
    modifies data
    ensures ptr == ptr0 + PREFIX + |key| + 1 && Wrote(old(data[..]), data[..], ptr0, Header(sz) + key + [SPACE])
  {
    hide Wrote, Header;
    ghost var s0 := data[..];
    ptr := PacketHeader(sz, data, ptr0);
    ghost var s1 := data[..];
    Memmove(key, data, ptr);
    ptr := ptr + |key|;
    ghost var s2 := data[..];
    WroteMore(s0, s1, s2, ptr0, Header(sz), key);
    PutByte(SPACE, data, ptr);
    WroteMore(s0, s2, data[..], ptr0, Header(sz) + key, [SPACE]);
    ptr := ptr + 1;
  }

  /** The value and the newline. */
  method PutValue(from: Bytes, data: array<byte>, ptr0: nat) returns (ptr: nat)
    requires ptr0 + |from| < data.Length
    modifies data
    ensures ptr == ptr0 + |from| + 1 && Wrote(old(data[..]), data[..], ptr0, from + [NEWLINE])
  {
    hide Wrote;
    ghost var s0 := data[..];
    Memmove(from, data, ptr0);
    ptr := ptr0 + |from|;
    ghost var s1 := data[..];
    PutByte(NEWLINE, data, ptr);
    WroteMore(s0, s1, data[..], ptr0, from, [NEWLINE]);
    ptr := ptr + 1;
  }

  /** serialize_slice_as_packet */
  method SerializeSlice(key: Bytes, from: Bytes, data: array<byte>, ptr0: nat) returns (ptr: nat)
    requires |key| + |from| + 6 <= MAX_SIZE && ptr0 + |key| + |from| + 6 <= data.Length
    modifies data
    ensures ptr == ptr0 + |key| + |from| + 6 && Wrote(old(data[..]), data[..], ptr0, Line(key, from))
  {
    hide Wrote, Header;
    var sz := PREFIX + 2 + |key| + |from|;
    ghost var s0 := data[..];
    Memmove(Zeros(sz), data, ptr0);
    ghost var s1 := data[..];
    ptr := PutKey(sz, key, data, ptr0);
    ghost var s2, head := data[..], Header(sz) + key + [SPACE];
    ptr := PutValue(from, data, ptr);
    WroteMore(s1, s2, data[..], ptr0, head, from + [NEWLINE]);
    assert Line(key, from) == head + (from + [NEWLINE]);
    Overwrite(s0, s1, data[..], ptr0, Zeros(sz), Line(key, from));
  }

  /** parse_packet: where the packet at `ptr` ends, if there is one. */
  method ParsePacket(data: Bytes, ptr: nat) returns (next: Option<nat>)
    requires ptr <= |data|
    ensures next == match Next(data[ptr..]) { case None => None case Some(sz) => Some(ptr + sz) }
  {
    hide OrNat, HexIndex;
    if |data| - ptr < PREFIX { return None; }
    ghost var s := data[ptr..];
    var sz := 0;
    for i := 0 to PREFIX
      invariant SizeOf(s, i) == Some(sz)
    {
      var tmp := HexIndex(data[ptr + i]);
      if tmp.None? {
        SizeStaysNone(s, i + 1);
        return None;
      }
      sz := OrNat(16 * sz, tmp.value);
    }
    if |data| - ptr < sz { return None; }
    return Some(ptr + sz);
  }

  lemma {:induction false} SizeStaysNone(s: Bytes, n: nat)
    requires n <= PREFIX <= |s| && SizeOf(s, n).None?
    ensures SizeOf(s, PREFIX).None?
    decreases PREFIX - n
  {
    if n < PREFIX { SizeStaysNone(s, n + 1); }
  }

  /** parse_kv_packet: memchr finds the space that ends the key. */
  method ParseKv(p: Bytes) returns (r: Option<(Bytes, Bytes)>)
    ensures r == KeyValue(p)
  {
    hide Header;
    if |p| > MAX_SIZE { return None; }
    var prefix := new byte[PREFIX](_ => 0);
    var end := PacketHeader(|p|, prefix, 0);
    assert prefix[..] == Header(|p|);
    if |p| < PREFIX + 2 || p[..PREFIX] != prefix[..] || p[|p| - 1] != NEWLINE { return None; }
    var tmp := PREFIX;
    while tmp < |p| && p[tmp] != SPACE
      invariant PREFIX <= tmp <= |p| && FindSpace(p, PREFIX) == FindSpace(p, tmp)
    {
      tmp := tmp + 1;
    }
    if tmp == |p| { return None; }
    var keySz := tmp - PREFIX;
    var valSz := |p| - PREFIX - 2 - keySz;
    return Some((p[PREFIX..PREFIX + keySz], p[tmp + 1..tmp + 1 + valSz]));
  }
}
