/** The entry points of macaroons.c that choose between the wire formats. */
module Formats {
  import opened Buffers
  import opened Bytes
  import opened Macaroons
  import opened Structs
  import opened VarInt
  import Base64
  import V1 = FormatV1
  import V2 = FormatV2

  datatype Format = FormatOne | FormatTwo | FormatJson

  /** The first characters that mean the first format: the search in the table finds its terminating NUL, too. */
  predicate IsV1Char(c: byte) {
    65 <= c <= 90 || 97 <= c <= 122 || 48 <= c <= 57 || c == 43 || c == 47 || c == 45 || c == 95 || c == 0
  }

  /** They are the characters that stand for a group in base64, in either alphabet, and NUL. */
  lemma V1CharsDecode(c: byte)
    ensures IsV1Char(c) <==> c == 0 || Base64.Digit(Base64.Normal(c)).Some?
  {
  }

  /** What the printer of a format can print. */
  predicate Printable(m: Macaroon, f: Format) {
    match f
    case FormatOne => V1.Printable(m)
    case FormatTwo => V2.Representable(m)
    case FormatJson => true
  }

  /** What serialising writes. */
  function Encoding(m: Macaroon, f: Format): Bytes
    requires Printable(m, f)
  {
    match f
    case FormatOne => Base64.Encode(V1.Encode(m)) + [0]
    case FormatTwo => V2.Encode(m)
    case FormatJson => []
  }

  /** The buffer size it asks for. */
  function Needs(m: Macaroon, f: Format): nat
    requires Printable(m, f)
  {
    match f
    case FormatOne => V1.Hint(m)
    case FormatTwo => |V2.Encode(m)|
    case FormatJson => 0
  }

  /** The length it returns: strlen of a text, the number of bytes otherwise. */
  function Length(m: Macaroon, f: Format): (n: nat)
    requires Printable(m, f)
    ensures n <= |Encoding(m, f)|
  {
    match f
    case FormatOne => |Base64.Encode(V1.Encode(m))|
    case FormatTwo => |V2.Encode(m)|
    case FormatJson => 0
  }

  /** Where the first NUL stands, or the end. */
  function TextEnd(s: Bytes): (n: nat)
    ensures n <= |s| && (n < |s| ==> s[n] == 0) && forall i :: 0 <= i < n ==> s[i] != 0
  {
    if s == [] || s[0] == 0 then 0 else 1 + TextEnd(s[1..])
  }

  /**
   * What is read from `size` bytes at address `base`; `data` is the memory from there on as far as it may be read.
   * The first format does not look at the size: its text ends at a NUL, and without one the code reads on.
   */
  ghost function Meaning(data: Bytes, base: nat, size: nat): V1.Verdict
    requires size <= |data| && base + |data| < U64
  {
    if size == 0 then V1.Rejected
    else if IsV1Char(data[0]) then
      if TextEnd(data) == |data| then V1.Undefined else V1.Judge(data[..TextEnd(data)], size)
    else if data[0] == V1.OPEN_BRACE then V1.Rejected
    else if data[0] == V2.VERSION then
      match V2.Decode(data[..size], V2.RoomBehind(base, size))
      case Good(m, _) => V1.Accepted(m)
      case Wraps => V1.Undefined
      case Bad => V1.Rejected
    else V1.Rejected
  }

  method Strlen(buf: array<byte>, ghost length: nat) returns (n: nat)
    requires length < buf.Length && buf[length] == 0 && forall i :: 0 <= i < length ==> buf[i] != 0
    ensures n == length
  {
    n := 0;
    while buf[n] != 0
      invariant n <= length
      decreases length - n
    {
      n := n + 1;
    }
  }

  lemma TextHasNoNul(s: Bytes)
    ensures forall i :: 0 <= i < |Base64.Encode(s)| ==> Base64.Encode(s)[i] != 0
  {
    forall i | 0 <= i < |Base64.Encode(s)| ensures Base64.Encode(s)[i] != 0 {
      Base64.DigitOfChar(0, Base64.Digits(s)[i]);
    }
  }

  lemma WroteText(b0: Bytes, b: Bytes, text: Bytes)
    requires Wrote(b0, b, 0, text + [0])
    ensures |text| < |b| && b[|text|] == 0 && b[..|text|] == text
  {
  }

  /** macaroon_serialize; there is no JSON support. */
  method Serialize(m: Macaroon, f: Format, buf: array<byte>) returns (n: nat)
    requires Printable(m, f)
    modifies buf
    ensures n == if Needs(m, f) <= buf.Length then Length(m, f) else 0
    ensures n > 0 ==> Wrote(old(buf[..]), buf[..], 0, Encoding(m, f))
  {
    hide V1.Printable, V2.Representable, V1.Encode, V2.Encode, V1.Hint, Base64.Encode, Wrote;
    match f
    case FormatOne =>
      ghost var text, b0 := Base64.Encode(V1.Encode(m)), buf[..];
      var rc := V1.Serialize(m, buf, buf.Length);
      if rc < 0 { return 0; }
      TextHasNoNul(V1.Encode(m));
      WroteText(b0, buf[..], text);
      assert forall i :: 0 <= i < |text| ==> buf[i] == buf[..|text|][i];
      n := Strlen(buf, |text|);
    case FormatTwo =>
      n := V2.Serialize(m, buf);
    case FormatJson =>
      n := 0;
  }

  /** macaroon_deserialize */
  method Deserialize(data: array<byte>, base: nat, size: nat) returns (r: Option<Struct>)
    requires size <= data.Length && base + data.Length < U64
    requires !Meaning(data[..], base, size).Undefined?
    ensures match Meaning(data[..], base, size)
            case Accepted(m) => r.Some? && fresh(r.value) && r.value.Valid() && r.value.Value() == m
            case _ => r == None
  {
    hide V1.Judge, V2.Decode, V2.RoomBehind, Struct.Valid, Struct.Value, TextEnd;
    if size == 0 { return None; }
    if IsV1Char(data[0]) {
      ghost var n := TextEnd(data[..]);
      assert data[..n] == data[..][..n];
      assert forall i :: 0 <= i < n ==> data[i] == data[..][i];
      r := V1.Deserialize(data, n, size);
    } else if data[0] == V1.OPEN_BRACE {
      r := None;
    } else if data[0] == V2.VERSION {
      assert data[..size] == data[..][..size];
      r := V2.Deserialize(data[..size], base);
    } else {
      r := None;
    }
  }

  /**
   * Text begins with a character of the first format, the other format with its version byte:
   * neither is taken for the other.
   */
  lemma FirstByte(m: Macaroon, f: Format)
    requires Printable(m, f)
    ensures f.FormatOne? ==>
      |Base64.Encode(V1.Encode(m))| >= |V1.Encode(m)| > 0 && IsV1Char(Base64.Encode(V1.Encode(m))[0])
    ensures f.FormatTwo? ==> |V2.Encode(m)| > 0 && V2.Encode(m)[0] == V2.VERSION
    ensures !IsV1Char(V2.VERSION) && V2.VERSION != V1.OPEN_BRACE
  {
    hide V1.Encode, V2.EncodeHeader, V2.EncodeCaveats, V2.EncodeTrailer;
    if f.FormatOne? {
      V1.EncodeStart(m);
      Base64.EncodeLength(V1.Encode(m));
      assert IsV1Char(Base64.Char(Base64.Digits(V1.Encode(m))[0]));
    } else if f.FormatTwo? {
      VersionFirst(m);
    }
  }

  lemma VersionFirst(m: Macaroon)
    requires V2.Representable(m)
    ensures |V2.Encode(m)| > 0 && V2.Encode(m)[0] == V2.VERSION
  {
    hide V2.Field, V2.OptField, V2.EncodeCaveats;
  }

  lemma {:induction false} TextEndAt(s: Bytes, n: nat)
    requires n < |s| && s[n] == 0 && forall i :: 0 <= i < n ==> s[i] != 0
    ensures TextEnd(s) == n
  {
    if n > 0 { TextEndAt(s[1..], n - 1); }
  }

  /**
   * The whole trip: a receiver who has the bytes that macaroon_serialize counted, behind which a text needs a NUL,
   * reads the macaroon back, whatever else is in memory and wherever the bytes lie.
   */
  lemma RoundTrip(m: Macaroon, f: Format, data: Bytes, base: nat)
    requires Printable(m, f) && !f.FormatJson? && base + |data| < U64
    requires Length(m, f) <= |data| && data[..Length(m, f)] == Encoding(m, f)[..Length(m, f)]
    requires f.FormatOne? ==> Length(m, f) < |data| && data[Length(m, f)] == 0
    requires f.FormatOne? ==> |m.signature| == HASH_BYTES && V1.CidsPresent(m.caveats)
    ensures 0 < Length(m, f) && Meaning(data, base, Length(m, f)) == V1.Accepted(m)
  {
    hide V1.Printable, V2.Representable, V1.Encode, V2.Encode, Base64.Encode, V1.Judge, V2.Decode, TextEnd,
      V2.RoomBehind;
    FirstByte(m, f);
    if f.FormatOne? {
      var text := Base64.Encode(V1.Encode(m));
      assert Encoding(m, f)[..|text|] == text;
      assert data[0] == data[..|text|][0];
      TextHasNoNul(V1.Encode(m));
      assert forall i :: 0 <= i < |text| ==> data[i] == data[..|text|][i];
      TextEndAt(data, |text|);
      V1.TextRoundTrip(m, |text|);
    } else {
      var bytes := V2.Encode(m);
      assert bytes[..|bytes|] == bytes;
      assert data[0] == data[..|bytes|][0];
      V2.RoundTrip(m, [], V2.RoomBehind(base, |bytes|));
      assert bytes + [] == bytes;
    }
  }
}
