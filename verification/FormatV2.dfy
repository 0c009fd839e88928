/** The binary half of v2.c: the version-2 wire format, printed into and parsed from byte buffers. */
module FormatV2 {
  import opened Bytes
  import opened Buffers
  import opened Macaroons
  import opened ModArith
  import opened Structs
  import opened VarInt

  const TYPE_LOCATION: byte := 1
  const TYPE_IDENTIFIER: byte := 2
  const TYPE_VID: byte := 4
  const TYPE_SIGNATURE: byte := 6
  const EOS: byte := 0
  const VERSION: byte := 2

  // ---------- what the format is ----------

  function Field(ty: byte, d: Bytes): Bytes {
    [ty] + Pack(|d|) + d
  }

  function OptField(ty: byte, d: Bytes): Bytes {
    if d == [] then [] else Field(ty, d)
  }

  function EncodeCaveat(c: Caveat): Bytes {
    OptField(TYPE_LOCATION, c.cl) + Field(TYPE_IDENTIFIER, c.cid) + OptField(TYPE_VID, c.vid) + [EOS]
  }

  function EncodeCaveats(cs: seq<Caveat>): Bytes {
    if cs == [] then [] else EncodeCaveat(cs[0]) + EncodeCaveats(cs[1..])
  }

  function EncodeHeader(m: Macaroon): Bytes {
    [VERSION] + OptField(TYPE_LOCATION, m.location) + Field(TYPE_IDENTIFIER, m.identifier) + [EOS]
  }

  function EncodeTrailer(m: Macaroon): Bytes {
    [EOS] + Field(TYPE_SIGNATURE, m.signature)
  }

  function Encode(m: Macaroon): Bytes {
    EncodeHeader(m) + EncodeCaveats(m.caveats) + EncodeTrailer(m)
  }

  lemma ShortField(ty: byte, d: Bytes)
    requires |d| < 128
    ensures Field(ty, d) == [ty, |d|] + d
  {
  }

  /** A third-party caveat with short fields, byte by byte. */
  lemma CaveatText(c: Caveat)
    requires 0 < |c.cl| < 128 && |c.cid| < 128 && 0 < |c.vid| < 128
    ensures EncodeCaveat(c) == [1, |c.cl|] + c.cl + [2, |c.cid|] + c.cid + [4, |c.vid|] + c.vid + [0]
  {
    hide Field;
    ShortField(TYPE_LOCATION, c.cl);
    ShortField(TYPE_IDENTIFIER, c.cid);
    ShortField(TYPE_VID, c.vid);
  }

  /** A first-party caveat with a short predicate, byte by byte. */
  lemma PredicateText(c: Caveat)
    requires c.cl == [] && |c.cid| < 128 && c.vid == []
    ensures EncodeCaveat(c) == [2, |c.cid|] + c.cid + [0]
  {
    hide Field;
    ShortField(TYPE_IDENTIFIER, c.cid);
  }

  /** What stands around the caveats of a macaroon with short fields, byte by byte. */
  lemma MacaroonText(m: Macaroon)
    requires 0 < |m.location| < 128 && |m.identifier| < 128 && |m.signature| < 128
    ensures Encode(m) == [2, 1, |m.location|] + m.location + [2, |m.identifier|] + m.identifier + [0]
      + EncodeCaveats(m.caveats) + [0, 6, |m.signature|] + m.signature
  {
    hide Field, EncodeCaveats;
    ShortField(TYPE_LOCATION, m.location);
    ShortField(TYPE_IDENTIFIER, m.identifier);
    ShortField(TYPE_SIGNATURE, m.signature);
  }

  /** Every field's length fits the 64-bit size it is stored in. */
  predicate Representable(m: Macaroon) {
    && |m.location| < U64 && |m.identifier| < U64 && |m.signature| < U64
    && forall c <- m.caveats :: CaveatFits(c)
  }

  predicate CaveatFits(c: Caveat) {
    |c.cid| < U64 && |c.vid| < U64 && |c.cl| < U64
  }

  // ---------- what the parser accepts ----------

  /** How many addresses there are from the end of the buffer to the top of the 64-bit address space. */
  type Room = n: int | 0 < n witness 1

  /** `Wraps`: the walk has reached a length so large that the pointer sum of parse_field wraps around. */
  datatype Parsed<+T> = Bad | Wraps | Good(value: T, rest: Bytes)

  datatype Raw = Raw(ty: byte, payload: Bytes)

  function ParseFieldSpec(s: Bytes, room: Room): (r: Parsed<Raw>)
    ensures r.Good? ==> |r.rest| < |s|
  {
    if Unpack(s).None? then Bad else
    var (ty, n) := Unpack(s).value;
    if Unpack(s[n..]).None? then Bad else
    var (len, k) := Unpack(s[n..]).value;
    if ty >= 256 then Bad
    else if n + k + len >= |s| + room then Wraps
    else if n + k + len > |s| then Bad
    else Good(Raw(ty, s[n + k..n + k + len]), s[n + k + len..])
  }

  function ParseOptionalSpec(s: Bytes, ty: byte, room: Room): (r: Parsed<Bytes>)
    ensures r.Good? ==> |r.rest| <= |s|
  {
    if s == [] then Bad
    else if s[0] != ty then Good([], s)
    else match ParseFieldSpec(s, room)
      case Bad => Bad
      case Wraps => Wraps
      case Good(f, rest) => Good(f.payload, rest)
  }

  function ParseRequiredSpec(s: Bytes, ty: byte, room: Room): (r: Parsed<Bytes>)
    ensures r.Good? ==> |r.rest| < |s|
  {
    if s == [] || s[0] != ty then Bad
    else match ParseFieldSpec(s, room)
      case Bad => Bad
      case Wraps => Wraps
      case Good(f, rest) => Good(f.payload, rest)
  }

  function ParseEosSpec(s: Bytes): (r: Parsed<()>)
    ensures r.Good? ==> |r.rest| < |s|
  {
    if s == [] || s[0] != EOS then Bad else Good((), s[1..])
  }

  function ParseCaveatSpec(s: Bytes, room: Room): (r: Parsed<Caveat>)
    ensures r.Good? ==> |r.rest| < |s|
  {
    match ParseOptionalSpec(s, TYPE_LOCATION, room)
    case Bad => Bad
    case Wraps => Wraps
    case Good(cl, s1) =>
      match ParseRequiredSpec(s1, TYPE_IDENTIFIER, room)
      case Bad => Bad
      case Wraps => Wraps
      case Good(cid, s2) =>
        match ParseOptionalSpec(s2, TYPE_VID, room)
        case Bad => Bad
        case Wraps => Wraps
        case Good(vid, s3) =>
          match ParseEosSpec(s3)
          case Good(_, s4) => Good(Caveat(cid, vid, cl), s4)
          case _ => Bad
  }

  function ParseCaveatsSpec(s: Bytes, room: Room): (r: Parsed<seq<Caveat>>)
    ensures r.Good? ==> |r.rest| <= |s|
    decreases |s|
  {
    if s == [] || s[0] == EOS then Good([], s)
    else match ParseCaveatSpec(s, room)
      case Bad => Bad
      case Wraps => Wraps
      case Good(c, s1) =>
        match ParseCaveatsSpec(s1, room)
        case Bad => Bad
        case Wraps => Wraps
        case Good(cs, s2) => Good([c] + cs, s2)
  }

  function ParseHeaderSpec(s: Bytes, room: Room): (r: Parsed<(Bytes, Bytes)>)
    ensures r.Good? ==> |r.rest| < |s|
  {
    if s == [] || s[0] != VERSION then Bad
    else match ParseOptionalSpec(s[1..], TYPE_LOCATION, room)
      case Bad => Bad
      case Wraps => Wraps
      case Good(location, s1) =>
        match ParseRequiredSpec(s1, TYPE_IDENTIFIER, room)
        case Bad => Bad
        case Wraps => Wraps
        case Good(identifier, s2) =>
          match ParseEosSpec(s2)
          case Good(_, s3) => Good((location, identifier), s3)
          case _ => Bad
  }

  function ParseTrailerSpec(s: Bytes, room: Room): (r: Parsed<Bytes>)
    ensures r.Good? ==> |r.rest| < |s|
  {
    match ParseEosSpec(s)
    case Good(_, s1) => ParseRequiredSpec(s1, TYPE_SIGNATURE, room)
    case _ => Bad
  }

  function Decode(s: Bytes, room: Room): Parsed<Macaroon> {
    match ParseHeaderSpec(s, room)
    case Bad => Bad
    case Wraps => Wraps
    case Good((location, identifier), s1) =>
      match ParseCaveatsSpec(s1, room)
      case Bad => Bad
      case Wraps => Wraps
      case Good(caveats, s2) =>
        match ParseTrailerSpec(s2, room)
        case Bad => Bad
        case Wraps => Wraps
        case Good(signature, s3) => Good(Macaroon(location, identifier, signature, caveats), s3)
  }

  // ---------- parsing undoes printing ----------

  lemma PackSmall(ty: byte, t: Bytes)
    requires ty < 128
    ensures Unpack([ty] + t) == Some((ty as nat, 1))
  {
    assert Pack(ty) == [ty];
    PackUnpack(ty, t);
  }

  lemma FieldParses(ty: byte, d: Bytes, t: Bytes, room: Room)
    requires ty < 128 && |d| < U64
    ensures ParseFieldSpec(Field(ty, d) + t, room) == Good(Raw(ty, d), t)
  {
    hide Unpack, Pack;
    var s := Field(ty, d) + t;
    assert s == [ty] + (Pack(|d|) + d + t);
    PackSmall(ty, Pack(|d|) + d + t);
    assert s[1..] == Pack(|d|) + (d + t);
    PackUnpack(|d|, d + t);
    var k := |Pack(|d|)|;
    assert s[1 + k..1 + k + |d|] == d;
    assert s[1 + k + |d|..] == t;
  }

  lemma RequiredParses(ty: byte, d: Bytes, t: Bytes, room: Room)
    requires ty < 128 && |d| < U64
    ensures ParseRequiredSpec(Field(ty, d) + t, ty, room) == Good(d, t)
  {
    hide ParseFieldSpec;
    FieldParses(ty, d, t, room);
  }

  /** An absent optional field is recognised by the different type byte that comes next. */
  lemma OptionalParses(ty: byte, d: Bytes, t: Bytes, room: Room)
    requires ty < 128 && |d| < U64 && t != [] && t[0] != ty
    ensures ParseOptionalSpec(OptField(ty, d) + t, ty, room) == Good(d, t)
  {
    hide ParseFieldSpec;
    if d == [] {
      assert OptField(ty, d) + t == t;
    } else {
      FieldParses(ty, d, t, room);
    }
  }

  lemma CaveatParses(c: Caveat, t: Bytes, room: Room)
    requires CaveatFits(c)
    ensures ParseCaveatSpec(EncodeCaveat(c) + t, room) == Good(c, t)
    ensures EncodeCaveat(c)[0] != EOS
  {
    hide ParseOptionalSpec, ParseRequiredSpec, Pack;
    var s3 := [EOS] + t;
    var s2 := OptField(TYPE_VID, c.vid) + s3;
    var s1 := Field(TYPE_IDENTIFIER, c.cid) + s2;
    OptionalParses(TYPE_VID, c.vid, s3, room);
    RequiredParses(TYPE_IDENTIFIER, c.cid, s2, room);
    OptionalParses(TYPE_LOCATION, c.cl, s1, room);
    assert EncodeCaveat(c) + t == OptField(TYPE_LOCATION, c.cl) + s1;
    assert s3[1..] == t;
  }

  lemma {:induction false} CaveatsParse(cs: seq<Caveat>, t: Bytes, room: Room)
    requires (forall c <- cs :: CaveatFits(c)) && t != [] && t[0] == EOS
    ensures ParseCaveatsSpec(EncodeCaveats(cs) + t, room) == Good(cs, t)
  {
    hide ParseCaveatSpec, EncodeCaveat;
    if cs == [] {
      assert EncodeCaveats(cs) + t == t;
    } else {
      var s1 := EncodeCaveats(cs[1..]) + t;
      assert EncodeCaveats(cs) + t == EncodeCaveat(cs[0]) + s1;
      CaveatParses(cs[0], s1, room);
      CaveatsParse(cs[1..], t, room);
      assert [cs[0]] + cs[1..] == cs;
    }
  }

  lemma HeaderParses(m: Macaroon, t: Bytes, room: Room)
    requires Representable(m)
    ensures ParseHeaderSpec(EncodeHeader(m) + t, room) == Good((m.location, m.identifier), t)
  {
    hide ParseOptionalSpec, ParseRequiredSpec, Pack;
    var s2 := [EOS] + t;
    var s1 := Field(TYPE_IDENTIFIER, m.identifier) + s2;
    RequiredParses(TYPE_IDENTIFIER, m.identifier, s2, room);
    OptionalParses(TYPE_LOCATION, m.location, s1, room);
    assert (EncodeHeader(m) + t)[1..] == OptField(TYPE_LOCATION, m.location) + s1;
    assert s2[1..] == t;
  }

  lemma TrailerParses(m: Macaroon, t: Bytes, room: Room)
    requires Representable(m)
    ensures ParseTrailerSpec(EncodeTrailer(m) + t, room) == Good(m.signature, t)
  {
    hide ParseRequiredSpec, Field;
    RequiredParses(TYPE_SIGNATURE, m.signature, t, room);
    assert (EncodeTrailer(m) + t)[1..] == Field(TYPE_SIGNATURE, m.signature) + t;
  }

  /** Parsing what was printed, whatever bytes follow it, gives the macaroon back and stops where it ended. */
  lemma RoundTrip(m: Macaroon, t: Bytes, room: Room)
    requires Representable(m)
    ensures Decode(Encode(m) + t, room) == Good(m, t)
  {
    hide ParseHeaderSpec, ParseCaveatsSpec, ParseTrailerSpec, EncodeHeader, EncodeCaveats, EncodeTrailer;
    var s2 := EncodeTrailer(m) + t;
    var s1 := EncodeCaveats(m.caveats) + s2;
    assert Encode(m) + t == EncodeHeader(m) + s1;
    HeaderParses(m, s1, room);
    TrailerStarts(m, t);
    CaveatsParse(m.caveats, s2, room);
    TrailerParses(m, t, room);
  }

  lemma TrailerStarts(m: Macaroon, t: Bytes)
    ensures EncodeTrailer(m) + t != [] && (EncodeTrailer(m) + t)[0] == EOS
  {
  }

  /** No encoding is another one followed by something: the format is injective and prefix-free. */
  lemma PrefixFree(m: Macaroon, m': Macaroon, t: Bytes, t': Bytes)
    requires Representable(m) && Representable(m') && Encode(m) + t == Encode(m') + t'
    ensures m == m' && t == t'
  {
    hide Decode;
    RoundTrip(m, t, 1);
    RoundTrip(m', t', 1);
  }

  // ---------- printing again is never longer ----------

  /** `rest` is what remains of `s` after at least `n` bytes. */
  predicate Remains(s: Bytes, rest: Bytes, n: nat) {
    n + |rest| <= |s| && rest == s[|s| - |rest|..]
  }

  lemma RemainsTrans(s: Bytes, s1: Bytes, s2: Bytes, n1: nat, n2: nat)
    requires Remains(s, s1, n1) && Remains(s1, s2, n2)
    ensures Remains(s, s2, n1 + n2)
  {
  }

  lemma EosRemains(s: Bytes)
    requires s != []
    ensures Remains(s, s[1..], 1)
  {
  }

  lemma FieldShrinks(s: Bytes, room: Room)
    requires ParseFieldSpec(s, room).Good?
    ensures var r := ParseFieldSpec(s, room);
      && Remains(s, r.rest, |Field(r.value.ty, r.value.payload)|)
      && |r.value.payload| < U64
  {
    hide Pack;
    var (ty, n) := Unpack(s).value;
    PackShortest(s[n..]);
  }

  lemma OptionalShrinks(s: Bytes, ty: byte, room: Room)
    requires ParseOptionalSpec(s, ty, room).Good?
    ensures var r := ParseOptionalSpec(s, ty, room);
      && Remains(s, r.rest, |OptField(ty, r.value)|)
      && |r.value| < U64
  {
    hide ParseFieldSpec, Pack;
    if s[0] == ty { FieldShrinks(s, room); }
  }

  lemma RequiredShrinks(s: Bytes, ty: byte, room: Room)
    requires ParseRequiredSpec(s, ty, room).Good?
    ensures var r := ParseRequiredSpec(s, ty, room);
      && Remains(s, r.rest, |Field(ty, r.value)|)
      && |r.value| < U64
  {
    hide ParseFieldSpec, Pack;
    FieldShrinks(s, room);
  }

  lemma CaveatShrinks(s: Bytes, room: Room)
    requires ParseCaveatSpec(s, room).Good?
    ensures var r := ParseCaveatSpec(s, room); Remains(s, r.rest, |EncodeCaveat(r.value)|) && CaveatFits(r.value)
  {
    hide ParseOptionalSpec, ParseRequiredSpec, Field, OptField, Remains;
    OptionalShrinks(s, TYPE_LOCATION, room);
    var r1 := ParseOptionalSpec(s, TYPE_LOCATION, room);
    RequiredShrinks(r1.rest, TYPE_IDENTIFIER, room);
    var r2 := ParseRequiredSpec(r1.rest, TYPE_IDENTIFIER, room);
    OptionalShrinks(r2.rest, TYPE_VID, room);
    var r3 := ParseOptionalSpec(r2.rest, TYPE_VID, room);
    RemainsTrans(s, r1.rest, r2.rest, |OptField(TYPE_LOCATION, r1.value)|, |Field(TYPE_IDENTIFIER, r2.value)|);
    RemainsTrans(s, r2.rest, r3.rest,
      |OptField(TYPE_LOCATION, r1.value)| + |Field(TYPE_IDENTIFIER, r2.value)|, |OptField(TYPE_VID, r3.value)|);
    EosRemains(r3.rest);
    RemainsTrans(s, r3.rest, r3.rest[1..],
      |OptField(TYPE_LOCATION, r1.value)| + |Field(TYPE_IDENTIFIER, r2.value)| + |OptField(TYPE_VID, r3.value)|, 1);
  }

  lemma {:induction false} CaveatsShrink(s: Bytes, room: Room)
    requires ParseCaveatsSpec(s, room).Good?
    ensures var r := ParseCaveatsSpec(s, room);
      Remains(s, r.rest, |EncodeCaveats(r.value)|) && forall c <- r.value :: CaveatFits(c)
    decreases |s|
  {
    hide ParseCaveatSpec, EncodeCaveat;
    if s != [] && s[0] != EOS {
      CaveatShrinks(s, room);
      var r1 := ParseCaveatSpec(s, room);
      CaveatsShrink(r1.rest, room);
      var r2 := ParseCaveatsSpec(r1.rest, room);
      RemainsTrans(s, r1.rest, r2.rest, |EncodeCaveat(r1.value)|, |EncodeCaveats(r2.value)|);
      assert ([r1.value] + r2.value)[1..] == r2.value;
    }
  }

  lemma HeaderShrinks(s: Bytes, room: Room)
    requires ParseHeaderSpec(s, room).Good?
    ensures var r := ParseHeaderSpec(s, room);
      && |r.value.0| < U64 && |r.value.1| < U64
      && forall m: Macaroon :: m.location == r.value.0 && m.identifier == r.value.1 ==>
           Remains(s, r.rest, |EncodeHeader(m)|)
  {
    hide ParseOptionalSpec, ParseRequiredSpec, Field, OptField;
    OptionalShrinks(s[1..], TYPE_LOCATION, room);
    var r1 := ParseOptionalSpec(s[1..], TYPE_LOCATION, room);
    RequiredShrinks(r1.rest, TYPE_IDENTIFIER, room);
    var r2 := ParseRequiredSpec(r1.rest, TYPE_IDENTIFIER, room);
    RemainsTrans(s[1..], r1.rest, r2.rest, |OptField(TYPE_LOCATION, r1.value)|, |Field(TYPE_IDENTIFIER, r2.value)|);
  }

  lemma TrailerShrinks(s: Bytes, room: Room)
    requires ParseTrailerSpec(s, room).Good?
    ensures var r := ParseTrailerSpec(s, room);
      && |r.value| < U64
      && forall m: Macaroon :: m.signature == r.value ==> Remains(s, r.rest, |EncodeTrailer(m)|)
  {
    hide ParseRequiredSpec, Field;
    RequiredShrinks(s[1..], TYPE_SIGNATURE, room);
  }

  /** Whatever the parser accepts prints again in no more bytes than it read, and reads back the same. */
  lemma Canonical(s: Bytes, room: Room)
    requires Decode(s, room).Good?
    ensures var r := Decode(s, room);
      && Representable(r.value)
      && Remains(s, r.rest, |Encode(r.value)|)
      && Decode(Encode(r.value), room) == Good(r.value, [])
  {
    hide ParseHeaderSpec, ParseCaveatsSpec, ParseTrailerSpec, EncodeHeader, EncodeCaveats, EncodeTrailer;
    var m := Decode(s, room).value;
    HeaderShrinks(s, room);
    var r1 := ParseHeaderSpec(s, room);
    CaveatsShrink(r1.rest, room);
    var r2 := ParseCaveatsSpec(r1.rest, room);
    TrailerShrinks(r2.rest, room);
    var r3 := ParseTrailerSpec(r2.rest, room);
    RemainsTrans(s, r1.rest, r2.rest, |EncodeHeader(m)|, |EncodeCaveats(m.caveats)|);
    RemainsTrans(s, r2.rest, r3.rest, |EncodeHeader(m)| + |EncodeCaveats(m.caveats)|, |EncodeTrailer(m)|);
    RoundTrip(m, [], room);
    assert Encode(m) + [] == Encode(m);
  }

  // ---------- the size hint and the printer ----------

  method RequiredFieldSize(f: Bytes) returns (sz: nat)
    requires |f| < U64
    ensures forall ty :: sz == |Field(ty, f)|
  {
    var n := VarintLength(|f|);
    return 1 + n + |f|;
  }

  method OptionalFieldSize(f: Bytes) returns (sz: nat)
    requires |f| < U64
    ensures forall ty :: sz == |OptField(ty, f)|
  {
    if |f| > 0 {
      sz := RequiredFieldSize(f);
    } else {
      sz := 0;
    }
  }

  lemma {:induction false} EncodeCaveatsSnoc(cs: seq<Caveat>, c: Caveat)
    ensures EncodeCaveats(cs + [c]) == EncodeCaveats(cs) + EncodeCaveat(c)
  {
    hide EncodeCaveat;
    if cs == [] {
      assert EncodeCaveats([c]) == EncodeCaveat(c) + EncodeCaveats([c][1..]);
    } else {
      EncodeCaveatsSnoc(cs[1..], c);
      assert (cs + [c])[1..] == cs[1..] + [c];
      var a, b := EncodeCaveat(cs[0]), EncodeCaveats(cs[1..]);
      assert a + (b + EncodeCaveat(c)) == a + b + EncodeCaveat(c);
    }
  }

  /** The size hint counts one end-of-section byte more than is ever written. */
  method SizeHint(m: Macaroon) returns (sz: nat)
    requires Representable(m)
    ensures sz == |Encode(m)| + 1
  {
    hide Field, OptField;
    var a := OptionalFieldSize(m.location);
    var b := RequiredFieldSize(m.identifier);
    var c := RequiredFieldSize(m.signature);
    sz := 4 + a + b + c;
    ghost var base := sz;
    assert base == |EncodeHeader(m)| + |EncodeTrailer(m)| + 1;
    for i := 0 to |m.caveats|
      invariant sz == base + |EncodeCaveats(m.caveats[..i])|
    {
      assert m.caveats[i] in m.caveats && CaveatFits(m.caveats[i]);
      assert m.caveats[..i + 1] == m.caveats[..i] + [m.caveats[i]];
      EncodeCaveatsSnoc(m.caveats[..i], m.caveats[i]);
      var x := OptionalFieldSize(m.caveats[i].cl);
      var y := RequiredFieldSize(m.caveats[i].cid);
      var z := OptionalFieldSize(m.caveats[i].vid);
      sz := sz + x + y + z + 1;
    }
    assert m.caveats[..|m.caveats|] == m.caveats;
  }

  method EmitRequiredField(ty: byte, f: Bytes, data: array<byte>, ptr0: nat) returns (ok: bool, ptr: nat)
    requires |f| < U64 && ptr0 <= data.Length
    modifies data
    ensures ok <==> ptr0 + |Field(ty, f)| <= data.Length
    ensures ok ==> ptr == ptr0 + |Field(ty, f)| && Wrote(old(data[..]), data[..], ptr0, Field(ty, f))
    ensures !ok ==> ptr == ptr0 && data[..] == old(data[..])
  {
    hide Pack, Wrote;
    var n := VarintLength(|f|);
    if ptr0 + (1 + n + |f|) > data.Length {
      return false, ptr0;
    }
    ghost var s0 := data[..];
    PutByte(ty, data, ptr0);
    ghost var s1 := data[..];
    ptr := PackVarint(|f|, data, ptr0 + 1);
    ghost var s2 := data[..];
    WroteMore(s0, s1, s2, ptr0, [ty], Pack(|f|));
    Memmove(f, data, ptr);
    WroteMore(s0, s2, data[..], ptr0, [ty] + Pack(|f|), f);
    ptr := ptr + |f|;
    ok := true;
  }

  method EmitOptionalField(ty: byte, f: Bytes, data: array<byte>, ptr0: nat) returns (ok: bool, ptr: nat)
    requires |f| < U64 && ptr0 <= data.Length
    modifies data
    ensures ok <==> ptr0 + |OptField(ty, f)| <= data.Length
    ensures ok ==> ptr == ptr0 + |OptField(ty, f)| && Wrote(old(data[..]), data[..], ptr0, OptField(ty, f))
    ensures !ok ==> ptr == ptr0 && data[..] == old(data[..])
  {
    hide Field;
    if |f| > 0 {
      ok, ptr := EmitRequiredField(ty, f, data, ptr0);
    } else {
      ok, ptr := true, ptr0;
    }
  }

  method EmitEos(data: array<byte>, ptr0: nat) returns (ok: bool, ptr: nat)
    requires ptr0 <= data.Length
    modifies data
    ensures ok <==> ptr0 + 1 <= data.Length
    ensures ok ==> ptr == ptr0 + 1 && Wrote(old(data[..]), data[..], ptr0, [EOS])
    ensures !ok ==> ptr == ptr0 && data[..] == old(data[..])
  {
    if ptr0 >= data.Length { return false, ptr0; }
    data[ptr0] := EOS;
    return true, ptr0 + 1;
  }

  /** A location, when there is one, and an identifier. */
  method EmitNames(location: Bytes, identifier: Bytes, data: array<byte>, ptr0: nat) returns (ok: bool, ptr: nat)
    requires |location| < U64 && |identifier| < U64 && ptr0 <= data.Length
    modifies data
    ensures ok <==> ptr0 + |OptField(TYPE_LOCATION, location)| + |Field(TYPE_IDENTIFIER, identifier)| <= data.Length
    ensures ok ==> ptr == ptr0 + |OptField(TYPE_LOCATION, location)| + |Field(TYPE_IDENTIFIER, identifier)|
    ensures ok ==>
      Wrote(old(data[..]), data[..], ptr0, OptField(TYPE_LOCATION, location) + Field(TYPE_IDENTIFIER, identifier))
  {
    hide Field, OptField, Wrote;
    ghost var s0 := data[..];
    ok, ptr := EmitOptionalField(TYPE_LOCATION, location, data, ptr0);
    if !ok { return; }
    ghost var s1 := data[..];
    ok, ptr := EmitRequiredField(TYPE_IDENTIFIER, identifier, data, ptr);
    if !ok { return; }
    WroteMore(s0, s1, data[..], ptr0, OptField(TYPE_LOCATION, location), Field(TYPE_IDENTIFIER, identifier));
  }

  lemma EncodeCaveatIs(c: Caveat)
    requires CaveatFits(c)
    ensures EncodeCaveat(c)
      == OptField(TYPE_LOCATION, c.cl) + Field(TYPE_IDENTIFIER, c.cid) + OptField(TYPE_VID, c.vid) + [EOS]
    ensures |EncodeCaveat(c)|
      == |OptField(TYPE_LOCATION, c.cl)| + |Field(TYPE_IDENTIFIER, c.cid)| + |OptField(TYPE_VID, c.vid)| + 1
  {
    hide Field, OptField;
  }

  /** The four emits of the loop body. */
  method EmitCaveat(c: Caveat, data: array<byte>, ptr0: nat) returns (ok: bool, ptr: nat)
    requires CaveatFits(c) && ptr0 <= data.Length
    modifies data
    ensures ok <==> ptr0 + |EncodeCaveat(c)| <= data.Length
    ensures ok ==> ptr == ptr0 + |EncodeCaveat(c)| && Wrote(old(data[..]), data[..], ptr0, EncodeCaveat(c))
  {
    hide Field, OptField, Wrote, EncodeCaveat;
    EncodeCaveatIs(c);
    ghost var s0, vid := data[..], OptField(TYPE_VID, c.vid);
    ghost var names := OptField(TYPE_LOCATION, c.cl) + Field(TYPE_IDENTIFIER, c.cid);
    ok, ptr := EmitNames(c.cl, c.cid, data, ptr0);
    if !ok { return; }
    ghost var s1 := data[..];
    ok, ptr := EmitOptionalField(TYPE_VID, c.vid, data, ptr);
    if !ok { return; }
    ghost var s2 := data[..];
    WroteMore(s0, s1, s2, ptr0, names, vid);
    ok, ptr := EmitEos(data, ptr);
    if !ok { return; }
    WroteMore(s0, s2, data[..], ptr0, names + vid, [EOS]);
  }

  /** What follows the version byte. */
  function HeaderFields(m: Macaroon): Bytes {
    OptField(TYPE_LOCATION, m.location) + Field(TYPE_IDENTIFIER, m.identifier) + [EOS]
  }

  lemma EncodeHeaderIs(m: Macaroon)
    ensures EncodeHeader(m) == [VERSION] + HeaderFields(m) && |EncodeHeader(m)| == 1 + |HeaderFields(m)|
  {
    hide Field, OptField;
  }

  method EmitHeader(m: Macaroon, data: array<byte>) returns (ok: bool, ptr: nat)
    requires Representable(m)
    modifies data
    ensures ok <==> |EncodeHeader(m)| <= data.Length
    ensures ok ==> ptr == |EncodeHeader(m)| && Wrote(old(data[..]), data[..], 0, EncodeHeader(m))
  {
    hide HeaderFields, Wrote, EncodeHeader;
    EncodeHeaderIs(m);
    ghost var s0 := data[..];
    if 0 >= data.Length { return false, 0; }
    PutByte(VERSION, data, 0);
    ghost var s1 := data[..];
    ok, ptr := EmitHeaderFields(m, data, 1);
    if !ok { return; }
    WroteMore(s0, s1, data[..], 0, [VERSION], HeaderFields(m));
  }

  method EmitHeaderFields(m: Macaroon, data: array<byte>, ptr0: nat) returns (ok: bool, ptr: nat)
    requires Representable(m) && ptr0 <= data.Length
    modifies data
    ensures ok <==> ptr0 + |HeaderFields(m)| <= data.Length
    ensures ok ==> ptr == ptr0 + |HeaderFields(m)| && Wrote(old(data[..]), data[..], ptr0, HeaderFields(m))
  {
    hide Field, OptField, Wrote;
    ghost var s0, names := data[..], OptField(TYPE_LOCATION, m.location) + Field(TYPE_IDENTIFIER, m.identifier);
    ok, ptr := EmitNames(m.location, m.identifier, data, ptr0);
    if !ok { return; }
    ghost var s1 := data[..];
    ok, ptr := EmitEos(data, ptr);
    if !ok { return; }
    WroteMore(s0, s1, data[..], ptr0, names, [EOS]);
  }

  lemma {:induction false} EncodeCaveatsPrefix(cs: seq<Caveat>, n: nat)
    requires n <= |cs|
    ensures |EncodeCaveats(cs[..n])| <= |EncodeCaveats(cs)|
    decreases |cs| - n
  {
    if n < |cs| {
      EncodeCaveatsPrefix(cs, n + 1);
      assert cs[..n + 1] == cs[..n] + [cs[n]];
      EncodeCaveatsSnoc(cs[..n], cs[n]);
    } else {
      assert cs[..n] == cs;
    }
  }

  /** The loop over the caveats. */
  method EmitCaveats(cs: seq<Caveat>, data: array<byte>, ptr0: nat) returns (ok: bool, ptr: nat)
    requires (forall c <- cs :: CaveatFits(c)) && ptr0 <= data.Length
    modifies data
    ensures ok <==> ptr0 + |EncodeCaveats(cs)| <= data.Length
    ensures ok ==> ptr == ptr0 + |EncodeCaveats(cs)| && Wrote(old(data[..]), data[..], ptr0, EncodeCaveats(cs))
  {
    hide Wrote, EncodeCaveat, EncodeCaveats;
    ghost var s0 := data[..];
    ok, ptr := true, ptr0;
    WroteNothing(s0, ptr);
    EncodeNoCaveats();
    for i := 0 to |cs|
      invariant ptr == ptr0 + |EncodeCaveats(cs[..i])| && ptr <= data.Length
      invariant Wrote(s0, data[..], ptr0, EncodeCaveats(cs[..i]))
    {
      ghost var s := data[..];
      assert cs[..i + 1] == cs[..i] + [cs[i]];
      EncodeCaveatsSnoc(cs[..i], cs[i]);
      EncodeCaveatsPrefix(cs, i + 1);
      ok, ptr := EmitCaveat(cs[i], data, ptr);
      if !ok { return; }
      WroteMore(s0, s, data[..], ptr0, EncodeCaveats(cs[..i]), EncodeCaveat(cs[i]));
    }
    assert cs[..|cs|] == cs;
    ok := true;
  }

  lemma EncodeNoCaveats()
    ensures EncodeCaveats([]) == []
  {
  }

  method EmitTrailer(m: Macaroon, data: array<byte>, ptr0: nat) returns (ok: bool, ptr: nat)
    requires Representable(m) && ptr0 <= data.Length
    modifies data
    ensures ok <==> ptr0 + |EncodeTrailer(m)| <= data.Length
    ensures ok ==> ptr == ptr0 + |EncodeTrailer(m)| && Wrote(old(data[..]), data[..], ptr0, EncodeTrailer(m))
  {
    hide Field, Wrote;
    ghost var s0 := data[..];
    ok, ptr := EmitEos(data, ptr0);
    if !ok { return; }
    ghost var s1 := data[..];
    ok, ptr := EmitRequiredField(TYPE_SIGNATURE, m.signature, data, ptr);
    if !ok { return; }
    WroteMore(s0, s1, data[..], ptr0, [EOS], Field(TYPE_SIGNATURE, m.signature));
  }

  lemma EncodeLength(m: Macaroon)
    ensures |Encode(m)| == |EncodeHeader(m)| + |EncodeCaveats(m.caveats)| + |EncodeTrailer(m)|
    ensures |Encode(m)| > 0
  {
  }

  /** macaroon_serialize_v2: all of the encoding when it fits the buffer, 0 otherwise. */
  method Serialize(m: Macaroon, data: array<byte>) returns (n: nat)
    requires Representable(m)
    modifies data
    ensures n == if |Encode(m)| <= data.Length then |Encode(m)| else 0
    ensures n > 0 ==> Wrote(old(data[..]), data[..], 0, Encode(m))
  {
    hide Wrote, Encode, EncodeHeader, EncodeCaveats, EncodeTrailer, Representable;
    EncodeLength(m);
    FitsParts(m);
    EncodeIs(m);
    ghost var s0, a, b, c := data[..], EncodeHeader(m), EncodeCaveats(m.caveats), EncodeTrailer(m);
    var ok, ptr := EmitHeader(m, data);
    if !ok { return 0; }
    ghost var s1 := data[..];
    ok, ptr := EmitCaveats(m.caveats, data, ptr);
    if !ok { return 0; }
    ghost var s2 := data[..];
    WroteMore(s0, s1, s2, 0, a, b);
    ok, ptr := EmitTrailer(m, data, ptr);
    if !ok { return 0; }
    WroteMore(s0, s2, data[..], 0, a + b, c);
    return ptr;
  }

  lemma FitsParts(m: Macaroon)
    requires Representable(m)
    ensures forall c <- m.caveats :: CaveatFits(c)
  {
  }

  lemma EncodeIs(m: Macaroon)
    ensures Encode(m) == EncodeHeader(m) + EncodeCaveats(m.caveats) + EncodeTrailer(m)
  {
  }

  // ---------- the pointer comparison ----------

  /** The room behind a buffer of `n` bytes at address `base`. */
  function RoomBehind(base: nat, n: nat): Room
    requires base + n < U64
  {
    U64 - base - n
  }

  /** `data + length > end`, on addresses: the sum is formed in 64 bits. */
  predicate EndsBeyond(base: nat, n: nat, data: nat, length: nat) {
    (base + data + length) % U64 > base + n
  }

  /** It is the check that the payload lies inside the buffer if and only if the sum does not wrap. */
  lemma ComparisonExact(base: nat, n: nat, data: nat, length: nat)
    requires base + n < U64 && data <= n && length < U64
    ensures (EndsBeyond(base, n, data, length) <==> data + length > n) <==> base + data + length < U64
  {
    if base + data + length < U64 {
      DivModUnique(base + data + length, 0, base + data + length, U64);
    } else {
      DivModUnique(base + data + length, 1, base + data + length - U64, U64);
    }
  }

  /** What reaches a wrapping length is accepted by the comparison, although the payload is not there. */
  lemma WrapPasses(s: Bytes, base: nat, n: nat)
    requires |s| <= n && base + n < U64 && ParseFieldSpec(s, RoomBehind(base, n)).Wraps?
    ensures var (ty, i) := Unpack(s).value;
      var (length, k) := Unpack(s[i..]).value;
      var data := n - |s| + i + k;
      data + length > n && !EndsBeyond(base, n, data, length)
  {
    hide Unpack;
    UnpackWithin(s);
    var i := Unpack(s).value.1;
    UnpackWithin(s[i..]);
    ComparisonExact(base, n, n - |s| + i + Unpack(s[i..]).value.1, Unpack(s[i..]).value.0);
  }

  /** Ten groups of ones: 2^64 - 1. */
  lemma {:induction false} PackOnes(k: nat)
    ensures Pack(2 * Power(128, k) - 1) == seq(k, _ => 0xff) + [1]
  {
    if k > 0 {
      PackOnes(k - 1);
      PowerNext(128, k - 1);
      var v := 2 * Power(128, k - 1) - 1;
      PackFirst([], 128 * v + 127);
      assert seq(k, _ => 0xff) == [0xff] + seq(k - 1, _ => 0xff);
    }
  }

  /** An empty identifier, no caveats, and a signature that claims 2^64 - 1 bytes. */
  const WRAPPING: Bytes := [2, 2, 1, 7, 0, 0] + HUGE_SIGNATURE

  const HUGE_SIGNATURE: Bytes := [6] + (seq(9, _ => 0xff) + [1])

  /** Wherever a buffer with these seventeen bytes lies, the code is led to a wrapping sum. */
  lemma WrappingInput(base: nat)
    requires base + |WRAPPING| < U64
    ensures Decode(WRAPPING, RoomBehind(base, |WRAPPING|)) == Wraps
  {
    hide ParseHeaderSpec, ParseTrailerSpec, RoomBehind;
    var room := RoomBehind(base, |WRAPPING|);
    WrappingHeader(room);
    ParseCaveatsStop([0] + HUGE_SIGNATURE, room);
    assert room <= U64 - |WRAPPING| by { RoomLimit(base, |WRAPPING|); }
    WrappingTrailer(room);
  }

  lemma RoomLimit(base: nat, n: nat)
    requires base + n < U64
    ensures RoomBehind(base, n) <= U64 - n
  {
  }

  lemma WrappingHeader(room: Room)
    ensures ParseHeaderSpec(WRAPPING, room) == Good(([], [7]), [0] + HUGE_SIGNATURE)
  {
    hide ParseFieldSpec;
    assert Pack(1) == [1];
    var rest := [0] + ([0] + HUGE_SIGNATURE);
    FieldParses(TYPE_IDENTIFIER, [7], rest, room);
    assert WRAPPING[1..] == Field(TYPE_IDENTIFIER, [7]) + rest;
    assert rest[1..] == [0] + HUGE_SIGNATURE;
  }

  lemma WrappingTrailer(room: Room)
    requires room < U64
    ensures ParseTrailerSpec([0] + HUGE_SIGNATURE, room) == Wraps
  {
    hide Unpack, Pack, Power;
    var digits := seq(9, _ => 0xff) + [1];
    assert ([0] + HUGE_SIGNATURE)[1..] == HUGE_SIGNATURE && HUGE_SIGNATURE[1..] == digits;
    PackSmall(TYPE_SIGNATURE, digits);
    PackOnes(9);
    NinePower();
    PackUnpack(U64 - 1, []);
    assert digits + [] == digits;
  }

  lemma NinePower()
    ensures 2 * Power(128, 9) == U64
  {
    assert Power(128, 3) == 2097152;
    PowerAdd(128, 3, 3);
    PowerAdd(128, 6, 3);
  }

  // ---------- the parser ----------

  /** The result of a parse method, as the specification states it, for a cursor moved to `pos`. */
  ghost function At<T>(s: Bytes, ok: bool, v: T, pos: nat): Parsed<T>
    requires ok ==> pos <= |s|
  {
    if ok then Good(v, s[pos..]) else Bad
  }

  method ParseField(s: Bytes, base: nat, pos0: nat) returns (ok: bool, f: Raw, pos: nat)
    requires pos0 <= |s|
    requires base + |s| < U64 && !ParseFieldSpec(s[pos0..], RoomBehind(base, |s|)).Wraps?
    ensures pos <= |s| && At(s, ok, f, pos) == ParseFieldSpec(s[pos0..], RoomBehind(base, |s|))
  {
    hide Unpack;
    ok, f, pos := false, Raw(0, []), pos0;
    if pos0 >= |s| { UnpackEmpty(); return; }
    var field := UnpackVarint(s[pos0..]);
    if field.None? { return; }
    UnpackWithin(s[pos0..]);
    var data := pos0 + field.value.1;
    assert s[pos0..][field.value.1..] == s[data..];
    var length := UnpackVarint(s[data..]);
    if length.None? { return; }
    UnpackWithin(s[data..]);
    data := data + length.value.1;
    var ty, len := field.value.0, length.value.0;
    if ty % 256 != ty { return; }
    ComparisonExact(base, |s|, data, len);
    if (base + data + len) % U64 > base + |s| { return; }
    assert s[pos0..][data - pos0..data - pos0 + len] == s[data..data + len];
    assert s[pos0..][data - pos0 + len..] == s[data + len..];
    return true, Raw(ty, s[data..data + len]), data + len;
  }

  lemma UnpackEmpty()
    ensures Unpack([]) == None
  {
  }

  lemma UnpackWithin(s: Bytes)
    requires Unpack(s).Some?
    ensures Unpack(s).value.1 <= |s| && Unpack(s).value.0 < U64
  {
  }

  /** The type byte that parse_optional_field and parse_required_field looked at is the type they parsed. */
  lemma TypeAsserted(s: Bytes, ty: byte, room: Room)
    requires s != [] && s[0] == ty && ty < 128 && ParseFieldSpec(s, room).Good?
    ensures ParseFieldSpec(s, room).value.ty == ty
  {
    hide Pack;
    assert s == [ty] + s[1..];
    PackSmall(ty, s[1..]);
  }

  method ParseOptionalField(s: Bytes, base: nat, pos0: nat, ty: byte) returns (ok: bool, d: Bytes, pos: nat)
    requires pos0 <= |s| && ty < 128
    requires base + |s| < U64 && !ParseOptionalSpec(s[pos0..], ty, RoomBehind(base, |s|)).Wraps?
    ensures pos <= |s| && At(s, ok, d, pos) == ParseOptionalSpec(s[pos0..], ty, RoomBehind(base, |s|))
  {
    ghost var room := RoomBehind(base, |s|);
    hide ParseFieldSpec;
    if pos0 >= |s| { return false, [], pos0; }
    if s[pos0] != ty { return true, [], pos0; }
    var f;
    ok, f, pos := ParseField(s, base, pos0);
    if ok {
      TypeAsserted(s[pos0..], ty, room);
      assert f.ty == ty;
    }
    d := f.payload;
  }

  method ParseRequiredField(s: Bytes, base: nat, pos0: nat, ty: byte) returns (ok: bool, d: Bytes, pos: nat)
    requires pos0 <= |s| && ty < 128
    requires base + |s| < U64 && !ParseRequiredSpec(s[pos0..], ty, RoomBehind(base, |s|)).Wraps?
    ensures pos <= |s| && At(s, ok, d, pos) == ParseRequiredSpec(s[pos0..], ty, RoomBehind(base, |s|))
  {
    ghost var room := RoomBehind(base, |s|);
    hide ParseFieldSpec;
    if pos0 >= |s| { return false, [], pos0; }
    if s[pos0] != ty { return false, [], pos0; }
    var f;
    ok, f, pos := ParseField(s, base, pos0);
    if ok {
      TypeAsserted(s[pos0..], ty, room);
      assert f.ty == ty;
    }
    d := f.payload;
  }

  /** Moves the cursor on even when it fails. */
  method ParseEos(s: Bytes, pos0: nat) returns (ok: bool, pos: nat)
    requires pos0 <= |s|
    ensures pos == pos0 + 1
    ensures ok ==> pos <= |s|
    ensures At(s, ok, (), pos) == ParseEosSpec(s[pos0..])
  {
    ok := !(pos0 >= |s| || s[pos0] != EOS);
    pos := pos0 + 1;
  }

  /** The four parses of the loop body. */
  method ParseCaveat(s: Bytes, base: nat, pos0: nat) returns (ok: bool, c: Caveat, pos: nat)
    requires pos0 <= |s|
    requires base + |s| < U64 && !ParseCaveatSpec(s[pos0..], RoomBehind(base, |s|)).Wraps?
    ensures ok ==> pos <= |s|
    ensures At(s, ok, c, pos) == ParseCaveatSpec(s[pos0..], RoomBehind(base, |s|))
  {
    hide ParseOptionalSpec, ParseRequiredSpec, ParseEosSpec;
    c := Caveat([], [], []);
    var cl, cid, vid;
    ok, cl, pos := ParseOptionalField(s, base, pos0, TYPE_LOCATION);
    if !ok { return; }
    ok, cid, pos := ParseRequiredField(s, base, pos, TYPE_IDENTIFIER);
    if !ok { return; }
    ok, vid, pos := ParseOptionalField(s, base, pos, TYPE_VID);
    if !ok { return; }
    ok, pos := ParseEos(s, pos);
    c := Caveat(cid, vid, cl);
  }

  /** What the caveats parsed so far and those still to come make together. */
  function Continue(done: seq<Caveat>, r: Parsed<seq<Caveat>>): Parsed<seq<Caveat>> {
    match r
    case Bad => Bad
    case Wraps => Wraps
    case Good(cs, rest) => Good(done + cs, rest)
  }

  lemma ContinueStep(done: seq<Caveat>, s: Bytes, room: Room)
    requires s != [] && s[0] != EOS
    ensures ParseCaveatSpec(s, room).Bad? ==> Continue(done, ParseCaveatsSpec(s, room)) == Bad
    ensures ParseCaveatSpec(s, room).Wraps? ==> ParseCaveatsSpec(s, room) == Wraps
    ensures ParseCaveatSpec(s, room).Good? ==>
      Continue(done, ParseCaveatsSpec(s, room)) ==
      Continue(done + [ParseCaveatSpec(s, room).value], ParseCaveatsSpec(ParseCaveatSpec(s, room).rest, room))
  {
    hide ParseCaveatSpec;
    if ParseCaveatSpec(s, room).Good? {
      var c, rest := ParseCaveatSpec(s, room).value, ParseCaveatSpec(s, room).rest;
      if ParseCaveatsSpec(rest, room).Good? {
        var cs := ParseCaveatsSpec(rest, room).value;
        assert done + ([c] + cs) == done + [c] + cs;
      }
    }
  }

  /** The loop over the caveats, with the table that doubles when it is full. */
  method ParseCaveats(s: Bytes, base: nat, pos0: nat) returns (ok: bool, cs: seq<Caveat>, pos: nat, bodySz: nat)
    requires pos0 <= |s|
    requires base + |s| < U64 && !ParseCaveatsSpec(s[pos0..], RoomBehind(base, |s|)).Wraps?
    ensures ok ==> pos <= |s| && bodySz == CaveatsSize(cs)
    ensures At(s, ok, cs, pos) == ParseCaveatsSpec(s[pos0..], RoomBehind(base, |s|))
  {
    ghost var room := RoomBehind(base, |s|);
    hide ParseCaveatSpec, ParseCaveatsSpec, CaveatsSize;
    bodySz := 0;
    CaveatsSizeEmpty();
    var caveats := new Caveat[4](_ => Caveat([], [], []));
    var caveatsSz := 0;
    pos := pos0;
    ContinueNone(s[pos0..], room);
    while pos < |s| && s[pos] != EOS
      invariant pos <= |s| && caveatsSz <= caveats.Length && caveats.Length >= 4
      invariant Continue(caveats[..caveatsSz], ParseCaveatsSpec(s[pos..], room)) == ParseCaveatsSpec(s[pos0..], room)
      invariant fresh(caveats) && bodySz == CaveatsSize(caveats[..caveatsSz])
      decreases |s| - pos
    {
      ghost var done := caveats[..caveatsSz];
      ContinueStep(done, s[pos..], room);
      var c;
      ok, c, pos := ParseCaveat(s, base, pos);
      if !ok { return false, [], pos, 0; }
      if caveatsSz == caveats.Length {
        caveats := Doubled(caveats);
      }
      assert caveats[..caveatsSz] == done;
      caveats[caveatsSz] := c;
      caveatsSz := caveatsSz + 1;
      assert caveats[..caveatsSz] == done + [c];
      CaveatsSizeSnoc(done, c);
      bodySz := bodySz + |c.cid| + |c.vid| + |c.cl|;
    }
    ParseCaveatsStop(s[pos..], room);
    ok, cs := true, caveats[..caveatsSz];
    assert cs + [] == cs;
  }

  lemma ContinueNone(s: Bytes, room: Room)
    ensures Continue([], ParseCaveatsSpec(s, room)) == ParseCaveatsSpec(s, room)
  {
    hide ParseCaveatsSpec;
    var r := ParseCaveatsSpec(s, room);
    if r.Good? { assert [] + r.value == r.value; }
  }

  lemma ParseCaveatsStop(s: Bytes, room: Room)
    requires s == [] || s[0] == EOS
    ensures ParseCaveatsSpec(s, room) == Good([], s)
  {
  }

  method Doubled(a: array<Caveat>) returns (b: array<Caveat>)
    requires a.Length > 0
    ensures fresh(b) && b.Length == 2 * a.Length && b[..a.Length] == a[..]
  {
    b := new Caveat[2 * a.Length](_ => Caveat([], [], []));
    forall i | 0 <= i < a.Length { b[i] := a[i]; }
  }

  /** The macaroon block, exactly filled with what was parsed. */
  method Build(location: Bytes, identifier: Bytes, signature: Bytes, cs: seq<Caveat>, bodySz: nat) returns (m: Struct)
    requires bodySz == |location| + |identifier| + CaveatsSize(cs) + |signature|
    ensures fresh(m) && m.Valid() && m.Value() == Macaroon(location, identifier, signature, cs)
    ensures m.body.Length == bodySz
  {
    hide Agree, Read, Copied, CaveatsSize;
    m := new Struct(|cs|, bodySz);
    var x, y, z, ptr;
    x, ptr := m.CopyToSlice(location, 0);
    ghost var b1, p1 := m.body[..], ptr;
    y, ptr := m.CopyToSlice(identifier, ptr);
    ghost var b2, p2 := m.body[..], ptr;
    ReadKept(b1, b2, x, p1);
    z, ptr := m.CopyToSlice(signature, ptr);
    ghost var b3, p3 := m.body[..], ptr;
    ReadKept(b2, b3, x, p2);
    ReadKept(b2, b3, y, p2);
    m.location, m.identifier, m.signature := x, y, z;
    FillCaveats(m, cs, ptr);
    ReadKept(b3, m.body[..], x, p3);
    ReadKept(b3, m.body[..], y, p3);
    ReadKept(b3, m.body[..], z, p3);
    m.numCaveats := |cs|;
    CopiedReads(m.body[..], m.caveats[..|cs|], cs, bodySz);
  }

  method FillCaveats(m: Struct, cs: seq<Caveat>, ptr0: nat)
    requires |cs| <= m.caveats.Length && m.body.Length == ptr0 + CaveatsSize(cs)
    modifies m.caveats, m.body
    ensures Agree(old(m.body[..]), m.body[..], ptr0)
    ensures Copied(m.body[..], m.caveats[..|cs|], cs, m.body.Length)
  {
    hide Agree, Read, Copied, CaveatsSize;
    ghost var b0 := m.body[..];
    var ptr := ptr0;
    CopiedStart(b0, ptr);
    for i := 0 to |cs|
      invariant ptr == ptr0 + CaveatsSize(cs[..i]) && ptr <= m.body.Length
      invariant Agree(b0, m.body[..], ptr0)
      invariant Copied(m.body[..], m.caveats[..i], cs[..i], ptr)
    {
      ghost var b, table, p := m.body[..], m.caveats[..i], ptr;
      CaveatsSizePrefix(cs, i);
      var slices;
      slices, ptr := m.CopyCaveat(cs[i], ptr);
      m.caveats[i] := slices;
      AgreeLess(b, m.body[..], p, ptr0);
      AgreeTrans(b0, b, m.body[..], ptr0);
      CopiedKept(b, m.body[..], table, cs[..i], p, ptr);
      CopiedSnoc(m.body[..], table, cs[..i], ptr, slices, cs[i]);
      assert m.caveats[..i + 1] == table + [slices] && cs[..i + 1] == cs[..i] + [cs[i]];
    }
    assert cs[..|cs|] == cs;
  }

  /** macaroon_deserialize_v2: what precedes the end of the macaroon decides; trailing bytes are ignored. */
  method Deserialize(s: Bytes, base: nat) returns (r: Option<Struct>)
    requires base + |s| < U64 && !Decode(s, RoomBehind(base, |s|)).Wraps?
    ensures match Decode(s, RoomBehind(base, |s|))
            case Bad => r == None
            case Good(m, _) => r.Some? && fresh(r.value) && r.value.Valid() && r.value.Value() == m
  {
    hide ParseOptionalSpec, ParseRequiredSpec, ParseEosSpec, ParseCaveatsSpec, CaveatsSize, Struct.Valid, Struct.Value;
    if 0 >= |s| || s[0] != VERSION { return None; }
    var ok, location, identifier, caveats, signature, pos, caveatsSz;
    ok, location, pos := ParseOptionalField(s, base, 1, TYPE_LOCATION);
    if !ok { return None; }
    ok, identifier, pos := ParseRequiredField(s, base, pos, TYPE_IDENTIFIER);
    if !ok { return None; }
    ok, pos := ParseEos(s, pos);
    if !ok { return None; }
    var bodySz := |location| + |identifier|;
    ok, caveats, pos, caveatsSz := ParseCaveats(s, base, pos);
    if !ok { return None; }
    bodySz := bodySz + caveatsSz;
    ok, pos := ParseEos(s, pos);
    if !ok { return None; }
    ok, signature, pos := ParseRequiredField(s, base, pos, TYPE_SIGNATURE);
    if !ok { return None; }
    bodySz := bodySz + |signature|;
    var m := Build(location, identifier, signature, caveats, bodySz);
    return Some(m);
  }
}
