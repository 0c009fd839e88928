/** v1.c: the first wire format, a run of packets in URL-safe base64. */
module FormatV1 {
  import opened Buffers
  import opened Bytes
  import opened Macaroons
  import opened Packet
  import opened Structs
  import Base64

  /** "location", "identifier", "signature", "cid", "vid" and "cl" */
  const LOCATION: Bytes := [108, 111, 99, 97, 116, 105, 111, 110]
  const IDENTIFIER: Bytes := [105, 100, 101, 110, 116, 105, 102, 105, 101, 114]
  const SIGNATURE: Bytes := [115, 105, 103, 110, 97, 116, 117, 114, 101]
  const CID: Bytes := [99, 105, 100]
  const VID: Bytes := [118, 105, 100]
  const CL: Bytes := [99, 108]

  const OPEN_BRACE: byte := 123

  const NO_CAVEAT := Caveat([], [], [])

  lemma Keys()
    ensures SPACE !in LOCATION && SPACE !in IDENTIFIER && SPACE !in SIGNATURE && SPACE !in CID && SPACE !in VID
      && SPACE !in CL
    ensures CID != VID && CID != CL && VID != CL && SIGNATURE != CID && SIGNATURE != VID && SIGNATURE != CL
    ensures |LOCATION| == 8 && |IDENTIFIER| == 10 && |SIGNATURE| == 9 && |CID| == 3 && |VID| == 3 && |CL| == 2
  {
    assert CID[0] != VID[0];
  }

  /** The keys as texts. */
  lemma KeyTexts()
    ensures LOCATION == Ascii("location") && IDENTIFIER == Ascii("identifier") && SIGNATURE == Ascii("signature")
    ensures CID == Ascii("cid") && VID == Ascii("vid") && CL == Ascii("cl")
    ensures OPEN_BRACE == Code('{')
  {
    assert |"location"| == 8 && |"identifier"| == 10 && |"signature"| == 9;
    assert |"cid"| == 3 && |"vid"| == 3 && |"cl"| == 2;
  }

  // ---------- the printer's side ----------

  /** The largest packet is written with four digits. */
  predicate LineFits(key: Bytes, value: Bytes) { |key| + |value| + 6 <= MAX_SIZE }

  predicate CaveatFits(c: Caveat) {
    LineFits(CID, c.cid) && LineFits(VID, c.vid) && LineFits(CL, c.cl)
  }

  predicate Printable(m: Macaroon) {
    && LineFits(LOCATION, m.location) && LineFits(IDENTIFIER, m.identifier) && LineFits(SIGNATURE, m.signature)
    && forall c <- m.caveats :: CaveatFits(c)
  }

  /** Absent fields of a caveat have no packet. */
  function OptLine(key: Bytes, value: Bytes): Bytes
    requires LineFits(key, value)
  {
    if value == [] then [] else Line(key, value)
  }

  function EncodeCaveat(c: Caveat): Bytes
    requires CaveatFits(c)
  {
    OptLine(CID, c.cid) + OptLine(VID, c.vid) + OptLine(CL, c.cl)
  }

  function EncodeCaveats(cs: seq<Caveat>): Bytes
    requires forall c <- cs :: CaveatFits(c)
  {
    if cs == [] then [] else EncodeCaveat(cs[0]) + EncodeCaveats(cs[1..])
  }

  function Encode(m: Macaroon): Bytes
    requires Printable(m)
  {
    Line(LOCATION, m.location) + Line(IDENTIFIER, m.identifier) + EncodeCaveats(m.caveats)
      + Line(SIGNATURE, m.signature)
  }

  predicate Full(c: Caveat) { c.cid != [] && c.vid != [] && c.cl != [] }

  /** A macaroon with one caveat that has all its fields, packet by packet. */
  lemma PacketsText(m: Macaroon)
    requires Printable(m) && |m.caveats| == 1
    requires CaveatFits(m.caveats[0]) && Full(m.caveats[0])
    ensures var c := m.caveats[0];
      Encode(m) == Line(Ascii("location"), m.location) + Line(Ascii("identifier"), m.identifier)
        + Line(Ascii("cid"), c.cid) + Line(Ascii("vid"), c.vid) + Line(Ascii("cl"), c.cl)
        + Line(Ascii("signature"), m.signature)
  {
    hide Line, Ascii;
    KeyTexts();
    assert m.caveats[1..] == [];
    assert EncodeCaveats(m.caveats) == EncodeCaveat(m.caveats[0]);
  }

  // ---------- the parser's side ----------

  /**
   * What the counting loop sees: packets up to the end, a broken one, or one of size zero, on
   * which it never moves on.
   */
  datatype Frames = Endless | Broken | Count(n: nat)

  function Framing(s: Bytes): Frames {
    if s == [] then Count(0)
    else
      match Next(s)
      case None => Broken
      case Some(sz) =>
        if sz == 0 then Endless
        else
          match Framing(s[sz..])
          case Count(n) => Count(n + 1)
          case f => f
  }

  /** One packet in the loop over the caveats: `cur` is the caveat being put together behind `done`. */
  datatype Step = Stop | Duplicate | Go(done: seq<Caveat>, cur: Caveat)

  function Take(kv: Option<(Bytes, Bytes)>, done: seq<Caveat>, cur: Caveat): Step {
    match kv
    case None => Stop
    case Some((key, value)) =>
      if key == CID then
        if cur.cid != [] then Go(done + [cur], NO_CAVEAT.(cid := value)) else Go(done, cur.(cid := value))
      else if key == VID then
        if cur.vid != [] then Duplicate else Go(done, cur.(vid := value))
      else if key == CL then
        if cur.cl != [] then Duplicate else Go(done, cur.(cl := value))
      else Stop
  }

  /** The tail caveat counts only with an identifier. */
  function Closed(done: seq<Caveat>, cur: Caveat): seq<Caveat> {
    if cur.cid != [] then done + [cur] else done
  }

  /**
   * The whole loop: it stops at a packet that is none of a caveat's, fails on a duplicate, or runs out of packets.
   * At the end of the buffer it looks once more at the packet it had, `stale`.
   */
  datatype Run = RanOut | Failed | Stopped(caveats: seq<Caveat>, rest: Bytes)

  function Caveats(s: Bytes, stale: Bytes, done: seq<Caveat>, cur: Caveat): Run {
    match Next(s)
    case None => if Take(KeyValue(stale), done, cur).Duplicate? then Failed else RanOut
    case Some(sz) =>
      match Take(KeyValue(s[..sz]), done, cur)
      case Stop => Stopped(Closed(done, cur), s)
      case Duplicate => Failed
      case Go(done', cur') => Caveats(s[sz..], s[..sz], done', cur')
  }

  /** The packets of a text: accepted, rejected, or such that the code does not cope with them. */
  datatype Verdict = Undefined | Rejected | Accepted(m: Macaroon)

  /** The value of the packet that `s` begins with, if its key is `key`. */
  function Typed(s: Bytes, key: Bytes): Option<Bytes> {
    match Next(s)
    case None => None
    case Some(sz) =>
      match KeyValue(s[..sz])
      case Some((k, v)) => if k == key then Some(v) else None
      case None => None
  }

  function Behind(s: Bytes): Bytes {
    match Next(s)
    case None => []
    case Some(sz) => s[sz..]
  }

  function Body(s: Bytes): Verdict {
    var s1, s2 := Behind(s), Behind(Behind(s));
    match (Typed(s, LOCATION), Typed(s1, IDENTIFIER))
    case (Some(location), Some(identifier)) =>
      (match Caveats(s2, [], [], NO_CAVEAT)
       case RanOut => Undefined
       case Failed => Rejected
       case Stopped(cs, rest) =>
         match Typed(rest, SIGNATURE)
         case Some(sig) => if |sig| == HASH_BYTES then Accepted(Macaroon(location, identifier, sig, cs)) else Rejected
         case None => Rejected)
    case _ => Rejected
  }

  function Decode(s: Bytes): Verdict {
    if s == [] || s[0] == OPEN_BRACE then Rejected
    else
      match Framing(s)
      case Endless => Undefined
      case Broken => Rejected
      case Count(n) => if n < 3 then Rejected else Body(s)
  }

  // ---------- the round trip ----------

  lemma LineFirst(key: Bytes, value: Bytes, rest: Bytes)
    requires LineFits(key, value) && SPACE !in key
    ensures var s := Line(key, value) + rest;
      && Next(s) == Some(|Line(key, value)|) && s[..|Line(key, value)|] == Line(key, value)
        && s[|Line(key, value)|..] == rest
      && KeyValue(Line(key, value)) == Some((key, value))
      && Typed(s, key) == Some(value) && Behind(s) == rest
  {
    hide Line, Next, KeyValue;
    NextOfLine(key, value, rest);
    KeyValueOfLine(key, value);
  }

  lemma FramingLine(key: Bytes, value: Bytes, rest: Bytes)
    requires LineFits(key, value) && SPACE !in key
    ensures Framing(Line(key, value) + rest) == match Framing(rest) { case Count(n) => Count(n + 1) case f => f }
  {
    hide Line, Next, KeyValue;
    LineFirst(key, value, rest);
  }

  /** While there is a packet, the one before it does not matter. */
  lemma StaleUnused(s: Bytes, stale: Bytes, stale': Bytes, done: seq<Caveat>, cur: Caveat)
    requires Next(s).Some?
    ensures Caveats(s, stale, done, cur) == Caveats(s, stale', done, cur)
  {
    hide Next, KeyValue, Take;
  }

  lemma TakeLine(key: Bytes, value: Bytes, rest: Bytes, stale: Bytes, done: seq<Caveat>, cur: Caveat)
    requires LineFits(key, value) && SPACE !in key
    ensures Next(Line(key, value) + rest).Some?
    ensures Caveats(Line(key, value) + rest, stale, done, cur) ==
      match Take(Some((key, value)), done, cur) {
        case Stop => Stopped(Closed(done, cur), Line(key, value) + rest)
        case Duplicate => Failed
        case Go(done', cur') => Caveats(rest, Line(key, value), done', cur')
      }
  {
    hide Line, Next, KeyValue, Take, Typed, Behind;
    LineFirst(key, value, rest);
  }

  /** The packets of one caveat, read behind a caveat that is complete, or at the very start. */
  lemma TakeCaveat(c: Caveat, rest: Bytes, stale: Bytes, done: seq<Caveat>, cur: Caveat)
    requires CaveatFits(c) && c.cid != [] && (cur.cid != [] || cur == NO_CAVEAT) && Next(rest).Some?
    ensures Caveats(EncodeCaveat(c) + rest, stale, done, cur) == Caveats(rest, stale, Closed(done, cur), c)
    ensures Next(EncodeCaveat(c) + rest).Some?
  {
    hide Line, Caveats, Next;
    Keys();
    var a, b, d := OptLine(CID, c.cid), OptLine(VID, c.vid), OptLine(CL, c.cl);
    assert EncodeCaveat(c) + rest == a + (b + (d + rest));
    var done' := Closed(done, cur);
    var c1 := NO_CAVEAT.(cid := c.cid);
    var c2 := c1.(vid := c.vid);
    TakeOptional(CL, c.cl, rest, stale, done', c2);
    assert c2.(cl := c.cl) == c;
    TakeOptional(VID, c.vid, d + rest, stale, done', c1);
    TakeLine(CID, c.cid, b + (d + rest), stale, done, cur);
    StaleUnused(b + (d + rest), a, stale, done', c1);
  }

  lemma TakeOptional(key: Bytes, value: Bytes, rest: Bytes, stale: Bytes, done: seq<Caveat>, cur: Caveat)
    requires LineFits(key, value) && ((key == VID && cur.vid == []) || (key == CL && cur.cl == [])) && Next(rest).Some?
    ensures Caveats(OptLine(key, value) + rest, stale, done, cur) ==
      Caveats(rest, stale, done, if key == VID then cur.(vid := value) else cur.(cl := value))
    ensures Next(OptLine(key, value) + rest).Some?
  {
    hide Line, Caveats, Next;
    Keys();
    var cur' := if key == VID then cur.(vid := value) else cur.(cl := value);
    if value == [] {
      assert OptLine(key, value) + rest == rest;
      assert cur' == cur;
    } else {
      TakeLine(key, value, rest, stale, done, cur);
      StaleUnused(rest, Line(key, value), stale, done, cur');
    }
  }

  predicate CidsPresent(cs: seq<Caveat>) { forall c <- cs :: c.cid != [] }

  lemma {:induction false} TakeCaveats(cs: seq<Caveat>, sig: Bytes, stale: Bytes, done: seq<Caveat>, cur: Caveat)
    requires (forall c <- cs :: CaveatFits(c)) && CidsPresent(cs) && LineFits(SIGNATURE, sig)
    requires cur.cid != [] || cur == NO_CAVEAT
    ensures Caveats(EncodeCaveats(cs) + Line(SIGNATURE, sig), stale, done, cur)
         == Stopped(Closed(done, cur) + cs, Line(SIGNATURE, sig))
    ensures Next(EncodeCaveats(cs) + Line(SIGNATURE, sig)).Some?
    decreases |cs|
  {
    hide Line, Caveats, EncodeCaveat, CaveatFits, Next;
    var tail := Line(SIGNATURE, sig);
    if cs == [] {
      Keys();
      assert EncodeCaveats(cs) + tail == tail + [];
      assert tail + [] == tail;
      TakeLine(SIGNATURE, sig, [], stale, done, cur);
      assert Closed(done, cur) + [] == Closed(done, cur);
    } else {
      var c, rest := cs[0], EncodeCaveats(cs[1..]) + tail;
      assert EncodeCaveats(cs) + tail == EncodeCaveat(c) + rest;
      TakeCaveats(cs[1..], sig, stale, Closed(done, cur), c);
      TakeCaveat(c, rest, stale, done, cur);
      assert Closed(done, cur) + [c] + cs[1..] == Closed(done, cur) + cs;
    }
  }

  /** The lines of the caveats are framed, whatever comes behind them. */
  lemma {:induction false} FramingCaveats(cs: seq<Caveat>, rest: Bytes)
    requires (forall c <- cs :: CaveatFits(c)) && Framing(rest).Count?
    ensures Framing(EncodeCaveats(cs) + rest).Count? && Framing(EncodeCaveats(cs) + rest).n >= Framing(rest).n
    decreases |cs|
  {
    hide Framing, Line;
    if cs == [] {
      assert EncodeCaveats(cs) + rest == rest;
    } else {
      Keys();
      var c, tail := cs[0], EncodeCaveats(cs[1..]) + rest;
      FramingCaveats(cs[1..], rest);
      assert CaveatFits(c);
      var a, b, d := OptLine(CID, c.cid), OptLine(VID, c.vid), OptLine(CL, c.cl);
      assert EncodeCaveats(cs) + rest == a + (b + (d + tail));
      FramingOptional(CL, c.cl, tail);
      FramingOptional(VID, c.vid, d + tail);
      FramingOptional(CID, c.cid, b + (d + tail));
    }
  }

  lemma FramingOptional(key: Bytes, value: Bytes, rest: Bytes)
    requires LineFits(key, value) && SPACE !in key && Framing(rest).Count?
    ensures Framing(OptLine(key, value) + rest).Count? && Framing(OptLine(key, value) + rest).n >= Framing(rest).n
  {
    hide Framing, Line;
    if value == [] { assert OptLine(key, value) + rest == rest; } else { FramingLine(key, value, rest); }
  }

  /** An encoding is at least three packets. */
  lemma FramingEncode(m: Macaroon)
    requires Printable(m)
    ensures Framing(Encode(m)).Count? && Framing(Encode(m)).n >= 3
  {
    hide Line, Framing, EncodeCaveats;
    Keys();
    var d := Line(SIGNATURE, m.signature);
    var c := EncodeCaveats(m.caveats) + d;
    var b := Line(IDENTIFIER, m.identifier) + c;
    assert d + [] == d;
    FramingNothing();
    FramingLine(SIGNATURE, m.signature, []);
    FramingCaveats(m.caveats, d);
    FramingLine(IDENTIFIER, m.identifier, c);
    FramingLine(LOCATION, m.location, b);
    assert Encode(m) == Line(LOCATION, m.location) + b;
  }

  lemma FramingNothing()
    ensures Framing([]) == Count(0)
  {
  }

  lemma BodyOfEncode(m: Macaroon)
    requires Printable(m) && CidsPresent(m.caveats)
    ensures Body(Encode(m)) == if |m.signature| == HASH_BYTES then Accepted(m) else Rejected
  {
    hide Line, Framing, EncodeCaveats, Caveats, Typed, Behind;
    Keys();
    var d := Line(SIGNATURE, m.signature);
    var c := EncodeCaveats(m.caveats) + d;
    var b := Line(IDENTIFIER, m.identifier) + c;
    assert d + [] == d;
    assert Encode(m) == Line(LOCATION, m.location) + b;
    LineFirst(LOCATION, m.location, b);
    LineFirst(IDENTIFIER, m.identifier, c);
    LineFirst(SIGNATURE, m.signature, []);
    TakeCaveats(m.caveats, m.signature, [], [], NO_CAVEAT);
    assert Closed([], NO_CAVEAT) + m.caveats == m.caveats;
  }

  lemma EncodeStart(m: Macaroon)
    requires Printable(m)
    ensures Encode(m) != [] && Encode(m)[0] != OPEN_BRACE
  {
    hide EncodeCaveats;
    assert Encode(m)[0] == Line(LOCATION, m.location)[0];
  }

  /** Closing never keeps a caveat without identifier, so no accepted macaroon has one. */
  lemma {:induction false} RunHasCids(s: Bytes, stale: Bytes, done: seq<Caveat>, cur: Caveat)
    requires CidsPresent(done)
    ensures var r := Caveats(s, stale, done, cur); r.Stopped? ==> CidsPresent(r.caveats)
    decreases |s|
  {
    hide KeyValue;
    if Next(s).Some? {
      var sz := Next(s).value;
      var t := Take(KeyValue(s[..sz]), done, cur);
      if t.Go? {
        KeyValuePositive(s[..sz]);
        RunHasCids(s[sz..], s[..sz], t.done, t.cur);
      }
    }
  }

  lemma KeyValuePositive(p: Bytes)
    ensures KeyValue(p).Some? ==> |p| >= 6
  {
  }

  lemma AcceptedShape(s: Bytes)
    requires Decode(s).Accepted?
    ensures |Decode(s).m.signature| == HASH_BYTES && CidsPresent(Decode(s).m.caveats)
  {
    hide Typed, Behind, Framing, Caveats;
    RunHasCids(Behind(Behind(s)), [], [], NO_CAVEAT);
  }

  /** What was written reads back, exactly when the signature has 32 bytes and no caveat lacks an identifier. */
  lemma RoundTrip(m: Macaroon)
    requires Printable(m)
    ensures Decode(Encode(m)) == Accepted(m) <==> |m.signature| == HASH_BYTES && CidsPresent(m.caveats)
  {
    hide Encode, Framing, Body;
    EncodeStart(m);
    FramingEncode(m);
    if CidsPresent(m.caveats) {
      BodyOfEncode(m);
    }
    if Decode(Encode(m)) == Accepted(m) {
      AcceptedShape(Encode(m));
    }
  }

  /** A caveat without identifier is printed as no packet at all, so it does not come back. */
  lemma EmptyCidLost()
    ensures var m := Macaroon([], [], Zeros(HASH_BYTES), [NO_CAVEAT]);
      Printable(m) && Decode(Encode(m)) == Accepted(m.(caveats := [])) != Accepted(m)
  {
    hide Decode, Encode, Line;
    var m := Macaroon([], [], Zeros(HASH_BYTES), [NO_CAVEAT]);
    var n := m.(caveats := []);
    NothingPrinted(m, n);
    RoundTrip(n);
  }

  lemma NothingPrinted(m: Macaroon, n: Macaroon)
    requires Printable(m) && m.caveats == [NO_CAVEAT] && n == m.(caveats := [])
    ensures Printable(n) && Encode(m) == Encode(n)
  {
    hide Line;
    assert EncodeCaveats([NO_CAVEAT]) == EncodeCaveat(NO_CAVEAT) + EncodeCaveats([NO_CAVEAT][1..]);
    assert EncodeCaveat(NO_CAVEAT) == [];
    assert [NO_CAVEAT][1..] == [];
  }

  // ---------- the printer ----------

  /** PACKET_SIZE */
  function PacketSize(key: Bytes, n: nat): nat { PREFIX + |key| + n + 2 }

  function CaveatHint(c: Caveat): nat {
    PacketSize(CID, |c.cid|) + PacketSize(VID, |c.vid|) + PacketSize(CL, |c.cl|)
  }

  function CaveatsHint(cs: seq<Caveat>): nat {
    if cs == [] then 0 else CaveatHint(cs[0]) + CaveatsHint(cs[1..])
  }

  /** The size before base64, with packets for absent fields, too. */
  function InnerHint(m: Macaroon): nat {
    PacketSize(LOCATION, |m.location|) + PacketSize(IDENTIFIER, |m.identifier|) + PacketSize(SIGNATURE, |m.signature|)
    + CaveatsHint(m.caveats)
  }

  /** Padded base64 and a NUL. */
  function Hint(m: Macaroon): nat { (InnerHint(m) + 2) / 3 * 4 + 1 }

  lemma {:induction false} CaveatsHintCovers(cs: seq<Caveat>)
    requires forall c <- cs :: CaveatFits(c)
    ensures |EncodeCaveats(cs)| <= CaveatsHint(cs)
  {
    if cs != [] {
      hide Line;
      assert CaveatFits(cs[0]);
      CaveatsHintCovers(cs[1..]);
    }
  }

  /** A buffer of the size hint has room for the packets, and for the text that base64 makes of them. */
  lemma HintCovers(m: Macaroon)
    requires Printable(m)
    ensures |Encode(m)| <= InnerHint(m) < Hint(m) && Base64.Room(|Encode(m)|) <= Hint(m)
  {
    hide Line, EncodeCaveats;
    CaveatsHintCovers(m.caveats);
    RoomMonotone(|Encode(m)|, InnerHint(m));
  }

  lemma {:induction false} FullCaveatsHint(cs: seq<Caveat>)
    requires forall c <- cs :: CaveatFits(c) && Full(c)
    ensures |EncodeCaveats(cs)| == CaveatsHint(cs)
  {
    if cs != [] {
      hide Line;
      assert CaveatFits(cs[0]) && Full(cs[0]);
      FullCaveatsHint(cs[1..]);
    }
  }

  /** The inner hint is the size of the packets when no field is absent. */
  lemma HintExact(m: Macaroon)
    requires Printable(m) && forall c <- m.caveats :: Full(c)
    ensures InnerHint(m) == |Encode(m)|
  {
    hide Line, EncodeCaveats;
    FullCaveatsHint(m.caveats);
  }

  lemma RoomMonotone(n: nat, k: nat)
    requires n <= k
    ensures Base64.Room(n) <= (k + 2) / 3 * 4 + 1 && k < (k + 2) / 3 * 4 + 1
  {
    assert (n + 2) / 3 <= (k + 2) / 3;
    assert n % 3 == 0 ==> (n + 2) / 3 == n / 3;
    assert n % 3 != 0 ==> (n + 2) / 3 == n / 3 + 1;
  }

  lemma {:induction false} CaveatsHintSnoc(cs: seq<Caveat>, c: Caveat)
    ensures CaveatsHint(cs + [c]) == CaveatsHint(cs) + CaveatHint(c)
  {
    if cs == [] {
      assert [] + [c] == [c];
    } else {
      CaveatsHintSnoc(cs[1..], c);
      assert (cs + [c])[1..] == cs[1..] + [c];
    }
  }

  /** macaroon_inner_size_hint and macaroon_serialize_size_hint_v1 */
  method SizeHint(m: Macaroon) returns (sz: nat)
    ensures sz == Hint(m)
  {
    hide CaveatsHint;
    sz := PacketSize(LOCATION, |m.location|) + PacketSize(IDENTIFIER, |m.identifier|)
      + PacketSize(SIGNATURE, |m.signature|);
    NoHint();
    ghost var fixed := sz;
    for i := 0 to |m.caveats|
      invariant sz == fixed + CaveatsHint(m.caveats[..i])
    {
      assert m.caveats[..i + 1] == m.caveats[..i] + [m.caveats[i]];
      CaveatsHintSnoc(m.caveats[..i], m.caveats[i]);
      sz := sz + PacketSize(CID, |m.caveats[i].cid|);
      sz := sz + PacketSize(VID, |m.caveats[i].vid|);
      sz := sz + PacketSize(CL, |m.caveats[i].cl|);
    }
    assert m.caveats[..|m.caveats|] == m.caveats;
    sz := (sz + 2) / 3 * 4 + 1;
  }

  lemma NoHint()
    ensures CaveatsHint([]) == 0
  {
  }

  lemma {:induction false} EncodeCaveatsSnoc(cs: seq<Caveat>, c: Caveat)
    requires (forall d <- cs :: CaveatFits(d)) && CaveatFits(c)
    ensures EncodeCaveats(cs + [c]) == EncodeCaveats(cs) + EncodeCaveat(c)
  {
    hide EncodeCaveat;
    if cs == [] {
      assert [] + [c] == [c];
      assert EncodeCaveat(c) + [] == EncodeCaveat(c);
    } else {
      EncodeCaveatsSnoc(cs[1..], c);
      assert (cs + [c])[1..] == cs[1..] + [c];
      assert EncodeCaveat(cs[0]) + (EncodeCaveats(cs[1..]) + EncodeCaveat(c))
        == EncodeCaveat(cs[0]) + EncodeCaveats(cs[1..]) + EncodeCaveat(c);
    }
  }

  lemma {:induction false} EncodeCaveatsPrefix(cs: seq<Caveat>, n: nat)
    requires (forall d <- cs :: CaveatFits(d)) && n < |cs|
    ensures EncodeCaveats(cs[..n + 1]) == EncodeCaveats(cs[..n]) + EncodeCaveat(cs[n])
    ensures |EncodeCaveats(cs[..n + 1])| <= |EncodeCaveats(cs)|
    decreases |cs| - n
  {
    hide EncodeCaveat, CaveatFits;
    assert cs[..n + 1] == cs[..n] + [cs[n]];
    EncodeCaveatsSnoc(cs[..n], cs[n]);
    if n + 1 < |cs| { EncodeCaveatsPrefix(cs, n + 1); } else { assert cs[..n + 1] == cs; }
  }

  method EmitOptional(key: Bytes, value: Bytes, data: array<byte>, ptr0: nat) returns (ptr: nat)
    requires LineFits(key, value) && ptr0 + |OptLine(key, value)| <= data.Length
    modifies data
    ensures ptr == ptr0 + |OptLine(key, value)| && Wrote(old(data[..]), data[..], ptr0, OptLine(key, value))
  {
    hide Wrote, Line;
    ptr := ptr0;
    if |value| != 0 {
      ptr := SerializeSlice(key, value, data, ptr0);
    } else {
      WroteNothing(data[..], ptr0);
    }
  }

  lemma EncodeCaveatIs(c: Caveat)
    requires CaveatFits(c)
    ensures EncodeCaveat(c) == OptLine(CID, c.cid) + OptLine(VID, c.vid) + OptLine(CL, c.cl)
    ensures |EncodeCaveat(c)| == |OptLine(CID, c.cid)| + |OptLine(VID, c.vid)| + |OptLine(CL, c.cl)|
  {
    hide OptLine;
  }

  /** The body of the loop over the caveats. */
  method EmitCaveat(c: Caveat, data: array<byte>, ptr0: nat) returns (ptr: nat)
    requires CaveatFits(c) && ptr0 + |EncodeCaveat(c)| <= data.Length
    modifies data
    ensures ptr == ptr0 + |EncodeCaveat(c)| && Wrote(old(data[..]), data[..], ptr0, EncodeCaveat(c))
  {
    hide Wrote, OptLine, EncodeCaveat;
    EncodeCaveatIs(c);
    ghost var s0 := data[..];
    ptr := EmitOptional(CID, c.cid, data, ptr0);
    ghost var s1 := data[..];
    ptr := EmitOptional(VID, c.vid, data, ptr);
    ghost var s2 := data[..];
    WroteMore(s0, s1, s2, ptr0, OptLine(CID, c.cid), OptLine(VID, c.vid));
    ptr := EmitOptional(CL, c.cl, data, ptr);
    WroteMore(s0, s2, data[..], ptr0, OptLine(CID, c.cid) + OptLine(VID, c.vid), OptLine(CL, c.cl));
  }

  method EmitCaveats(cs: seq<Caveat>, data: array<byte>, ptr0: nat) returns (ptr: nat)
    requires (forall c <- cs :: CaveatFits(c)) && ptr0 + |EncodeCaveats(cs)| <= data.Length
    modifies data
    ensures ptr == ptr0 + |EncodeCaveats(cs)| && Wrote(old(data[..]), data[..], ptr0, EncodeCaveats(cs))
  {
    hide Wrote, EncodeCaveat, EncodeCaveats, CaveatFits;
    ghost var s0 := data[..];
    ptr := ptr0;
    WroteNothing(s0, ptr);
    NoCaveatLines();
    for i := 0 to |cs|
      invariant ptr == ptr0 + |EncodeCaveats(cs[..i])|
      invariant Wrote(s0, data[..], ptr0, EncodeCaveats(cs[..i]))
    {
      ghost var s := data[..];
      EncodeCaveatsPrefix(cs, i);
      ptr := EmitCaveat(cs[i], data, ptr);
      WroteMore(s0, s, data[..], ptr0, EncodeCaveats(cs[..i]), EncodeCaveat(cs[i]));
    }
    assert cs[..|cs|] == cs;
  }

  lemma NoCaveatLines()
    ensures EncodeCaveats([]) == []
  {
  }

  lemma EncodeParts(m: Macaroon)
    requires Printable(m)
    ensures var a, b, c, d :=
        Line(LOCATION, m.location), Line(IDENTIFIER, m.identifier), EncodeCaveats(m.caveats),
          Line(SIGNATURE, m.signature);
      Encode(m) == a + b + c + d && |Encode(m)| == |a| + |b| + |c| + |d|
  {
    hide Line, EncodeCaveats;
  }

  /** The location and the identifier. */
  method EmitLeading(m: Macaroon, tmp: array<byte>) returns (ptr: nat)
    requires Printable(m) && |Line(LOCATION, m.location)| + |Line(IDENTIFIER, m.identifier)| <= tmp.Length
    modifies tmp
    ensures ptr == |Line(LOCATION, m.location)| + |Line(IDENTIFIER, m.identifier)|
    ensures Wrote(old(tmp[..]), tmp[..], 0, Line(LOCATION, m.location) + Line(IDENTIFIER, m.identifier))
  {
    hide Line, Wrote;
    ghost var s0 := tmp[..];
    ptr := SerializeSlice(LOCATION, m.location, tmp, 0);
    ghost var s1 := tmp[..];
    ptr := SerializeSlice(IDENTIFIER, m.identifier, tmp, ptr);
    WroteMore(s0, s1, tmp[..], 0, Line(LOCATION, m.location), Line(IDENTIFIER, m.identifier));
  }

  /** All packets, into the scratch buffer. */
  method EmitPackets(m: Macaroon, tmp: array<byte>) returns (ptr: nat)
    requires Printable(m) && |Encode(m)| <= tmp.Length
    modifies tmp
    ensures ptr == |Encode(m)| && tmp[..ptr] == Encode(m)
  {
    hide Line, Encode, EncodeCaveats, CaveatFits, Wrote;
    EncodeParts(m);
    ghost var s0, b := tmp[..], EncodeCaveats(m.caveats);
    ghost var a := Line(LOCATION, m.location) + Line(IDENTIFIER, m.identifier);
    ptr := EmitLeading(m, tmp);
    ghost var s1 := tmp[..];
    ptr := EmitCaveats(m.caveats, tmp, ptr);
    ghost var s2 := tmp[..];
    WroteMore(s0, s1, s2, 0, a, b);
    ptr := SerializeSlice(SIGNATURE, m.signature, tmp, ptr);
    WroteMore(s0, s2, tmp[..], 0, a + b, Line(SIGNATURE, m.signature));
    WroteFront(s0, tmp[..], Encode(m));
  }

  lemma WroteFront(s0: Bytes, s: Bytes, w: Bytes)
    requires Wrote(s0, s, 0, w)
    ensures |w| <= |s| && s[..|w|] == w
  {
  }

  /** macaroon_serialize_v1: it asks for the size hint, and then never runs out of room. */
  method Serialize(m: Macaroon, data: array<byte>, dataSz: nat) returns (rc: int)
    requires Printable(m) && dataSz <= data.Length
    modifies data
    ensures rc == if Hint(m) <= dataSz then 0 else -1
    ensures rc == 0 ==> Wrote(old(data[..]), data[..], 0, Base64.Encode(Encode(m)) + [0])
    ensures rc != 0 ==> data[..] == old(data[..])
  {
    hide Encode, InnerHint, Hint, Printable, Wrote, Base64.Encode, Base64.Room;
    var sz := SizeHint(m);
    HintCovers(m);
    if dataSz < sz { return -1; }
    var tmp := new byte[sz](_ => 0);
    var ptr := EmitPackets(m, tmp);
    var n := Base64.Ntop(tmp, ptr, data, dataSz);
    if n < 0 { return -1; }
    return 0;
  }

  // ---------- the parser ----------

  /** The typed packet parsers: the value, when the key is the one asked for. */
  method ParseTyped(s: Bytes, ptr: nat, key: Bytes) returns (next: nat, value: Option<Bytes>)
    requires ptr <= |s|
    ensures value == Typed(s[ptr..], key)
    ensures value.Some? ==> ptr + |value.value| + 6 <= next <= |s| && s[next..] == Behind(s[ptr..])
  {
    hide Next, KeyValue;
    next := ptr;
    var end := ParsePacket(s, ptr);
    if end.None? { return ptr, None; }
    next := end.value;
    assert s[ptr..next] == s[ptr..][..next - ptr] && s[ptr..][next - ptr..] == s[next..];
    var kv := ParseKv(s[ptr..next]);
    if kv.None? { return next, None; }
    ValueWithin(s[ptr..next]);
    var (k, v) := kv.value;
    if k != key { return next, None; }
    return next, Some(v);
  }

  lemma ValueWithin(p: Bytes)
    requires KeyValue(p).Some?
    ensures |KeyValue(p).value.1| + 6 <= |p|
  {
  }

  /** Frames already counted, and those still to come. */
  function Plus(n: nat, f: Frames): Frames {
    match f
    case Count(k) => Count(n + k)
    case _ => f
  }

  lemma FramingFirst(s: Bytes)
    requires s != []
    ensures match Next(s)
            case None => Framing(s) == Broken
            case Some(sz) => if sz == 0 then Framing(s) == Endless else Framing(s) == Plus(1, Framing(s[sz..]))
  {
    hide Next;
  }

  /** The counting loop. It ends because no packet has size zero. */
  method CountPackets(s: Bytes) returns (r: Option<nat>)
    requires Framing(s) != Endless
    ensures Framing(s) == match r { case None => Broken case Some(n) => Count(n) }
  {
    hide Next, Framing;
    var rptr, numPkts := Some(0), 0;
    assert s[0..] == s;
    while rptr.Some? && rptr.value < |s|
      invariant rptr.Some? ==> rptr.value <= |s| && Framing(s) == Plus(numPkts, Framing(s[rptr.value..]))
      invariant rptr.None? ==> Framing(s) == Broken
      decreases if rptr.None? then 0 else |s| - rptr.value + 1
    {
      ghost var rest := s[rptr.value..];
      FramingFirst(rest);
      var next := ParsePacket(s, rptr.value);
      if next.Some? { assert rest[next.value - rptr.value..] == s[next.value..]; }
      rptr := next;
      numPkts := numPkts + 1;
    }
    if rptr.None? { return None; }
    FramingNothing();
    assert s[rptr.value..] == [];
    return Some(numPkts);
  }

  /** The assertion behind the counting loop: every packet counted has a byte of its own, and the last one four. */
  lemma {:induction false} FewerPacketsThanBytes(s: Bytes)
    requires Framing(s).Count? && s != []
    ensures Framing(s).n + 3 <= |s|
    decreases |s|
  {
    var sz := Next(s).value;
    if s[sz..] == [] {
      assert Framing(s[sz..]) == Count(0);
    } else {
      FewerPacketsThanBytes(s[sz..]);
    }
  }

  /** The macaroon under construction: `done` behind `k` complete entries of the table, `cur` in the next one. */
  ghost predicate Loading(b: Bytes, table: seq<CaveatSlices>, k: nat, done: seq<Caveat>, cur: Caveat, wptr: nat) {
    && k < |table| && wptr <= |b|
    && Copied(b, table[..k], done, wptr)
    && CaveatWithin(table[k], wptr) && ReadCaveat(b, table[k]) == cur
    && forall j :: k < j < |table| ==> table[j] == CaveatSlices(NIL, NIL, NIL)
  }

  lemma LoadNext(b: Bytes, table: seq<CaveatSlices>, k: nat, done: seq<Caveat>, cur: Caveat, wptr: nat)
    requires Loading(b, table, k, done, cur, wptr) && k + 1 < |table|
    ensures Loading(b, table, k + 1, done + [cur], NO_CAVEAT, wptr)
  {
    hide Copied;
    CopiedSnoc(b, table[..k], done, wptr, table[k], cur);
    assert table[..k + 1] == table[..k] + [table[k]];
  }

  datatype Field = Cid | Vid | Cl

  function SetSlice(c: CaveatSlices, f: Field, sl: Slice): CaveatSlices {
    match f
    case Cid => c.(cid := sl)
    case Vid => c.(vid := sl)
    case Cl => c.(cl := sl)
  }

  function SetField(c: Caveat, f: Field, v: Bytes): Caveat {
    match f
    case Cid => c.(cid := v)
    case Vid => c.(vid := v)
    case Cl => c.(cl := v)
  }

  lemma LoadField(b: Bytes, b': Bytes, table: seq<CaveatSlices>, k: nat, done: seq<Caveat>, cur: Caveat, wptr: nat,
                  f: Field, v: Bytes)
    requires Loading(b, table, k, done, cur, wptr) && Agree(b, b', wptr)
    requires wptr + |v| <= |b'| && Read(b', Slice(wptr, |v|)) == v
    ensures Loading(b', table[k := SetSlice(table[k], f, Slice(wptr, |v|))], k, done, SetField(cur, f, v), wptr + |v|)
  {
    hide Copied, Agree, Read;
    var table' := table[k := SetSlice(table[k], f, Slice(wptr, |v|))];
    assert table'[..k] == table[..k];
    CopiedKept(b, b', table[..k], done, wptr, wptr + |v|);
    ReadCaveatKept(b, b', table[k], wptr);
    WithinMore(table[k], wptr, wptr + |v|);
    AgreeLengths(b, b', wptr);
    WithinMore(table[k], wptr, |b'|);
  }

  /** Copies one field of the caveat in entry `numCaveats`. */
  method StoreField(m: Struct, f: Field, v: Bytes, wptr: nat, ghost done: seq<Caveat>, ghost cur: Caveat)
    returns (next: nat)
    requires Loading(m.body[..], m.caveats[..], m.numCaveats, done, cur, wptr) && wptr + |v| <= m.body.Length
    modifies m.caveats, m.body
    ensures next == wptr + |v|
    ensures Loading(m.body[..], m.caveats[..], m.numCaveats, done, SetField(cur, f, v), next)
    ensures Agree(old(m.body[..]), m.body[..], wptr)
  {
    hide Copied, Agree, Read, Loading;
    ghost var b, table, k := m.body[..], m.caveats[..], m.numCaveats;
    LoadingIndex(b, table, k, done, cur, wptr);
    var sl;
    sl, next := m.CopyToSlice(v, wptr);
    m.caveats[m.numCaveats] := SetSlice(m.caveats[m.numCaveats], f, sl);
    assert m.caveats[..] == table[k := SetSlice(table[k], f, sl)];
    LoadField(b, m.body[..], table, k, done, cur, wptr, f, v);
  }

  lemma LoadingIndex(b: Bytes, table: seq<CaveatSlices>, k: nat, done: seq<Caveat>, cur: Caveat, wptr: nat)
    requires Loading(b, table, k, done, cur, wptr)
    ensures k < |table| && |done| == k && wptr <= |b|
    ensures table[k].cid.size == |cur.cid| && table[k].vid.size == |cur.vid| && table[k].cl.size == |cur.cl|
  {
  }

  /** The branches of the loop, for one packet with key and value. */
  method TakePacket(m: Struct, key: Bytes, v: Bytes, wptr: nat, ghost done: seq<Caveat>, ghost cur: Caveat)
    returns (step: int, next: nat)
    requires Loading(m.body[..], m.caveats[..], m.numCaveats, done, cur, wptr)
    requires Take(Some((key, v)), done, cur).Go? ==> wptr + |v| <= m.body.Length
    requires key == CID && cur.cid != [] ==> m.numCaveats + 1 < m.caveats.Length
    modifies m`numCaveats, m.caveats, m.body
    ensures Agree(old(m.body[..]), m.body[..], wptr)
    ensures match Take(Some((key, v)), done, cur)
            case Stop => step == 1 && next == wptr && Loading(m.body[..], m.caveats[..], m.numCaveats, done, cur, wptr)
            case Duplicate => step == 2
            case Go(d, c) =>
              (step == 0 && next == wptr + |v| && Loading(m.body[..], m.caveats[..], m.numCaveats, d, c, next))
  {
    hide Copied, Agree, Read, Loading;
    Keys();
    next := wptr;
    ghost var done', cur' := done, cur;
    LoadingIndex(m.body[..], m.caveats[..], m.numCaveats, done, cur, wptr);
    AgreeRefl(m.body[..], wptr);
    if key == CID {
      if m.caveats[m.numCaveats].cid.size != 0 {
        LoadNext(m.body[..], m.caveats[..], m.numCaveats, done, cur, wptr);
        m.numCaveats := m.numCaveats + 1;
        done', cur' := done + [cur], NO_CAVEAT;
      }
      next := StoreField(m, Cid, v, wptr, done', cur');
    } else if key == VID {
      if m.caveats[m.numCaveats].vid.size != 0 { return 2, wptr; }
      next := StoreField(m, Vid, v, wptr, done, cur);
    } else if key == CL {
      if m.caveats[m.numCaveats].cl.size != 0 { return 2, wptr; }
      next := StoreField(m, Cl, v, wptr, done, cur);
    } else {
      return 1, wptr;
    }
    step := 0;
  }

  lemma AgreeRefl(b: Bytes, n: nat)
    requires n <= |b|
    ensures Agree(b, b, n)
  {
  }

  /** The packet that the loop looks at: the next one, or the one it had. */
  function Seen(s: Bytes, stale: Bytes): Bytes {
    match Next(s)
    case None => stale
    case Some(sz) => s[..sz]
  }

  /** The run goes on as the packet it sees tells. */
  lemma RunGoesOn(s: Bytes, stale: Bytes, done: seq<Caveat>, cur: Caveat)
    requires !Caveats(s, stale, done, cur).RanOut?
    ensures match Take(KeyValue(Seen(s, stale)), done, cur)
            case Stop => Next(s).Some? && Caveats(s, stale, done, cur) == Stopped(Closed(done, cur), s)
            case Duplicate => Caveats(s, stale, done, cur) == Failed
            case Go(d, c) =>
              (&& Next(s).Some?
               && Caveats(s, stale, done, cur) == Caveats(s[Next(s).value..], s[..Next(s).value], d, c))
  {
    hide KeyValue, Take, Next;
  }

  /** Why the table is large enough: a run that does not run out leaves a packet behind a new caveat. */
  lemma GoStep(s: Bytes, stale: Bytes, done: seq<Caveat>, cur: Caveat, numPkts: nat)
    requires !Caveats(s, stale, done, cur).RanOut? && Next(s).Some? && KeyValue(s[..Next(s).value]).Some?
    requires Framing(s).Count? && |Closed(done, cur)| + Framing(s).n + 2 <= numPkts
    requires Take(KeyValue(s[..Next(s).value]), done, cur).Go?
    ensures var rest, t := s[Next(s).value..], Take(KeyValue(s[..Next(s).value]), done, cur);
      && Framing(rest).Count? && |Closed(t.done, t.cur)| + Framing(rest).n + 2 <= numPkts
      && (KeyValue(s[..Next(s).value]).value.0 == CID && cur.cid != [] ==> |done| + 1 < numPkts - 3)
  {
    hide KeyValue, Take, Next;
    var sz := Next(s).value;
    var p := s[..sz];
    var rest, t := s[sz..], Take(KeyValue(p), done, cur);
    KeyValuePositive(p);
    RunGoesOn(s, stale, done, cur);
    TakesOne(KeyValue(p), done, cur);
    if KeyValue(p).value.0 == CID {
      TakeOwnKey(CID, KeyValue(p).value.1, t.done, t.cur);
      RunGoesOn(rest, p, t.done, t.cur);
      assert rest != [] by { NextNothing(); }
    }
  }

  lemma NextNothing()
    ensures Next([]) == None
  {
  }

  /** An identifier is never a duplicate. */
  lemma TakeOwnKey(key: Bytes, v: Bytes, done: seq<Caveat>, cur: Caveat)
    requires key == CID
    ensures Take(Some((key, v)), done, cur).Go?
  {
  }

  lemma TakesOne(kv: Option<(Bytes, Bytes)>, done: seq<Caveat>, cur: Caveat)
    requires Take(kv, done, cur).Go?
    ensures var t := Take(kv, done, cur); |Closed(t.done, t.cur)| <= |Closed(done, cur)| + 1
  {
  }

  /** Counting in the tail caveat. */
  lemma LoadClosed(b: Bytes, table: seq<CaveatSlices>, k: nat, done: seq<Caveat>, cur: Caveat, wptr: nat)
    requires Loading(b, table, k, done, cur, wptr)
    ensures var n := if cur.cid != [] then k + 1 else k;
      n <= |table| && Copied(b, table[..n], Closed(done, cur), wptr)
  {
    hide Copied;
    CopiedSnoc(b, table[..k], done, wptr, table[k], cur);
    assert table[..k + 1] == table[..k] + [table[k]];
  }

  lemma TakeNothing(done: seq<Caveat>, cur: Caveat)
    ensures Take(None, done, cur) == Stop
  {
  }

  /** One pass of the loop: 0 to go on, 1 at the packet that ends the run, 2 at a duplicate. */
  method LoadStep(s: Bytes, rptr0: nat, pkt0: Bytes, m: Struct, wptr0: nat, ghost numPkts: nat,
                  ghost done: seq<Caveat>, ghost cur: Caveat)
    returns (step: int, rptr: nat, pkt: Bytes, wptr: nat, ghost done': seq<Caveat>, ghost cur': Caveat)
    requires wptr0 <= rptr0 <= |s| == m.body.Length && m.caveats.Length == (if numPkts > 3 then numPkts - 3 else 1)
    requires Loading(m.body[..], m.caveats[..], m.numCaveats, done, cur, wptr0)
    requires !Caveats(s[rptr0..], pkt0, done, cur).RanOut?
    requires Framing(s[rptr0..]).Count? && |Closed(done, cur)| + Framing(s[rptr0..]).n + 2 <= numPkts
    modifies m`numCaveats, m.caveats, m.body
    ensures wptr0 <= wptr && wptr <= rptr <= |s| && Agree(old(m.body[..]), m.body[..], wptr0)
    ensures step == 0 ==> rptr0 < rptr && Loading(m.body[..], m.caveats[..], m.numCaveats, done', cur', wptr)
    ensures step == 0 ==> Caveats(s[rptr..], pkt, done', cur') == Caveats(s[rptr0..], pkt0, done, cur)
    ensures step == 0 ==> Framing(s[rptr..]).Count? && |Closed(done', cur')| + Framing(s[rptr..]).n + 2 <= numPkts
    ensures step == 1 ==> rptr == rptr0 && Caveats(s[rptr0..], pkt0, done, cur) == Stopped(Closed(done, cur), s[rptr..])
    ensures step == 1 ==> Loading(m.body[..], m.caveats[..], m.numCaveats, done, cur, wptr)
    ensures step == 1 ==> done' == done && cur' == cur
    ensures 0 <= step <= 2 && (step == 2 ==> Caveats(s[rptr0..], pkt0, done, cur) == Failed)
  {
    hide Copied, Agree, Read, Loading, KeyValue, Next, Take, Framing, Caveats, Closed;
    ghost var rest := s[rptr0..];
    done', cur', rptr, wptr := done, cur, rptr0, wptr0;
    LoadingIndex(m.body[..], m.caveats[..], m.numCaveats, done, cur, wptr);
    AgreeRefl(m.body[..], wptr0);
    RunGoesOn(rest, pkt0, done, cur);
    var tmp := ParsePacket(s, rptr);
    pkt := pkt0;
    if tmp.Some? {
      pkt := s[rptr..tmp.value];
      assert rest[..tmp.value - rptr] == pkt && rest[tmp.value - rptr..] == s[tmp.value..];
    }
    var kv := ParseKv(pkt);
    if kv.None? {
      TakeNothing(done, cur);
      return 1, rptr, pkt, wptr, done, cur;
    }
    ValueWithin(pkt);
    var (key, v) := kv.value;
    if Take(kv, done, cur).Go? { GoStep(rest, pkt0, done, cur, numPkts); }
    if key == CID { TakeOwnKey(key, v, done, cur); }
    step, wptr := TakePacket(m, key, v, wptr, done, cur);
    if step == 0 {
      ghost var took := Take(kv, done, cur);
      done', cur' := took.done, took.cur;
      rptr := tmp.value;
    } else {
      wptr := wptr0;
    }
  }

  /** The loop over the caveats, and the tail caveat. */
  method LoadCaveats(s: Bytes, rptr0: nat, m: Struct, wptr0: nat, ghost numPkts: nat)
    returns (ok: bool, rptr: nat, wptr: nat)
    requires wptr0 <= rptr0 <= |s| == m.body.Length
    requires Framing(s[rptr0..]).Count? && numPkts == Framing(s[rptr0..]).n + 2
    requires m.caveats.Length == if numPkts > 3 then numPkts - 3 else 1
    requires !Caveats(s[rptr0..], [], [], NO_CAVEAT).RanOut?
    requires m.numCaveats == 0 && Loading(m.body[..], m.caveats[..], 0, [], NO_CAVEAT, wptr0)
    modifies m`numCaveats, m.caveats, m.body
    ensures Agree(old(m.body[..]), m.body[..], wptr0)
    ensures match Caveats(s[rptr0..], [], [], NO_CAVEAT)
            case Failed => !ok
            case Stopped(cs, rest) =>
              (&& ok && wptr0 <= wptr <= rptr <= |s| && rest == s[rptr..]
               && m.numCaveats <= m.caveats.Length && Copied(m.body[..], m.caveats[..m.numCaveats], cs, wptr))
            case RanOut => true
  {
    hide Copied, Agree, Read, Loading, Framing, Caveats;
    ghost var run, b0 := Caveats(s[rptr0..], [], [], NO_CAVEAT), m.body[..];
    ghost var done: seq<Caveat>, cur := [], NO_CAVEAT;
    rptr, wptr, ok := rptr0, wptr0, true;
    AgreeRefl(b0, wptr0);
    var step, pkt: Bytes := 0, [];
    while step == 0
      invariant wptr0 <= wptr <= rptr <= |s| && m.body.Length == |s|
      invariant Agree(b0, m.body[..], wptr0)
      invariant step <= 1 ==> Loading(m.body[..], m.caveats[..], m.numCaveats, done, cur, wptr)
      invariant step == 0 ==> Caveats(s[rptr..], pkt, done, cur) == run
      invariant step == 0 ==> Framing(s[rptr..]).Count? && |Closed(done, cur)| + Framing(s[rptr..]).n + 2 <= numPkts
      invariant step == 1 ==> run == Stopped(Closed(done, cur), s[rptr..])
      invariant 0 <= step <= 2 && (step == 2 ==> run == Failed)
      decreases step == 0, |s| - rptr
    {
      ghost var b, w := m.body[..], wptr;
      step, rptr, pkt, wptr, done, cur := LoadStep(s, rptr, pkt, m, wptr, numPkts, done, cur);
      AgreeLess(b, m.body[..], w, wptr0);
      AgreeTrans(b0, b, m.body[..], wptr0);
    }
    if step == 2 { return false, rptr, wptr; }
    LoadingIndex(m.body[..], m.caveats[..], m.numCaveats, done, cur, wptr);
    LoadClosed(m.body[..], m.caveats[..], m.numCaveats, done, cur, wptr);
    if m.caveats[m.numCaveats].cid.size != 0 {
      m.numCaveats := m.numCaveats + 1;
    }
  }

  /** The assertion before the signature: a run stops at a packet. */
  lemma {:induction false} StopsAtPacket(s: Bytes, stale: Bytes, done: seq<Caveat>, cur: Caveat)
    requires Caveats(s, stale, done, cur).Stopped?
    ensures Next(Caveats(s, stale, done, cur).rest).Some?
    decreases |s|
  {
    hide KeyValue, Take;
    RunGoesOn(s, stale, done, cur);
    var sz := Next(s).value;
    var t := Take(KeyValue(s[..sz]), done, cur);
    if t.Go? {
      TakeOnlyKeyValue(s[..sz], done, cur);
      StopsAtPacket(s[sz..], s[..sz], t.done, t.cur);
    }
  }

  lemma TakeOnlyKeyValue(p: Bytes, done: seq<Caveat>, cur: Caveat)
    requires Take(KeyValue(p), done, cur).Go?
    ensures |p| >= 6
  {
  }

  /** Behind a typed packet there is one frame less. */
  lemma FramingBehind(s: Bytes, key: Bytes)
    requires Framing(s).Count? && Typed(s, key).Some?
    ensures Framing(Behind(s)).Count? && Framing(s).n == Framing(Behind(s)).n + 1
  {
    hide KeyValue;
  }

  /** copy_if_parses */
  method CopyIfParses(s: Bytes, rptr0: nat, key: Bytes, m: Struct, wptr0: nat)
    returns (ok: bool, rptr: nat, sl: Slice, wptr: nat)
    requires wptr0 <= rptr0 <= |s| == m.body.Length
    modifies m.body
    ensures ok <==> Typed(s[rptr0..], key).Some?
    ensures !ok ==> m.body[..] == old(m.body[..])
    ensures ok ==> wptr0 <= wptr <= rptr <= |s| && s[rptr..] == Behind(s[rptr0..])
    ensures ok ==> sl == Slice(wptr0, wptr - wptr0) && Read(m.body[..], sl) == Typed(s[rptr0..], key).value
    ensures ok ==> Agree(old(m.body[..]), m.body[..], wptr0)
  {
    hide Typed, Behind, Read, Agree;
    var value;
    rptr, value := ParseTyped(s, rptr0, key);
    if value.None? { return false, rptr, NIL, wptr0; }
    sl, wptr := m.CopyToSlice(value.value, wptr0);
    ok := true;
  }

  /** Everything behind the two leading packets. */
  method LoadTail(s: Bytes, rptr0: nat, m: Struct, wptr0: nat, ghost numPkts: nat, ghost location: Bytes,
    ghost identifier: Bytes)
    returns (ok: bool)
    requires wptr0 <= rptr0 <= |s| == m.body.Length
    requires Framing(s[rptr0..]).Count? && numPkts == Framing(s[rptr0..]).n + 2
    requires m.caveats.Length == if numPkts > 3 then numPkts - 3 else 1
    requires !Caveats(s[rptr0..], [], [], NO_CAVEAT).RanOut?
    requires m.numCaveats == 0 && Loading(m.body[..], m.caveats[..], 0, [], NO_CAVEAT, wptr0)
    requires Within(m.location, wptr0) && Read(m.body[..], m.location) == location
    requires Within(m.identifier, wptr0) && Read(m.body[..], m.identifier) == identifier
    modifies m`numCaveats, m`signature, m.caveats, m.body
    ensures match Caveats(s[rptr0..], [], [], NO_CAVEAT)
            case Stopped(cs, rest) =>
              if Typed(rest, SIGNATURE).Some? && |Typed(rest, SIGNATURE).value| == HASH_BYTES
              then ok && m.Valid() && m.Value() == Macaroon(location, identifier, Typed(rest, SIGNATURE).value, cs)
              else !ok
            case _ => !ok
  {
    hide Copied, Agree, Read, Loading, Framing, Caveats, Typed, Behind;
    ghost var run, b0 := Caveats(s[rptr0..], [], [], NO_CAVEAT), m.body[..];
    var rptr, wptr;
    ok, rptr, wptr := LoadCaveats(s, rptr0, m, wptr0, numPkts);
    if !ok { return; }
    ghost var b1 := m.body[..];
    ReadKept(b0, b1, m.location, wptr0);
    ReadKept(b0, b1, m.identifier, wptr0);
    StopsAtPacket(s[rptr0..], [], [], NO_CAVEAT);
    var sig, next;
    next, sig := ParseTyped(s, rptr, SIGNATURE);
    if sig.None? || |sig.value| != HASH_BYTES { return false; }
    var sl;
    sl, wptr := m.CopyToSlice(sig.value, wptr);
    m.signature := sl;
    ReadKept(b1, m.body[..], m.location, sl.at);
    ReadKept(b1, m.body[..], m.identifier, sl.at);
    CopiedKept(b1, m.body[..], m.caveats[..m.numCaveats], run.caveats, sl.at, wptr);
    CopiedReads(m.body[..], m.caveats[..m.numCaveats], run.caveats, wptr);
  }

  lemma LoadingNothing(b: Bytes, table: seq<CaveatSlices>, wptr: nat)
    requires |table| > 0 && table == seq(|table|, _ => CaveatSlices(NIL, NIL, NIL)) && wptr <= |b|
    ensures Loading(b, table, 0, [], NO_CAVEAT, wptr)
  {
    assert table[..0] == [];
    assert table[0] == CaveatSlices(NIL, NIL, NIL);
  }

  /** The macaroon of a decoded buffer, built in memory. */
  method Load(s: Bytes, numPkts: nat) returns (r: Option<Struct>)
    requires Framing(s) == Count(numPkts) && numPkts >= 3 && !Body(s).Undefined?
    ensures match Body(s)
            case Accepted(v) => r.Some? && fresh(r.value) && r.value.Valid() && r.value.Value() == v
            case _ => r == None
  {
    hide Loading, Framing, Caveats, Typed, Behind, Agree, Read, Struct.Valid, Struct.Value;
    var m := new Struct(numPkts - 3, |s|);
    assert s[0..] == s;
    var ok, rptr, sl, wptr := CopyIfParses(s, 0, LOCATION, m, 0);
    if !ok { return None; }
    m.location := sl;
    FramingBehind(s, LOCATION);
    ghost var s1, b1, p1 := s[rptr..], m.body[..], wptr;
    ok, rptr, sl, wptr := CopyIfParses(s, rptr, IDENTIFIER, m, wptr);
    if !ok { return None; }
    m.identifier := sl;
    ReadKept(b1, m.body[..], m.location, p1);
    FramingBehind(s1, IDENTIFIER);
    LoadingNothing(m.body[..], m.caveats[..], wptr);
    ok := LoadTail(s, rptr, m, wptr, numPkts, Typed(s, LOCATION).value, Typed(s1, IDENTIFIER).value);
    if !ok { return None; }
    return Some(m);
  }

  /** The text that the NUL at `length` ends, as macaroon_deserialize_v1 judges it. */
  ghost function Judge(text: Bytes, size: nat): Verdict {
    match Base64.Decode(text, size)
    case None => Rejected
    case Some(s) => Decode(s)
  }

  /** macaroon_deserialize_v1 */
  method Deserialize(src: array<byte>, ghost length: nat, size: nat) returns (r: Option<Struct>)
    requires length < src.Length && src[length] == 0 && forall i :: 0 <= i < length ==> src[i] != 0
    requires !Judge(src[..length], size).Undefined?
    ensures match Judge(src[..length], size)
            case Accepted(v) => r.Some? && fresh(r.value) && r.value.Valid() && r.value.Value() == v
            case _ => r == None
  {
    hide Framing, Body, Base64.Decode, Struct.Valid, Struct.Value;
    var data := new byte[size](_ => 0);
    var rc := Base64.Pton(src, length, data, size);
    if rc <= 0 { return None; }
    if data[0] == OPEN_BRACE { return None; }
    var s := data[..rc];
    var numPkts := CountPackets(s);
    if numPkts.None? || numPkts.value < 3 { return None; }
    FewerPacketsThanBytes(s);
    assert numPkts.value < |s|;
    r := Load(s, numPkts.value);
  }

  /** Text and packets together: what is serialised reads back when the buffer is as long as the text. */
  lemma TextRoundTrip(m: Macaroon, size: nat)
    requires Printable(m) && |m.signature| == HASH_BYTES && CidsPresent(m.caveats) && |Encode(m)| <= size
    ensures Judge(Base64.Encode(Encode(m)), size) == Accepted(m)
  {
    hide Base64.Decode, Base64.Encode, Encode, Decode;
    RoundTrip(m);
    Base64.RoundTrip(Encode(m), size);
  }
}
