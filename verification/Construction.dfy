/**
 * macaroons.c: macaroons made in memory, each filled through an advancing pointer, from
 * HMAC-SHA256 and the secretbox.
 */
module Construction {
  import opened Buffers
  import opened Bytes
  import opened Macaroons
  import opened Structs
  import opened Concrete
  import Sha = Sha256Stream

  /** A new macaroon that spells `m`. */
  ghost predicate Spells(s: Struct, m: Macaroon)
    reads s, s.caveats
    reads s.body
  {
    s.Valid() && s.Value() == m
  }

  /** It spells `m`, and its body has no byte more than that takes. */
  ghost predicate Fills(s: Struct, m: Macaroon)
    reads s, s.caveats
    reads s.body
  {
    Spells(s, m) && s.body.Length == BodySize(m) + HASH_BYTES
  }

  /** location, identifier and caveats of `n`, copied to the front of the body. */
  method CopyParts(s: Struct, n: Struct) returns (ptr: nat)
    requires n.Valid() && n != s && n.body != s.body && n.caveats != s.caveats && n.numCaveats <= s.caveats.Length
    requires BodySize(n.Value()) <= s.body.Length
    modifies s`location, s`identifier, s.caveats, s.body
    ensures ptr == BodySize(n.Value()) <= s.body.Length
    ensures Within(s.location, ptr) && Read(s.body[..], s.location) == n.Value().location
    ensures Within(s.identifier, ptr) && Read(s.body[..], s.identifier) == n.Value().identifier
    ensures Copied(s.body[..], s.caveats[..n.numCaveats], n.Value().caveats, ptr)
    ensures s.caveats[n.numCaveats..] == old(s.caveats[n.numCaveats..])
  {
    hide Agree, Copied, CaveatsSize, Read, ReadCaveats, Zeros;
    var location := n.Bytes(n.location);
    var identifier := n.Bytes(n.identifier);
    s.location, ptr := s.CopyToSlice(location, 0);
    ghost var b1, p1 := s.body[..], ptr;
    s.identifier, ptr := s.CopyToSlice(identifier, ptr);
    ghost var b2, p2 := s.body[..], ptr;
    ReadKept(b1, b2, s.location, p1);
    ptr := s.CopyCaveats(n, ptr);
    ReadKept(b2, s.body[..], s.location, p2);
    ReadKept(b2, s.body[..], s.identifier, p2);
  }

  lemma CreateRawIs(location: Bytes, key: Bytes, id: Bytes)
    ensures Macaroons.CreateRaw(SUITE, location, key, id) == Macaroon(location, id, Hmac(key, id), [])
    ensures |Hmac(key, id)| == HASH_BYTES
  {
    HmacLength(key, id);
  }

  /** Reads of the first two slices survive the write of the third. */
  lemma TwoKept(b1: Bytes, b2: Bytes, b3: Bytes, x: Slice, y: Slice, p1: nat, p2: nat)
    requires Agree(b1, b2, p1) && Agree(b2, b3, p2) && Within(x, p1) && Within(y, p2) && p1 <= p2
    ensures Within(x, |b1|) && Within(x, |b3|) && Within(y, |b2|) && Within(y, |b3|)
    ensures Read(b3, x) == Read(b1, x) && Read(b3, y) == Read(b2, y)
  {
    hide Agree, Read;
    AgreeLengths(b1, b2, p1);
    AgreeLengths(b2, b3, p2);
    ReadKept(b1, b2, x, p1);
    ReadKept(b2, b3, x, p2);
    ReadKept(b2, b3, y, p2);
  }

  /** macaroon_create_raw: the body is exactly filled. */
  method CreateRaw(location: Bytes, key: Bytes, id: Bytes) returns (m: Struct)
    requires |location| < MAX_STRLEN && |id| < MAX_STRLEN && |key| == HASH_BYTES
    ensures fresh(m) && fresh(m.body) && fresh(m.caveats)
    ensures Spells(m, Macaroons.CreateRaw(SUITE, location, key, id))
    ensures m.body.Length == |location| + |id| + HASH_BYTES
  {
    hide Agree, Hmac, Read, Zeros, Sha.Hmac, Sha.HmacKey;
    CreateRawIs(location, key, id);
    var hash := MacaroonHmac(key, id);
    m := new Struct(0, |location| + |id| + HASH_BYTES);
    var x, y, z, ptr;
    x, ptr := m.CopyToSlice(location, 0);
    ghost var b1, p1 := m.body[..], ptr;
    y, ptr := m.CopyToSlice(id, ptr);
    ghost var b2, p2 := m.body[..], ptr;
    z, ptr := m.CopyToSlice(hash, ptr);
    TwoKept(b1, b2, m.body[..], x, y, p1, p2);
    m.location, m.identifier, m.signature := x, y, z;
    assert m.caveats[..0] == [];
    assert m.Value() == Macaroon(location, id, hash, []);
  }

  /** macaroon_hmac, as the suite names it */
  method MacaroonHmac(key: Bytes, text: Bytes) returns (hash: Bytes)
    ensures hash == Hmac(key, text) && |hash| == HASH_BYTES
  {
    HmacLength(key, text);
    hash := Sha.MacaroonHmac(key, text);
  }

  // ---------- caveats ----------

  /** The front of the body holds location, identifier and the caveats `vs`; `b` goes up to `p`. */
  ghost predicate Filled(b: Bytes, p: nat, loc: Slice, id: Slice, cs: seq<CaveatSlices>, v: Macaroon, vs: seq<Caveat>) {
    && p <= |b| && Within(loc, p) && Within(id, p)
    && Read(b, loc) == v.location && Read(b, id) == v.identifier
    && Copied(b, cs, vs, p)
  }

  lemma FilledKept(b: Bytes, b': Bytes, p: nat, p': nat, loc: Slice, id: Slice, cs: seq<CaveatSlices>, v: Macaroon,
    vs: seq<Caveat>)
    requires Filled(b, p, loc, id, cs, v, vs) && Agree(b, b', p) && p <= p' <= |b'|
    ensures Filled(b', p', loc, id, cs, v, vs)
  {
    hide Agree, Copied, Read;
    AgreeLengths(b, b', p);
    ReadKept(b, b', loc, p);
    ReadKept(b, b', id, p);
    CopiedKept(b, b', cs, vs, p, p');
  }

  lemma FilledCaveat(b: Bytes, p: nat, loc: Slice, id: Slice, cs: seq<CaveatSlices>, v: Macaroon, vs: seq<Caveat>,
                     c: CaveatSlices, w: Caveat)
    requires Filled(b, p, loc, id, cs, v, vs) && CaveatWithin(c, p) && ReadCaveat(b, c) == w
    ensures Filled(b, p, loc, id, cs + [c], v, vs + [w])
  {
    hide Copied, Read;
    CopiedSnoc(b, cs, vs, p, c, w);
  }

  /** With the signature put behind it, a filled body spells the macaroon. */
  lemma FilledSpells(m: Struct, b: Bytes, p: nat, v: Macaroon, vs: seq<Caveat>, sig: Bytes)
    requires m.numCaveats <= m.caveats.Length
    requires Filled(b, p, m.location, m.identifier, m.caveats[..m.numCaveats], v, vs)
    requires Agree(b, m.body[..], p) && m.signature == Slice(p, |sig|) && p + |sig| <= m.body.Length
    requires Read(m.body[..], m.signature) == sig
    ensures Spells(m, Macaroon(v.location, v.identifier, sig, vs))
  {
    hide Agree, Copied, Read;
    FilledKept(b, m.body[..], p, p, m.location, m.identifier, m.caveats[..m.numCaveats], v, vs);
    CopiedReads(m.body[..], m.caveats[..m.numCaveats], vs, p);
  }

  /** Room for one caveat more, and everything but the signature copied. */
  method Extended(n: Struct, extra: nat) returns (m: Struct, ptr: nat)
    requires n.Valid()
    ensures fresh(m) && fresh(m.body) && fresh(m.caveats)
    ensures m.numCaveats == n.numCaveats + 1 == m.caveats.Length
    ensures ptr == BodySize(n.Value()) && m.body.Length == ptr + extra
    ensures Filled(m.body[..], ptr, m.location, m.identifier, m.caveats[..n.numCaveats], n.Value(), n.Value().caveats)
    ensures m.caveats[n.numCaveats] == CaveatSlices(NIL, NIL, NIL)
  {
    hide Agree, Copied, Read, CaveatsSize;
    var sz := n.Size();
    m := new Struct(n.numCaveats + 1, sz + extra);
    m.numCaveats := n.numCaveats + 1;
    ghost var last := m.caveats[n.numCaveats..];
    assert m.caveats[n.numCaveats] == last[0];
    ptr := CopyParts(m, n);
    assert m.caveats[n.numCaveats] == m.caveats[n.numCaveats..][0];
  }

  /** The signature, where there is one to work with. */
  method CheckedSignature(n: Struct) returns (r: Result<Bytes>)
    requires n.Valid()
    ensures r == if |n.Value().caveats| + 1 > MAX_CAVEATS then Failure(TooManyCaveats)
                 else if |n.Value().signature| != HASH_BYTES then Failure(Invalid)
                 else Success(n.Value().signature)
  {
    if n.numCaveats + 1 > MAX_CAVEATS { return Failure(TooManyCaveats); }
    if n.signature.size != HASH_BYTES { return Failure(Invalid); }
    var sig := n.Bytes(n.signature);
    return Success(sig);
  }

  function Signed(v: Macaroon, c: Caveat, sig: Bytes): Macaroon {
    v.(caveats := v.caveats + [c], signature := sig)
  }

  lemma SignedSize(v: Macaroon, c: Caveat, sig: Bytes)
    ensures BodySize(Signed(v, c, sig)) == BodySize(v) + CaveatSize(c)
  {
    CaveatsSizeSnoc(v.caveats, c);
  }

  /** The signature behind a filled body that has its last caveat. */
  method Sign(m: Struct, ptr: nat, sig: Bytes, ghost v: Macaroon, ghost vs: seq<Caveat>)
    requires m.numCaveats <= m.caveats.Length && ptr + |sig| <= m.body.Length
    requires Filled(m.body[..], ptr, m.location, m.identifier, m.caveats[..m.numCaveats], v, vs)
    modifies m`signature, m.body
    ensures Spells(m, Macaroon(v.location, v.identifier, sig, vs))
    ensures m.signature == Slice(ptr, |sig|)
    ensures Filled(m.body[..], ptr, m.location, m.identifier, m.caveats[..m.numCaveats], v, vs)
  {
    hide Filled, Read, Agree;
    ghost var b := m.body[..];
    var sl, end := m.CopyToSlice(sig, ptr);
    m.signature := sl;
    FilledSpells(m, b, ptr, v, vs, sig);
    FilledKept(b, m.body[..], ptr, ptr, m.location, m.identifier, m.caveats[..m.numCaveats], v, vs);
  }

  /** macaroon_add_first_party_caveat */
  method AddFirstParty(n: Struct, pred: Bytes) returns (r: Result<Struct>)
    requires n.Valid() && |pred| < MAX_STRLEN
    ensures match Macaroons.AddFirstParty(SUITE, n.Value(), pred)
            case Failure(e) => r == Failure(e)
            case Success(v) => r.Success? && fresh(r.value) && Fills(r.value, v)
  {
    hide Filled, Read, Agree, Hmac, CaveatsSize, Spells, BodySize, Struct.Valid, Struct.Value;
    var sig := CheckedSignature(n);
    FirstPartyIs(n.Value(), pred);
    if sig.Failure? { return Failure(sig.error); }
    var hash := MacaroonHmac(sig.value, pred);
    ghost var v, c := n.Value(), Caveat(pred, [], []);
    SignedSize(v, c, hash);
    var m, ptr := Extended(n, |pred| + HASH_BYTES);
    var k := n.numCaveats;
    ghost var b, p, cs := m.body[..], ptr, m.caveats[..k];
    var cid;
    cid, ptr := m.CopyToSlice(pred, ptr);
    m.caveats[k] := m.caveats[k].(cid := cid);
    FilledKept(b, m.body[..], p, ptr, m.location, m.identifier, cs, v, v.caveats);
    OnlyCid(m.body[..], cid, ptr, pred);
    FilledCaveat(m.body[..], ptr, m.location, m.identifier, cs, v, v.caveats, m.caveats[k], c);
    assert m.caveats[..k + 1] == cs + [m.caveats[k]];
    Sign(m, ptr, hash, v, v.caveats + [c]);
    r := Success(m);
  }

  lemma FirstPartyIs(v: Macaroon, pred: Bytes)
    ensures Macaroons.AddFirstParty(SUITE, v, pred) ==
      if |v.caveats| + 1 > MAX_CAVEATS then Failure(TooManyCaveats)
      else if |v.signature| != HASH_BYTES then Failure(Invalid)
      else Success(Signed(v, Caveat(pred, [], []), Hmac(v.signature, pred)))
  {
  }

  lemma OnlyCid(b: Bytes, cid: Slice, p: nat, d: Bytes)
    requires Within(cid, p) && p <= |b| && Read(b, cid) == d
    ensures CaveatWithin(CaveatSlices(cid, NIL, NIL), p)
      && ReadCaveat(b, CaveatSlices(cid, NIL, NIL)) == Caveat(d, [], [])
  {
  }

  /** macaroon_hash2: both hashes go into the two halves of a 64-byte buffer. */
  method Hash2(key: Bytes, data1: Bytes, data2: Bytes) returns (hash: Bytes)
    ensures hash == SUITE.Hash2(key, data1, data2) && |hash| == HASH_BYTES
  {
    hide Hmac;
    var tmp := new byte[2 * HASH_BYTES](_ => 0);
    var first := MacaroonHmac(key, data1);
    Sha.CopyIn(tmp, 0, first);
    var second := MacaroonHmac(key, data2);
    Sha.CopyIn(tmp, HASH_BYTES, second);
    assert tmp[..] == tmp[..HASH_BYTES + HASH_BYTES] == first + second;
    hash := MacaroonHmac(key, tmp[..]);
  }

  lemma ThirdPartyIs(v: Macaroon, location: Bytes, key: Bytes, id: Bytes, nonce: Bytes, vid: Bytes)
    requires |v.signature| == HASH_BYTES ==> vid == nonce + Seal(v.signature, nonce, key)
    ensures Macaroons.AddThirdPartyRaw(SUITE, v, location, key, id, nonce) ==
      if |v.caveats| + 1 > MAX_CAVEATS then Failure(TooManyCaveats)
      else if |v.signature| != HASH_BYTES then Failure(Invalid)
      else Success(Signed(v, Caveat(id, vid, location), SUITE.Hash2(v.signature, vid, id)))
  {
    hide Hmac, Seal;
  }

  /** macaroon_add_third_party_caveat_raw; the nonce is what macaroon_randombytes gave. */
  method AddThirdPartyRaw(n: Struct, location: Bytes, key: Bytes, id: Bytes, nonce: Bytes) returns (r: Result<Struct>)
    requires n.Valid() && |location| < MAX_STRLEN && |id| < MAX_STRLEN && |key| == HASH_BYTES && |nonce| == NONCE_BYTES
    ensures match Macaroons.AddThirdPartyRaw(SUITE, n.Value(), location, key, id, nonce)
            case Failure(e) => r == Failure(e)
            case Success(v) => r.Success? && fresh(r.value) && Fills(r.value, v)
  {
    hide Filled, Agree, Read, Hmac, Seal, SUITE, CaveatsSize, Spells, BodySize, Struct.Valid, Struct.Value,
      ReadCaveat, CaveatWithin;
    ghost var v := n.Value();
    var sig := CheckedSignature(n);
    if sig.Failure? {
      ThirdPartyIs(v, location, key, id, nonce, nonce + Seal(v.signature, nonce, key));
      return Failure(sig.error);
    }
    var vid := SealVid(sig.value, nonce, key);
    ThirdPartyIs(v, location, key, id, nonce, vid);
    var hash := Hash2(sig.value, vid, id);
    var c := Caveat(id, vid, location);
    SignedSize(v, c, hash);
    var m, ptr := Extended(n, |id| + |vid| + |location| + HASH_BYTES);
    var k := n.numCaveats;
    ghost var b, p, cs := m.body[..], ptr, m.caveats[..k];
    var slices;
    slices, ptr := m.CopyCaveat(c, ptr);
    m.caveats[k] := slices;
    FilledKept(b, m.body[..], p, ptr, m.location, m.identifier, cs, v, v.caveats);
    FilledCaveat(m.body[..], ptr, m.location, m.identifier, cs, v, v.caveats, slices, c);
    assert m.caveats[..k + 1] == cs + [slices];
    Sign(m, ptr, hash, v, v.caveats + [c]);
    r := Success(m);
  }

  /** generate_derived_key: the generator string copied into a zeroed 32-byte buffer. */
  method GenerateDerivedKey(key: Bytes) returns (derived: Bytes)
    ensures derived == SUITE.DerivedKey(key) && |derived| == HASH_BYTES
  {
    hide Hmac;
    var genkey := new byte[HASH_BYTES](_ => 0);
    Sha.CopyIn(genkey, 0, KeyGenerator()[..23]);
    assert genkey[..] == KeyGenerator();
    derived := MacaroonHmac(genkey[..], key);
  }

  /** macaroon_create: a key of any length is hashed first. */
  method Create(location: Bytes, key: Bytes, id: Bytes) returns (m: Struct)
    requires |location| < MAX_STRLEN && |id| < MAX_STRLEN
    ensures fresh(m) && Spells(m, Macaroons.Create(SUITE, location, key, id))
    ensures m.body.Length == |location| + |id| + HASH_BYTES
  {
    hide Spells, SUITE, Hmac;
    var derived := GenerateDerivedKey(key);
    m := CreateRaw(location, derived, id);
  }

  /** macaroon_add_third_party_caveat */
  method AddThirdParty(n: Struct, location: Bytes, key: Bytes, id: Bytes, nonce: Bytes) returns (r: Result<Struct>)
    requires n.Valid() && |location| < MAX_STRLEN && |id| < MAX_STRLEN && |nonce| == NONCE_BYTES
    ensures match Macaroons.AddThirdParty(SUITE, n.Value(), location, key, id, nonce)
            case Failure(e) => r == Failure(e)
            case Success(v) => r.Success? && fresh(r.value) && Fills(r.value, v)
  {
    hide Fills, SUITE, Hmac, Struct.Valid, Struct.Value, Macaroons.AddThirdPartyRaw, BodySize;
    var derived := GenerateDerivedKey(key);
    r := AddThirdPartyRaw(n, location, derived, id, nonce);
  }

  // ---------- copies and binding ----------

  /** macaroon_copy: the signature is the last thing in the body, which reserves 32 bytes for it. */
  method Copy(n: Struct) returns (m: Struct)
    requires n.Valid() && |n.Value().signature| <= HASH_BYTES
    ensures fresh(m) && fresh(m.body) && fresh(m.caveats) && Spells(m, n.Value())
    ensures m.signature == Slice(BodySize(n.Value()), |n.Value().signature|)
    ensures m.body.Length == BodySize(n.Value()) + HASH_BYTES
    ensures m.numCaveats == n.numCaveats <= m.caveats.Length
    ensures Filled(m.body[..], m.signature.at, m.location, m.identifier, m.caveats[..m.numCaveats],
      n.Value(), n.Value().caveats)
  {
    hide Filled, Agree, Read, CaveatsSize, Spells;
    var sz := n.Size();
    m := new Struct(n.numCaveats, sz + HASH_BYTES);
    m.numCaveats := n.numCaveats;
    var ptr := CopyParts(m, n);
    var sig := n.Bytes(n.signature);
    ghost var b, v := m.body[..], n.Value();
    PartsFilled(b, ptr, m.location, m.identifier, m.caveats[..m.numCaveats], v);
    Sign(m, ptr, sig, v, v.caveats);
  }

  lemma PartsFilled(b: Bytes, p: nat, loc: Slice, id: Slice, cs: seq<CaveatSlices>, v: Macaroon)
    requires p <= |b| && Within(loc, p) && Within(id, p)
    requires Read(b, loc) == v.location && Read(b, id) == v.identifier && Copied(b, cs, v.caveats, p)
    ensures Filled(b, p, loc, id, cs, v, v.caveats)
  {
  }

  /** macaroon_bind */
  method Bind(rootSig: Bytes, sig: Bytes) returns (bound: Bytes)
    ensures bound == SUITE.Bind(rootSig, sig) && |bound| == HASH_BYTES
  {
    hide SUITE, Hmac;
    bound := Hash2(Zeros(HASH_BYTES), rootSig, sig);
  }

  /** macaroon_prepare_for_request: a copy whose signature bytes are overwritten in place. */
  method PrepareForRequest(n: Struct, d: Struct) returns (r: Result<Struct>)
    requires n.Valid() && d.Valid()
    ensures match Macaroons.PrepareForRequest(SUITE, n.Value(), d.Value())
            case Failure(e) => r == Failure(e)
            case Success(v) => r.Success? && fresh(r.value) && Spells(r.value, v)
  {
    hide Filled, Agree, Read, CaveatsSize, SUITE, Hmac, Spells, Wrote;
    if n.signature.size != HASH_BYTES || d.signature.size != HASH_BYTES { return Failure(Invalid); }
    var nsig := n.Bytes(n.signature);
    var dsig := d.Bytes(d.signature);
    var hash := Bind(nsig, dsig);
    ghost var v := d.Value();
    var b := Copy(d);
    ghost var b0 := b.body[..];
    Memmove(hash, b.body, b.signature.at);
    AgreeOfWrote(b0, b.body[..], b.signature.at, hash);
    FilledSpells(b, b0, b.signature.at, v, v.caveats, hash);
    r := Success(b);
  }
}
