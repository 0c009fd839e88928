/**
 * Macaroons as values and the functions of macaroons.c that make new ones.
 * The two cryptographic primitives are parameters (`Suite`); `SUITE`
 * in Concrete.dfy puts HMAC-SHA256 and the NaCl secretbox in their place.
 */
module Macaroons {
  import opened Bytes

  const HASH_BYTES := 32
  const NONCE_BYTES := 24
  const BOX_OVERHEAD := 16
  const VID_BYTES := NONCE_BYTES + HASH_BYTES + BOX_OVERHEAD
  const MAX_STRLEN := 32768
  const MAX_CAVEATS := 65536

  datatype Caveat = Caveat(cid: Bytes, vid: Bytes, cl: Bytes)

  datatype Macaroon = Macaroon(location: Bytes, identifier: Bytes, signature: Bytes, caveats: seq<Caveat>)

  datatype ReturnCode = TooManyCaveats | Invalid

  datatype Result<+T> = Success(value: T) | Failure(error: ReturnCode)

  /** The primitives: a keyed hash, and sealing and opening under a key and a nonce. */
  datatype Suite = Suite(
    hmac: (Bytes, Bytes) -> Bytes,
    seal: (Bytes, Bytes, Bytes) -> Bytes,
    open: (Bytes, Bytes, Bytes) -> Option<Bytes>)
  {
    /** All that the protocol needs of them: lengths, and that opening undoes sealing. */
    ghost predicate Sound() {
      && (forall k, m :: |hmac(k, m)| == HASH_BYTES)
      && (forall k, n, t :: |k| == HASH_BYTES && |n| == NONCE_BYTES && |t| == HASH_BYTES ==>
            |seal(k, n, t)| == HASH_BYTES + BOX_OVERHEAD && open(k, n, seal(k, n, t)) == Some(t))
      && (forall k, n, c :: |c| == HASH_BYTES + BOX_OVERHEAD && open(k, n, c).Some? ==>
            |open(k, n, c).value| == HASH_BYTES)
    }

    function Hash2(key: Bytes, data1: Bytes, data2: Bytes): Bytes {
      hmac(key, hmac(key, data1) + hmac(key, data2))
    }

    /** The key under which user-chosen keys of any length are hashed to 32 bytes. */
    function DerivedKey(key: Bytes): Bytes {
      hmac(KeyGenerator(), key)
    }

    function Bind(rootSig: Bytes, sig: Bytes): Bytes {
      Hash2(Zeros(HASH_BYTES), rootSig, sig)
    }
  }

  /** "macaroons-key-generator" in ASCII, padded with zeros to 32 bytes. */
  function KeyGenerator(): (k: Bytes)
    ensures |k| == HASH_BYTES
  {
    [109, 97, 99, 97, 114, 111, 111, 110, 115, 45, 107, 101, 121, 45,
     103, 101, 110, 101, 114, 97, 116, 111, 114] + Zeros(9)
  }

  lemma KeyGeneratorText()
    ensures KeyGenerator() == Ascii("macaroons-key-generator") + Zeros(9)
  {
    assert |"macaroons-key-generator"| == 23;
  }

  function CreateRaw(s: Suite, location: Bytes, key: Bytes, id: Bytes): Macaroon {
    Macaroon(location, id, s.hmac(key, id), [])
  }

  function Create(s: Suite, location: Bytes, key: Bytes, id: Bytes): Macaroon {
    CreateRaw(s, location, s.DerivedKey(key), id)
  }

  function AddFirstParty(s: Suite, m: Macaroon, pred: Bytes): Result<Macaroon> {
    if |m.caveats| + 1 > MAX_CAVEATS then Failure(TooManyCaveats)
    else if |m.signature| != HASH_BYTES then Failure(Invalid)
    else Success(m.(caveats := m.caveats + [Caveat(pred, [], [])],
                    signature := s.hmac(m.signature, pred)))
  }

  function AddThirdPartyRaw(s: Suite, m: Macaroon, location: Bytes, key: Bytes, id: Bytes, nonce: Bytes)
    : Result<Macaroon>
  {
    if |m.caveats| + 1 > MAX_CAVEATS then Failure(TooManyCaveats)
    else if |m.signature| != HASH_BYTES then Failure(Invalid)
    else
      var vid := nonce + s.seal(m.signature, nonce, key);
      Success(m.(caveats := m.caveats + [Caveat(id, vid, location)],
                 signature := s.Hash2(m.signature, vid, id)))
  }

  function AddThirdParty(s: Suite, m: Macaroon, location: Bytes, key: Bytes, id: Bytes, nonce: Bytes)
    : Result<Macaroon>
  {
    AddThirdPartyRaw(s, m, location, s.DerivedKey(key), id, nonce)
  }

  function PrepareForRequest(s: Suite, m: Macaroon, d: Macaroon): Result<Macaroon> {
    if |m.signature| != HASH_BYTES || |d.signature| != HASH_BYTES then Failure(Invalid)
    else Success(d.(signature := s.Bind(m.signature, d.signature)))
  }

  /** What the verifier assumes of a macaroon: a 32-byte signature, and vids that are absent or 72 bytes long. */
  predicate WellFormed(m: Macaroon) {
    && |m.signature| == HASH_BYTES
    && forall c <- m.caveats :: |c.vid| == 0 || |c.vid| == VID_BYTES
  }
}
