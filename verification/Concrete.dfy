/** The primitives the library links: macaroon_hmac is HMAC-SHA256, macaroon_secretbox the NaCl secretbox. */
module Concrete {
  import opened Binding
  import opened Bytes
  import opened Macaroons
  import opened Discharge
  import opened Runs
  import Sha = Sha256Stream
  import Box = SecretBox

  function Hmac(key: Bytes, text: Bytes): Bytes {
    Sha.Hmac(Sha.HmacKey(key), text)
  }

  /** The 48 bytes of box that a vid carries behind its nonce. */
  function Seal(key: Bytes, nonce: Bytes, text: Bytes): Bytes {
    if |key| == HASH_BYTES && |nonce| == NONCE_BYTES then
      var c := Box.Seal(Zeros(32) + text, nonce, key);
      c.value[16..]
    else []
  }

  function Open(key: Bytes, nonce: Bytes, box: Bytes): Option<Bytes> {
    if |key| == HASH_BYTES && |nonce| == NONCE_BYTES then
      match Box.Open(Zeros(16) + box, nonce, key)
      case Some(m) => Some(m[32..])
      case None => None
    else None
  }

  const SUITE := Suite(Hmac, Seal, Open)

  lemma OpenSealText(key: Bytes, nonce: Bytes, text: Bytes)
    requires |key| == HASH_BYTES && |nonce| == NONCE_BYTES && |text| == HASH_BYTES
    ensures |Seal(key, nonce, text)| == HASH_BYTES + BOX_OVERHEAD
    ensures Open(key, nonce, Seal(key, nonce, text)) == Some(text)
  {
    hide Box.StreamXor;
    var m := Zeros(32) + text;
    assert m[..32] == Zeros(32) && m[32..] == text;
    Box.OpenSeal(m, nonce, key);
    var c := Box.Seal(m, nonce, key).value;
    assert c[..16] == Zeros(16) && Zeros(16) + c[16..] == c;
  }

  lemma OpenLength(key: Bytes, nonce: Bytes, box: Bytes)
    requires |box| == HASH_BYTES + BOX_OVERHEAD && Open(key, nonce, box).Some?
    ensures |Open(key, nonce, box).value| == HASH_BYTES
  {
    hide Box.StreamXor;
  }

  /** The protocol's demands on its primitives are met by the ones it is linked with. */
  lemma ConcreteSound()
    ensures SUITE.Sound()
  {
    hide Hmac, Seal, Open;
    forall k, m ensures |SUITE.hmac(k, m)| == HASH_BYTES {
      HmacLength(k, m);
    }
    forall k, n, t | |k| == HASH_BYTES && |n| == NONCE_BYTES && |t| == HASH_BYTES
      ensures |SUITE.seal(k, n, t)| == HASH_BYTES + BOX_OVERHEAD && SUITE.open(k, n, SUITE.seal(k, n, t)) == Some(t)
    {
      OpenSealText(k, n, t);
    }
    forall k, n, c | |c| == HASH_BYTES + BOX_OVERHEAD && SUITE.open(k, n, c).Some?
      ensures |SUITE.open(k, n, c).value| == HASH_BYTES
    {
      OpenLength(k, n, c);
    }
  }

  lemma HmacLength(key: Bytes, text: Bytes)
    ensures |Hmac(key, text)| == HASH_BYTES
  {
  }

  /** `e` verifies what `w` presents, with HMAC-SHA256 and the secretbox in place. */
  ghost predicate Running(w: World, e: Env) {
    && w.suite == SUITE && e.suite == SUITE && e.policy == w.policy
    && w.Presents(e.root, e.ms) && w.DistinctIds() && w.Fits()
  }

  lemma RunningVerifies(w: World, e: Env)
    requires Running(w, e)
    ensures Verifying(w, e) && |e.ms| == |w.targets| == |w.issues|
  {
    hide Hmac, Seal, Open, World.Fits, World.DistinctIds;
    ConcreteSound();
  }

  /** The exact verdict on whole runs; HMAC-SHA256 has to tell apart only the pairs that the run hashes. */
  lemma ConcreteVerdict(w: World, e: Env, key: Bytes, q: set<Pair>)
    requires Running(w, e) && |e.ms| == |w.targets| == |w.issues|
    requires Distinguishes(SUITE, q) && IssuesHashed(w, e, q) && RootHashed(w, e, q, key)
    ensures e.Valid()
    ensures Authorized(e, e.root, key) <==> key == KeyOf(SUITE, w.root.key) && exists t :: w.Honoured(w.root.ops, t)
  {
    hide Hmac, Seal, Open, Authorized, World.Honoured, World.Presents, World.Fits, World.DistinctIds, Verifying,
      Distinguishes, IssuesHashed, RootHashed, KeyOf, Env.Valid;
    RunningVerifies(w, e);
    RunVerdict(w, e, key, q);
  }

  /** Completeness of whole runs; nothing is assumed. */
  lemma ConcreteCompleteness(w: World, e: Env, rank: seq<nat>, top: nat)
    requires Running(w, e) && Acyclic(w, rank, top)
    ensures e.Valid() && Authorized(e, e.root, KeyOf(SUITE, w.root.key))
  {
    hide Hmac, Seal, Open, Authorized, World.Presents, World.Fits, World.DistinctIds, Verifying, Acyclic, Env.Valid;
    RunningVerifies(w, e);
    Completeness(w, e, rank, top);
  }

  // ---------- the calls as macaroons.c makes them ----------

  lemma SealUnfolds(key: Bytes, nonce: Bytes, text: Bytes)
    requires |key| == HASH_BYTES && |nonce| == NONCE_BYTES && |text| == HASH_BYTES
    ensures var c := Box.Seal(Zeros(32) + text, nonce, key);
      c.Some? && |c.value| == 64 && Seal(key, nonce, text) == c.value[16..]
  {
    hide Box.StreamXor;
  }

  lemma OpenUnfolds(key: Bytes, nonce: Bytes, box: Bytes)
    requires |key| == HASH_BYTES && |nonce| == NONCE_BYTES && |box| == HASH_BYTES + BOX_OVERHEAD
    ensures var m := Box.Open(Zeros(16) + box, nonce, key);
      && (m.Some? ==> |m.value| == 64)
      && Open(key, nonce, box) == if m.Some? then Some(m.value[32..]) else None
  {
    hide Box.StreamXor;
  }

  /** The plaintext buffer, the call of macaroon_secretbox, and the vid assembled from nonce and box. */
  method SealVid(sig: Bytes, nonce: Bytes, key: Bytes) returns (vid: Bytes)
    requires |sig| == HASH_BYTES && |nonce| == NONCE_BYTES && |key| == HASH_BYTES
    ensures vid == nonce + Seal(sig, nonce, key) && |vid| == VID_BYTES
  {
    hide Box.Seal, Seal;
    SealUnfolds(sig, nonce, key);
    var plaintext := new byte[64](_ => 0);
    Sha.CopyIn(plaintext, 32, key);
    var ciphertext := new byte[64](_ => 0);
    assert plaintext[..64] == Zeros(32) + key;
    var rc := Box.CryptoSecretBox(ciphertext, plaintext, 64, nonce, sig);
    vid := nonce + ciphertext[16..];
  }

  /** The ciphertext buffer and the call of macaroon_secretbox_open; the plaintext stays zero when it fails. */
  method OpenVid(sig: Bytes, vid: Bytes) returns (ok: bool, key: Bytes)
    requires |sig| == HASH_BYTES && |vid| == VID_BYTES
    ensures Open(sig, vid[..NONCE_BYTES], vid[NONCE_BYTES..]) == if ok then Some(key) else None
    ensures !ok ==> key == Zeros(HASH_BYTES)
  {
    hide Box.Open, Open;
    OpenUnfolds(sig, vid[..NONCE_BYTES], vid[NONCE_BYTES..]);
    var plaintext := new byte[64](_ => 0);
    var ciphertext := new byte[64](_ => 0);
    Sha.CopyIn(ciphertext, 16, vid[NONCE_BYTES..]);
    assert ciphertext[..64] == Zeros(16) + vid[NONCE_BYTES..];
    ghost var zeros := plaintext[..];
    var rc := Box.CryptoSecretBoxOpen(plaintext, ciphertext, 64, vid[..NONCE_BYTES], sig);
    ok := rc == 0;
    key := plaintext[..][32..];
    if ok {
      ghost var m := Box.Open(Zeros(16) + vid[NONCE_BYTES..], vid[..NONCE_BYTES], sig);
      assert plaintext[..] == m.value + zeros[64..] == m.value;
    } else {
      assert zeros[32..] == Zeros(HASH_BYTES);
    }
  }
}
