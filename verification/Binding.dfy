/**
 * What signatures and bindings depend on. A 32-byte hash cannot tell all texts apart; what is asked of
 * it here is that it tells apart the finitely many pairs of key and text that one run hashes.
 */
module Binding {
  import opened Bytes
  import opened Macaroons
  import opened Discharge

  /** A key and the text hashed under it. */
  datatype Pair = Pair(key: Bytes, text: Bytes)

  ghost predicate Distinguishes(s: Suite, q: set<Pair>) {
    forall x, y :: x in q && y in q && s.hmac(x.key, x.text) == s.hmac(y.key, y.text) ==> x == y
  }

  lemma HmacFixes(s: Suite, q: set<Pair>, k: Bytes, t: Bytes, k': Bytes, t': Bytes)
    requires Distinguishes(s, q) && Pair(k, t) in q && Pair(k', t') in q
    ensures s.hmac(k, t) == s.hmac(k', t') <==> k == k' && t == t'
  {
    if s.hmac(k, t) == s.hmac(k', t') {
      assert Pair(k, t) == Pair(k', t');
    }
  }

  // ---------- derived keys, two-part hashes, bindings ----------

  /** The text under which both parts of a two-part hash are hashed once more. */
  function Halves(s: Suite, key: Bytes, data1: Bytes, data2: Bytes): Bytes {
    s.hmac(key, data1) + s.hmac(key, data2)
  }

  function Hash2Pairs(s: Suite, key: Bytes, data1: Bytes, data2: Bytes): set<Pair> {
    {Pair(key, data1), Pair(key, data2), Pair(key, Halves(s, key, data1, data2))}
  }

  function BindPairs(s: Suite, rootSig: Bytes, sig: Bytes): set<Pair> {
    Hash2Pairs(s, Zeros(HASH_BYTES), rootSig, sig)
  }

  /** macaroon_hash2 depends on its key and on both parts, each in its place. */
  lemma Hash2Fixes(s: Suite, q: set<Pair>, k: Bytes, a: Bytes, b: Bytes, k': Bytes, a': Bytes, b': Bytes)
    requires s.Sound() && Distinguishes(s, q)
    requires Hash2Pairs(s, k, a, b) <= q && Hash2Pairs(s, k', a', b') <= q
    ensures s.Hash2(k, a, b) == s.Hash2(k', a', b') <==> k == k' && a == a' && b == b'
  {
    if s.Hash2(k, a, b) == s.Hash2(k', a', b') {
      HmacFixes(s, q, k, Halves(s, k, a, b), k', Halves(s, k', a', b'));
      HalvesFix(s, q, k, a, b, a', b');
    }
  }

  lemma HalvesFix(s: Suite, q: set<Pair>, k: Bytes, a: Bytes, b: Bytes, a': Bytes, b': Bytes)
    requires s.Sound() && Distinguishes(s, q)
    requires Hash2Pairs(s, k, a, b) <= q && Hash2Pairs(s, k, a', b') <= q
    requires Halves(s, k, a, b) == Halves(s, k, a', b')
    ensures a == a' && b == b'
  {
    assert Halves(s, k, a, b)[..HASH_BYTES] == s.hmac(k, a) && Halves(s, k, a, b)[HASH_BYTES..] == s.hmac(k, b);
    assert Halves(s, k, a', b')[..HASH_BYTES] == s.hmac(k, a') && Halves(s, k, a', b')[HASH_BYTES..] == s.hmac(k, b');
    HmacFixes(s, q, k, a, k, a');
    HmacFixes(s, q, k, b, k, b');
  }

  /** A binding depends on the root's signature and on the discharge's own. */
  lemma BindFixes(s: Suite, q: set<Pair>, r: Bytes, a: Bytes, r': Bytes, a': Bytes)
    requires s.Sound() && Distinguishes(s, q) && BindPairs(s, r, a) <= q && BindPairs(s, r', a') <= q
    ensures s.Bind(r, a) == s.Bind(r', a') <==> r == r' && a == a'
  {
    Hash2Fixes(s, q, Zeros(HASH_BYTES), r, a, Zeros(HASH_BYTES), r', a');
  }

  /** A derived key depends on the key it is derived from. */
  lemma DerivedKeyFixes(s: Suite, q: set<Pair>, k: Bytes, k': Bytes)
    requires Distinguishes(s, q) && Pair(KeyGenerator(), k) in q && Pair(KeyGenerator(), k') in q
    ensures s.DerivedKey(k) == s.DerivedKey(k') <==> k == k'
  {
    HmacFixes(s, q, KeyGenerator(), k, KeyGenerator(), k');
  }

  // ---------- the chain ----------

  /** What a caveat contributes to the hash that folds it in. */
  function Folded(s: Suite, sig: Bytes, c: Caveat): Bytes {
    if |c.vid| == 0 then c.cid else Halves(s, sig, c.vid, c.cid)
  }

  function StepPairs(s: Suite, sig: Bytes, c: Caveat): set<Pair> {
    if |c.vid| == 0 then {Pair(sig, c.cid)} else Hash2Pairs(s, sig, c.vid, c.cid)
  }

  /** The parts of two caveats that are signed, and whether they are third-party caveats. */
  predicate SameKind(c: Caveat, c': Caveat) { |c.vid| == 0 <==> |c'.vid| == 0 }
  predicate SameSigned(c: Caveat, c': Caveat) { c.cid == c'.cid && c.vid == c'.vid }

  /**
   * One step fixes the signature before it and what the caveat contributes; between caveats of the
   * same kind that is identifier and vid.
   */
  lemma StepFixes(s: Suite, q: set<Pair>, sig: Bytes, c: Caveat, sig': Bytes, c': Caveat)
    requires s.Sound() && Distinguishes(s, q) && StepPairs(s, sig, c) <= q && StepPairs(s, sig', c') <= q
    ensures Step(s, sig, c) == Step(s, sig', c') <==> sig == sig' && Folded(s, sig, c) == Folded(s, sig', c')
    ensures SameKind(c, c') ==> (Step(s, sig, c) == Step(s, sig', c') <==> sig == sig' && SameSigned(c, c'))
  {
    HmacFixes(s, q, sig, Folded(s, sig, c), sig', Folded(s, sig', c'));
    if SameKind(c, c') && Step(s, sig, c) == Step(s, sig', c') && |c.vid| != 0 {
      Hash2Fixes(s, q, sig, c.vid, c.cid, sig', c'.vid, c'.cid);
    }
  }

  /**
   * The kind itself is not signed: the predicate of 64 bytes that spells the two halves leads to the
   * same signature as the third-party caveat. No shorter or longer predicate does.
   */
  lemma PredicateInItsPlace(s: Suite, q: set<Pair>, sig: Bytes, c: Caveat, pred: Bytes)
    requires s.Sound() && Distinguishes(s, q) && |c.vid| != 0 && StepPairs(s, sig, c) <= q && Pair(sig, pred) in q
    ensures Step(s, sig, Caveat(pred, [], [])) == Step(s, sig, c) <==> pred == Halves(s, sig, c.vid, c.cid)
    ensures |Halves(s, sig, c.vid, c.cid)| == 2 * HASH_BYTES
  {
    StepFixes(s, q, sig, Caveat(pred, [], []), sig, c);
  }

  /** `q` has every pair hashed on the way along `cs`. */
  ghost predicate ChainHashed(s: Suite, q: set<Pair>, sig: Bytes, cs: seq<Caveat>) {
    forall i :: 0 <= i < |cs| ==> StepPairs(s, Chain(s, sig, cs[..i]), cs[i]) <= q
  }

  lemma ChainHashedFront(s: Suite, q: set<Pair>, sig: Bytes, cs: seq<Caveat>)
    requires cs != [] && ChainHashed(s, q, sig, cs)
    ensures var n := |cs| - 1;
      ChainHashed(s, q, sig, cs[..n]) && StepPairs(s, Chain(s, sig, cs[..n]), cs[n]) <= q
  {
    hide Chain, StepPairs;
    var front := cs[..|cs| - 1];
    forall i | 0 <= i < |front| ensures StepPairs(s, Chain(s, sig, front[..i]), front[i]) <= q {
      assert front[..i] == cs[..i];
    }
  }

  /** A chain over caveats of the same kinds fixes where it started and what it folded in. */
  lemma {:induction false} ChainFixes(s: Suite, q: set<Pair>, sig: Bytes, cs: seq<Caveat>,
                                      sig': Bytes, cs': seq<Caveat>)
    requires s.Sound() && Distinguishes(s, q) && ChainHashed(s, q, sig, cs) && ChainHashed(s, q, sig', cs')
    requires |cs| == |cs'| && forall i :: 0 <= i < |cs| ==> SameKind(cs[i], cs'[i])
    requires Chain(s, sig, cs) == Chain(s, sig', cs')
    ensures sig == sig' && forall i :: 0 <= i < |cs| ==> SameSigned(cs[i], cs'[i])
    decreases |cs|
  {
    hide Distinguishes, ChainHashed, StepPairs, Step, SameKind, SameSigned, Suite.Sound;
    if cs != [] {
      var n := |cs| - 1;
      ChainHashedFront(s, q, sig, cs);
      ChainHashedFront(s, q, sig', cs');
      StepFixes(s, q, Chain(s, sig, cs[..n]), cs[n], Chain(s, sig', cs'[..n]), cs'[n]);
      ChainFixes(s, q, sig, cs[..n], sig', cs'[..n]);
      assert forall i :: 0 <= i < n ==> cs[..n][i] == cs[i] && cs'[..n][i] == cs'[i];
    }
  }

  /** `q` has every pair hashed for the signature of `m` under `key`. */
  ghost predicate Hashed(s: Suite, q: set<Pair>, m: Macaroon, key: Bytes) {
    Pair(key, m.identifier) in q && ChainHashed(s, q, s.hmac(key, m.identifier), m.caveats)
  }

  /**
   * A signature fixes the key, the identifier, and identifier and vid of every caveat, among macaroons
   * whose caveats are of the same kinds. The locations are not signed.
   */
  lemma SignatureFixes(s: Suite, q: set<Pair>, m: Macaroon, key: Bytes, m': Macaroon, key': Bytes)
    requires s.Sound() && Distinguishes(s, q) && Hashed(s, q, m, key) && Hashed(s, q, m', key')
    requires |m.caveats| == |m'.caveats| && forall i :: 0 <= i < |m.caveats| ==> SameKind(m.caveats[i], m'.caveats[i])
    ensures SigAt(s, m, key, |m.caveats|) == SigAt(s, m', key', |m'.caveats|) <==>
      && key == key' && m.identifier == m'.identifier
      && forall i :: 0 <= i < |m.caveats| ==> SameSigned(m.caveats[i], m'.caveats[i])
  {
    hide Distinguishes, ChainHashed, SameKind, Chain;
    var a, b := s.hmac(key, m.identifier), s.hmac(key', m'.identifier);
    assert m.caveats[..|m.caveats|] == m.caveats && m'.caveats[..|m'.caveats|] == m'.caveats;
    if Chain(s, a, m.caveats) == Chain(s, b, m'.caveats) {
      ChainFixes(s, q, a, m.caveats, b, m'.caveats);
      HmacFixes(s, q, key, m.identifier, key', m'.identifier);
    }
    if key == key' && m.identifier == m'.identifier
       && forall i :: 0 <= i < |m.caveats| ==> SameSigned(m.caveats[i], m'.caveats[i])
    {
      ChainOfSigned(s, a, m.caveats, m'.caveats);
    }
  }

  lemma {:induction false} ChainOfSigned(s: Suite, sig: Bytes, cs: seq<Caveat>, cs': seq<Caveat>)
    requires |cs| == |cs'| && forall i :: 0 <= i < |cs| ==> SameSigned(cs[i], cs'[i])
    ensures Chain(s, sig, cs) == Chain(s, sig, cs')
  {
    if cs != [] {
      ChainOfSigned(s, sig, cs[..|cs| - 1], cs'[..|cs| - 1]);
    }
  }

  // ---------- what one verification hashes ----------

  /** `q` has every pair hashed for `m`'s signature under `key` bound to `rootSig`. */
  ghost predicate BoundHashed(s: Suite, q: set<Pair>, m: Macaroon, key: Bytes, rootSig: Bytes) {
    Hashed(s, q, m, key) && BindPairs(s, rootSig, SigAt(s, m, key, |m.caveats|)) <= q
  }

  /** A bound signature fixes the root it was bound to and everything the discharge's own signature fixes. */
  lemma BoundFixes(s: Suite, q: set<Pair>, m: Macaroon, key: Bytes, r: Bytes, key': Bytes, r': Bytes)
    requires s.Sound() && Distinguishes(s, q) && BoundHashed(s, q, m, key, r) && BoundHashed(s, q, m, key', r')
    ensures var n := |m.caveats|;
      s.Bind(r, SigAt(s, m, key, n)) == s.Bind(r', SigAt(s, m, key', n)) <==> r == r' && key == key'
  {
    hide Distinguishes, Hashed, SigAt;
    var n := |m.caveats|;
    BindFixes(s, q, r, SigAt(s, m, key, n), r', SigAt(s, m, key', n));
    SignatureFixes(s, q, m, key, m, key');
  }

  /** The key of the last hash that made the signature of `m`. */
  function LastKey(s: Suite, m: Macaroon, key: Bytes): Bytes {
    if m.caveats == [] then key else SigAt(s, m, key, |m.caveats| - 1)
  }

  /**
   * A discharge that was never bound: its own signature is not the one the verifier expects,
   * unless the key of its last hash was the 32 zeros that bindings are hashed under.
   */
  lemma UnboundDiffers(s: Suite, q: set<Pair>, m: Macaroon, key: Bytes, key': Bytes, r: Bytes)
    requires s.Sound() && Distinguishes(s, q) && Hashed(s, q, m, key) && BoundHashed(s, q, m, key', r)
    requires LastKey(s, m, key) != Zeros(HASH_BYTES)
    ensures SigAt(s, m, key, |m.caveats|) != s.Bind(r, SigAt(s, m, key', |m.caveats|))
  {
    hide Distinguishes, ChainHashed;
    var n, z := |m.caveats|, Zeros(HASH_BYTES);
    var bound := SigAt(s, m, key', n);
    assert m.caveats[..n] == m.caveats;
    if n == 0 {
      HmacFixes(s, q, key, m.identifier, z, Halves(s, z, r, bound));
    } else {
      ChainHashedFront(s, q, s.hmac(key, m.identifier), m.caveats);
      var sig, c := SigAt(s, m, key, n - 1), m.caveats[n - 1];
      HmacFixes(s, q, sig, Folded(s, sig, c), z, Halves(s, z, r, bound));
    }
  }
}
