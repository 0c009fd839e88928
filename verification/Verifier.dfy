/**
 * macaroon_verify and its two mutually recursive helpers, with the path of
 * discharge indices kept in one shared array and results combined by `|=` and
 * `&=` on C ints, proved to accept exactly when a discharge tree exists.
 */
module Verifier {
  import opened Bytes
  import opened Macaroons
  import opened Discharge

  // ---------- status words ----------

  /** A C int used as a status: 0 is success, every failure is 1 or -1. */
  type Status = bv32

  const OK: Status := 0
  const FAIL: Status := 0xffff_ffff

  predicate Unit(w: Status) { w == 0 || w == 1 || w == FAIL }

  /** `a | b`: fails if one of them does. */
  function OrStatus(a: Status, b: Status): (r: Status)
    ensures r == 0 <==> a == 0 && b == 0
    ensures Unit(a) && Unit(b) ==> Unit(r)
  {
    a | b
  }

  /** `a & b` means "one of them succeeded" only because every status is 0, 1 or -1. */
  function AndStatus(a: Status, b: Status): (r: Status)
    ensures Unit(a) && Unit(b) ==> Unit(r) && (r == 0 <==> a == 0 || b == 0)
  {
    a & b
  }

  predicate FailuresCancel(a: Status, b: Status) { a != 0 && b != 0 && AndStatus(a, b) == 0 }

  /** Outside those three values two failures can look like a success. */
  lemma AndStatusNeedsUnits()
    ensures exists a, b :: FailuresCancel(a, b)
  {
    assert FailuresCancel(2, 1);
  }

  // ---------- the verifier object ----------

  /** struct macaroon_verifier: two arrays that grow, each with its capacity. */
  class VerifierObject {
    var predicates: seq<Bytes>
    var predicatesCap: nat
    var callbacks: seq<Bytes -> int>
    var callbacksCap: nat

    ghost predicate Valid()
      reads this
    {
      |predicates| <= predicatesCap && |callbacks| <= callbacksCap
    }

    function GetPolicy(): Policy
      reads this
    {
      Policy(predicates, callbacks)
    }

    constructor ()
      ensures Valid() && GetPolicy() == Policy([], [])
    {
      predicates, predicatesCap, callbacks, callbacksCap := [], 0, [], 0;
    }

    method SatisfyExact(predicate_: Bytes)
      requires Valid()
      modifies this
      ensures Valid() && GetPolicy() == old(Policy(predicates + [predicate_], callbacks))
      ensures predicatesCap == if old(|predicates|) < old(predicatesCap) then old(predicatesCap)
                               else GrownCapacity(old(predicatesCap))
    {
      if |predicates| == predicatesCap {
        predicatesCap := GrownCapacity(predicatesCap);
      }
      predicates := predicates + [predicate_];
    }

    method SatisfyGeneral(check: Bytes -> int)
      requires Valid()
      modifies this
      ensures Valid() && GetPolicy() == old(Policy(predicates, callbacks + [check]))
      ensures callbacksCap == if old(|callbacks|) < old(callbacksCap) then old(callbacksCap)
                              else GrownCapacity(old(callbacksCap))
    {
      if |callbacks| == callbacksCap {
        callbacksCap := GrownCapacity(callbacksCap);
      }
      callbacks := callbacks + [check];
    }
  }

  function GrownCapacity(cap: nat): (c: nat)
    ensures c > cap
  {
    if cap < 8 then 8 else cap + cap / 2
  }

  // ---------- the code ----------

  /** timingsafe_bcmp: 0 when the first `n` bytes agree, 1 otherwise. */
  method MemCmp(a: Bytes, b: Bytes, n: nat) returns (r: Status)
    requires n <= |a| && n <= |b|
    ensures r == if a[..n] == b[..n] then 0 else 1
  {
    var ret: byte := 0;
    var i := 0;
    while i < n
      invariant 0 <= i <= n
      invariant ret == 0 <==> a[..i] == b[..i]
    {
      XorNatZero(a[i], b[i]);
      OrNatZero(ret, Xor(a[i], b[i]));
      assert a[..i + 1] == a[..i] + [a[i]] && b[..i + 1] == b[..i] + [b[i]];
      ret := Or(ret, Xor(a[i], b[i]));
      i := i + 1;
    }
    return if ret != 0 then 1 else 0;
  }

  /** The size-and-prefix comparison the code writes out at each use. */
  method SameBytes(a: Bytes, b: Bytes) returns (same: bool)
    ensures same <==> a == b
  {
    var sz := if |a| < |b| then |a| else |b|;
    var c := MemCmp(a, b, sz);
    same := c == 0 && |a| == |b|;
    assert a[..|a|] == a && b[..|b|] == b;
  }

  method VerifyInner1st(v: VerifierObject, c: Caveat) returns (r: Status)
    ensures Unit(r)
    ensures r == 0 <==> v.GetPolicy().Satisfies(c.cid)
  {
    var found := false;
    for idx := 0 to |v.predicates|
      invariant found <==> c.cid in v.predicates[..idx]
    {
      var same := SameBytes(c.cid, v.predicates[idx]);
      found := found || same;
    }
    ghost var exact := found;
    for idx := 0 to |v.callbacks|
      invariant found <==> exact || exists k :: 0 <= k < idx && v.callbacks[k](c.cid) == 0
    {
      found := found || v.callbacks[idx](c.cid) == 0;
    }
    return if found then OK else FAIL;
  }

  /** The key the recursion is given: the opened text, or the zeroed buffer when the box does not open. */
  function KeyOrZeros(e: Env, c: Caveat, sig: Bytes): Bytes {
    match OpenKey(e, c, sig)
    case Some(k) => k
    case None => Zeros(HASH_BYTES)
  }

  lemma CutOff(e: Env, m: Macaroon, key: Bytes, path: seq<nat>)
    requires |path| > |e.ms|
    ensures !Verifies(e, m, key, path)
  {
  }

  lemma FirstPartyHolds(e: Env, c: Caveat, sig: Bytes, path: seq<nat>)
    requires |c.vid| == 0 && |path| <= |e.ms|
    ensures CaveatHolds(e, c, sig, path) <==> e.policy.Satisfies(c.cid)
  {
  }

  /** None of the matching discharges below `n` has failed to open or lies on the path. */
  ghost predicate Unblocked(e: Env, c: Caveat, sig: Bytes, path: seq<nat>, n: nat) {
    forall j :: 0 <= j < n && e.Matches(c, j) ==> OpenKey(e, c, sig).Some? && j !in path
  }

  /** Some matching discharge below `n` verifies. */
  ghost predicate Discharged(e: Env, c: Caveat, key: Bytes, path: seq<nat>, n: nat) {
    exists j :: 0 <= j < n && e.Matches(c, j) && Verifies(e, e.ms[j], key, path + [j])
  }

  ghost predicate NoMatch(e: Env, c: Caveat, n: nat) {
    forall j :: 0 <= j < n ==> !e.Matches(c, j)
  }

  lemma LoopStep(e: Env, c: Caveat, sig: Bytes, key: Bytes, path: seq<nat>, n: nat)
    requires n < |e.ms|
    ensures Unblocked(e, c, sig, path, n + 1) <==>
      Unblocked(e, c, sig, path, n) && (e.Matches(c, n) ==> OpenKey(e, c, sig).Some? && n !in path)
    ensures NoMatch(e, c, n + 1) <==> NoMatch(e, c, n) && !e.Matches(c, n)
    ensures Discharged(e, c, key, path, n + 1) <==>
      Discharged(e, c, key, path, n) || (e.Matches(c, n) && Verifies(e, e.ms[n], key, path + [n]))
  {
    hide Verifies;
  }

  lemma LoopStart(e: Env, c: Caveat, sig: Bytes, key: Bytes, path: seq<nat>)
    ensures Unblocked(e, c, sig, path, 0) && NoMatch(e, c, 0) && !Discharged(e, c, key, path, 0)
  {
  }

  lemma LoopEnd(e: Env, c: Caveat, sig: Bytes, path: seq<nat>)
    requires |path| <= |e.ms| && |c.vid| == VID_BYTES
    ensures CaveatHolds(e, c, sig, path) <==>
      && !NoMatch(e, c, |e.ms|) && Unblocked(e, c, sig, path, |e.ms|)
      && Discharged(e, c, KeyOrZeros(e, c, sig), path, |e.ms|)
  {
    hide Verifies;
  }

  lemma UnblockedAt(e: Env, c: Caveat, sig: Bytes, path: seq<nat>, n: nat, j: nat)
    requires j < n && e.Matches(c, j) && Unblocked(e, c, sig, path, n)
    ensures j !in path
  {
  }

  /** The first `n` caveats of `m` hold. */
  ghost predicate CaveatsHold(e: Env, m: Macaroon, key: Bytes, path: seq<nat>, n: nat)
    requires |path| <= |e.ms| && n <= |m.caveats|
  {
    forall i :: 0 <= i < n ==> CaveatHolds(e, m.caveats[i], SigAt(e.suite, m, key, i), path)
  }

  lemma CaveatsStep(e: Env, m: Macaroon, key: Bytes, path: seq<nat>, n: nat)
    requires |path| <= |e.ms| && n < |m.caveats|
    ensures CaveatsHold(e, m, key, path, n + 1) <==>
      CaveatsHold(e, m, key, path, n) && CaveatHolds(e, m.caveats[n], SigAt(e.suite, m, key, n), path)
  {
    hide CaveatHolds;
  }

  lemma VerifiesDef(e: Env, m: Macaroon, key: Bytes, path: seq<nat>)
    requires |path| <= |e.ms|
    ensures CaveatsHold(e, m, key, path, 0)
    ensures Verifies(e, m, key, path) <==>
      && m.signature == Expected(e, m, key, |path| == 0)
      && CaveatsHold(e, m, key, path, |m.caveats|)
  {
    hide CaveatHolds;
  }

  /** The comparison of the entry at `treeIdx` with every entry before it. */
  method OnPath(tree: array<nat>, treeIdx: nat) returns (w: Status)
    requires treeIdx < tree.Length
    ensures Unit(w)
    ensures w == 0 <==> tree[treeIdx] !in tree[..treeIdx]
  {
    w := OK;
    for tidx := 0 to treeIdx
      invariant Unit(w)
      invariant w == 0 <==> tree[treeIdx] !in tree[..tidx]
    {
      w := OrStatus(w, if tree[tidx] == tree[treeIdx] then 1 else 0);
    }
  }

  method OpenVid(suite: Suite, c: Caveat, sig: Bytes) returns (w: Status, plaintext: Bytes)
    requires suite.Sound() && |c.vid| == VID_BYTES
    ensures |plaintext| == HASH_BYTES && Unit(w)
    ensures forall e: Env :: e.suite == suite ==>
      plaintext == KeyOrZeros(e, c, sig) && (w == 0 <==> OpenKey(e, c, sig).Some?)
  {
    var nonce, ciphertext := c.vid[..NONCE_BYTES], c.vid[NONCE_BYTES..];
    var box := suite.open(sig, nonce, ciphertext);
    if box.Some? {
      return OK, box.value;
    } else {
      return FAIL, Zeros(HASH_BYTES);
    }
  }

  method VerifyInner3rd(v: VerifierObject, c: Caveat, sig: Bytes, tree: array<nat>, treeIdx: nat, ghost e: Env,
                        suite: Suite, tm: Macaroon, ms: seq<Macaroon>)
    returns (fail: Status)
    requires e == Env(suite, v.GetPolicy(), tm, ms) && e.Valid()
    requires |c.vid| == VID_BYTES && |sig| == HASH_BYTES
    requires treeIdx <= |ms| && tree.Length == |ms| + 1
    requires forall t :: 0 <= t < treeIdx ==> tree[t] < |ms|
    modifies tree
    ensures tree[..treeIdx] == old(tree[..treeIdx])
    ensures Unit(fail)
    ensures fail == 0 <==> CaveatHolds(e, c, sig, tree[..treeIdx])
    decreases |ms| + 1 - treeIdx, 0
  {
    hide Verifies, CaveatHolds, Discharged, Unblocked, NoMatch, KeyOrZeros, OpenKey, Suite.Sound, WellFormed;
    ghost var path := tree[..treeIdx];
    ghost var key := KeyOrZeros(e, c, sig);
    fail := OK;
    var inner := FAIL;
    tree[treeIdx] := |ms|;
    LoopStart(e, c, sig, key, path);
    for midx := 0 to |ms|
      invariant tree[..treeIdx] == path
      invariant tree[treeIdx] == |ms| || (tree[treeIdx] < midx && e.Matches(c, tree[treeIdx]))
      invariant tree[treeIdx] == |ms| <==> NoMatch(e, c, midx)
      invariant Unit(fail) && Unit(inner)
      invariant fail == 0 <==> Unblocked(e, c, sig, path, midx)
      invariant inner == 0 <==> Discharged(e, c, key, path, midx)
    {
      LoopStep(e, c, sig, key, path, midx);
      var same := SameBytes(c.cid, ms[midx].identifier);
      var opens, rc := OK, FAIL;
      if same {
        tree[treeIdx] := midx;
        var plaintext;
        opens, plaintext := OpenVid(suite, c, sig);
        fail := OrStatus(fail, opens);
        assert tree[..treeIdx + 1] == path + [midx];
        rc := VerifyInner(v, ms[midx], plaintext, tree, treeIdx + 1, e, suite, tm, ms);
        inner := AndStatus(inner, rc);
      }
      if Unblocked(e, c, sig, path, midx) && !same && tree[treeIdx] < midx {
        UnblockedAt(e, c, sig, path, midx, tree[treeIdx]);
      }
      var onPath := OnPath(tree, treeIdx);
      fail := OrStatus(fail, onPath);
    }
    LoopEnd(e, c, sig, path);
    if tree[treeIdx] >= |ms| {
      fail := FAIL;
    } else {
      fail := OrStatus(fail, inner);
    }
  }

  method VerifyInner(v: VerifierObject, m: Macaroon, key: Bytes, tree: array<nat>, treeIdx: nat, ghost e: Env,
                     suite: Suite, tm: Macaroon, ms: seq<Macaroon>)
    returns (treeFail: Status)
    requires e == Env(suite, v.GetPolicy(), tm, ms) && e.Valid()
    requires WellFormed(m) && |key| == HASH_BYTES
    requires treeIdx <= |ms| + 1 && tree.Length == |ms| + 1
    requires forall t :: 0 <= t < treeIdx ==> tree[t] < |ms|
    modifies tree
    ensures tree[..treeIdx] == old(tree[..treeIdx])
    ensures Unit(treeFail)
    ensures treeFail == 0 <==> Verifies(e, m, key, tree[..treeIdx])
    decreases |ms| + 1 - treeIdx, 1
  {
    hide Verifies, CaveatHolds, CaveatsHold, Suite.Sound, SigAt;
    ghost var path := tree[..treeIdx];
    if treeIdx > |ms| {
      CutOff(e, m, key, path);
      return FAIL;
    }
    VerifiesDef(e, m, key, path);
    treeFail := OK;
    var csig := suite.hmac(key, m.identifier);
    SigAtStart(suite, m, key);
    for cidx := 0 to |m.caveats|
      invariant tree[..treeIdx] == path
      invariant csig == SigAt(suite, m, key, cidx)
      invariant Unit(treeFail)
      invariant treeFail == 0 <==> CaveatsHold(e, m, key, path, cidx)
    {
      var c := m.caveats[cidx];
      var rc: Status;
      SigAtNext(suite, m, key, cidx);
      SigAtLength(suite, m, key, cidx);
      CaveatsStep(e, m, key, path, cidx);
      if |c.vid| == 0 {
        rc := VerifyInner1st(v, c);
        FirstPartyHolds(e, c, csig, path);
        csig := suite.hmac(csig, c.cid);
      } else {
        rc := VerifyInner3rd(v, c, csig, tree, treeIdx, e, suite, tm, ms);
        csig := suite.Hash2(csig, c.vid, c.cid);
      }
      treeFail := OrStatus(treeFail, rc);
    }
    SigAtLength(suite, m, key, |m.caveats|);
    BindLength(suite, tm.signature, csig);
    if treeIdx > 0 {
      csig := suite.Bind(tm.signature, csig);
    }
    var rc := MemCmp(m.signature, csig, HASH_BYTES);
    assert m.signature[..HASH_BYTES] == m.signature && csig[..HASH_BYTES] == csig;
    treeFail := OrStatus(treeFail, rc);
  }

  method VerifyRaw(v: VerifierObject, suite: Suite, m: Macaroon, key: Bytes, ms: seq<Macaroon>)
    returns (rc: Status)
    requires Env(suite, v.GetPolicy(), m, ms).Valid() && |key| == HASH_BYTES
    ensures Unit(rc)
    ensures rc == 0 <==> Authorized(Env(suite, v.GetPolicy(), m, ms), m, key)
  {
    var tree := new nat[|ms| + 1](_ => |ms|);
    ghost var e := Env(suite, v.GetPolicy(), m, ms);
    rc := VerifyInner(v, m, key, tree, 0, e, suite, m, ms);
    assert tree[..0] == [];
    VerdictIffTree(e, m, key);
  }

  method Verify(v: VerifierObject, suite: Suite, m: Macaroon, key: Bytes, ms: seq<Macaroon>)
    returns (rc: Status)
    requires Env(suite, v.GetPolicy(), m, ms).Valid()
    ensures Unit(rc)
    ensures rc == 0 <==> Authorized(Env(suite, v.GetPolicy(), m, ms), m, suite.DerivedKey(key))
  {
    var derived := suite.DerivedKey(key);
    rc := VerifyRaw(v, suite, m, derived, ms);
  }
}
