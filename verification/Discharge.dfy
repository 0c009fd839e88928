/**
 * What it means for a macaroon to be authorized. `Verifies` follows the
 * recursion of macaroons.c, cut-off included; `Authorized` says that a finite
 * tree of discharges exists and mentions no cut-off; the two agree.
 */
module Discharge {
  import opened Bytes
  import opened Macaroons

  /** What the verifier object holds: exact predicates and callbacks returning C ints. */
  datatype Policy = Policy(predicates: seq<Bytes>, callbacks: seq<Bytes -> int>)
  {
    predicate Satisfies(cid: Bytes) {
      cid in predicates || exists k :: 0 <= k < |callbacks| && callbacks[k](cid) == 0
    }
  }

  /** Everything one verification reads but never changes. */
  datatype Env = Env(suite: Suite, policy: Policy, root: Macaroon, ms: seq<Macaroon>)
  {
    ghost predicate Valid() {
      && suite.Sound()
      && WellFormed(root)
      && forall m <- ms :: WellFormed(m)
    }

    predicate Matches(c: Caveat, j: int) {
      0 <= j < |ms| && ms[j].identifier == c.cid
    }
  }

  // ---------- the chain of signatures ----------

  function Step(s: Suite, sig: Bytes, c: Caveat): Bytes {
    if |c.vid| == 0 then s.hmac(sig, c.cid) else s.Hash2(sig, c.vid, c.cid)
  }

  function Chain(s: Suite, sig: Bytes, cs: seq<Caveat>): Bytes {
    if cs == [] then sig else Step(s, Chain(s, sig, cs[..|cs| - 1]), cs[|cs| - 1])
  }

  /** The running signature of `m` under `key` just before caveat `i`. */
  function SigAt(s: Suite, m: Macaroon, key: Bytes, i: nat): Bytes
    requires i <= |m.caveats|
  {
    Chain(s, s.hmac(key, m.identifier), m.caveats[..i])
  }

  lemma SigAtNext(s: Suite, m: Macaroon, key: Bytes, i: nat)
    requires i < |m.caveats|
    ensures SigAt(s, m, key, i + 1) == Step(s, SigAt(s, m, key, i), m.caveats[i])
  {
    assert m.caveats[..i + 1][..i] == m.caveats[..i];
  }

  lemma {:induction false} ChainLength(s: Suite, sig: Bytes, cs: seq<Caveat>)
    requires s.Sound() && |sig| == HASH_BYTES
    ensures |Chain(s, sig, cs)| == HASH_BYTES
  {
    if cs != [] {
      ChainLength(s, sig, cs[..|cs| - 1]);
    }
  }

  lemma SigAtStart(s: Suite, m: Macaroon, key: Bytes)
    ensures SigAt(s, m, key, 0) == s.hmac(key, m.identifier)
  {
  }

  lemma SigAtLength(s: Suite, m: Macaroon, key: Bytes, i: nat)
    requires s.Sound() && i <= |m.caveats|
    ensures |SigAt(s, m, key, i)| == HASH_BYTES
  {
    ChainLength(s, s.hmac(key, m.identifier), m.caveats[..i]);
  }

  lemma BindLength(s: Suite, rootSig: Bytes, sig: Bytes)
    requires s.Sound()
    ensures |s.Bind(rootSig, sig)| == HASH_BYTES
  {
  }

  /** The signature `m` must carry: the root's as it is, a discharge's bound to the root. */
  function Expected(e: Env, m: Macaroon, key: Bytes, top: bool): Bytes {
    var sig := SigAt(e.suite, m, key, |m.caveats|);
    if top then sig else e.suite.Bind(e.root.signature, sig)
  }

  /** The caveat key recovered from a vid under the running signature, if its box opens. */
  function OpenKey(e: Env, c: Caveat, sig: Bytes): Option<Bytes> {
    if |c.vid| < NONCE_BYTES then None
    else e.suite.open(sig, c.vid[..NONCE_BYTES], c.vid[NONCE_BYTES..])
  }

  // ---------- the recursive predicate, with the code's cut-off ----------

  ghost predicate Verifies(e: Env, m: Macaroon, key: Bytes, path: seq<nat>)
    decreases |e.ms| + 1 - |path|, 1
  {
    && |path| <= |e.ms|
    && m.signature == Expected(e, m, key, |path| == 0)
    && forall i :: 0 <= i < |m.caveats| ==>
         CaveatHolds(e, m.caveats[i], SigAt(e.suite, m, key, i), path)
  }

  ghost predicate CaveatHolds(e: Env, c: Caveat, sig: Bytes, path: seq<nat>)
    requires |path| <= |e.ms|
    decreases |e.ms| + 1 - |path|, 0
  {
    if |c.vid| == 0 then e.policy.Satisfies(c.cid)
    else
      && OpenKey(e, c, sig).Some?
      && (forall j :: e.Matches(c, j) ==> j !in path)
      && exists j :: e.Matches(c, j) && Verifies(e, e.ms[j], OpenKey(e, c, sig).value, path + [j])
  }

  lemma VerifiesUnfolds(e: Env, m: Macaroon, key: Bytes, path: seq<nat>)
    requires |path| <= |e.ms|
    ensures Verifies(e, m, key, path) <==>
      && m.signature == Expected(e, m, key, |path| == 0)
      && forall i :: 0 <= i < |m.caveats| ==> CaveatHolds(e, m.caveats[i], SigAt(e.suite, m, key, i), path)
  {
    hide CaveatHolds;
  }

  // ---------- discharge trees ----------

  /** One pick per caveat: nothing for a first-party caveat, else which discharge answers it and why. */
  datatype Tree = Tree(picks: seq<Pick>)
  datatype Pick = First | Third(index: nat, sub: Tree)

  ghost predicate Proves(t: Tree, e: Env, m: Macaroon, key: Bytes, path: seq<nat>)
    decreases t
  {
    && m.signature == Expected(e, m, key, path == [])
    && |t.picks| == |m.caveats|
    && forall i :: 0 <= i < |t.picks| ==>
         PickProves(t.picks[i], e, m.caveats[i], SigAt(e.suite, m, key, i), path)
  }

  ghost predicate PickProves(p: Pick, e: Env, c: Caveat, sig: Bytes, path: seq<nat>)
    decreases p
  {
    match p
    case First => |c.vid| == 0 && e.policy.Satisfies(c.cid)
    case Third(j, sub) =>
      && |c.vid| != 0
      && OpenKey(e, c, sig).Some?
      && e.Matches(c, j)
      && (forall k :: e.Matches(c, k) ==> k !in path)
      && Proves(sub, e, e.ms[j], OpenKey(e, c, sig).value, path + [j])
  }

  ghost predicate Authorized(e: Env, m: Macaroon, key: Bytes) {
    exists t :: Proves(t, e, m, key, [])
  }

  // ---------- the cut-off never changes the verdict ----------

  ghost predicate SimplePath(path: seq<nat>, n: nat) {
    && (forall i :: 0 <= i < |path| ==> path[i] < n)
    && (forall i, j :: 0 <= i < j < |path| ==> path[i] != path[j])
  }

  /** A path that repeats no index below `n` has at most `n` entries. */
  lemma {:induction false} Pigeonhole(path: seq<nat>, n: nat)
    requires SimplePath(path, n)
    ensures |path| <= n
  {
    if path == [] {
    } else if i :| 0 <= i < |path| && path[i] == n - 1 {
      var rest := path[..i] + path[i + 1..];
      assert SimplePath(rest, n - 1);
      Pigeonhole(rest, n - 1);
    } else {
      assert path[0] < n;
      Pigeonhole(path, n - 1);
    }
  }

  lemma {:induction false} TreeVerifies(t: Tree, e: Env, m: Macaroon, key: Bytes, path: seq<nat>)
    requires Proves(t, e, m, key, path) && SimplePath(path, |e.ms|)
    ensures Verifies(e, m, key, path)
    decreases t
  {
    Pigeonhole(path, |e.ms|);
    forall i | 0 <= i < |m.caveats|
      ensures CaveatHolds(e, m.caveats[i], SigAt(e.suite, m, key, i), path)
    {
      PickHolds(t.picks[i], e, m.caveats[i], SigAt(e.suite, m, key, i), path);
    }
  }

  lemma {:induction false} PickHolds(p: Pick, e: Env, c: Caveat, sig: Bytes, path: seq<nat>)
    requires PickProves(p, e, c, sig, path) && SimplePath(path, |e.ms|) && |path| <= |e.ms|
    ensures CaveatHolds(e, c, sig, path)
    decreases p
  {
    match p
    case First =>
    case Third(j, sub) =>
      assert SimplePath(path + [j], |e.ms|);
      TreeVerifies(sub, e, e.ms[j], OpenKey(e, c, sig).value, path + [j]);
  }

  lemma {:induction false} VerifiesTree(e: Env, m: Macaroon, key: Bytes, path: seq<nat>) returns (t: Tree)
    requires Verifies(e, m, key, path)
    ensures Proves(t, e, m, key, path)
    decreases |e.ms| + 1 - |path|, 1, 0
  {
    hide CaveatHolds, PickProves, SigAt;
    assert |path| <= |e.ms|;
    var picks := FirstPicks(e, m, key, path, |m.caveats|);
    t := Tree(picks);
  }

  lemma {:induction false} FirstPicks(e: Env, m: Macaroon, key: Bytes, path: seq<nat>, n: nat)
    returns (picks: seq<Pick>)
    requires n <= |m.caveats| && Verifies(e, m, key, path) && |path| <= |e.ms|
    ensures |picks| == n
    ensures forall i :: 0 <= i < n ==>
      PickProves(picks[i], e, m.caveats[i], SigAt(e.suite, m, key, i), path)
    decreases |e.ms| + 1 - |path|, 0, n
  {
    hide CaveatHolds, PickProves, SigAt, Expected;
    picks := [];
    if n > 0 {
      picks := FirstPicks(e, m, key, path, n - 1);
      assert CaveatHolds(e, m.caveats[n - 1], SigAt(e.suite, m, key, n - 1), path);
      var pick := PickOf(e, m.caveats[n - 1], SigAt(e.suite, m, key, n - 1), path, n - 1);
      picks := picks + [pick];
    }
  }

  lemma {:induction false} PickOf(e: Env, c: Caveat, sig: Bytes, path: seq<nat>, n: nat) returns (pick: Pick)
    requires |path| <= |e.ms| && CaveatHolds(e, c, sig, path)
    ensures PickProves(pick, e, c, sig, path)
    decreases |e.ms| + 1 - |path|, 0, n
  {
    hide Verifies, Proves;
    if |c.vid| == 0 {
      pick := First;
    } else {
      var j: nat :| e.Matches(c, j) && Verifies(e, e.ms[j], OpenKey(e, c, sig).value, path + [j]);
      VerifiesWithin(e, e.ms[j], OpenKey(e, c, sig).value, path + [j]);
      var sub := VerifiesTree(e, e.ms[j], OpenKey(e, c, sig).value, path + [j]);
      pick := Third(j, sub);
    }
  }

  lemma VerifiesWithin(e: Env, m: Macaroon, key: Bytes, path: seq<nat>)
    requires Verifies(e, m, key, path)
    ensures |path| <= |e.ms|
  {
    hide CaveatHolds;
  }

  /** The recursion with its cut-off accepts exactly the macaroons that have a discharge tree. */
  lemma VerdictIffTree(e: Env, m: Macaroon, key: Bytes)
    ensures Verifies(e, m, key, []) <==> Authorized(e, m, key)
  {
    if Verifies(e, m, key, []) {
      var t := VerifiesTree(e, m, key, []);
    }
    if t :| Proves(t, e, m, key, []) {
      TreeVerifies(t, e, m, key, []);
    }
  }
}
