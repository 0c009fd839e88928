/**
 * What the verdict depends on: the set of discharges, whatever their order and
 * number, and the predicates the verifier accepts; more of either never turns
 * an acceptance into a rejection.
 */
module Verdict {
  import opened Bytes
  import opened Macaroons
  import opened Discharge

  /** `f` sends every discharge of `e` to an equal one of `e'`. */
  ghost predicate Embeds(f: nat -> nat, e: Env, e': Env) {
    forall j :: 0 <= j < |e.ms| ==> f(j) < |e'.ms| && e'.ms[f(j)] == e.ms[j]
  }

  /** `e'` asks for the same macaroon and accepts at least the predicates that `e` accepts. */
  ghost predicate Widens(e: Env, e': Env) {
    && e.suite == e'.suite && e.root == e'.root
    && forall cid :: e.policy.Satisfies(cid) ==> e'.policy.Satisfies(cid)
  }

  function RenamePath(f: nat -> nat, path: seq<nat>): seq<nat> {
    seq(|path|, i requires 0 <= i < |path| => f(path[i]))
  }

  ghost function Rename(f: nat -> nat, t: Tree): Tree
    decreases t
  {
    Tree(seq(|t.picks|, i requires 0 <= i < |t.picks| => RenamePick(f, t.picks[i])))
  }

  ghost function RenamePick(f: nat -> nat, p: Pick): Pick
    decreases p
  {
    match p
    case First => First
    case Third(j, sub) => Third(f(j), Rename(f, sub))
  }

  lemma {:induction false} TreeEmbeds(f: nat -> nat, t: Tree, e: Env, e': Env, m: Macaroon, key: Bytes, path: seq<nat>)
    requires Embeds(f, e, e') && Widens(e, e')
    requires forall p <- path :: p < |e.ms|
    requires Proves(t, e, m, key, path)
    ensures Proves(Rename(f, t), e', m, key, RenamePath(f, path))
    decreases t
  {
    forall i | 0 <= i < |m.caveats|
      ensures PickProves(RenamePick(f, t.picks[i]), e', m.caveats[i], SigAt(e.suite, m, key, i), RenamePath(f, path))
    {
      PickEmbeds(f, t.picks[i], e, e', m.caveats[i], SigAt(e.suite, m, key, i), path);
    }
  }

  lemma {:induction false} PickEmbeds(f: nat -> nat, p: Pick, e: Env, e': Env, c: Caveat, sig: Bytes, path: seq<nat>)
    requires Embeds(f, e, e') && Widens(e, e')
    requires forall p <- path :: p < |e.ms|
    requires PickProves(p, e, c, sig, path)
    ensures PickProves(RenamePick(f, p), e', c, sig, RenamePath(f, path))
    decreases p
  {
    match p
    case First =>
    case Third(j, sub) =>
      forall k | e'.Matches(c, k)
        ensures k !in RenamePath(f, path)
      {
        if i :| 0 <= i < |path| && f(path[i]) == k {
          assert path[i] in path;
          assert e.Matches(c, path[i]);
        }
      }
      assert RenamePath(f, path + [j]) == RenamePath(f, path) + [f(j)];
      TreeEmbeds(f, sub, e, e', e.ms[j], OpenKey(e, c, sig).value, path + [j]);
  }

  ghost function Position(ms: seq<Macaroon>, m: Macaroon): nat {
    if m in ms then (var j: nat :| j < |ms| && ms[j] == m; j) else 0
  }

  /** The verdict is monotone in the set of discharges and in the satisfied predicates. */
  lemma VerdictMonotone(e: Env, e': Env, key: Bytes)
    requires Widens(e, e') && forall m <- e.ms :: m in e'.ms
    ensures Authorized(e, e.root, key) ==> Authorized(e', e'.root, key)
  {
    if t :| Proves(t, e, e.root, key, []) {
      var f := (j: nat) => if j < |e.ms| then Position(e'.ms, e.ms[j]) else 0;
      TreeEmbeds(f, t, e, e', e.root, key, []);
      assert RenamePath(f, []) == [];
    }
  }

  /** Reordering the discharges leaves the verdict as it is. */
  lemma VerdictOfMultiset(e: Env, ms': seq<Macaroon>, key: Bytes)
    requires multiset(ms') == multiset(e.ms)
    ensures Authorized(e, e.root, key) <==> Authorized(e.(ms := ms'), e.root, key)
  {
    forall m ensures m in e.ms <==> m in ms' {
      assert m in e.ms <==> m in multiset(e.ms);
      assert m in ms' <==> m in multiset(ms');
    }
    VerdictMonotone(e, e.(ms := ms'), key);
    VerdictMonotone(e.(ms := ms'), e, key);
  }

  /** Presenting one more discharge keeps an acceptance. */
  lemma VerdictAppend(e: Env, d: Macaroon, key: Bytes)
    requires Authorized(e, e.root, key)
    ensures Authorized(e.(ms := e.ms + [d]), e.root, key)
  {
    VerdictMonotone(e, e.(ms := e.ms + [d]), key);
  }

  /** Adding an exact predicate or a callback to the verifier keeps an acceptance. */
  lemma VerdictMorePolicy(e: Env, pred: Bytes, check: Bytes -> int, key: Bytes)
    requires Authorized(e, e.root, key)
    ensures Authorized(e.(policy := e.policy.(predicates := e.policy.predicates + [pred])), e.root, key)
    ensures Authorized(e.(policy := e.policy.(callbacks := e.policy.callbacks + [check])), e.root, key)
  {
    var cs, cs' := e.policy.callbacks, e.policy.callbacks + [check];
    forall cid | e.policy.Satisfies(cid)
      ensures e.policy.(callbacks := cs').Satisfies(cid)
    {
      if k :| 0 <= k < |cs| && cs[k](cid) == 0 {
        assert cs'[k](cid) == 0;
      }
    }
    VerdictMonotone(e, e.(policy := e.policy.(predicates := e.policy.predicates + [pred])), key);
    VerdictMonotone(e, e.(policy := e.policy.(callbacks := cs')), key);
  }
}
