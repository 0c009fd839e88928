/**
 * Whole runs of the library: mint a root, attenuate it, mint the discharges its
 * third parties ask for, bind them and verify.
 */
module Runs {
  import opened Binding
  import opened Bytes
  import opened Macaroons
  import opened Discharge

  /** A key as the API takes it: of any length, to be hashed first, or 32 bytes for the raw calls. */
  datatype Secret = Plain(key: Bytes) | Raw(key: Bytes)

  function KeyOf(s: Suite, k: Secret): Bytes {
    match k
    case Plain(key) => s.DerivedKey(key)
    case Raw(key) => key
  }

  /** One attenuation; the nonce is the one macaroon_randombytes would draw. */
  datatype Op = FirstParty(pred: Bytes) | ThirdParty(location: Bytes, key: Secret, id: Bytes, nonce: Bytes)

  /** A macaroon as its issuer makes it: create, then attenuate. */
  datatype Issue = Issue(location: Bytes, key: Secret, id: Bytes, ops: seq<Op>)

  /** create and create_raw */
  function Start(s: Suite, i: Issue): Macaroon {
    match i.key
    case Plain(key) => Create(s, i.location, key, i.id)
    case Raw(key) => CreateRaw(s, i.location, key, i.id)
  }

  /** The three calls that add a caveat. */
  function Apply(s: Suite, m: Macaroon, op: Op): Result<Macaroon> {
    match op
    case FirstParty(pred) => AddFirstParty(s, m, pred)
    case ThirdParty(location, Plain(key), id, nonce) => AddThirdParty(s, m, location, key, id, nonce)
    case ThirdParty(location, Raw(key), id, nonce) => AddThirdPartyRaw(s, m, location, key, id, nonce)
  }

  function Attenuate(s: Suite, m: Macaroon, ops: seq<Op>): Result<Macaroon> {
    if ops == [] then Success(m)
    else match Attenuate(s, m, ops[..|ops| - 1])
      case Success(n) => Apply(s, n, ops[|ops| - 1])
      case Failure(err) => Failure(err)
  }

  function Mint(s: Suite, i: Issue): Result<Macaroon> {
    Attenuate(s, Start(s, i), i.ops)
  }

  /** What the calls demand: raw keys of 32 bytes; nonces have their length. */
  predicate OpFits(op: Op) {
    op.ThirdParty? ==> |op.nonce| == NONCE_BYTES && (op.key.Raw? ==> |op.key.key| == HASH_BYTES)
  }

  predicate OpsFit(ops: seq<Op>) {
    forall op <- ops :: OpFits(op)
  }

  /** The caveat an operation leaves behind when the running signature is `sig`. */
  function CaveatOf(s: Suite, op: Op, sig: Bytes): Caveat {
    match op
    case FirstParty(pred) => Caveat(pred, [], [])
    case ThirdParty(location, key, id, nonce) =>
      Caveat(id, nonce + s.seal(sig, nonce, KeyOf(s, key)), location)
  }

  /** `m` is what create and `ops` make under `key`: every signature along the way is the verifier's. */
  ghost predicate Traces(s: Suite, m: Macaroon, key: Bytes, ops: seq<Op>) {
    && |m.caveats| == |ops|
    && m.signature == SigAt(s, m, key, |ops|)
    && forall i :: 0 <= i < |ops| ==> m.caveats[i] == CaveatOf(s, ops[i], SigAt(s, m, key, i))
  }

  /** What an operation leaves: its caveat behind the others, and the signature that folds it in. */
  lemma ApplyShape(s: Suite, m: Macaroon, op: Op)
    requires s.Sound() && |m.signature| == HASH_BYTES && OpFits(op)
    requires Apply(s, m, op).Success?
    ensures var m', c := Apply(s, m, op).value, CaveatOf(s, op, m.signature);
      && m' == m.(caveats := m.caveats + [c], signature := Step(s, m.signature, c))
  {
  }

  /** Caveats behind `i` do not matter to the signature there. */
  lemma SigAtPrefix(s: Suite, m: Macaroon, m': Macaroon, key: Bytes, i: nat)
    requires i <= |m.caveats| && m.caveats <= m'.caveats && m'.identifier == m.identifier
    ensures SigAt(s, m', key, i) == SigAt(s, m, key, i)
  {
    assert m'.caveats[..i] == m.caveats[..i];
  }

  lemma ApplyTraces(s: Suite, m: Macaroon, key: Bytes, ops: seq<Op>, op: Op)
    requires s.Sound() && OpsFit([op])
    requires Traces(s, m, key, ops) && Apply(s, m, op).Success?
    ensures Traces(s, Apply(s, m, op).value, key, ops + [op])
  {
    hide Apply, CaveatOf, SigAt, Step, Suite.Sound;
    var m' := Apply(s, m, op).value;
    var n := |ops|;
    SigAtLength(s, m, key, n);
    assert op in [op];
    ApplyShape(s, m, op);
    forall i: nat | i <= n
      ensures SigAt(s, m', key, i) == SigAt(s, m, key, i)
    {
      SigAtPrefix(s, m, m', key, i);
    }
    SigAtNext(s, m', key, n);
  }

  lemma ApplyOutcome(s: Suite, m: Macaroon, op: Op)
    requires |m.signature| == HASH_BYTES
    ensures |m.caveats| < MAX_CAVEATS ==>
      Apply(s, m, op).Success? && Apply(s, m, op).value.identifier == m.identifier
        && Apply(s, m, op).value.location == m.location
    ensures |m.caveats| >= MAX_CAVEATS ==> Apply(s, m, op) == Failure(TooManyCaveats)
  {
  }

  /** The first `n` operations of issue `i` succeed and trace, or hit the caveat limit. */
  ghost predicate MintedUpTo(s: Suite, i: Issue, n: nat)
    requires n <= |i.ops|
  {
    match Attenuate(s, Start(s, i), i.ops[..n])
    case Success(m) =>
      n <= MAX_CAVEATS && Traces(s, m, KeyOf(s, i.key), i.ops[..n]) && m.identifier == i.id && m.location == i.location
    case Failure(err) => n > MAX_CAVEATS && err == TooManyCaveats
  }

  lemma {:induction false} MintTraces(s: Suite, i: Issue, n: nat)
    requires s.Sound() && OpsFit(i.ops) && n <= |i.ops|
    ensures MintedUpTo(s, i, n)
  {
    hide Apply, SigAt, CaveatOf, Suite.Sound;
    var key := KeyOf(s, i.key);
    if n == 0 {
      SigAtStart(s, Start(s, i), key);
    } else {
      MintTraces(s, i, n - 1);
      assert i.ops[..n][..n - 1] == i.ops[..n - 1];
      var before := Attenuate(s, Start(s, i), i.ops[..n - 1]);
      if before.Success? {
        SigAtLength(s, before.value, key, n - 1);
        ApplyOutcome(s, before.value, i.ops[n - 1]);
        if n <= MAX_CAVEATS {
          assert i.ops[n - 1] in i.ops;
          ApplyTraces(s, before.value, key, i.ops[..n - 1], i.ops[n - 1]);
          assert i.ops[..n - 1] + [i.ops[n - 1]] == i.ops[..n];
        }
      }
    }
  }

  /** Minting succeeds exactly within the caveat limit, and then leaves the verifier's own chain in the macaroon. */
  lemma MintShape(s: Suite, i: Issue)
    requires s.Sound() && OpsFit(i.ops)
    ensures Mint(s, i).Success? <==> |i.ops| <= MAX_CAVEATS
    ensures Mint(s, i).Success? ==>
      var m := Mint(s, i).value;
      Traces(s, m, KeyOf(s, i.key), i.ops) && m.identifier == i.id && m.location == i.location
  {
    MintTraces(s, i, |i.ops|);
    assert i.ops[..|i.ops|] == i.ops;
  }

  lemma CaveatOpens(e: Env, op: Op, sig: Bytes)
    requires e.suite.Sound() && OpFits(op) && op.ThirdParty? && |sig| == HASH_BYTES
    ensures var c := CaveatOf(e.suite, op, sig);
      |c.vid| == VID_BYTES && c.cid == op.id && OpenKey(e, c, sig) == Some(KeyOf(e.suite, op.key))
  {
    var key := KeyOf(e.suite, op.key);
    assert |key| == HASH_BYTES;
    var vid := op.nonce + e.suite.seal(sig, op.nonce, key);
    assert vid[..NONCE_BYTES] == op.nonce && vid[NONCE_BYTES..] == e.suite.seal(sig, op.nonce, key);
  }

  lemma CaveatVid(s: Suite, op: Op, sig: Bytes)
    requires s.Sound() && OpFits(op) && |sig| == HASH_BYTES
    ensures var c := CaveatOf(s, op, sig); |c.vid| == 0 || |c.vid| == VID_BYTES
  {
    if op.ThirdParty? { assert |KeyOf(s, op.key)| == HASH_BYTES; }
  }

  lemma TracesWellFormed(s: Suite, m: Macaroon, key: Bytes, ops: seq<Op>)
    requires s.Sound() && OpsFit(ops) && Traces(s, m, key, ops)
    ensures WellFormed(m)
  {
    hide SigAt, CaveatOf, Suite.Sound, OpFits;
    SigAtLength(s, m, key, |ops|);
    forall i | 0 <= i < |m.caveats|
      ensures |m.caveats[i].vid| == 0 || |m.caveats[i].vid| == VID_BYTES
    {
      SigAtLength(s, m, key, i);
      assert ops[i] in ops;
      CaveatVid(s, ops[i], SigAt(s, m, key, i));
    }
  }

  /** A third-party caveat made along the chain opens, at its place in the chain, to the key it was made with. */
  lemma OpensToKey(e: Env, m: Macaroon, key: Bytes, ops: seq<Op>, i: nat)
    requires e.suite.Sound() && OpsFit(ops) && Traces(e.suite, m, key, ops)
    requires i < |ops| && ops[i].ThirdParty?
    ensures |m.caveats[i].vid| == VID_BYTES && m.caveats[i].cid == ops[i].id
    ensures OpenKey(e, m.caveats[i], SigAt(e.suite, m, key, i)) == Some(KeyOf(e.suite, ops[i].key))
  {
    hide SigAt, CaveatOf, Suite.Sound, OpFits, OpenKey;
    SigAtLength(e.suite, m, key, i);
    assert ops[i] in ops;
    CaveatOpens(e, ops[i], SigAt(e.suite, m, key, i));
  }

  /** A root with one caveat of each kind, spelled out in the two primitives alone. */
  lemma SpelledMint(s: Suite, loc: Bytes, key: Bytes, id: Bytes, pred: Bytes,
                    cl: Bytes, ckey: Bytes, cid: Bytes, nonce: Bytes)
    requires s.Sound()
    ensures var gen := Ascii("macaroons-key-generator") + Zeros(9);
      var sig1 := s.hmac(s.hmac(s.hmac(gen, key), id), pred);
      var vid := nonce + s.seal(sig1, nonce, s.hmac(gen, ckey));
      var sig2 := s.hmac(sig1, s.hmac(sig1, vid) + s.hmac(sig1, cid));
      Mint(s, Issue(loc, Plain(key), id, [FirstParty(pred), ThirdParty(cl, Plain(ckey), cid, nonce)]))
        == Success(Macaroon(loc, id, sig2, [Caveat(pred, [], []), Caveat(cid, vid, cl)]))
  {
    hide KeyGenerator, Ascii, Apply, Attenuate, AddFirstParty, AddThirdParty;
    KeyGeneratorText();
    var start := Create(s, loc, key, id);
    var first, third := FirstParty(pred), ThirdParty(cl, Plain(ckey), cid, nonce);
    SpelledFirst(s, start, pred);
    var mid := Apply(s, start, first).value;
    SpelledThird(s, mid, cl, ckey, cid, nonce);
    AttenuateTwice(s, start, first, third);
  }

  lemma SpelledFirst(s: Suite, m: Macaroon, pred: Bytes)
    requires |m.signature| == 32 && m.caveats == []
    ensures Apply(s, m, FirstParty(pred))
      == Success(Macaroon(m.location, m.identifier, s.hmac(m.signature, pred), [Caveat(pred, [], [])]))
  {
    assert [] + [Caveat(pred, [], [])] == [Caveat(pred, [], [])];
  }

  lemma SpelledThird(s: Suite, m: Macaroon, cl: Bytes, ckey: Bytes, cid: Bytes, nonce: Bytes)
    requires |m.signature| == 32 && |m.caveats| == 1
    ensures var sig := m.signature;
      var vid := nonce + s.seal(sig, nonce, s.hmac(KeyGenerator(), ckey));
      Apply(s, m, ThirdParty(cl, Plain(ckey), cid, nonce))
        == Success(Macaroon(m.location, m.identifier, s.hmac(sig, s.hmac(sig, vid) + s.hmac(sig, cid)),
                            [m.caveats[0], Caveat(cid, vid, cl)]))
  {
    hide KeyGenerator;
    var c := Apply(s, m, ThirdParty(cl, Plain(ckey), cid, nonce)).value.caveats[1];
    assert m.caveats + [c] == [m.caveats[0], c];
  }

  lemma AttenuateTwice(s: Suite, m: Macaroon, first: Op, second: Op)
    requires Apply(s, m, first).Success?
    ensures Attenuate(s, m, [first, second]) == Apply(s, Apply(s, m, first).value, second)
  {
    hide Apply;
    assert [first, second][..1] == [first] && [first][..0] == [];
    assert Attenuate(s, m, [first]) == Apply(s, m, first);
  }

  /** A discharge without caveats, prepared for a root, spelled out in the keyed hash alone. */
  lemma SpelledDischarge(s: Suite, root: Macaroon, loc: Bytes, key: Bytes, id: Bytes)
    requires s.Sound() && |root.signature| == 32
    ensures var gen, zero := Ascii("macaroons-key-generator") + Zeros(9), Zeros(32);
      PrepareForRequest(s, root, Create(s, loc, key, id)) == Success(Macaroon(loc, id,
        s.hmac(zero, s.hmac(zero, root.signature) + s.hmac(zero, s.hmac(s.hmac(gen, key), id))), []))
  {
    hide KeyGenerator, Ascii;
    KeyGeneratorText();
  }

  /** What one operation asks for at the root: an accepted predicate, or a discharge under the key it was given. */
  ghost predicate OpAccepted(e: Env, op: Op) {
    match op
    case FirstParty(pred) => e.policy.Satisfies(pred)
    case ThirdParty(_, key, id, _) =>
      exists j :: 0 <= j < |e.ms| && e.ms[j].identifier == id && Verifies(e, e.ms[j], KeyOf(e.suite, key), [j])
  }

  lemma OpVerdict(e: Env, m: Macaroon, key: Bytes, ops: seq<Op>, i: nat)
    requires e.suite.Sound() && OpsFit(ops) && Traces(e.suite, m, key, ops) && i < |ops|
    ensures CaveatHolds(e, m.caveats[i], SigAt(e.suite, m, key, i), []) <==> OpAccepted(e, ops[i])
  {
    hide Verifies;
    if ops[i].ThirdParty? {
      OpensToKey(e, m, key, ops, i);
      assert forall j: nat :: [] + [j] == [j];
    }
  }

  /** A minted root is authorized exactly when its predicates are accepted and each third party has answered. */
  lemma MintedVerdict(e: Env, i: Issue)
    requires e.suite.Sound() && OpsFit(i.ops) && Mint(e.suite, i) == Success(e.root)
    ensures Authorized(e, e.root, KeyOf(e.suite, i.key)) <==> forall op <- i.ops :: OpAccepted(e, op)
  {
    hide Verifies, CaveatHolds, OpAccepted;
    var key := KeyOf(e.suite, i.key);
    MintShape(e.suite, i);
    VerdictIffTree(e, e.root, key);
    VerifiesUnfolds(e, e.root, key, []);
    forall k | 0 <= k < |i.ops|
      ensures CaveatHolds(e, e.root.caveats[k], SigAt(e.suite, e.root, key, k), []) <==> OpAccepted(e, i.ops[k])
    {
      OpVerdict(e, e.root, key, i.ops, k);
    }
    assert forall op <- i.ops :: exists k :: 0 <= k < |i.ops| && i.ops[k] == op;
  }

  // ---------- whole runs ----------

  /**
   * A root, the discharges in the order they are presented, the macaroon each was prepared for,
   * and what the verifier accepts.
   */
  datatype World = World(suite: Suite, policy: Policy, root: Issue, issues: seq<Issue>, targets: seq<Macaroon>)
  {
    /** Every discharge, bound to the macaroon it was prepared for. */
    ghost predicate Presents(m: Macaroon, ms: seq<Macaroon>) {
      && Mint(suite, root) == Success(m)
      && |ms| == |issues| == |targets|
      && forall j :: 0 <= j < |ms| ==>
           Mint(suite, issues[j]).Success?
             && PrepareForRequest(suite, targets[j], Mint(suite, issues[j]).value) == Success(ms[j])
    }

    ghost predicate DistinctIds() {
      forall i, j :: 0 <= i < j < |issues| ==> issues[i].id != issues[j].id
    }

    /** Calls as the API allows them. */
    ghost predicate Fits() {
      OpsFit(root.ops) && forall j :: 0 <= j < |issues| ==> OpsFit(issues[j].ops)
    }

    /** `op` is a reference that names issue `j`. */
    predicate Names(op: Op, j: nat) {
      op.ThirdParty? && j < |issues| && issues[j].id == op.id
    }

    /** `op` is an operation of the root or of an issue. */
    ghost predicate Uses(op: Op) {
      op in root.ops || exists j :: 0 <= j < |issues| && op in issues[j].ops
    }

    /** Issue `j` was made under the key of the reference `op` and prepared for this root. */
    predicate Answers(j: nat, op: Op)
      requires j < |issues| && op.ThirdParty?
    {
      && KeyOf(suite, issues[j].key) == KeyOf(suite, op.key)
      && j < |targets| && Mint(suite, root).Success?
      && targets[j].signature == Mint(suite, root).value.signature
    }

    /** Every reference that names an issue is answered by it. */
    ghost predicate AllAnswer() {
      forall op, j: nat :: Uses(op) && Names(op, j) ==> Answers(j, op)
    }

    /**
     * `t` follows every reference among `ops` to the issue it names and that answers it, all the way
     * down, and the policy satisfies every predicate on the way.
     */
    ghost predicate Honoured(ops: seq<Op>, t: Tree)
      decreases t
    {
      |t.picks| == |ops| && forall k :: 0 <= k < |t.picks| ==> OpHonoured(ops[k], t.picks[k])
    }

    ghost predicate OpHonoured(op: Op, p: Pick)
      decreases p
    {
      match p
      case First => op.FirstParty? && policy.Satisfies(op.pred)
      case Third(j, sub) => Names(op, j) && Answers(j, op) && Honoured(issues[j].ops, sub)
    }
  }

  /** `e` verifies what `w` presents. */
  ghost predicate Verifying(w: World, e: Env) {
    && w.suite.Sound() && e.suite == w.suite && e.policy == w.policy
    && w.Presents(e.root, e.ms) && w.DistinctIds() && w.Fits()
  }

  /** The caveats of `m` are those of issue `i`, made along the chain under its key. */
  ghost predicate Meets(e: Env, i: Issue, m: Macaroon) {
    && |m.caveats| == |i.ops|
    && forall k :: 0 <= k < |i.ops| ==>
         m.caveats[k] == CaveatOf(e.suite, i.ops[k], SigAt(e.suite, m, KeyOf(e.suite, i.key), k))
  }

  /** `m` carries the signature that issue `i` leads the verifier of `e` to expect. */
  ghost predicate Signed(e: Env, i: Issue, m: Macaroon, top: bool) {
    m.signature == Expected(e, m, KeyOf(e.suite, i.key), top)
  }

  lemma RootMet(w: World, e: Env)
    requires Verifying(w, e)
    ensures Meets(e, w.root, e.root) && Signed(e, w.root, e.root, true)
  {
    hide World.DistinctIds, World.Fits;
    RootFits(w, e);
    MintShape(w.suite, w.root);
  }

  lemma RootFits(w: World, e: Env)
    requires Verifying(w, e)
    ensures OpsFit(w.root.ops)
  {
  }

  /** Issue `j` as presented: its caveats, its identifier, and its own signature bound to its target's. */
  lemma IssueMet(w: World, e: Env, j: nat)
    requires Verifying(w, e) && j < |w.issues|
    ensures |e.ms| == |w.targets| == |w.issues|
    ensures Meets(e, w.issues[j], e.ms[j]) && e.ms[j].identifier == w.issues[j].id
    ensures e.ms[j].signature
      == e.suite.Bind(w.targets[j].signature,
           SigAt(e.suite, e.ms[j], KeyOf(e.suite, w.issues[j].key), |e.ms[j].caveats|))
  {
    hide World.DistinctIds;
    var i := w.issues[j];
    var key := KeyOf(w.suite, i.key);
    MintShape(w.suite, i);
    var d := Mint(w.suite, i).value;
    forall k | 0 <= k <= |i.ops|
      ensures SigAt(w.suite, e.ms[j], key, k) == SigAt(w.suite, d, key, k)
    {
    }
  }

  /** A third-party caveat as met opens to the key it was made with, and exactly the issues it names match it. */
  lemma MetCaveat(w: World, e: Env, i: Issue, m: Macaroon, k: nat)
    requires Verifying(w, e) && Meets(e, i, m) && OpsFit(i.ops)
    requires k < |i.ops| && i.ops[k].ThirdParty?
    ensures forall x :: e.Matches(m.caveats[k], x) <==> 0 <= x < |w.issues| && w.issues[x].id == i.ops[k].id
    ensures |m.caveats[k].vid| != 0
    ensures OpenKey(e, m.caveats[k], SigAt(e.suite, m, KeyOf(e.suite, i.key), k)) == Some(KeyOf(e.suite, i.ops[k].key))
  {
    hide Meets, World.Fits, World.DistinctIds, SigAt;
    MetShape(e, i, m, k);
    SigAtLength(e.suite, m, KeyOf(e.suite, i.key), k);
    assert i.ops[k] in i.ops;
    CaveatOpens(e, i.ops[k], SigAt(e.suite, m, KeyOf(e.suite, i.key), k));
    forall x: nat | x < |w.issues| ensures e.ms[x].identifier == w.issues[x].id {
      IssueMet(w, e, x);
    }
  }

  lemma MetShape(e: Env, i: Issue, m: Macaroon, k: nat)
    requires Meets(e, i, m) && k < |i.ops|
    ensures k < |m.caveats| && m.caveats[k] == CaveatOf(e.suite, i.ops[k], SigAt(e.suite, m, KeyOf(e.suite, i.key), k))
  {
    hide SigAt, CaveatOf;
  }

  // ---------- which keys a run may go wrong with ----------

  /** A discharge that carries the signature a reference leads to expect was made to answer that reference. */
  ghost predicate Telling(w: World, e: Env)
    requires |e.ms| == |w.issues|
  {
    forall op, j: nat ::
      w.Uses(op) && w.Names(op, j) && e.ms[j].signature == Expected(e, e.ms[j], KeyOf(e.suite, op.key), false) ==>
        w.Answers(j, op)
  }

  /**
   * `q` has every pair that is hashed, up to the bindings, for the discharges by their issuers and, under
   * the key of whatever reference names them, by the verifier.
   */
  ghost predicate IssuesHashed(w: World, e: Env, q: set<Pair>)
    requires |e.ms| == |w.targets| == |w.issues|
  {
    && (forall j :: 0 <= j < |e.ms| ==>
          BoundHashed(w.suite, q, e.ms[j], KeyOf(w.suite, w.issues[j].key), w.targets[j].signature))
    && (forall op, j: nat :: w.Uses(op) && w.Names(op, j) ==>
          BoundHashed(w.suite, q, e.ms[j], KeyOf(w.suite, op.key), e.root.signature))
  }

  /** `q` has every pair that is hashed for the root's signature under its own key and under `key`. */
  ghost predicate RootHashed(w: World, e: Env, q: set<Pair>, key: Bytes) {
    Hashed(w.suite, q, e.root, KeyOf(w.suite, w.root.key)) && Hashed(w.suite, q, e.root, key)
  }

  lemma DistinguishedTells(w: World, e: Env, q: set<Pair>)
    requires Verifying(w, e) && |e.ms| == |w.targets| == |w.issues|
    requires Distinguishes(w.suite, q) && IssuesHashed(w, e, q)
    ensures Telling(w, e)
  {
    hide Distinguishes, BoundHashed, SigAt, Verifying;
    forall op, j: nat | w.Uses(op) && w.Names(op, j)
                        && e.ms[j].signature == Expected(e, e.ms[j], KeyOf(e.suite, op.key), false)
      ensures w.Answers(j, op)
    {
      IssueMet(w, e, j);
      Presented(w, e);
      BoundFixes(w.suite, q, e.ms[j], KeyOf(w.suite, w.issues[j].key), w.targets[j].signature,
                 KeyOf(w.suite, op.key), e.root.signature);
    }
  }

  lemma Presented(w: World, e: Env)
    requires Verifying(w, e)
    ensures w.suite.Sound() && e.suite == w.suite && Mint(w.suite, w.root) == Success(e.root)
    ensures |e.ms| == |w.targets| == |w.issues|
  {
  }

  // ---------- what a proof uses ----------

  /** A discharge tree follows every reference: no caveat of a discharge that is used is skipped. */
  lemma {:induction false} ProvesHonoured(w: World, e: Env, i: Issue, m: Macaroon, t: Tree, path: seq<nat>)
    requires Verifying(w, e) && |e.ms| == |w.issues| && Telling(w, e)
    requires Meets(e, i, m) && OpsFit(i.ops) && forall op <- i.ops :: w.Uses(op)
    requires Proves(t, e, m, KeyOf(e.suite, i.key), path)
    ensures w.Honoured(i.ops, t)
    decreases t
  {
    hide Verifying, Telling, World.OpHonoured, World.Uses, PickProves, SigAt, Expected;
    MetLength(e, i, m);
    forall k: nat | k < |t.picks| ensures w.OpHonoured(i.ops[k], t.picks[k]) {
      assert i.ops[k] in i.ops;
      PickHonoured(w, e, i, m, t.picks[k], path, k);
    }
  }

  lemma MetLength(e: Env, i: Issue, m: Macaroon)
    requires Meets(e, i, m)
    ensures |m.caveats| == |i.ops|
  {
  }

  lemma {:induction false} PickHonoured(w: World, e: Env, i: Issue, m: Macaroon, p: Pick, path: seq<nat>, k: nat)
    requires Verifying(w, e) && |e.ms| == |w.issues| && Telling(w, e)
    requires Meets(e, i, m) && OpsFit(i.ops) && k < |m.caveats| == |i.ops| && w.Uses(i.ops[k])
    requires PickProves(p, e, m.caveats[k], SigAt(e.suite, m, KeyOf(e.suite, i.key), k), path)
    ensures w.OpHonoured(i.ops[k], p)
    decreases p
  {
    hide Verifying, Meets, World.Honoured, World.Uses, SigAt, Proves, OpsFit, OpenKey, Telling;
    var op := i.ops[k];
    MetShape(e, i, m, k);
    SamePolicy(w, e);
    if op.ThirdParty? {
      MetCaveat(w, e, i, m, k);
      var Third(j, sub) := p;
      assert w.Names(op, j) by { assert e.Matches(m.caveats[k], j); }
      ProvesSigned(sub, e, e.ms[j], KeyOf(e.suite, op.key), path + [j]);
      TellsAt(w, e, op, j);
      IssueMet(w, e, j);
      UsesIssue(w, j);
      ProvesHonoured(w, e, w.issues[j], e.ms[j], sub, path + [j]);
    }
  }

  lemma ProvesSigned(t: Tree, e: Env, m: Macaroon, key: Bytes, path: seq<nat>)
    requires Proves(t, e, m, key, path)
    ensures m.signature == Expected(e, m, key, path == [])
  {
    hide Expected, PickProves;
  }

  lemma TellsAt(w: World, e: Env, op: Op, j: nat)
    requires |e.ms| == |w.issues| && Telling(w, e) && w.Uses(op) && w.Names(op, j)
    requires e.ms[j].signature == Expected(e, e.ms[j], KeyOf(e.suite, op.key), false)
    ensures w.Answers(j, op)
  {
    hide Expected, World.Answers, World.Uses;
  }

  lemma UsesIssue(w: World, j: nat)
    requires j < |w.issues|
    ensures forall op <- w.issues[j].ops :: w.Uses(op)
  {
  }

  lemma SamePolicy(w: World, e: Env)
    requires Verifying(w, e)
    ensures e.policy == w.policy && e.suite == w.suite && w.DistinctIds()
    ensures forall j :: 0 <= j < |w.issues| ==> OpsFit(w.issues[j].ops)
  {
    hide OpsFit;
  }

  // ---------- what is enough for a proof ----------

  function Size(t: Tree): nat
    decreases t
  {
    1 + SizeOfPicks(t.picks)
  }

  function SizeOfPicks(ps: seq<Pick>): nat
    decreases ps
  {
    if ps == [] then 0 else SizeOfPick(ps[0]) + SizeOfPicks(ps[1..])
  }

  function SizeOfPick(p: Pick): nat
    decreases p
  {
    match p
    case First => 0
    case Third(_, sub) => Size(sub)
  }

  lemma {:induction false} PickSmaller(ps: seq<Pick>, k: nat)
    requires k < |ps|
    ensures SizeOfPick(ps[k]) <= SizeOfPicks(ps)
    decreases k
  {
    if k > 0 { PickSmaller(ps[1..], k - 1); }
  }

  /** Identifiers name issues, so there is only one tree to follow. */
  lemma {:induction false} HonouredUnique(w: World, ops: seq<Op>, t: Tree, t': Tree)
    requires w.DistinctIds() && w.Honoured(ops, t) && w.Honoured(ops, t')
    ensures t == t'
    decreases t
  {
    hide World.OpHonoured, World.DistinctIds;
    forall k: nat | k < |ops| ensures t.picks[k] == t'.picks[k] {
      OpHonouredUnique(w, ops[k], t.picks[k], t'.picks[k]);
    }
    assert t.picks == t'.picks;
  }

  lemma {:induction false} OpHonouredUnique(w: World, op: Op, p: Pick, p': Pick)
    requires w.DistinctIds() && w.OpHonoured(op, p) && w.OpHonoured(op, p')
    ensures p == p'
    decreases p
  {
    hide World.Honoured;
    if p.Third? {
      HonouredUnique(w, w.issues[p.index].ops, p.sub, p'.sub);
    }
  }

  /** Every issue on the path has a tree of its own, no smaller than `n`. */
  ghost predicate Above(w: World, path: seq<nat>, n: nat) {
    forall j <- path :: j < |w.issues| && exists t :: w.Honoured(w.issues[j].ops, t) && Size(t) >= n
  }

  /** A tree smaller than all those on the path does not belong to an issue on the path. */
  lemma NotOnPath(w: World, path: seq<nat>, n: nat, j: nat, t: Tree)
    requires w.DistinctIds() && Above(w, path, n)
    requires j < |w.issues| && w.Honoured(w.issues[j].ops, t) && Size(t) < n
    ensures j !in path && Above(w, path + [j], Size(t))
  {
    hide World.Honoured, World.DistinctIds, Size;
    if j in path {
      var t' :| w.Honoured(w.issues[j].ops, t') && Size(t') >= n;
      HonouredUnique(w, w.issues[j].ops, t, t');
    }
    forall p | p in path + [j]
      ensures p < |w.issues| && exists x :: w.Honoured(w.issues[p].ops, x) && Size(x) >= Size(t)
    {
      if p in path {
        var x :| w.Honoured(w.issues[p].ops, x) && Size(x) >= n;
      }
    }
  }

  /** A tree of honoured references proves the macaroon that carries them. */
  lemma {:induction false} HonouredProves(w: World, e: Env, i: Issue, m: Macaroon, t: Tree, path: seq<nat>)
    requires Verifying(w, e) && Meets(e, i, m) && Signed(e, i, m, path == []) && OpsFit(i.ops)
    requires w.Honoured(i.ops, t) && Above(w, path, Size(t))
    ensures Proves(t, e, m, KeyOf(e.suite, i.key), path)
    decreases t
  {
    hide Verifying, World.OpHonoured, PickProves, SigAt, Expected, Above, Size;
    MetLength(e, i, m);
    forall k: nat | k < |t.picks|
      ensures PickProves(t.picks[k], e, m.caveats[k], SigAt(e.suite, m, KeyOf(e.suite, i.key), k), path)
    {
      PickSmaller(t.picks, k);
      SizeIs(t);
      HonouredPick(w, e, i, m, t.picks[k], path, k, Size(t));
    }
  }

  lemma SizeIs(t: Tree)
    ensures Size(t) == 1 + SizeOfPicks(t.picks)
  {
  }

  lemma {:induction false} HonouredPick(w: World, e: Env, i: Issue, m: Macaroon, p: Pick, path: seq<nat>,
                                        k: nat, n: nat)
    requires Verifying(w, e) && Meets(e, i, m) && OpsFit(i.ops)
    requires k < |m.caveats| == |i.ops| && w.OpHonoured(i.ops[k], p) && SizeOfPick(p) < n && Above(w, path, n)
    ensures PickProves(p, e, m.caveats[k], SigAt(e.suite, m, KeyOf(e.suite, i.key), k), path)
    decreases p
  {
    hide Verifying, Meets, World.Honoured, World.Answers, World.DistinctIds, SigAt, Proves, OpsFit, OpenKey, Above,
      Size;
    var op := i.ops[k];
    MetShape(e, i, m, k);
    SamePolicy(w, e);
    if op.ThirdParty? {
      MetCaveat(w, e, i, m, k);
      var Third(j, sub) := p;
      assert Size(sub) < n;
      NotOnPath(w, path, n, j, sub);
      OnlyIssue(w, op.id, j);
      AnswerSigned(w, e, op, j);
      IssueMet(w, e, j);
      HonouredProves(w, e, w.issues[j], e.ms[j], sub, path + [j]);
    }
  }

  /** An issue that answers a reference carries the signature that the reference leads to expect. */
  lemma AnswerSigned(w: World, e: Env, op: Op, j: nat)
    requires Verifying(w, e) && w.Names(op, j) && w.Answers(j, op)
    ensures |e.ms| == |w.issues| && Signed(e, w.issues[j], e.ms[j], false)
    ensures KeyOf(w.suite, w.issues[j].key) == KeyOf(w.suite, op.key)
  {
    hide Verifying, SigAt;
    Presented(w, e);
    IssueMet(w, e, j);
  }

  lemma OnlyIssue(w: World, id: Bytes, j: nat)
    requires w.DistinctIds() && j < |w.issues| && w.issues[j].id == id
    ensures forall x :: 0 <= x < |w.issues| && w.issues[x].id == id ==> x == j
  {
  }

  // ---------- the verdict on a run ----------

  lemma AllWellFormed(w: World, e: Env)
    requires Verifying(w, e)
    ensures e.Valid()
  {
    hide SigAt, Suite.Sound;
    MintShape(w.suite, w.root);
    TracesWellFormed(w.suite, e.root, KeyOf(w.suite, w.root.key), w.root.ops);
    forall j | 0 <= j < |e.ms| ensures WellFormed(e.ms[j]) {
      var i := w.issues[j];
      MintShape(w.suite, i);
      var d := Mint(w.suite, i).value;
      TracesWellFormed(w.suite, d, KeyOf(w.suite, i.key), i.ops);
      BindLength(w.suite, w.targets[j].signature, d.signature);
    }
  }

  /** Where signatures tell answers from others, a proof under the root's own key is a tree of honoured references. */
  lemma ToldVerdict(w: World, e: Env)
    requires Verifying(w, e) && |e.ms| == |w.issues| && Telling(w, e)
    ensures Authorized(e, e.root, KeyOf(e.suite, w.root.key)) <==> exists t :: w.Honoured(w.root.ops, t)
  {
    hide World.Honoured, Proves, Meets, Signed, Telling, OpsFit, Size, World.Fits;
    RootMet(w, e);
    RootFits(w, e);
    var key := KeyOf(e.suite, w.root.key);
    if t :| Proves(t, e, e.root, key, []) {
      ProvesHonoured(w, e, w.root, e.root, t, []);
    }
    if t :| w.Honoured(w.root.ops, t) {
      HonouredProves(w, e, w.root, e.root, t, []);
    }
  }

  /** The root's signature shows under which key it was made. */
  lemma RootKey(w: World, e: Env, key: Bytes, q: set<Pair>)
    requires Verifying(w, e) && Distinguishes(w.suite, q) && RootHashed(w, e, q, key)
    requires Authorized(e, e.root, key)
    ensures key == KeyOf(e.suite, w.root.key)
  {
    hide Distinguishes, Hashed, SigAt, Verifying, Meets;
    var t :| Proves(t, e, e.root, key, []);
    ProvesSigned(t, e, e.root, key, []);
    Presented(w, e);
    RootMet(w, e);
    SignatureFixes(w.suite, q, e.root, key, e.root, KeyOf(e.suite, w.root.key));
  }

  /**
   * A run is authorized if and only if it is verified under the key of its root and the references
   * reachable from the root form a finite tree of discharges, each made under the key of the reference
   * and prepared for this root, whose predicates the policy all satisfies. The hash has to tell apart
   * only the pairs that this run hashes.
   */
  lemma RunVerdict(w: World, e: Env, key: Bytes, q: set<Pair>)
    requires Verifying(w, e) && |e.ms| == |w.targets| == |w.issues|
    requires Distinguishes(w.suite, q) && IssuesHashed(w, e, q) && RootHashed(w, e, q, key)
    ensures e.Valid()
    ensures Authorized(e, e.root, key) <==> key == KeyOf(e.suite, w.root.key) && exists t :: w.Honoured(w.root.ops, t)
  {
    hide World.Honoured, Authorized, Env.Valid, Verifying, Distinguishes, IssuesHashed, RootHashed, Telling, KeyOf;
    AllWellFormed(w, e);
    DistinguishedTells(w, e, q);
    ToldVerdict(w, e);
    if Authorized(e, e.root, key) {
      RootKey(w, e, key, q);
    }
  }

  /** A discharge of another key, or prepared for another root, is refused whatever else is presented. */
  lemma WrongAnswerRefused(w: World, e: Env, key: Bytes, q: set<Pair>, k: nat, j: nat)
    requires Verifying(w, e) && |e.ms| == |w.targets| == |w.issues|
    requires Distinguishes(w.suite, q) && IssuesHashed(w, e, q) && RootHashed(w, e, q, key)
    requires k < |w.root.ops| && w.Names(w.root.ops[k], j)
    requires KeyOf(w.suite, w.issues[j].key) != KeyOf(w.suite, w.root.ops[k].key)
          || w.targets[j].signature != e.root.signature
    ensures !Authorized(e, e.root, key)
  {
    hide Authorized, Env.Valid, Verifying, Distinguishes, IssuesHashed, RootHashed, World.Honoured, World.Names, KeyOf;
    Presented(w, e);
    SamePolicy(w, e);
    RunVerdict(w, e, key, q);
    if t :| w.Honoured(w.root.ops, t) {
      HonouredAnswers(w, w.root.ops, t, k, j);
    }
  }

  lemma HonouredAnswers(w: World, ops: seq<Op>, t: Tree, k: nat, j: nat)
    requires w.DistinctIds() && w.Honoured(ops, t) && k < |ops| && w.Names(ops[k], j)
    ensures w.Answers(j, ops[k])
  {
    hide World.Answers;
    assert w.OpHonoured(ops[k], t.picks[k]);
    OnlyIssue(w, w.issues[j].id, j);
  }

  /** A root verified under any key but its own is refused. */
  lemma WrongKeyRefused(w: World, e: Env, key: Bytes, q: set<Pair>)
    requires Verifying(w, e) && Distinguishes(w.suite, q) && RootHashed(w, e, q, key)
    requires key != KeyOf(w.suite, w.root.key)
    ensures !Authorized(e, e.root, key)
  {
    hide Authorized, Verifying, Distinguishes, RootHashed;
    Presented(w, e);
    if Authorized(e, e.root, key) {
      RootKey(w, e, key, q);
    }
  }

  /** Where every reference that names an issue is answered by it, the verdict assumes nothing about the hash. */
  lemma AnsweredVerdict(w: World, e: Env)
    requires Verifying(w, e) && w.AllAnswer()
    ensures e.Valid()
    ensures Authorized(e, e.root, KeyOf(e.suite, w.root.key)) <==> exists t :: w.Honoured(w.root.ops, t)
  {
    hide World.Honoured, Authorized, Env.Valid, Verifying, World.Uses, World.Names, World.Answers, Expected;
    AllWellFormed(w, e);
    Presented(w, e);
    ToldVerdict(w, e);
  }

  // ---------- completeness ----------

  /**
   * The predicates among `ops` are accepted, and every third party they name has issued a
   * discharge of rank below `r` that answers.
   */
  ghost predicate Answered(w: World, ops: seq<Op>, rank: seq<nat>, r: nat)
    requires |rank| == |w.issues|
  {
    forall op <- ops ::
      match op
      case FirstParty(pred) => w.policy.Satisfies(pred)
      case ThirdParty(_, _, _, _) => exists j: nat :: w.Names(op, j) && rank[j] < r && w.Answers(j, op)
  }

  /** The references between discharges can be ranked: they form no cycle. */
  ghost predicate Acyclic(w: World, rank: seq<nat>, top: nat) {
    && |rank| == |w.issues|
    && Answered(w, w.root.ops, rank, top)
    && forall j :: 0 <= j < |w.issues| ==> Answered(w, w.issues[j].ops, rank, rank[j])
  }

  /** Following ranked references comes to an end. */
  lemma {:induction false} RankedTree(w: World, ops: seq<Op>, rank: seq<nat>, top: nat, r: nat) returns (t: Tree)
    requires Acyclic(w, rank, top) && Answered(w, ops, rank, r)
    ensures w.Honoured(ops, t)
    decreases r, 1, 0
  {
    hide World.OpHonoured, Acyclic, Answered;
    var picks := RankedPicks(w, ops, rank, top, r, |ops|);
    t := Tree(picks);
  }

  lemma {:induction false} RankedPicks(w: World, ops: seq<Op>, rank: seq<nat>, top: nat, r: nat, n: nat)
    returns (picks: seq<Pick>)
    requires Acyclic(w, rank, top) && Answered(w, ops, rank, r) && n <= |ops|
    ensures |picks| == n && forall k :: 0 <= k < n ==> w.OpHonoured(ops[k], picks[k])
    decreases r, 0, n
  {
    hide World.OpHonoured, Acyclic, Answered;
    picks := [];
    if n > 0 {
      var rest := RankedPicks(w, ops, rank, top, r, n - 1);
      var pick := RankedPick(w, ops, rank, top, r, n - 1);
      picks := rest + [pick];
    }
  }

  lemma {:induction false} RankedPick(w: World, ops: seq<Op>, rank: seq<nat>, top: nat, r: nat, k: nat)
    returns (pick: Pick)
    requires Acyclic(w, rank, top) && Answered(w, ops, rank, r) && k < |ops|
    ensures w.OpHonoured(ops[k], pick)
    decreases r, 0, k
  {
    hide World.Honoured, World.Answers, KeyOf;
    var op := ops[k];
    assert op in ops;
    if op.FirstParty? {
      pick := First;
    } else {
      var j: nat :| w.Names(op, j) && rank[j] < r && w.Answers(j, op);
      var sub := RankedTree(w, w.issues[j].ops, rank, top, rank[j]);
      pick := Third(j, sub);
    }
  }

  /** Without cyclic references, and with every predicate satisfied, there is a tree to follow. */
  lemma AcyclicHonoured(w: World, rank: seq<nat>, top: nat)
    requires Acyclic(w, rank, top)
    ensures exists t :: w.Honoured(w.root.ops, t)
  {
    hide World.Honoured, Acyclic;
    AcyclicRoot(w, rank, top);
    var t := RankedTree(w, w.root.ops, rank, top, top);
  }

  lemma AcyclicRoot(w: World, rank: seq<nat>, top: nat)
    requires Acyclic(w, rank, top)
    ensures |rank| == |w.issues| && Answered(w, w.root.ops, rank, top)
  {
  }

  /** Whatever is minted, attenuated, discharged and bound as the API intends is accepted. */
  lemma Completeness(w: World, e: Env, rank: seq<nat>, top: nat)
    requires Verifying(w, e) && Acyclic(w, rank, top)
    ensures e.Valid()
    ensures Authorized(e, e.root, KeyOf(e.suite, w.root.key))
  {
    hide World.Honoured, Proves, Meets, Signed, Acyclic, OpsFit, Size, World.Fits, Env.Valid;
    AllWellFormed(w, e);
    AcyclicHonoured(w, rank, top);
    var t :| w.Honoured(w.root.ops, t);
    RootMet(w, e);
    RootFits(w, e);
    HonouredProves(w, e, w.root, e.root, t, []);
  }
}
