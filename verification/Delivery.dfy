/** A whole run with the wire in between: minted, bound, serialised, read back, verified. */
module Delivery {
  import opened Binding
  import opened Bytes
  import opened Concrete
  import opened Discharge
  import opened Formats
  import opened Macaroons
  import opened Runs
  import opened Structs
  import opened VarInt
  import opened Verifier
  import Buffers
  import V1 = FormatV1

  /** What the first format cannot carry: a caveat without identifier. */
  predicate Sendable(m: Macaroon, f: Format) {
    Printable(m, f) && !f.FormatJson? && (f.FormatOne? ==> V1.CidsPresent(m.caveats))
  }

  /** A message as it lies at the receiver: where its bytes are, and how many count. */
  datatype Parcel = Parcel(buf: array<byte>, base: nat, size: nat)

  /**
   * The parcel holds the bytes of `m` that the sender was told to send.
   * A text is ended by a NUL, as macaroon_deserialize expects of its caller.
   */
  ghost predicate Carries(p: Parcel, m: Macaroon, f: Format)
    reads p.buf
  {
    && Sendable(m, f)
    && p.base + p.buf.Length < U64
    && p.size == Length(m, f) <= p.buf.Length
    && p.buf[..p.size] == Encoding(m, f)[..p.size]
    && (f.FormatOne? ==> p.size < p.buf.Length && p.buf[p.size] == 0)
  }

  /** What was sent is what is read. */
  method Receive(p: Parcel, ghost m: Macaroon, ghost f: Format) returns (got: Macaroon)
    requires Carries(p, m, f) && WellFormed(m)
    ensures got == m
  {
    hide Meaning, Encoding, Length, Printable, Struct.Valid, Struct.Value;
    assert p.buf[..][..p.size] == p.buf[..p.size];
    RoundTrip(m, f, p.buf[..], p.base);
    var s := Deserialize(p.buf, p.base, p.size);
    got := s.value.AsValue();
  }

  /** The discharges, one parcel each. */
  method ReceiveAll(ps: seq<Parcel>, ghost ms: seq<Macaroon>, ghost fs: seq<Format>) returns (got: seq<Macaroon>)
    requires |ps| == |ms| == |fs|
    requires forall j :: 0 <= j < |ps| ==> Carries(ps[j], ms[j], fs[j]) && WellFormed(ms[j])
    ensures got == ms
  {
    hide WellFormed, Sendable, Encoding, Length;
    got := [];
    for j := 0 to |ps|
      invariant got == ms[..j]
      invariant forall k :: 0 <= k < |ps| ==> Carries(ps[k], ms[k], fs[k])
    {
      var m := Receive(ps[j], ms[j], fs[j]);
      got := got + [m];
    }
  }

  /** The two entry points of the verifier. */
  method VerifyUnder(v: VerifierObject, m: Macaroon, key: Secret, ms: seq<Macaroon>) returns (rc: Status)
    requires Env(SUITE, v.GetPolicy(), m, ms).Valid() && (key.Raw? ==> |key.key| == HASH_BYTES)
    ensures rc == 0 <==> Authorized(Env(SUITE, v.GetPolicy(), m, ms), m, KeyOf(SUITE, key))
  {
    hide Authorized, SUITE, Env.Valid;
    match key
    case Plain(k) => rc := Verify(v, SUITE, m, k, ms);
    case Raw(k) => rc := VerifyRaw(v, SUITE, m, k, ms);
  }

  /**
   * The sender presents the root and the bound discharges of `w`, each in a format of its own. The receiver
   * deserialises and verifies them, and the verifier returns 0 if and only if it has the root's key and the
   * references reachable from the root form a finite tree of discharges, each made under the key of the
   * reference and prepared for this root, whose predicates the receiver's policy all satisfies.
   */
  method VerifyReceived(v: VerifierObject, key: Secret, rootParcel: Parcel, parcels: seq<Parcel>,
                        ghost w: World, ghost sent: Env, ghost f: Format, ghost fs: seq<Format>, ghost q: set<Pair>)
    returns (rc: Status)
    requires sent == Env(SUITE, v.GetPolicy(), sent.root, sent.ms) && Running(w, sent)
    requires key.Raw? ==> |key.key| == HASH_BYTES
    requires |sent.ms| == |w.targets| == |w.issues|
    requires Distinguishes(SUITE, q) && IssuesHashed(w, sent, q) && RootHashed(w, sent, q, KeyOf(SUITE, key))
    requires Carries(rootParcel, sent.root, f) && |parcels| == |fs| == |sent.ms|
    requires forall j :: 0 <= j < |parcels| ==> Carries(parcels[j], sent.ms[j], fs[j])
    ensures rc == 0 <==> KeyOf(SUITE, key) == KeyOf(SUITE, w.root.key) && exists t :: w.Honoured(w.root.ops, t)
  {
    hide Sendable, Encoding, Length, WellFormed, Authorized, SUITE, Running, World.Honoured, KeyOf,
      Distinguishes, IssuesHashed, RootHashed;
    ConcreteVerdict(w, sent, KeyOf(SUITE, key), q);
    assert forall j :: 0 <= j < |sent.ms| ==> sent.ms[j] in sent.ms;
    var root := Receive(rootParcel, sent.root, f);
    assert forall j :: 0 <= j < |parcels| ==> Carries(parcels[j], sent.ms[j], fs[j]);
    var ms := ReceiveAll(parcels, sent.ms, fs);
    rc := VerifyUnder(v, root, key, ms);
  }

  /** What macaroon_serialize leaves, and the bytes it counts, are the bytes of a parcel. */
  method Send(m: Macaroon, f: Format, buf: array<byte>, base: nat) returns (p: Parcel)
    requires Sendable(m, f) && Needs(m, f) <= buf.Length && base + buf.Length < U64
    modifies buf
    ensures p.buf == buf && Carries(p, m, f)
  {
    hide Encoding, Needs, Printable, Length;
    ghost var b0 := buf[..];
    FirstByteSent(m, f);
    var n := Serialize(m, f, buf);
    SentBytes(m, f, b0, buf[..]);
    p := Parcel(buf, base, n);
  }

  lemma FirstByteSent(m: Macaroon, f: Format)
    requires Sendable(m, f)
    ensures Length(m, f) > 0
  {
    FirstByte(m, f);
  }

  lemma SentBytes(m: Macaroon, f: Format, before: Bytes, after: Bytes)
    requires Sendable(m, f) && Buffers.Wrote(before, after, 0, Encoding(m, f))
    ensures Length(m, f) <= |after| && after[..Length(m, f)] == Encoding(m, f)[..Length(m, f)]
    ensures f.FormatOne? ==> Length(m, f) < |after| && after[Length(m, f)] == 0
  {
    hide Printable, Encoding, Length;
    FrontOf(before, after, Encoding(m, f));
    if f.FormatOne? { TextLast(m, f); }
    var n := Length(m, f);
    assert after[..n] == after[..|Encoding(m, f)|][..n];
    if f.FormatOne? { assert after[n] == after[..|Encoding(m, f)|][n]; }
  }

  lemma TextLast(m: Macaroon, f: Format)
    requires Sendable(m, f) && f.FormatOne?
    ensures Length(m, f) < |Encoding(m, f)| && Encoding(m, f)[Length(m, f)] == 0
  {
    hide V1.Encode;
  }

  lemma FrontOf(before: Bytes, after: Bytes, w: Bytes)
    requires Buffers.Wrote(before, after, 0, w)
    ensures |w| <= |after| && after[..|w|] == w
  {
  }
}
