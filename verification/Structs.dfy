/**
 * A macaroon in memory (macaroons-inner.h, slice.c): one block that holds the table of
 * caveats and a body of bytes, and slices that point into the body.
 */
module Structs {
  import opened Buffers
  import opened Bytes
  import opened Macaroons

  datatype Slice = Slice(at: nat, size: nat)

  datatype CaveatSlices = CaveatSlices(cid: Slice, vid: Slice, cl: Slice)

  const NIL := Slice(0, 0)

  predicate Within(sl: Slice, n: nat) { sl.at + sl.size <= n }

  predicate CaveatWithin(c: CaveatSlices, n: nat) {
    Within(c.cid, n) && Within(c.vid, n) && Within(c.cl, n)
  }

  predicate AllWithin(cs: seq<CaveatSlices>, n: nat) {
    forall i :: 0 <= i < |cs| ==> CaveatWithin(cs[i], n)
  }

  function Read(b: Bytes, sl: Slice): (r: Bytes)
    requires Within(sl, |b|)
    ensures |r| == sl.size
  {
    b[sl.at..sl.at + sl.size]
  }

  function ReadCaveat(b: Bytes, c: CaveatSlices): Caveat
    requires CaveatWithin(c, |b|)
  {
    Caveat(Read(b, c.cid), Read(b, c.vid), Read(b, c.cl))
  }

  function ReadCaveats(b: Bytes, cs: seq<CaveatSlices>): (r: seq<Caveat>)
    requires AllWithin(cs, |b|)
    ensures |r| == |cs|
  {
    seq(|cs|, i requires 0 <= i < |cs| => ReadCaveat(b, cs[i]))
  }

  /** The two buffers agree below `n`. */
  ghost predicate Agree(b: Bytes, b': Bytes, n: nat) {
    |b| == |b'| && n <= |b| && b[..n] == b'[..n]
  }

  lemma AgreeOfWrote(b: Bytes, b': Bytes, at: nat, data: Bytes)
    requires Wrote(b, b', at, data)
    ensures Agree(b, b', at) && Read(b', Slice(at, |data|)) == data
  {
  }

  lemma AgreeLess(b: Bytes, b': Bytes, n: nat, k: nat)
    requires Agree(b, b', n) && k <= n
    ensures Agree(b, b', k)
  {
    assert b[..k] == b[..n][..k];
    assert b'[..k] == b'[..n][..k];
  }

  lemma AgreeTrans(b0: Bytes, b1: Bytes, b2: Bytes, n: nat)
    requires Agree(b0, b1, n) && Agree(b1, b2, n)
    ensures Agree(b0, b2, n)
  {
  }

  lemma ReadKept(b: Bytes, b': Bytes, sl: Slice, n: nat)
    requires Agree(b, b', n) && Within(sl, n)
    ensures Read(b', sl) == Read(b, sl)
  {
    assert b[sl.at..sl.at + sl.size] == b[..n][sl.at..sl.at + sl.size];
    assert b'[sl.at..sl.at + sl.size] == b'[..n][sl.at..sl.at + sl.size];
  }

  lemma ReadCaveatKept(b: Bytes, b': Bytes, c: CaveatSlices, n: nat)
    requires Agree(b, b', n) && CaveatWithin(c, n)
    ensures ReadCaveat(b', c) == ReadCaveat(b, c)
  {
    hide Agree, Read;
    AgreeLengths(b, b', n);
    ReadKept(b, b', c.cid, n);
    ReadKept(b, b', c.vid, n);
    ReadKept(b, b', c.cl, n);
  }

  lemma AgreeLengths(b: Bytes, b': Bytes, n: nat)
    requires Agree(b, b', n)
    ensures |b| == |b'| && n <= |b|
  {
  }

  /** The slices `cs` lie below `n`, and `vs` can be read there. */
  ghost predicate Copied(b: Bytes, cs: seq<CaveatSlices>, vs: seq<Caveat>, n: nat) {
    && n <= |b| && |cs| == |vs|
    && forall i :: 0 <= i < |cs| ==> CaveatWithin(cs[i], n) && CaveatWithin(cs[i], |b|) && ReadCaveat(b, cs[i]) == vs[i]
  }

  lemma CopiedKept(b: Bytes, b': Bytes, cs: seq<CaveatSlices>, vs: seq<Caveat>, n: nat, n': nat)
    requires Copied(b, cs, vs, n) && Agree(b, b', n) && n <= n' <= |b'|
    ensures Copied(b', cs, vs, n')
  {
    hide ReadCaveat, CaveatWithin;
    AgreeLengths(b, b', n);
    forall i | 0 <= i < |cs|
      ensures CaveatWithin(cs[i], n') && CaveatWithin(cs[i], |b'|) && ReadCaveat(b', cs[i]) == vs[i]
    {
      ReadCaveatKept(b, b', cs[i], n);
      WithinMore(cs[i], n, n');
      WithinMore(cs[i], n, |b'|);
    }
  }

  lemma WithinMore(c: CaveatSlices, n: nat, n': nat)
    requires CaveatWithin(c, n) && n <= n'
    ensures CaveatWithin(c, n')
  {
  }

  lemma CopiedSnoc(b: Bytes, cs: seq<CaveatSlices>, vs: seq<Caveat>, n: nat, c: CaveatSlices, v: Caveat)
    requires Copied(b, cs, vs, n) && CaveatWithin(c, n) && ReadCaveat(b, c) == v
    ensures Copied(b, cs + [c], vs + [v], n)
  {
  }

  lemma CopiedReads(b: Bytes, cs: seq<CaveatSlices>, vs: seq<Caveat>, n: nat)
    requires Copied(b, cs, vs, n)
    ensures AllWithin(cs, |b|) && ReadCaveats(b, cs) == vs
  {
  }

  function CaveatSize(c: Caveat): nat { |c.cid| + |c.vid| + |c.cl| }

  function CaveatsSize(cs: seq<Caveat>): nat {
    if cs == [] then 0 else CaveatSize(cs[0]) + CaveatsSize(cs[1..])
  }

  /** The bytes of a macaroon without its signature. */
  function BodySize(m: Macaroon): nat {
    |m.location| + |m.identifier| + CaveatsSize(m.caveats)
  }

  lemma {:induction false} CaveatsSizeSnoc(cs: seq<Caveat>, c: Caveat)
    ensures CaveatsSize(cs + [c]) == CaveatsSize(cs) + CaveatSize(c)
  {
    if cs != [] {
      CaveatsSizeSnoc(cs[1..], c);
      assert (cs + [c])[1..] == cs[1..] + [c];
    } else {
      assert [] + [c] == [c];
    }
  }

  lemma {:induction false} CaveatsSizePrefix(cs: seq<Caveat>, n: nat)
    requires n < |cs|
    ensures CaveatsSize(cs[..n + 1]) == CaveatsSize(cs[..n]) + CaveatSize(cs[n]) <= CaveatsSize(cs)
    decreases |cs| - n
  {
    assert cs[..n + 1] == cs[..n] + [cs[n]];
    CaveatsSizeSnoc(cs[..n], cs[n]);
    if n + 1 < |cs| { CaveatsSizePrefix(cs, n + 1); } else { assert cs[..n + 1] == cs; }
  }

  class Struct {
    var location: Slice
    var identifier: Slice
    var signature: Slice
    var numCaveats: nat
    const caveats: array<CaveatSlices>
    const body: array<byte>

    ghost predicate Valid()
      reads this, caveats
    {
      && numCaveats <= caveats.Length
      && Within(location, body.Length) && Within(identifier, body.Length) && Within(signature, body.Length)
      && AllWithin(caveats[..numCaveats], body.Length)
    }

    /** The macaroon that the slices spell. */
    ghost function Value(): Macaroon
      reads this, caveats, body
      requires Valid()
    {
      Macaroon(Read(body[..], location), Read(body[..], identifier), Read(body[..], signature),
               ReadCaveats(body[..], caveats[..numCaveats]))
    }

    /** macaroon_malloc: everything zero, and room for one caveat even when none is asked for. */
    constructor (numCaveats0: nat, bodyData: nat)
      ensures fresh(caveats) && fresh(body) && body.Length == bodyData
      ensures caveats.Length == if numCaveats0 > 0 then numCaveats0 else 1
      ensures body[..] == Zeros(bodyData) && caveats[..] == seq(caveats.Length, _ => CaveatSlices(NIL, NIL, NIL))
      ensures numCaveats == 0 && location == identifier == signature == NIL
    {
      location, identifier, signature, numCaveats := NIL, NIL, NIL, 0;
      caveats := new CaveatSlices[if numCaveats0 > 0 then numCaveats0 else 1](_ => CaveatSlices(NIL, NIL, NIL));
      body := new byte[bodyData](_ => 0);
    }

    /** copy_to_slice */
    method CopyToSlice(data: Bytes, ptr: nat) returns (sl: Slice, next: nat)
      requires ptr + |data| <= body.Length
      modifies body
      ensures Agree(old(body[..]), body[..], ptr)
      ensures sl == Slice(ptr, |data|) && next == ptr + |data|
      ensures Read(body[..], sl) == data
    {
      hide Wrote, Agree, Read;
      ghost var b := body[..];
      Memmove(data, body, ptr);
      AgreeOfWrote(b, body[..], ptr, data);
      return Slice(ptr, |data|), ptr + |data|;
    }

    /** The bytes a slice points to. */
    method Bytes(sl: Slice) returns (r: Bytes)
      requires Within(sl, body.Length)
      ensures r == Read(body[..], sl)
    {
      return body[sl.at..sl.at + sl.size];
    }

    /** Three slices of a caveat, one behind the other. */
    method CopyCaveat(c: Caveat, ptr0: nat) returns (cs: CaveatSlices, ptr: nat)
      requires ptr0 + CaveatSize(c) <= body.Length
      modifies body
      ensures Agree(old(body[..]), body[..], ptr0)
      ensures ptr == ptr0 + CaveatSize(c)
      ensures CaveatWithin(cs, ptr) && ReadCaveat(body[..], cs) == c
    {
      hide Agree, Read;
      ghost var b0 := body[..];
      var cid, vid, cl;
      cid, ptr := CopyToSlice(c.cid, ptr0);
      ghost var b1, p1 := body[..], ptr;
      vid, ptr := CopyToSlice(c.vid, ptr);
      ghost var b2, p2 := body[..], ptr;
      ReadKept(b1, b2, cid, p1);
      AgreeLess(b1, b2, p1, ptr0);
      AgreeTrans(b0, b1, b2, ptr0);
      cl, ptr := CopyToSlice(c.cl, ptr);
      AgreeLess(b2, body[..], p2, p1);
      AgreeLess(b2, body[..], p2, ptr0);
      ReadKept(b2, body[..], cid, p1);
      ReadKept(b2, body[..], vid, p2);
      AgreeTrans(b0, b2, body[..], ptr0);
      cs := CaveatSlices(cid, vid, cl);
    }

    /** The copying loop: the caveats of `n`, each as three slices, one behind the other. */
    method CopyCaveats(n: Struct, ptr0: nat) returns (ptr: nat)
      requires n.Valid() && n.body != body && n.caveats != caveats && n.numCaveats <= caveats.Length
      requires ptr0 + CaveatsSize(n.Value().caveats) <= body.Length
      modifies caveats, body
      ensures Agree(old(body[..]), body[..], ptr0)
      ensures ptr == ptr0 + CaveatsSize(n.Value().caveats)
      ensures Copied(body[..], caveats[..n.numCaveats], n.Value().caveats, ptr)
      ensures caveats[n.numCaveats..] == old(caveats[n.numCaveats..])
    {
      hide Agree, Read, Copied, CaveatsSize;
      ghost var b0, vs := body[..], n.Value().caveats;
      ptr := ptr0;
      CopiedStart(body[..], ptr);
      for i := 0 to n.numCaveats
        invariant ptr == ptr0 + CaveatsSize(vs[..i]) && ptr <= body.Length
        invariant Agree(b0, body[..], ptr0)
        invariant Copied(body[..], caveats[..i], vs[..i], ptr)
        invariant caveats[n.numCaveats..] == old(caveats[n.numCaveats..])
      {
        ghost var b, cs, p := body[..], caveats[..i], ptr;
        CaveatsSizePrefix(vs, i);
        var c := n.CaveatAt(i);
        var slices;
        slices, ptr := CopyCaveat(c, ptr);
        caveats[i] := slices;
        AgreeLess(b, body[..], p, ptr0);
        AgreeTrans(b0, b, body[..], ptr0);
        CopiedKept(b, body[..], cs, vs[..i], p, ptr);
        CopiedSnoc(body[..], cs, vs[..i], ptr, slices, c);
        assert caveats[..i + 1] == cs + [slices] && vs[..i + 1] == vs[..i] + [c];
      }
      assert vs[..n.numCaveats] == vs;
    }

    /** The bytes of caveat `i`. */
    method CaveatAt(i: nat) returns (c: Caveat)
      requires Valid() && i < numCaveats
      ensures c == Value().caveats[i]
    {
      hide Read;
      var s := caveats[i];
      assert s == caveats[..numCaveats][i];
      var cid := Bytes(s.cid);
      var vid := Bytes(s.vid);
      var cl := Bytes(s.cl);
      return Caveat(cid, vid, cl);
    }

    /** What a reader of the block sees. */
    method AsValue() returns (m: Macaroon)
      requires Valid()
      ensures m == Value()
    {
      hide Read;
      var loc := Bytes(location);
      var id := Bytes(identifier);
      var sig := Bytes(signature);
      var cs: seq<Caveat> := [];
      for i := 0 to numCaveats
        invariant cs == Value().caveats[..i]
      {
        var c := CaveatAt(i);
        cs := cs + [c];
      }
      m := Macaroon(loc, id, sig, cs);
    }

    /** macaroon_body_size */
    method Size() returns (sz: nat)
      requires Valid()
      ensures sz == BodySize(Value())
    {
      hide Read, CaveatsSize;
      ghost var vs := Value().caveats;
      sz := location.size + identifier.size;
      CaveatsSizeEmpty();
      for i := 0 to numCaveats
        invariant sz == location.size + identifier.size + CaveatsSize(vs[..i])
      {
        CaveatsSizePrefix(vs, i);
        sz := sz + caveats[i].cid.size;
        sz := sz + caveats[i].vid.size;
        sz := sz + caveats[i].cl.size;
        assert caveats[i] == caveats[..numCaveats][i];
      }
      assert vs[..numCaveats] == vs;
    }
  }

  lemma CaveatsSizeEmpty()
    ensures CaveatsSize([]) == 0
  {
  }

  lemma CopiedStart(b: Bytes, n: nat)
    requires n <= |b|
    ensures Copied(b, [], [], n) && CaveatsSize([]) == 0 && Agree(b, b, n)
  {
  }
}
