/** Writing through an advancing pointer: what a stretch of writes leaves in a buffer. */
module Buffers {
  import opened Bytes

  /** `now` is `before` with `written` put at `at`. */
  ghost predicate Wrote(before: Bytes, now: Bytes, at: nat, written: Bytes) {
    && at + |written| <= |before|
    && now == before[..at] + written + before[at + |written|..]
  }

  lemma WroteMore(s0: Bytes, s1: Bytes, s2: Bytes, at: nat, w1: Bytes, w2: Bytes)
    requires Wrote(s0, s1, at, w1) && Wrote(s1, s2, at + |w1|, w2)
    ensures Wrote(s0, s2, at, w1 + w2)
  {
  }

  lemma WroteNothing(s: Bytes, at: nat)
    requires at <= |s|
    ensures Wrote(s, s, at, [])
  {
  }

  /** `*ptr = b` */
  method PutByte(b: byte, data: array<byte>, ptr: nat)
    requires ptr < data.Length
    modifies data
    ensures Wrote(old(data[..]), data[..], ptr, [b])
  {
    data[ptr] := b;
  }

  /** memmove from outside the buffer */
  method Memmove(src: Bytes, data: array<byte>, ptr: nat)
    requires ptr + |src| <= data.Length
    modifies data
    ensures Wrote(old(data[..]), data[..], ptr, src)
  {
    forall i | 0 <= i < |src| { data[ptr + i] := src[i]; }
  }
}
