/**
 A state stepped forward by every byte of a stream that arrives in reads of any
 size.
 */
module Reads {
  import opened Utf8

  /** The state after the first `i` bytes of one read. */
  function After<S>(step: (S, Byte) -> S, s: S, bytes: Bytes, i: nat): (r: S)
    requires i <= |bytes|
  {
    if i == 0 then s else step(After(step, s, bytes, i - 1), bytes[i - 1])
  }

  /** The state after one read after another. */
  function AfterAll<S>(step: (S, Byte) -> S, s: S, chunks: seq<Bytes>): (r: S)
    decreases |chunks|
  {
    if chunks == [] then s else AfterAll(step, After(step, s, chunks[0], |chunks[0]|), chunks[1..])
  }

  function Joined(chunks: seq<Bytes>): (r: Bytes) {
    if chunks == [] then [] else chunks[0] + Joined(chunks[1..])
  }

  lemma {:induction false} AfterPrefix<S>(step: (S, Byte) -> S, s: S, a: Bytes, b: Bytes, i: nat)
    requires i <= |a|
    ensures After(step, s, a + b, i) == After(step, s, a, i)
  {
    if i > 0 {
      AfterPrefix(step, s, a, b, i - 1);
      assert (a + b)[i - 1] == a[i - 1];
    }
  }

  lemma {:induction false} AfterBoth<S>(step: (S, Byte) -> S, s: S, a: Bytes, b: Bytes, i: nat)
    requires i <= |b|
    ensures After(step, s, a + b, |a| + i) == After(step, After(step, s, a, |a|), b, i)
  {
    if i == 0 {
      AfterPrefix(step, s, a, b, |a|);
    } else {
      AfterBoth(step, s, a, b, i - 1);
      assert (a + b)[|a| + i - 1] == b[i - 1];
    }
  }

  /** However the bytes are split into reads, the state ends up the same. */
  lemma {:induction false} SplittingDoesNotMatter<S>(step: (S, Byte) -> S, s: S, chunks: seq<Bytes>)
    ensures AfterAll(step, s, chunks) == After(step, s, Joined(chunks), |Joined(chunks)|)
    decreases |chunks|
  {
    if chunks != [] {
      var next := After(step, s, chunks[0], |chunks[0]|);
      SplittingDoesNotMatter(step, next, chunks[1..]);
      AfterBoth(step, s, chunks[0], Joined(chunks[1..]), |Joined(chunks[1..])|);
    }
  }
}
