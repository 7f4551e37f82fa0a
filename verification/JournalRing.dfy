/** The log as a ring of blocks, and the same log unrolled from its start. */
module JournalRing {
  import opened Common
  import opened JournalTags

  /** The wrap macro: positions run from first up to maxlen. */
  function Wrap(first: nat, maxlen: nat, v: nat): nat
    requires first < maxlen
  {
    if v >= maxlen then v - (maxlen - first) else v
  }

  /** The ring position i blocks after start. */
  function Pos(first: nat, maxlen: nat, start: nat, i: nat): nat
    requires first <= start < maxlen && i <= maxlen - first
  {
    if start + i < maxlen then start + i else start + i - (maxlen - first)
  }

  /** The log blocks from start on, once around. */
  function Unrolled(log: seq<Block>, first: nat, start: nat): (l: seq<Block>)
    requires first <= start < |log|
    ensures |l| == |log| - first
    ensures forall i :: 0 <= i < |l| ==> l[i] == log[Pos(first, |log|, start, i)]
  {
    seq(|log| - first, i requires 0 <= i < |log| - first => log[Pos(first, |log|, start, i)])
  }

  /** Counting up and wrapping walks the ring, and comes back to start exactly once around. */
  lemma {:induction false} PosNext(first: nat, maxlen: nat, start: nat, i: nat)
    requires first <= start < maxlen && i < maxlen - first
    ensures Pos(first, maxlen, start, i + 1) == Wrap(first, maxlen, Pos(first, maxlen, start, i) + 1)
    ensures first <= Pos(first, maxlen, start, i) < maxlen
    ensures Pos(first, maxlen, start, i + 1) == start <==> i + 1 == maxlen - first
  {
  }

  lemma {:induction false} StartPos(first: nat, maxlen: nat, start: nat)
    requires first <= start < maxlen
    ensures Pos(first, maxlen, start, 0) == start
  {
  }

  /** Different places of the unrolled log are different blocks. */
  lemma {:induction false} PosDistinct(first: nat, maxlen: nat, start: nat, i: nat, j: nat)
    requires first <= start < maxlen && i < j < maxlen - first
    ensures Pos(first, maxlen, start, i) != Pos(first, maxlen, start, j)
  {
  }

  /** The start of a ring has moved on by q0 - q blocks. */
  ghost predicate Slid(maxlen: nat, first: nat, start0: nat, q0: nat, start: nat, q: nat) {
    first <= start0 < maxlen && q <= q0 < maxlen - first && start == Pos(first, maxlen, start0, q0 - q)
  }

  lemma {:induction false} SlidNone(maxlen: nat, first: nat, start: nat, q: nat)
    requires first <= start < maxlen && q < maxlen - first
    ensures Slid(maxlen, first, start, q, start, q)
  {
  }

  /** What lies behind the records stays where it is. */
  lemma {:induction false} SlidPos(maxlen: nat, first: nat, start0: nat, q0: nat, start: nat, q: nat, c: nat)
    requires Slid(maxlen, first, start0, q0, start, q) && q0 + c <= maxlen - first
    ensures first <= start < maxlen && q + c <= maxlen - first
    ensures Pos(first, maxlen, start, q + c) == Pos(first, maxlen, start0, q0 + c)
  {
  }

  lemma {:induction false} SlidLess(maxlen: nat, first: nat, start0: nat, q0: nat, start: nat, q: nat)
    requires Slid(maxlen, first, start0, q0, start, q)
    ensures q <= q0 && first <= start < maxlen
  {
  }

  lemma {:induction false} SlidOn(maxlen: nat, first: nat, start0: nat, q0: nat, start1: nat, q1: nat, start2: nat,
          q2: nat)
    requires Slid(maxlen, first, start0, q0, start1, q1) && Slid(maxlen, first, start1, q1, start2, q2)
    ensures Slid(maxlen, first, start0, q0, start2, q2)
  {
  }
}
