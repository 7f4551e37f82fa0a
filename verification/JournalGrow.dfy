/** How the log grows block by block, and how its start moves on. */
module JournalGrow {
  import opened Common
  import opened JournalTags
  import opened JournalLog
  import opened JournalRing

  /** Not a header of transaction id or a later one. */
  predicate Stale(b: Block, id: nat) {
    |b| < HEADER || b[0] != MAGIC || b[2] < id
  }

  /** The unrolled log holds the transactions live and the parts ps of transaction next after them;
      nothing behind that looks like a record of transaction next or a later one. */
  ghost predicate LogAt(wide: bool, l: seq<Block>, id: nat, live: seq<Rec>, next: nat, ps: seq<Part>) {
    && next == id + |live|
    && RecsAt(wide, l, 0, id, live) && PartsAt(wide, l, RecsLen(live), next, ps)
    && RecsLen(live) + PartsLen(ps) < |l|
    && (forall j :: 0 <= j < |l| && (j < RecsLen(live) || RecsLen(live) + PartsLen(ps) <= j) ==> Stale(l[j], next))
    && (forall j :: 0 <= j < |l| ==> Stale(l[j], next + 1))
  }

  lemma {:induction false} HoldsNow(wide: bool, l: seq<Block>, id: nat, live: seq<Rec>, next: nat, ps: seq<Part>)
    requires LogAt(wide, l, id, live, next, ps)
    ensures LogHolds(wide, l, id, live, ps)
  {
  }

  lemma {:induction false} PartsFrame(wide: bool, l: seq<Block>, l': seq<Block>, i: nat, id: nat, ps: seq<Part>)
    requires PartsAt(wide, l, i, id, ps) && |l'| == |l|
    requires forall j :: i <= j < i + PartsLen(ps) && j < |l| ==> l'[j] == l[j]
    ensures PartsAt(wide, l', i, id, ps)
    decreases |ps|
  {
    if ps != [] {
      var n := PartLen(ps[0]);
      assert l'[i + 1..i + n] == l[i + 1..i + n];
      PartsFrame(wide, l, l', i + n, id, ps[1..]);
    }
  }

  lemma {:induction false} RecsFrame(wide: bool, l: seq<Block>, l': seq<Block>, i: nat, id: nat, rs: seq<Rec>)
    requires RecsAt(wide, l, i, id, rs) && |l'| == |l|
    requires forall j :: i <= j < i + RecsLen(rs) && j < |l| ==> l'[j] == l[j]
    ensures RecsAt(wide, l', i, id, rs)
    decreases |rs|
  {
    if rs != [] {
      PartsFrame(wide, l, l', i, id, rs[0]);
      RecsFrame(wide, l, l', i + PartsLen(rs[0]) + 1, id + 1, rs[1..]);
    }
  }

  lemma {:induction false} PartsMore(wide: bool, l: seq<Block>, i: nat, id: nat, ps: seq<Part>, p: Part)
    requires PartsAt(wide, l, i, id, ps) && PartAt(wide, l, i + PartsLen(ps), id, p)
    ensures PartsAt(wide, l, i, id, ps + [p]) && PartsLen(ps + [p]) == PartsLen(ps) + PartLen(p)
    decreases |ps|
  {
    hide PartAt;
    if ps == [] {
      assert ([] + [p])[1..] == [];
    } else {
      assert (ps + [p])[1..] == ps[1..] + [p];
      PartsMore(wide, l, i + PartLen(ps[0]), id, ps[1..], p);
    }
  }

  lemma {:induction false} RecsMore(wide: bool, l: seq<Block>, i: nat, id: nat, rs: seq<Rec>, r: Rec)
    requires RecsAt(wide, l, i, id, rs) && PartsAt(wide, l, i + RecsLen(rs), id + |rs|, r)
    requires CommitAt(l, i + RecsLen(rs) + PartsLen(r), id + |rs|)
    ensures RecsAt(wide, l, i, id, rs + [r]) && RecsLen(rs + [r]) == RecsLen(rs) + PartsLen(r) + 1
    decreases |rs|
  {
    hide PartsAt, CommitAt;
    if rs == [] {
      assert ([] + [r])[1..] == [];
    } else {
      assert (rs + [r])[1..] == rs[1..] + [r];
      RecsMore(wide, l, i + PartsLen(rs[0]) + 1, id + 1, rs[1..], r);
    }
  }

  /** Writing a block that is no header behind the records changes nothing recorded. */
  lemma {:induction false} DataWritten(wide: bool, l: seq<Block>, id: nat, live: seq<Rec>, next: nat, ps: seq<Part>,
          j: nat, b: Block)
    requires LogAt(wide, l, id, live, next, ps) && RecsLen(live) + PartsLen(ps) <= j < |l| && Stale(b, 0)
    ensures LogAt(wide, l[j := b], id, live, next, ps)
  {
    RecsFrame(wide, l, l[j := b], 0, id, live);
    PartsFrame(wide, l, l[j := b], RecsLen(live), next, ps);
  }

  /** Writing the descriptor over blocks logged before makes them one part. */
  lemma {:induction false} DescWritten(wide: bool, l: seq<Block>, id: nat, live: seq<Rec>, next: nat, ps: seq<Part>,
          b: Block, ws: seq<Write>)
    requires LogAt(wide, l, id, live, next, ps)
    requires var q := RecsLen(live) + PartsLen(ps);
             && q + |ws| + 1 < |l| && IsHeader(b, next) && b[1] == DESCRIPTOR
             && TagsFor(ReadTags(wide, b, HEADER), l[q + 1..q + 1 + |ws|], ws)
    ensures var q := RecsLen(live) + PartsLen(ps);
            LogAt(wide, l[q := b], id, live, next, ps + [Data(ws)])
                && PartsLen(ps + [Data(ws)]) == PartsLen(ps) + |ws| + 1
  {
    hide ReadTags, TagsFor, RecsAt, RecsLen;
    var q := RecsLen(live) + PartsLen(ps);
    var l' := l[q := b];
    RecsFrame(wide, l, l', 0, id, live);
    PartsFrame(wide, l, l', RecsLen(live), next, ps);
    assert l'[q + 1..q + 1 + |ws|] == l[q + 1..q + 1 + |ws|];
    PartsMore(wide, l', RecsLen(live), next, ps, Data(ws));
  }

  /** Writing the commit block makes the parts a committed transaction: nothing was, all is. */
  lemma {:induction false} CommitWritten(wide: bool, l: seq<Block>, id: nat, live: seq<Rec>, next: nat, ps: seq<Part>,
          b: Block)
    requires LogAt(wide, l, id, live, next, ps)
    requires RecsLen(live) + PartsLen(ps) + 1 < |l| && IsHeader(b, next) && b[1] == COMMIT
    ensures LogAt(wide, l[RecsLen(live) + PartsLen(ps) := b], id, live + [ps], next + 1, [])
    ensures RecsLen(live + [ps]) == RecsLen(live) + PartsLen(ps) + 1
  {
    hide RecsAt, RecsLen;
    var q := RecsLen(live) + PartsLen(ps);
    var l' := l[q := b];
    RecsFrame(wide, l, l', 0, id, live);
    PartsFrame(wide, l, l', RecsLen(live), next, ps);
    RecsMore(wide, l', 0, id, live, ps);
  }

  // ---- moving the start ----

  lemma {:induction false} RecsSplit(rs: seq<Rec>, k: nat)
    requires k <= |rs|
    ensures RecsLen(rs) == RecsLen(rs[..k]) + RecsLen(rs[k..])
    decreases |rs|
  {
    if k == 0 {
      assert rs[..0] == [] && rs[0..] == rs;
    } else {
      assert rs[..k][1..] == rs[1..][..k - 1] && rs[k..] == rs[1..][k - 1..];
      RecsSplit(rs[1..], k - 1);
    }
  }

  lemma {:induction false} RecsFrom(wide: bool, l: seq<Block>, i: nat, id: nat, rs: seq<Rec>, k: nat)
    requires RecsAt(wide, l, i, id, rs) && k <= |rs|
    ensures RecsAt(wide, l, i + RecsLen(rs[..k]), id + k, rs[k..])
    decreases |rs|
  {
    if k == 0 {
      assert rs[..0] == [] && rs[0..] == rs;
    } else {
      hide PartsAt, CommitAt, PartsLen;
      assert rs[..k][1..] == rs[1..][..k - 1] && rs[k..] == rs[1..][k - 1..];
      RecsFrom(wide, l, i + PartsLen(rs[0]) + 1, id + 1, rs[1..], k - 1);
    }
  }

  lemma {:induction false} PartShift(wide: bool, l: seq<Block>, l': seq<Block>, n: nat, i: nat, id: nat, p: Part)
    requires PartAt(wide, l, i, id, p) && |l'| == |l| && n <= i
    requires forall j :: 0 <= j < |l| - n ==> l'[j] == l[j + n]
    ensures PartAt(wide, l', i - n, id, p)
  {
    hide ReadTags, TagsFor, RevokeList;
    var m := PartLen(p);
    assert l'[i - n] == l[i];
    assert l'[i - n + 1..i - n + m] == l[i + 1..i + m];
  }

  lemma {:induction false} PartsShift(wide: bool, l: seq<Block>, l': seq<Block>, n: nat, i: nat, id: nat, ps: seq<Part>)
    requires PartsAt(wide, l, i, id, ps) && |l'| == |l| && n <= i
    requires forall j :: 0 <= j < |l| - n ==> l'[j] == l[j + n]
    ensures PartsAt(wide, l', i - n, id, ps)
    decreases |ps|
  {
    if ps != [] {
      hide PartsLen;
      PartShift(wide, l, l', n, i, id, ps[0]);
      hide PartAt, PartLen;
      PartsShift(wide, l, l', n, i + PartLen(ps[0]), id, ps[1..]);
    }
  }

  lemma {:induction false} RecsShift(wide: bool, l: seq<Block>, l': seq<Block>, n: nat, i: nat, id: nat, rs: seq<Rec>)
    requires RecsAt(wide, l, i, id, rs) && |l'| == |l| && n <= i
    requires forall j :: 0 <= j < |l| - n ==> l'[j] == l[j + n]
    ensures RecsAt(wide, l', i - n, id, rs)
    decreases |rs|
  {
    if rs != [] {
      PartsShift(wide, l, l', n, i, id, rs[0]);
      var c := i + PartsLen(rs[0]);
      assert l'[c - n] == l[c];
      RecsShift(wide, l, l', n, c + 1, id + 1, rs[1..]);
    }
  }

  lemma {:induction false} PartsFit(wide: bool, l: seq<Block>, i: nat, id: nat, ps: seq<Part>)
    requires PartsAt(wide, l, i, id, ps) && i <= |l|
    ensures i + PartsLen(ps) <= |l|
    decreases |ps|
  {
    if ps != [] {
      PartsFit(wide, l, i + PartLen(ps[0]), id, ps[1..]);
    }
  }

  /** The same ring unrolled from n blocks further on. */
  lemma {:induction false} Turned(log: seq<Block>, first: nat, start: nat, n: nat)
    requires first <= start < |log| && n < |log| - first
    ensures first <= Pos(first, |log|, start, n) < |log|
    ensures var l, l' := Unrolled(log, first, start), Unrolled(log, first, Pos(first, |log|, start, n));
            && (forall j :: 0 <= j < |l| - n ==> l'[j] == l[j + n])
            && (forall j :: |l| - n <= j < |l| ==> l'[j] == l[j + n - |l|])
  {
    PosTurn(first, |log|, start, n, 0);
    hide Pos;
    var l, l' := Unrolled(log, first, start), Unrolled(log, first, Pos(first, |log|, start, n));
    forall j | 0 <= j < |l|
      ensures l'[j] == l[if j + n < |l| then j + n else j + n - |l|]
    {
      PosTurn(first, |log|, start, n, j);
    }
  }

  lemma {:induction false} PosTurn(first: nat, maxlen: nat, start: nat, n: nat, j: nat)
    requires first <= start < maxlen && n < maxlen - first && j < maxlen - first
    ensures first <= Pos(first, maxlen, start, n) < maxlen
    ensures Pos(first, maxlen, Pos(first, maxlen, start, n), j) ==
            Pos(first, maxlen, start, if j + n < maxlen - first then j + n else j + n - (maxlen - first))
  {
  }

  /** The log seen from the start of its k-th transaction. */
  lemma {:induction false} StartMoved(wide: bool, log: seq<Block>, first: nat, start: nat, id: nat, live: seq<Rec>,
          next: nat, ps: seq<Part>, k: nat)
    requires first <= start < |log| && LogAt(wide, Unrolled(log, first, start), id, live, next, ps) && k <= |live|
    ensures var n := RecsLen(live[..k]);
            && n < |log| - first && first <= Pos(first, |log|, start, n) < |log|
            && LogAt(wide, Unrolled(log, first, Pos(first, |log|, start, n)), id + k, live[k..], next, ps)
            && RecsLen(live) == n + RecsLen(live[k..])
  {
    hide ReadTags, PartsAt, RecsAt, CommitAt, Pos, Stale;
    var n := RecsLen(live[..k]);
    RecsSplit(live, k);
    Turned(log, first, start, n);
    var l, l' := Unrolled(log, first, start), Unrolled(log, first, Pos(first, |log|, start, n));
    RecsFrom(wide, l, 0, id, live, k);
    RecsShift(wide, l, l', n, n, id + k, live[k..]);
    PartsShift(wide, l, l', n, RecsLen(live), next, ps);
    StaleTurned(l, l', n, RecsLen(live), PartsLen(ps), next);
  }

  lemma {:induction false} StaleTurned(l: seq<Block>, l': seq<Block>, n: nat, q: nat, len: nat, next: nat)
    requires n <= q && q + len < |l| == |l'|
    requires (forall j :: 0 <= j < |l| - n ==> l'[j] == l[j + n])
             && (forall j :: |l| - n <= j < |l| ==> l'[j] == l[j + n - |l|])
    requires forall j :: 0 <= j < |l| && (j < q || q + len <= j) ==> Stale(l[j], next)
    requires forall j :: 0 <= j < |l| ==> Stale(l[j], next + 1)
    ensures forall j :: 0 <= j < |l'| && (j < q - n || q - n + len <= j) ==> Stale(l'[j], next)
    ensures forall j :: 0 <= j < |l'| ==> Stale(l'[j], next + 1)
  {
    hide Stale;
    forall j | 0 <= j < |l'|
      ensures l'[j] == l[if j < |l| - n then j + n else j + n - |l|]
    {
    }
  }
}
