/** The checkpoint queue: which logged buffers are still to be written home. */
module JournalQueue {
  import opened Common
  import opened JournalTags
  import opened JournalLog
  import opened JournalRing
  import opened JournalCrash
  import opened JournalGrow
  import opened JournalDisk

  /** A logged buffer that is not yet written home, and the log block with its copy. */
  datatype Buf = Buf(lba: nat, jbdLba: nat)

  /** A committed transaction that waits for its buffers to be written home. */
  datatype Trans = Trans(id: nat, startIblock: nat, allocBlocks: nat, dataCnt: nat, writtenCnt: nat, bufs: seq<Buf>)

  predicate Pending(t: Trans, lba: nat) {
    exists i :: 0 <= i < |t.bufs| && t.bufs[i].lba == lba
  }

  ghost predicate Logs(r: Rec, lba: nat) {
    Tagged(Writes(r), lba)
  }

  ghost predicate LoggedFrom(live: seq<Rec>, k: nat, lba: nat) {
    exists j :: k <= j < |live| && Logs(live[j], lba)
  }

  /** A transaction has one buffer for a block. */
  ghost predicate Distinct(bufs: seq<Buf>) {
    forall i, j :: 0 <= i < j < |bufs| ==> bufs[i].lba != bufs[j].lba
  }

  /** The queue describes the live transactions, and where they are in the log. */
  ghost predicate QueueAt(q: seq<Trans>, live: seq<Rec>, first: nat, maxlen: nat, start: nat, id: nat)
    requires first <= start < maxlen && RecsLen(live) < maxlen - first
  {
    && |q| == |live|
    && forall k :: 0 <= k < |q| ==>
         && q[k].id == id + k
         && Place(live, k) <= maxlen - first && q[k].startIblock == Pos(first, maxlen, start, Place(live, k))
         && q[k].allocBlocks == PartsLen(live[k]) + 1
         && q[k].dataCnt == q[k].writtenCnt + |q[k].bufs| && Distinct(q[k].bufs)
  }

  /** Where the k-th transaction begins. */
  ghost function Place(live: seq<Rec>, k: nat): nat
    requires k <= |live|
  {
    RecsLen(live[..k])
  }

  /** What is pending was logged, with all later copies pending too; of what is not pending, a later
      copy is in the log or the committed contents are at home. */
  ghost predicate QueueOk(q: seq<Trans>, live: seq<Rec>, home: seq<Block>, want: seq<Block>) {
    && |q| == |live| && |home| == |want|
    && (forall k, lba: nat :: 0 <= k < |q| && Pending(q[k], lba) ==> Logs(live[k], lba))
    && (forall k, j, lba: nat :: 0 <= k < j < |q| && Pending(q[k], lba) && Logs(live[j], lba) ==> Pending(q[j], lba))
    && (forall k, lba: nat :: 0 <= k < |q| && lba < |home| && Logs(live[k], lba) && !Pending(q[k], lba) ==>
          LoggedFrom(live, k + 1, lba) || home[lba] == want[lba])
  }

  lemma {:induction false} TaggedAll(rs: seq<Rec>, lba: nat)
    ensures Tagged(AllWrites(rs), lba) <==> LoggedFrom(rs, 0, lba)
    decreases |rs|
  {
    if rs != [] {
      TaggedConcat(Writes(rs[0]), AllWrites(rs[1..]), lba);
      TaggedAll(rs[1..], lba);
      if j :| 0 <= j < |rs| && Logs(rs[j], lba) {
        if j > 0 {
          assert rs[1..][j - 1] == rs[j];
        }
      }
      if j :| 0 <= j < |rs[1..]| && Logs(rs[1..][j], lba) {
        assert rs[j + 1] == rs[1..][j];
      }
    }
  }

  /** When everything the first m transactions logged is written, the blocks only they logged are at home. */
  lemma {:induction false} WrittenHome(q: seq<Trans>, live: seq<Rec>, home: seq<Block>, want: seq<Block>, m: nat,
          lba: nat, k: nat)
    requires QueueOk(q, live, home, want) && k < m <= |q| && lba < |home|
    requires forall j :: 0 <= j < m ==> q[j].bufs == []
    requires Logs(live[k], lba) && !LoggedFrom(live, m, lba)
    ensures home[lba] == want[lba]
    decreases m - k
  {
    if LoggedFrom(live, k + 1, lba) {
      var j :| k + 1 <= j < |live| && Logs(live[j], lba);
      if j < m {
        WrittenHome(q, live, home, want, m, lba, j);
      }
    }
  }

  lemma {:induction false} LoggedSuffix(live: seq<Rec>, m: nat, lba: nat)
    requires m <= |live|
    ensures LoggedFrom(live[m..], 0, lba) <==> LoggedFrom(live, m, lba)
  {
    if j :| m <= j < |live| && Logs(live[j], lba) {
      assert live[m..][j - m] == live[j];
    }
    if j :| 0 <= j < |live[m..]| && Logs(live[m..][j], lba) {
      assert live[m + j] == live[m..][j];
    }
  }

  /** The log may start behind the first m transactions once all their buffers are written. */
  lemma {:induction false} HomeDone(q: seq<Trans>, home: seq<Block>, hist: seq<Rec>, base: seq<Block>, done: nat,
          m: nat)
    requires done + m <= |hist| && HomeOk(home, hist, base, done)
    requires QueueOk(q, hist[done..], home, Put(AllWrites(hist), base))
    requires forall j :: 0 <= j < m ==> q[j].bufs == []
    ensures HomeOk(home, hist, base, done + m)
  {
    var live, want := hist[done..], Put(AllWrites(hist), base);
    assert hist[done + m..] == live[m..];
    forall lba | 0 <= lba < |home| && !Tagged(AllWrites(live[m..]), lba)
      ensures home[lba] == want[lba]
    {
      TaggedAll(live[m..], lba);
      TaggedAll(live, lba);
      LoggedSuffix(live, m, lba);
      if k :| 0 <= k < |live| && Logs(live[k], lba) {
        WrittenHome(q, live, home, want, m, lba, k);
      }
    }
  }

  lemma {:induction false} QueueTail(q: seq<Trans>, live: seq<Rec>, home: seq<Block>, want: seq<Block>, m: nat)
    requires QueueOk(q, live, home, want) && m <= |q|
    ensures QueueOk(q[m..], live[m..], home, want)
  {
    var q', live' := q[m..], live[m..];
    forall k, lba: nat | 0 <= k < |q'| && lba < |home| && Logs(live'[k], lba) && !Pending(q'[k], lba)
      ensures LoggedFrom(live', k + 1, lba) || home[lba] == want[lba]
    {
      assert live'[k] == live[k + m] && q'[k] == q[k + m];
      if LoggedFrom(live, k + m + 1, lba) {
        var j :| k + m + 1 <= j < |live| && Logs(live[j], lba);
        assert live'[j - m] == live[j];
      }
    }
    forall k, lba: nat | 0 <= k < |q'| && Pending(q'[k], lba)
      ensures Logs(live'[k], lba)
    {
      assert live'[k] == live[k + m] && q'[k] == q[k + m];
    }
    forall k, j, lba: nat | 0 <= k < j < |q'| && Pending(q'[k], lba) && Logs(live'[j], lba)
      ensures Pending(q'[j], lba)
    {
      assert q'[k] == q[k + m] && q'[j] == q[j + m] && live'[j] == live[j + m];
    }
  }

  /** The buffers of t without the one for block lba. */
  function Without(bufs: seq<Buf>, lba: nat): (r: seq<Buf>)
    ensures |r| <= |bufs|
  {
    if bufs == [] then [] else (if bufs[0].lba == lba then [] else [bufs[0]]) + Without(bufs[1..], lba)
  }

  lemma {:induction false} WithoutPending(t: Trans, bufs: seq<Buf>, lba: nat, b: nat)
    ensures Pending(t.(bufs := Without(bufs, lba)), b) <==> b != lba && Pending(t.(bufs := bufs), b)
    decreases |bufs|
  {
    var t', t0 := t.(bufs := Without(bufs, lba)), t.(bufs := bufs);
    if bufs != [] {
      var head := if bufs[0].lba == lba then [] else [bufs[0]];
      var rest, rest0 := t.(bufs := Without(bufs[1..], lba)), t.(bufs := bufs[1..]);
      WithoutPending(t, bufs[1..], lba, b);
      assert t'.bufs == head + rest.bufs;
      if Pending(rest, b) {
        var i :| 0 <= i < |rest.bufs| && rest.bufs[i].lba == b;
        assert t'.bufs[|head| + i] == rest.bufs[i];
      }
      if Pending(rest0, b) {
        var i :| 0 <= i < |rest0.bufs| && rest0.bufs[i].lba == b;
        assert bufs[i + 1] == rest0.bufs[i];
      }
      if i :| 0 <= i < |bufs| && bufs[i].lba == b {
        if i > 0 {
          assert rest0.bufs[i - 1] == bufs[i];
        } else if b != lba {
          assert t'.bufs[0] == bufs[0];
        }
      }
      if i :| 0 <= i < |t'.bufs| && t'.bufs[i].lba == b {
        if i >= |head| {
          assert rest.bufs[i - |head|] == t'.bufs[i];
        }
      }
    }
  }

  /** Marking the oldest pending copy of a block as written, when a later one is in the log or the
      block is at home. */
  lemma {:induction false} QueueWritten(q: seq<Trans>, live: seq<Rec>, home: seq<Block>, want: seq<Block>, k: nat,
          lba: nat, q': seq<Trans>)
    requires QueueOk(q, live, home, want) && k < |q|
    requires forall j :: 0 <= j < k ==> !Pending(q[j], lba)
    requires LoggedFrom(live, k + 1, lba) || (lba < |home| ==> home[lba] == want[lba])
    requires |q'| == |q| && q' == q[k := q'[k]] && q'[k].bufs == Without(q[k].bufs, lba)
    ensures QueueOk(q', live, home, want)
  {
    forall j, b: nat | 0 <= j < |q'|
      ensures Pending(q'[j], b) <==> Pending(q[j], b) && !(j == k && b == lba)
    {
      if j == k {
        WithoutPending(q[k], q[k].bufs, lba, b);
        assert Pending(q'[k], b) == Pending(q[k].(bufs := q'[k].bufs), b);
      }
    }
  }

  /** A buffer is in a transaction once. */
  lemma {:induction false} WithoutOne(bufs: seq<Buf>, lba: nat, i: nat)
    requires Distinct(bufs) && i < |bufs| && bufs[i].lba == lba
    ensures Without(bufs, lba) == bufs[..i] + bufs[i + 1..]
    decreases |bufs|
  {
    var rest := bufs[1..];
    assert forall j :: 0 <= j < |rest| ==> rest[j] == bufs[j + 1];
    if i == 0 {
      WithoutNone(rest, lba);
    } else {
      WithoutOne(rest, lba, i - 1);
      assert rest[..i - 1] + rest[i..] == (bufs[..i] + bufs[i + 1..])[1..];
      assert bufs[0].lba != lba;
    }
  }

  lemma {:induction false} WithoutNone(bufs: seq<Buf>, lba: nat)
    requires forall j :: 0 <= j < |bufs| ==> bufs[j].lba != lba
    ensures Without(bufs, lba) == bufs
    decreases |bufs|
  {
    if bufs != [] {
      WithoutNone(bufs[1..], lba);
    }
  }

  /** A new transaction at the end of the queue, with everything it logged pending. */
  lemma {:induction false} QueueMore(q: seq<Trans>, hist: seq<Rec>, done: nat, home: seq<Block>, base: seq<Block>,
          t: Trans, r: Rec)
    requires done <= |hist| && |home| == |base| && QueueOk(q, hist[done..], home, Put(AllWrites(hist), base))
    requires |t.bufs| == |Writes(r)| && forall i :: 0 <= i < |t.bufs| ==> t.bufs[i].lba == Writes(r)[i].lba
    ensures QueueOk(q + [t], (hist + [r])[done..], home, Put(AllWrites(hist + [r]), base))
  {
    hide QueueOk, Put, AllWrites, Writes;
    var want, want' := Put(AllWrites(hist), base), Put(AllWrites(hist + [r]), base);
    assert (hist + [r])[done..] == hist[done..] + [r];
    PendingAll(t, r);
    forall b: nat | b < |home| && !Logs(r, b)
      ensures want'[b] == want[b]
    {
      AllMore(hist, r);
      PutMore(AllWrites(hist), Writes(r), base);
      PutAt(Writes(r), want, want, b);
    }
    QueueAppend(q, hist[done..], home, want, want', t, r);
  }

  lemma {:induction false} AllMore(hist: seq<Rec>, r: Rec)
    ensures AllWrites(hist + [r]) == AllWrites(hist) + Writes(r)
  {
    AllConcat(hist, [r]);
    assert [r][1..] == [];
    assert AllWrites([r]) == Writes(r) + AllWrites([]) == Writes(r);
  }

  lemma {:induction false} PendingAll(t: Trans, r: Rec)
    requires |t.bufs| == |Writes(r)| && forall i :: 0 <= i < |t.bufs| ==> t.bufs[i].lba == Writes(r)[i].lba
    ensures forall b: nat :: Pending(t, b) <==> Logs(r, b)
  {
    forall b: nat
      ensures Pending(t, b) <==> Logs(r, b)
    {
      if i :| 0 <= i < |Writes(r)| && Writes(r)[i].lba == b {
        assert t.bufs[i].lba == b;
      }
    }
  }

  lemma {:induction false} QueueAppend(q: seq<Trans>, live: seq<Rec>, home: seq<Block>, want: seq<Block>,
          want': seq<Block>, t: Trans, r: Rec)
    requires QueueOk(q, live, home, want) && |want'| == |want|
    requires forall b: nat :: Pending(t, b) <==> Logs(r, b)
    requires forall b: nat :: b < |home| && !Logs(r, b) ==> want'[b] == want[b]
    ensures QueueOk(q + [t], live + [r], home, want')
  {
    hide Pending, Logs;
    var live', q', n := live + [r], q + [t], |live|;
    forall k, b: nat | 0 <= k < |q'| && b < |home| && Logs(live'[k], b) && !Pending(q'[k], b)
      ensures LoggedFrom(live', k + 1, b) || home[b] == want'[b]
    {
      if Logs(r, b) {
        assert live'[n] == r;
      } else {
        assert k < n && live'[k] == live[k] && q'[k] == q[k];
        if j :| k + 1 <= j < n && Logs(live[j], b) {
          assert live'[j] == live[j];
        }
      }
    }
  }

  lemma {:induction false} QueueAtMore(q: seq<Trans>, live: seq<Rec>, r: Rec, first: nat, maxlen: nat, start: nat,
          id: nat, t: Trans)
    requires first <= start < maxlen && RecsLen(live + [r]) < maxlen - first && RecsLen(live) < maxlen - first
    requires QueueAt(q, live, first, maxlen, start, id)
    requires t.id == id + |live| && t.startIblock == Pos(first, maxlen, start, RecsLen(live))
             && t.allocBlocks == PartsLen(r) + 1
    requires t.dataCnt == t.writtenCnt + |t.bufs| && Distinct(t.bufs)
    ensures QueueAt(q + [t], live + [r], first, maxlen, start, id)
  {
    hide Pos, RecsLen, PartsLen, Distinct;
    var q', live' := q + [t], live + [r];
    forall k | 0 <= k < |q'|
      ensures Place(live', k) == Place(if k < |live| then live else live, if k < |live| then k else |live|)
    {
      assert live'[..k] == live[..k];
    }
    assert live[..|live|] == live;
  }

  // ---- leaving the log ----

  lemma {:induction false} PlaceNext(live: seq<Rec>, k: nat)
    requires k < |live|
    ensures Place(live, k + 1) == Place(live, k) + PartsLen(live[k]) + 1 <= RecsLen(live)
  {
    RecsSplit(live, k + 1);
    RecsSplit(live[..k + 1], k);
    assert live[..k + 1][..k] == live[..k] && live[..k + 1][k..] == [live[k]];
    assert [live[k]][1..] == [];
    assert RecsLen([live[k]]) == PartsLen(live[k]) + 1 + RecsLen([]);
  }

  lemma {:induction false} PosAdd(first: nat, maxlen: nat, start: nat, i: nat, n: nat)
    requires first <= start < maxlen && i + n <= maxlen - first
    ensures Wrap(first, maxlen, Pos(first, maxlen, start, i) + n) == Pos(first, maxlen, start, i + n)
  {
  }

  lemma {:induction false} PlaceTail(live: seq<Rec>, m: nat, k: nat)
    requires m + k <= |live|
    ensures Place(live, m + k) == Place(live, m) + Place(live[m..], k) <= RecsLen(live)
  {
    RecsSplit(live, m + k);
    RecsSplit(live[..m + k], m);
    assert live[..m + k][..m] == live[..m] && live[..m + k][m..] == live[m..][..k];
  }

  /** The queue seen from a later start. */
  lemma {:induction false} QueueAtTail(q: seq<Trans>, live: seq<Rec>, first: nat, maxlen: nat, start: nat, id: nat,
          m: nat, start': nat)
    requires first <= start < maxlen && RecsLen(live) < maxlen - first && m <= |live|
    requires QueueAt(q, live, first, maxlen, start, id)
    requires Place(live, m) < maxlen - first && start' == Pos(first, maxlen, start, Place(live, m))
    ensures first <= start' < maxlen && RecsLen(live[m..]) < maxlen - first
    ensures QueueAt(q[m..], live[m..], first, maxlen, start', id + m)
    ensures Pos(first, maxlen, start', RecsLen(live[m..])) == Pos(first, maxlen, start, RecsLen(live))
  {
    hide Pos, RecsLen, PartsLen, Distinct, Place;
    PosTurn(first, maxlen, start, Place(live, m), 0);
    forall k | 0 <= k <= |live[m..]|
      ensures Place(live[m..], k) < maxlen - first && Place(live, m + k) < maxlen - first
      ensures Pos(first, maxlen, start', Place(live[m..], k)) == Pos(first, maxlen, start, Place(live, m + k))
    {
      PlaceTail(live, m, k);
      PosTurn(first, maxlen, start, Place(live, m), Place(live[m..], k));
    }
    PlaceAll(live);
    PlaceAll(live[m..]);
  }

  lemma {:induction false} PlaceAll(live: seq<Rec>)
    ensures Place(live, |live|) == RecsLen(live)
  {
    assert live[..|live|] == live;
  }

  /** The disk with the log started behind the first m transactions, whose buffers are all home. */
  lemma {:induction false} OkStart(wide: bool, first: nat, w: nat, d: Disk, hist: seq<Rec>, base: seq<Block>, done: nat,
          next: nat, ps: seq<Part>, q: seq<Trans>, m: nat)
    requires DiskOk(wide, first, w, d, hist, base, done, next, ps) && done + m <= |hist|
    requires QueueOk(q, hist[done..], d.home, Put(AllWrites(hist), base))
    requires forall j :: 0 <= j < m ==> q[j].bufs == []
    ensures var n := Place(hist[done..], m);
            && n < |d.log| - first
            && DiskOk(wide, first, w, d.(start := Pos(first, |d.log|, d.start, n), sequence := d.sequence + m), hist,
                   base, done + m, next, ps)
  {
    hide LogAt, HomeOk, Pos, Unrolled, QueueOk, RecsLen, Put;
    StartMoved(wide, d.log, first, d.start, d.sequence, hist[done..], next, ps, m);
    assert hist[done..][m..] == hist[done + m..];
    HomeDone(q, d.home, hist, base, done, m);
  }

  // ---- writing home ----

  lemma {:induction false} OkHome(wide: bool, first: nat, w: nat, d: Disk, hist: seq<Rec>, base: seq<Block>, done: nat,
          next: nat, ps: seq<Part>, lba: nat, b: Block)
    requires DiskOk(wide, first, w, d, hist, base, done, next, ps) && lba < |d.home|
    requires LoggedFrom(hist[done..], 0, lba) || b == Put(AllWrites(hist), base)[lba]
    ensures DiskOk(wide, first, w, d.(home := d.home[lba := b]), hist, base, done, next, ps)
  {
    hide LogAt;
    TaggedAll(hist[done..], lba);
  }

  /** While a copy of the block is pending, nothing depends on what is at home. */
  lemma {:induction false} QueueHome(q: seq<Trans>, live: seq<Rec>, home: seq<Block>, want: seq<Block>, k: nat,
          lba: nat, b: Block)
    requires QueueOk(q, live, home, want) && k < |q| && Pending(q[k], lba) && lba < |home|
    ensures QueueOk(q, live, home[lba := b], want)
    ensures LoggedFrom(live, 0, lba)
  {
    assert Logs(live[k], lba);
    forall j | 0 <= j < |q| && Logs(live[j], lba) && !Pending(q[j], lba)
      ensures LoggedFrom(live, j + 1, lba)
    {
      if j < k {
        assert Logs(live[k], lba);
      }
    }
  }

  /** The queue after one buffer of its k-th transaction was written. */
  ghost predicate MarkedIn(q: seq<Trans>, k: nat, lba: nat, q': seq<Trans>) {
    && k < |q| == |q'| && q' == q[k := q[k].(bufs := Without(q[k].bufs, lba), writtenCnt := q[k].writtenCnt + 1)]
  }

  lemma {:induction false} MarkedAt(q: seq<Trans>, live: seq<Rec>, first: nat, maxlen: nat, start: nat, id: nat, k: nat,
          lba: nat, q': seq<Trans>)
    requires first <= start < maxlen && RecsLen(live) < maxlen - first && QueueAt(q, live, first, maxlen, start, id)
    requires MarkedIn(q, k, lba, q') && Pending(q[k], lba)
    ensures QueueAt(q', live, first, maxlen, start, id)
    ensures !Pending(q'[k], lba) && (q'[k].dataCnt == q'[k].writtenCnt <==> q'[k].bufs == [])
  {
    hide Pos, RecsLen, PartsLen, Place;
    var bufs := q[k].bufs;
    var i :| 0 <= i < |bufs| && bufs[i].lba == lba;
    WithoutOne(bufs, lba, i);
    DistinctWithout(bufs, i);
    WithoutPending(q[k], bufs, lba, lba);
    assert Pending(q'[k], lba) == Pending(q[k].(bufs := Without(bufs, lba)), lba);
  }

  lemma {:induction false} DistinctWithout(bufs: seq<Buf>, i: nat)
    requires Distinct(bufs) && i < |bufs|
    ensures Distinct(bufs[..i] + bufs[i + 1..])
  {
  }
}
