/** The disk during a journal session, and every state a crash may leave behind. */
module JournalDisk {
  import opened Common
  import opened JournalTags
  import opened JournalLog
  import opened JournalRing
  import opened JournalCrash
  import opened JournalGrow

  /** The disk right after one write, and how many transactions were committed then. */
  datatype Moment = Moment(disk: Disk, commits: nat)

  /** Recovery can read the log: it holds some transactions, and maybe the beginning of one more. */
  ghost predicate Readable(wide: bool, first: nat, d: Disk) {
    && first <= d.start < |d.log| && (forall i :: 0 <= i < |d.log| ==> |d.log[i]| >= 16)
    && exists rs, ps ::
         LogHolds(wide, Unrolled(d.log, first, d.start), d.sequence, rs, ps) && AllData(rs) && DataOnly(ps)
  }

  /** Mounting this disk gives the state after the first commits transactions, as a whole. */
  ghost predicate MomentOk(wide: bool, first: nat, m: Moment, hist: seq<Rec>, base: seq<Block>) {
    && m.commits <= |hist| && (m.disk.start == 0 || Readable(wide, first, m.disk))
    && Mounted(wide, first, m.disk) == Effect(hist[..m.commits], base)
  }

  /** All disks since before had n transactions committed. */
  ghost predicate Since(before: seq<Moment>, trace: seq<Moment>, n: nat) {
    before <= trace && forall k :: |before| <= k < |trace| ==> trace[k].commits == n
  }

  /** The trace goes on from before to the disk there is now; no commit was ever taken back. */
  ghost predicate Recorded(before: seq<Moment>, trace: seq<Moment>, now: Disk, n: nat) {
    && trace != [] && trace[|trace| - 1] == Moment(now, n) && Since(before, trace, n)
    && forall i, j :: 0 <= i <= j < |trace| ==> trace[i].commits <= trace[j].commits
  }

  /** Every disk of the trace is recoverable. */
  ghost predicate Safe(wide: bool, first: nat, before: seq<Moment>, trace: seq<Moment>, now: Disk, hist: seq<Rec>,
          base: seq<Block>)
  {
    && (forall k :: 0 <= k < |trace| ==> MomentOk(wide, first, trace[k], hist, base))
    && Recorded(before, trace, now, |hist|)
  }

  /** The disk holds the committed transactions from number done on, and the begun parts ps of the next one. */
  ghost predicate DiskOk(wide: bool, first: nat, w: nat, d: Disk, hist: seq<Rec>, base: seq<Block>, done: nat,
          next: nat, ps: seq<Part>)
  {
    && 0 < first <= d.start < |d.log| && done <= |hist| && AllData(hist)
    && (forall i :: 0 <= i < |d.log| ==> |d.log[i]| == w)
    && LogAt(wide, Unrolled(d.log, first, d.start), d.sequence, hist[done..], next, ps)
    && HomeOk(d.home, hist, base, done)
  }

  lemma {:induction false} OkCrash(wide: bool, first: nat, w: nat, d: Disk, hist: seq<Rec>, base: seq<Block>, done: nat,
          next: nat, ps: seq<Part>)
    requires DiskOk(wide, first, w, d, hist, base, done, next, ps) && w >= 16 && DataOnly(ps)
    ensures MomentOk(wide, first, Moment(d, |hist|), hist, base)
  {
    hide LogAt, HomeOk, Mounted, Effect, LogHolds;
    HoldsNow(wide, Unrolled(d.log, first, d.start), d.sequence, hist[done..], next, ps);
    assert AllData(hist[done..]) by {
      assert forall k :: 0 <= k < |hist[done..]| ==> hist[done..][k] == hist[done + k];
    }
    CrashRecovers(wide, first, d, hist, base, done, ps);
    assert hist[..|hist|] == hist;
  }

  /** One more write that leaves a good disk. A write that commits begins a new part of the trace. */
  lemma {:induction false} SafeMore(wide: bool, first: nat, w: nat, before: seq<Moment>, trace: seq<Moment>, now: Disk,
          before': seq<Moment>, d: Disk, hist: seq<Rec>, hist': seq<Rec>, base: seq<Block>, done: nat, next: nat,
          ps: seq<Part>)
    requires Safe(wide, first, before, trace, now, hist, base) && |hist| <= |hist'| && hist'[..|hist|] == hist
    requires before' == trace || (before' == before && hist' == hist)
    requires DiskOk(wide, first, w, d, hist', base, done, next, ps) && w >= 16 && DataOnly(ps)
    ensures Safe(wide, first, before', trace + [Moment(d, |hist'|)], d, hist', base)
  {
    hide DiskOk, Mounted, Effect, Readable, DataOnly;
    OkCrash(wide, first, w, d, hist', base, done, next, ps);
    forall k | 0 <= k < |trace|
      ensures MomentOk(wide, first, trace[k], hist', base)
    {
      assert hist'[..trace[k].commits] == hist'[..|hist|][..trace[k].commits];
    }
  }

  /** The trace so far counts as one part. */
  lemma {:induction false} SafeFrom(wide: bool, first: nat, before: seq<Moment>, trace: seq<Moment>, now: Disk,
          hist: seq<Rec>, base: seq<Block>)
    requires Safe(wide, first, before, trace, now, hist, base)
    ensures Safe(wide, first, trace, trace, now, hist, base)
  {
  }

  lemma {:induction false} SafeSince(wide: bool, first: nat, before: seq<Moment>, trace: seq<Moment>, now: Disk,
          hist: seq<Rec>, base: seq<Block>)
    requires Safe(wide, first, before, trace, now, hist, base)
    ensures Since(before, trace, |hist|)
  {
  }

  lemma {:induction false} UnrolledPut(log: seq<Block>, first: nat, start: nat, j: nat, b: Block)
    requires first <= start < |log| && j < |log| - first
    ensures var p := Pos(first, |log|, start, j);
            first <= p < |log| && Unrolled(log[p := b], first, start) == Unrolled(log, first, start)[j := b]
  {
    var p := Pos(first, |log|, start, j);
    forall i {:trigger Pos(first, |log|, start, i)} | 0 <= i < |log| - first
      ensures Unrolled(log[p := b], first, start)[i] == Unrolled(log, first, start)[j := b][i]
    {
      if i < j {
        PosDistinct(first, |log|, start, i, j);
      } else if i > j {
        PosDistinct(first, |log|, start, j, i);
      }
    }
  }

  lemma {:induction false} OkData(wide: bool, first: nat, w: nat, d: Disk, hist: seq<Rec>, base: seq<Block>, done: nat,
          next: nat, ps: seq<Part>, j: nat, b: Block)
    requires DiskOk(wide, first, w, d, hist, base, done, next, ps) && |b| == w && Stale(b, 0)
    requires RecsLen(hist[done..]) + PartsLen(ps) <= j < |d.log| - first
    ensures var p := Pos(first, |d.log|, d.start, j);
            && first <= p < |d.log| && DiskOk(wide, first, w, d.(log := d.log[p := b]), hist, base, done, next, ps)
            && Unrolled(d.log[p := b], first, d.start) == Unrolled(d.log, first, d.start)[j := b]
  {
    hide LogAt, HomeOk, Pos, Unrolled;
    UnrolledPut(d.log, first, d.start, j, b);
    DataWritten(wide, Unrolled(d.log, first, d.start), d.sequence, hist[done..], next, ps, j, b);
  }

  lemma {:induction false} OkDesc(wide: bool, first: nat, w: nat, d: Disk, hist: seq<Rec>, base: seq<Block>, done: nat,
          next: nat, ps: seq<Part>, b: Block, ws: seq<Write>)
    requires DiskOk(wide, first, w, d, hist, base, done, next, ps) && |b| == w
    requires var q := RecsLen(hist[done..]) + PartsLen(ps);
             && q + |ws| + 1 < |d.log| - first && IsHeader(b, next) && b[1] == DESCRIPTOR
             && TagsFor(ReadTags(wide, b, HEADER), Unrolled(d.log, first, d.start)[q + 1..q + 1 + |ws|], ws)
    ensures var p := Pos(first, |d.log|, d.start, RecsLen(hist[done..]) + PartsLen(ps));
            && first <= p < |d.log|
               && DiskOk(wide, first, w, d.(log := d.log[p := b]), hist, base, done, next, ps + [Data(ws)])
            && PartsLen(ps + [Data(ws)]) == PartsLen(ps) + |ws| + 1
  {
    hide LogAt, HomeOk, Pos, Unrolled, TagsFor, ReadTags;
    var q := RecsLen(hist[done..]) + PartsLen(ps);
    UnrolledPut(d.log, first, d.start, q, b);
    DescWritten(wide, Unrolled(d.log, first, d.start), d.sequence, hist[done..], next, ps, b, ws);
  }

  lemma {:induction false} OkCommit(wide: bool, first: nat, w: nat, d: Disk, hist: seq<Rec>, base: seq<Block>,
          done: nat, next: nat, ps: seq<Part>, b: Block)
    requires DiskOk(wide, first, w, d, hist, base, done, next, ps) && |b| == w && DataOnly(ps)
    requires RecsLen(hist[done..]) + PartsLen(ps) + 1 < |d.log| - first && IsHeader(b, next) && b[1] == COMMIT
    ensures var p := Pos(first, |d.log|, d.start, RecsLen(hist[done..]) + PartsLen(ps));
            && first <= p < |d.log|
               && DiskOk(wide, first, w, d.(log := d.log[p := b]), hist + [ps], base, done, next + 1, [])
            && RecsLen((hist + [ps])[done..]) == RecsLen(hist[done..]) + PartsLen(ps) + 1
  {
    hide LogAt, Pos, Unrolled, HomeOk;
    var q := RecsLen(hist[done..]) + PartsLen(ps);
    UnrolledPut(d.log, first, d.start, q, b);
    CommitWritten(wide, Unrolled(d.log, first, d.start), d.sequence, hist[done..], next, ps, b);
    assert (hist + [ps])[done..] == hist[done..] + [ps];
    HomeMore(d.home, hist, base, done, ps);
  }

  /** A new transaction takes the blocks it logs out of what must be at home. */
  lemma {:induction false} HomeMore(home: seq<Block>, hist: seq<Rec>, base: seq<Block>, done: nat, r: Rec)
    requires done <= |hist| && HomeOk(home, hist, base, done)
    ensures HomeOk(home, hist + [r], base, done)
  {
    var hist' := hist + [r];
    assert hist'[done..] == hist[done..] + [r];
    AllConcat(hist[done..], [r]);
    AllConcat(hist, [r]);
    assert [r][1..] == [];
    assert AllWrites([r]) == Writes(r) + AllWrites([]) == Writes(r);
    PutMore(AllWrites(hist), Writes(r), base);
    var a, b := AllWrites(hist[done..]), Writes(r);
    forall lba | 0 <= lba < |home| && !Tagged(AllWrites(hist'[done..]), lba)
      ensures home[lba] == Put(AllWrites(hist'), base)[lba]
    {
      TaggedConcat(a, b, lba);
      PutAt(b, Put(AllWrites(hist), base), Put(AllWrites(hist), base), lba);
    }
  }

  lemma {:induction false} TaggedConcat(a: seq<Write>, b: seq<Write>, lba: nat)
    ensures Tagged(a + b, lba) <==> Tagged(a, lba) || Tagged(b, lba)
  {
    if i :| 0 <= i < |a| && a[i].lba == lba {
      assert (a + b)[i] == a[i];
    }
    if i :| 0 <= i < |b| && b[i].lba == lba {
      assert (a + b)[|a| + i] == b[i];
    }
    if i :| 0 <= i < |a + b| && (a + b)[i].lba == lba {
      assert i < |a| ==> a[i] == (a + b)[i];
      assert i >= |a| ==> b[i - |a|] == (a + b)[i];
    }
  }

  /** A disk with an empty log. */
  lemma {:induction false} NothingLogged(wide: bool, first: nat, w: nat, d: Disk)
    requires 0 < first <= d.start < |d.log|
    requires forall i :: 0 <= i < |d.log| ==> |d.log[i]| == w && (first <= i ==> Stale(d.log[i], d.sequence))
    ensures DiskOk(wide, first, w, d, [], d.home, 0, d.sequence, [])
  {
    var l := Unrolled(d.log, first, d.start);
    forall j | 0 <= j < |l|
      ensures Stale(l[j], d.sequence) && Stale(l[j], d.sequence + 1)
    {
      PosNext(first, |d.log|, d.start, j);
    }
  }
}
