/** Runs of a session that do not keep what was committed. */
module JournalRuns {
  import opened Common
  import opened JournalTags
  import opened JournalLog
  import opened JournalRing
  import opened JournalCrash
  import opened JournalGrow
  import opened JournalDisk
  import opened JournalWriter
  import opened JournalQueue
  import opened JournalLoss
  import opened JournalSession

  /** A block of 16 equal words. */
  function Words(v: nat): (b: Block)
    ensures |b| == 16 && b[0] == v
  {
    seq(16, _ => v)
  }

  /** A device with seven log blocks of 16 words and two home blocks, at rest. */
  ghost predicate Small(s: Session)
    reads s
  {
    s.AtRest() && !s.wide && s.first == 1 && s.w == 16 && |s.log| == 8 && |s.home| == 2 && s.done <= |s.hist|
  }

  lemma {:induction false} WritesFit(r: Rec)
    ensures Writes(r) == [] || |Writes(r)| < PartsLen(r)
    decreases |r|
  {
    if r != [] {
      WritesFit(r[1..]);
    }
  }

  lemma {:induction false} OneDirty(data: Block)
    ensures Dirty([Item(1, data, true)]) == [Write(1, data)] && Need(4, 0, 1) == 2
  {
    assert [Item(1, data, true)][..0] == [];
    assert Dirty([]) == [];
  }

  lemma {:induction false} QueueSize(s: Session)
    requires s.AtRest()
    ensures s.done <= |s.hist| && |s.cpQueue| == |s.hist| - s.done && s.Live() == RecsLen(s.hist[s.done..])
  {
  }

  /** One transaction more makes the live ones longer by what it takes. */
  lemma {:induction false} LiveMore(hist: seq<Rec>, hist': seq<Rec>, done: nat, data: Block)
    requires done <= |hist| && |hist'| == |hist| + 1 && hist'[..|hist|] == hist
    requires Writes(hist'[|hist|]) == [Write(1, data)]
    ensures RecsLen(hist'[done..]) >= RecsLen(hist[done..]) + 3
  {
    var r := hist'[|hist|];
    WritesFit(r);
    assert hist'[done..][..|hist| - done] == hist[done..] && hist'[done..][|hist| - done..] == [r];
    RecsSplit(hist'[done..], |hist| - done);
    assert [r][1..] == [];
    assert RecsLen([r]) == PartsLen(r) + 1 + RecsLen([]);
  }

  /** Commits a transaction that logs block 1, when there is room for it. */
  method CommitOne(s: Session, data: Block)
    requires Small(s) && |data| == 16 && s.Live() <= 3
    modifies s
    ensures Small(s) && s.base == old(s.base) && s.home == old(s.home) && s.done == old(s.done)
    ensures |s.hist| == |old(s.hist)| + 1 && s.hist[..|old(s.hist)|] == old(s.hist)
            && Writes(s.hist[|old(s.hist)|]) == [Write(1, data)]
    ensures s.Live() == old(s.Live()) + 3
    ensures s.cpQueue != [] && s.cpQueue[..|s.cpQueue| - 1] == old(s.cpQueue)
    ensures var bufs := s.cpQueue[|s.cpQueue| - 1].bufs; |bufs| == 1 && bufs[0].lba == 1
  {
    hide *;
    var items := [Item(1, data, true)];
    SmallIs(s);
    OneItem(s, data);
    QueueSize(s);
    var committed := s.CommitTrans(items, map[], {});
    LiveMore(old(s.hist), s.hist, s.done, data);
    QueueSize(s);
    OneBuffer(s.cpQueue[|s.cpQueue| - 1].bufs, data);
    SmallIs(s);
  }

  lemma {:induction false} SmallIs(s: Session)
    ensures Small(s) <==> s.AtRest() && !s.wide && s.first == 1 && s.w == 16 && |s.log| == 8 && |s.home| == 2
                          && s.done <= |s.hist|
  {
  }

  lemma {:induction false} OneItem(s: Session, data: Block)
    requires !s.wide && s.w == 16 && |data| == 16
    ensures var items := [Item(1, data, true)];
            s.Most(items) == 3 && Loggable(items, s.wide, s.w, 2) && Dirty(items) == [Write(1, data)]
  {
    OneDirty(data);
  }

  lemma {:induction false} OneBuffer(bufs: seq<Buf>, data: Block)
    requires SameBlocks(bufs, [Write(1, data)])
    ensures |bufs| == 1 && bufs[0].lba == 1
  {
  }

  // ---- a first transaction that waits for nothing ----

  /** The first transactions logged block 1 with these contents. */
  ghost predicate Logged1(hist: seq<Rec>, n: nat) {
    |hist| == n && forall k :: 0 <= k < n ==> Writes(hist[k]) == [Write(1, Words(k + 1))]
  }

  lemma {:induction false} PutOne(hist: seq<Rec>, base: seq<Block>, n: nat)
    requires Logged1(hist, n + 1) && |base| == 2
    ensures Put(AllWrites(hist), base)[1] == Words(n + 1)
  {
    var r, data := hist[n], Words(n + 1);
    assert hist == hist[..n] + [r];
    AllConcat(hist[..n], [r]);
    assert [r][1..] == [] && AllWrites([r]) == Writes(r) + AllWrites([]) == [Write(1, data)];
    PutMore(AllWrites(hist[..n]), [Write(1, data)], base);
    assert [Write(1, data)][1..] == [];
  }

  lemma {:induction false} FreshLog(log: seq<Block>)
    requires log == seq(8, _ => Words(0))
    ensures forall i :: 0 <= i < |log| ==> |log[i]| == 16 && Stale(log[i], 1)
    ensures UUID == 4
  {
  }

  lemma {:induction false} FreshRest(s: Session)
    requires s.AtRest() && s.hist == []
    ensures s.done == 0 && s.Live() == 0 && s.cpQueue == []
  {
    QueueSize(s);
  }

  lemma {:induction false} Logged1More(hist: seq<Rec>, hist': seq<Rec>, n: nat)
    requires Logged1(hist, n) && |hist'| == n + 1 && hist'[..n] == hist && Writes(hist'[n]) == [Write(1, Words(n + 1))]
    ensures Logged1(hist', n + 1)
  {
    hide Writes, Words;
    forall k | 0 <= k <= n
      ensures Writes(hist'[k]) == [Write(1, Words(k + 1))]
    {
      if k < n {
        assert hist'[k] == hist[k];
      }
    }
  }

  lemma {:induction false} HeadIs(s: Session)
    ensures s.HeadWaits() <==> (s.cpQueue != [] ==> s.cpQueue[0].bufs != [])
  {
  }

  lemma {:induction false} RestAgain(s: Session)
    requires s.Busy([], 0) && !s.wide && s.w == 16
    ensures s.AtRest()
  {
  }

  lemma {:induction false} WaitFor(t: Trans)
    requires |t.bufs| == 1 && t.bufs[0].lba == 1
    ensures Pending(t, 1) && Without(t.bufs, 1) == []
  {
    assert t.bufs[1..] == [];
  }

  lemma {:induction false} SecondLeft(q: seq<Trans>, q': seq<Trans>, m: nat)
    requires |q| == 2 && m <= 1 && LessOne(q, q', 1, m)
    requires forall k :: 0 <= k < 2 ==> |q[k].bufs| == 1 && q[k].bufs[0].lba == 1
    requires m == 1 || (q' != [] ==> q'[0].bufs != [])
    ensures m == 1 && |q'| == 1 && q'[0].bufs == []
  {
    WaitFor(q[0]);
    WaitFor(q[1]);
  }

  lemma {:induction false} LiveRest(hist: seq<Rec>, hist1: seq<Rec>)
    requires |hist| == 2 && hist[..1] == hist1 && RecsLen(hist[0..]) == 6 && RecsLen(hist1[0..]) == 3
    ensures RecsLen(hist[1..]) == 3
  {
    assert hist[0..] == hist && hist1[0..] == hist1;
    RecsSplit(hist, 1);
  }

  /** Two transactions are committed, and then the second one's block is written home. That takes the first
      transaction off the queue, and leaves the second one as the first, waiting for nothing. */
  method WrittenFirst() returns (s: Session)
    ensures fresh(s) && Small(s) && Logged1(s.hist, 2) && |s.base| == 2 && s.Live() == 3
    ensures |s.cpQueue| == 1 && s.cpQueue[0].bufs == [] && |s.home| == 2 && s.home[1] == Words(2)
  {
    hide *;
    var log, home := seq(8, _ => Words(0)), [Words(0), Words(0)];
    FreshLog(log);
    s := new Session(false, 1, 16, [0, 0, 0, 0], log, home, 0);
    FreshRest(s);
    SmallIs(s);
    NoneLogged();
    CommitOne(s, Words(1));
    ghost var hist1, q1 := s.hist, s.cpQueue;
    Logged1More([], hist1, 0);
    SmallIs(s);
    QueueSize(s);
    CommitOne(s, Words(2));
    ghost var q := s.cpQueue;
    Logged1More(hist1, s.hist, 1);
    SmallIs(s);
    QueueSize(s);
    LiveRest(s.hist, hist1);
    assert q[0] == q1[0];
    WaitFor(q[0]);
    WaitFor(q[1]);
    PutOne(s.hist, s.base, 1);
    HeadIs(s);
    RestBusy(s);
    var m := s.FlushBuf(1, 1, Words(2), [], 0);
    HeadIs(s);
    SecondLeft(q, s.cpQueue, m);
    RestAgain(s);
    QueueSize(s);
    SmallIs(s);
  }

  lemma {:induction false} NoneLogged()
    ensures Logged1([], 0)
  {
  }

  lemma {:induction false} RestBusy(s: Session)
    requires s.AtRest()
    ensures s.Busy([], 0)
  {
  }

  lemma {:induction false} NotHome(q: seq<Trans>, home: seq<Block>, hist: seq<Rec>, base: seq<Block>)
    requires |q| == 2 && |q[1].bufs| == 1 && q[1].bufs[0].lba == 1 && Logged1(hist, 3)
    requires |home| == |base| == 2 && home[1] == Words(2)
    ensures !AllHome(q, home, Put(AllWrites(hist), base))
  {
    hide AllWrites, Put, Logged1;
    PutOne(hist, base, 2);
    assert q[1].bufs[0].lba == 1 && Words(3)[0] == 3;
  }

  lemma {:induction false} HarmIs(s: Session, b: Block)
    requires s.last < |s.log|
    ensures s.Harmless(b) <==>
            MomentOk(s.wide, s.first, Moment(s.Now().(log := s.log[s.last := b]), |s.hist|), s.hist, s.base)
    ensures s.Now().(log := s.log[s.last := b]) == Disk(s.log[s.last := b], s.home, s.sbStart, s.sbSequence)
  {
  }

  lemma {:induction false} NoHeader(v: nat, id: nat)
    requires v < 100
    ensures !IsHeader(Words(v), id)
  {
  }

  lemma {:induction false} FullAfter(s: Session)
    requires Small(s) && s.Live() == 6
    ensures s.first <= s.last < |s.log| && s.Live() + 0 < |s.log| - s.first && s.Busy([], 0)
  {
  }

  /** A third transaction fills six of the seven blocks. The fourth one takes the last block, and with it the
      first transaction of the queue is purged, in memory; the next block it takes and writes is the one where
      the superblock has the log begin. A crash now loses the third transaction. */
  method LostRun() returns (s: Session)
    ensures Logged1(s.hist, 3) && |s.base| == |s.home| == 2 && s.trace != []
    ensures s.trace[|s.trace| - 1] == Moment(s.Now(), 3)
    ensures !MomentOk(s.wide, s.first, Moment(s.Now(), 3), s.hist, s.base)
  {
    hide *;
    s := WrittenFirst();
    ghost var hist2 := s.hist;
    SmallIs(s);
    Logged1Is(hist2, 2);
    CommitOne(s, Words(3));
    Logged1More(hist2, s.hist, 2);
    Logged1Is(s.hist, 3);
    SmallIs(s);
    FullAfter(s);
    NotHome(s.cpQueue, s.home, s.hist, s.base);
    var block := s.TakeBlock([], 0);
    s.StartAway([], 1);
    s.PurgeOnce([], 1);
    var data := Words(9);
    NoHeader(9, s.sbSequence);
    HarmIs(s, data);
    block := s.TakeBlock([], 0);
    s.WriteBlock(block, data, |s.hist|);
    NowIs(s);
  }

  lemma {:induction false} Logged1Is(hist: seq<Rec>, n: nat)
    requires Logged1(hist, n)
    ensures |hist| == n
  {
  }

  lemma {:induction false} NowIs(s: Session)
    ensures s.Now() == Disk(s.log, s.home, s.sbStart, s.sbSequence)
  {
  }
}
