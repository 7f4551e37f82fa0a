/** Disks from which not everything that was committed can be recovered. */
module JournalLoss {
  import opened Common
  import opened JournalTags
  import opened JournalLog
  import opened JournalRing
  import opened JournalCrash
  import opened JournalGrow
  import opened JournalDisk
  import opened JournalQueue

  // ---- a log whose start on disk is out of date ----

  /** Every block that a transaction of the queue still has to write has its committed contents at home. */
  predicate AllHome(q: seq<Trans>, home: seq<Block>, want: seq<Block>) {
    forall k, j {:trigger q[k].bufs[j]} ::
      0 <= k < |q| && 0 <= j < |q[k].bufs| && q[k].bufs[j].lba < |home| == |want| ==>
        home[q[k].bufs[j].lba] == want[q[k].bufs[j].lba]
  }

  /** The last transaction that logged a block. */
  lemma {:induction false} LastLogged(live: seq<Rec>, k: nat, lba: nat) returns (j: nat)
    requires LoggedFrom(live, k, lba)
    ensures k <= j < |live| && Logs(live[j], lba) && !LoggedFrom(live, j + 1, lba)
    decreases |live| - k
  {
    j :| k <= j < |live| && Logs(live[j], lba);
    if LoggedFrom(live, j + 1, lba) {
      j := LastLogged(live, j + 1, lba);
    }
  }

  /** All is at home exactly if what the queue still has to write is. */
  lemma {:induction false} HomeIff(q: seq<Trans>, home: seq<Block>, hist: seq<Rec>, base: seq<Block>, done: nat)
    requires done <= |hist| && HomeOk(home, hist, base, done)
    requires QueueOk(q, hist[done..], home, Put(AllWrites(hist), base))
    ensures |home| == |Put(AllWrites(hist), base)|
    ensures home == Put(AllWrites(hist), base) <==> AllHome(q, home, Put(AllWrites(hist), base))
  {
    var live, want := hist[done..], Put(AllWrites(hist), base);
    hide AllWrites, Put, Logs, Tagged;
    if AllHome(q, home, want) {
      forall lba | 0 <= lba < |home|
        ensures home[lba] == want[lba]
      {
        TaggedAll(live, lba);
        if LoggedFrom(live, 0, lba) {
          var j := LastLogged(live, 0, lba);
          if Pending(q[j], lba) {
            var i :| 0 <= i < |q[j].bufs| && q[j].bufs[i].lba == lba;
            assert q[j].bufs[i].lba == lba;
          }
        }
      }
    }
  }

  /** The first block of the log, as the superblock on disk has it, is overwritten. Recovery then replays
      nothing, so that the committed transactions survive a crash exactly if every block that still waits in
      the queue has its committed contents at home already. */
  lemma {:induction false} LostHead(wide: bool, first: nat, w: nat, d: Disk, hist: seq<Rec>, base: seq<Block>,
          done: nat, next: nat, ps: seq<Part>, q: seq<Trans>, b: Block)
    requires DiskOk(wide, first, w, d, hist, base, done, next, ps) && w >= 16
    requires QueueOk(q, hist[done..], d.home, Put(AllWrites(hist), base))
    requires |b| == w && !IsHeader(b, d.sequence)
    ensures |d.home| == |Put(AllWrites(hist), base)|
    ensures MomentOk(wide, first, Moment(d.(log := d.log[d.start := b]), |hist|), hist, base) <==>
            AllHome(q, d.home, Put(AllWrites(hist), base))
  {
    HomeIff(q, d.home, hist, base, done);
    EffectPut(hist, base);
    hide QueueOk, HomeOk, LogAt, AllHome, Put, AllWrites, Effect;
    HeadGone(wide, first, d, b, hist, base);
  }

  lemma {:induction false} HeadGone(wide: bool, first: nat, d: Disk, b: Block, hist: seq<Rec>, base: seq<Block>)
    requires 0 < first <= d.start < |d.log| && !IsHeader(b, d.sequence) && |b| >= 16
    requires forall i :: 0 <= i < |d.log| ==> |d.log[i]| >= 16
    ensures var d' := d.(log := d.log[d.start := b]);
            MomentOk(wide, first, Moment(d', |hist|), hist, base) <==> d.home == Effect(hist, base)
  {
    var d' := d.(log := d.log[d.start := b]);
    var l := Unrolled(d'.log, first, d'.start);
    StartPos(first, |d'.log|, d'.start);
    assert l[0] == b && PartsLen([]) == 0 && RecsLen([]) == 0;
    assert LogHolds(wide, l, d.sequence, [], []);
    RecoveredEffect(wide, l, d.sequence, [], [], d.home);
    assert hist[..|hist|] == hist;
  }
}
