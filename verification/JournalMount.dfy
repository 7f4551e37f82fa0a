/** A crash at any write of a session, and mounting the disk that was left. */
module JournalMount {
  import opened Common
  import opened JournalTags
  import opened JournalLog
  import opened JournalRing
  import opened JournalCrash
  import opened JournalGrow
  import opened JournalDisk
  import opened JournalWriter
  import opened JournalRecover
  import opened JournalSession

  /** The id that recovery leaves in the superblock: the last one committed, or the one there was. */
  function Resumed(wide: bool, first: nat, d: Disk): nat
    requires first <= d.start < |d.log|
  {
    var stop := ScanFrom(wide, Unrolled(d.log, first, d.start), 0, d.sequence);
    if stop <= d.sequence then d.sequence else stop - 1
  }

  /** Loads the journal of a disk and replays it. If the disk is as a session leaves it at some moment,
      the home blocks are what the transactions committed by then make of them, each as a whole. */
  method Mount(wide: bool, first: nat, d: Disk, ghost commits: nat, ghost hist: seq<Rec>, ghost base: seq<Block>)
    returns (r: Recovery)
    requires MomentOk(wide, first, Moment(d, commits), hist, base)
    ensures r.home == Effect(hist[..commits], base) && r.start == 0 && r.log == d.log
    ensures d.start != 0 ==> r.sequence == Resumed(wide, first, d)
  {
    hide Effect, Recovered, Unrolled, LogHolds, DataOnly;
    r := new Recovery(wide, first, d.log, d.home, d.start, d.sequence);
    ghost var rs, ps := [], [];
    if d.start != 0 {
      rs, ps := Held(wide, first, d);
      RecoveredEffect(wide, Unrolled(d.log, first, d.start), d.sequence, rs, ps, d.home);
      ScanAll(wide, Unrolled(d.log, first, d.start), d.sequence, rs, ps);
    } else {
      NoTransactions();
    }
    var err := r.Recover(rs, ps);
  }

  /** What the log of a readable disk holds. */
  lemma {:induction false} Held(wide: bool, first: nat, d: Disk) returns (rs: seq<Rec>, ps: seq<Part>)
    requires Readable(wide, first, d)
    ensures LogHolds(wide, Unrolled(d.log, first, d.start), d.sequence, rs, ps)
    ensures NoSuper(ps) && forall k :: 0 <= k < |rs| ==> NoSuper(rs[k])
  {
    hide LogHolds;
    rs, ps :| LogHolds(wide, Unrolled(d.log, first, d.start), d.sequence, rs, ps) && AllData(rs) && DataOnly(ps);
  }

  lemma {:induction false} NoTransactions()
    ensures NoSuper([])
  {
  }

  /** Pulls the plug after the k-th write of a session, which leaves disk d, and mounts it again. After the
      last write so far that disk is the one there is, and nothing that was committed is lost. */
  method CrashAndMount(s: Session, ghost k: nat, d: Disk) returns (r: Recovery)
    requires s.AtRest() && k < |s.trace| && d == s.trace[k].disk
    ensures s.trace[k].commits <= |s.hist| && r.home == Effect(s.hist[..s.trace[k].commits], s.base) && r.start == 0
    ensures k + 1 == |s.trace| ==> d == s.Now() && r.home == Effect(s.hist, s.base)
  {
    hide MomentOk, Effect;
    TraceOk(s, k);
    r := Mount(s.wide, s.first, d, s.trace[k].commits, s.hist, s.base);
  }

  lemma {:induction false} TraceOk(s: Session, k: nat)
    requires s.AtRest() && k < |s.trace|
    ensures MomentOk(s.wide, s.first, s.trace[k], s.hist, s.base) && s.trace[k].commits <= |s.hist|
    ensures k + 1 == |s.trace| ==> s.trace[k] == Moment(s.Now(), |s.hist|) && s.hist[..|s.hist|] == s.hist
  {
  }

  /** Nothing in the log looks like a record of the ids a session begins with after recovery exactly if no
      descriptor of the interrupted transaction had been written, or no committed one was in the log. In the
      other case the interrupted transaction's id is used again. */
  lemma {:induction false} NewIds(wide: bool, first: nat, w: nat, d: Disk, hist: seq<Rec>, base: seq<Block>, done: nat,
          next: nat, ps: seq<Part>)
    requires DiskOk(wide, first, w, d, hist, base, done, next, ps)
    ensures (forall i :: first <= i < |d.log| ==> Stale(d.log[i], Resumed(wide, first, d) + 1)) <==>
            ps == [] || hist[done..] == []
  {
    hide RecsAt, PartsAt, ScanFrom, Stale, HomeOk, RecsLen, Resumed, Pos;
    var l, live := Unrolled(d.log, first, d.start), hist[done..];
    ResumedIs(wide, first, d, live, next, ps);
    InRing(d.log, first, d.start);
    if ps != [] && live != [] {
      var j := RecsLen(live);
      Begun(wide, l, j, next, ps);
      PosNext(first, |d.log|, d.start, j);
      assert !Stale(d.log[Pos(first, |d.log|, d.start, j)], next);
    } else {
      AllStale(l, RecsLen(live), PartsLen(ps), next, ps == []);
    }
  }

  lemma {:induction false} ResumedIs(wide: bool, first: nat, d: Disk, live: seq<Rec>, next: nat, ps: seq<Part>)
    requires first <= d.start < |d.log| && LogAt(wide, Unrolled(d.log, first, d.start), d.sequence, live, next, ps)
    ensures next == d.sequence + |live|
    ensures Resumed(wide, first, d) == if live == [] then next else next - 1
    ensures ps == [] ==> PartsLen(ps) == 0
  {
    hide RecsAt, PartsAt, ScanFrom, Stale, RecsLen;
    HoldsNow(wide, Unrolled(d.log, first, d.start), d.sequence, live, next, ps);
    ScanAll(wide, Unrolled(d.log, first, d.start), d.sequence, live, ps);
  }

  lemma {:induction false} AllStale(l: seq<Block>, q: nat, len: nat, next: nat, none: bool)
    requires forall j :: 0 <= j < |l| && (j < q || q + len <= j) ==> Stale(l[j], next)
    requires (forall j :: 0 <= j < |l| ==> Stale(l[j], next + 1)) && (none ==> len == 0)
    ensures forall b :: b in l ==> Stale(b, next + 1) && (none ==> Stale(b, next))
  {
    hide Stale;
  }

  lemma {:induction false} InRing(log: seq<Block>, first: nat, start: nat)
    requires first <= start < |log|
    ensures forall i :: first <= i < |log| ==> log[i] in Unrolled(log, first, start)
  {
    var l := Unrolled(log, first, start);
    forall i | first <= i < |log|
      ensures log[i] in l
    {
      var j := if i >= start then i - start else i - start + (|log| - first);
      assert l[j] == log[i];
    }
  }

  lemma {:induction false} Begun(wide: bool, l: seq<Block>, at: nat, id: nat, ps: seq<Part>)
    requires PartsAt(wide, l, at, id, ps) && ps != []
    ensures at < |l| && !Stale(l[at], id)
  {
  }

  /** The power fails, the disk is mounted again, and a new session begins on it: at rest, and with all that
      was committed. ps is what has been logged of a transaction that was under way. */
  method PowerCut(s: Session, ghost ps: seq<Part>, ghost x: nat) returns (t: Session)
    requires s.Busy(ps, x) && TagsPer(s.wide, s.w) > 0 && (ps == [] || s.hist[s.done..] == [])
    ensures fresh(t) && t.AtRest() && t.hist == [] && t.base == t.home == Effect(s.hist, s.base)
    ensures t.wide == s.wide && t.first == s.first && t.w == s.w
  {
    hide Effect, MomentOk, LogAt, HomeOk, Recorded, Stale, Resumed, Safe, AllWrites;
    var d := Disk(s.log, s.home, s.sbStart, s.sbSequence);
    OkCrash(s.wide, s.first, s.w, d, s.hist, s.base, s.done, s.allocTransId, ps);
    assert s.hist[..|s.hist|] == s.hist;
    NewIds(s.wide, s.first, s.w, d, s.hist, s.base, s.done, s.allocTransId, ps);
    var r := Mount(s.wide, s.first, d, |s.hist|, s.hist, s.base);
    t := new Session(s.wide, s.first, s.w, s.uuid, r.log, r.home, r.sequence);
  }
}
