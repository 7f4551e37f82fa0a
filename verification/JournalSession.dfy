/** A journal session: transactions are logged, committed, and written home; every disk write in
    between may be the last one before a crash. Models lwext4/src/ext4_journal.c without checksum
    features, revokes and aborts. */
module JournalSession {
  import opened Common
  import opened JournalTags
  import opened JournalLog
  import opened JournalRing
  import opened JournalCrash
  import opened JournalGrow
  import opened JournalDisk
  import opened JournalWriter
  import opened JournalQueue
  import opened JournalCopies
  import opened JournalLoss

  /** What has been logged of the transaction being prepared: closed parts, and the tags and data
      of the open descriptor. */
  datatype Work = Work(ps: seq<Part>, cur: seq<Tag>, ws: seq<Write>)

  ghost function Logged(work: Work): seq<Write> {
    Writes(work.ps) + work.ws
  }

  /** Where the copy of the i-th logged write lies, counted from where the transaction begins. */
  ghost function PlaceIn(work: Work, i: nat): nat
    requires i < |Logged(work)|
  {
    if i < |Writes(work.ps)| then CopyAt(work.ps, i) else PartsLen(work.ps) + 1 + (i - |Writes(work.ps)|)
  }

  /** Blocks of the queue are blocks of the device. */
  ghost predicate OnDisk(q: seq<Trans>, n: nat) {
    forall k, j {:trigger q[k].bufs[j]} :: 0 <= k < |q| && 0 <= j < |q[k].bufs| ==> q[k].bufs[j].lba < n
  }

  /** A later transaction of the queue has a copy of the block waiting. */
  predicate LaterCopy(q: seq<Trans>, k: nat, lba: nat) {
    exists l :: k < l < |q| && Pending(q[l], lba)
  }

  /** What is written home for the block is its committed contents: what the cache has, or the copy in the
      log, with the magic number taken out, if the block is not cached or an uncommitted transaction has
      taken it over. */
  ghost predicate Flushable(lba: nat, want: seq<Block>, cache: map<nat, Block>, taken: set<nat>)
    requires lba < |want|
  {
    if lba in cache && lba !in taken then cache[lba] == want[lba] else |want[lba]| > 0 && want[lba][0] != MAGIC
  }

  /** What flushing the queue relies on: a block of which no later copy waits is written home right. */
  ghost predicate Cached(q: seq<Trans>, want: seq<Block>, cache: map<nat, Block>, taken: set<nat>) {
    forall k, j {:trigger q[k].bufs[j]} :: 0 <= k < |q| && 0 <= j < |q[k].bufs| && q[k].bufs[j].lba < |want| ==>
      LaterCopy(q, k, q[k].bufs[j].lba) || Flushable(q[k].bufs[j].lba, want, cache, taken)
  }

  class Session {
    const wide: bool
    const first: nat
    /** Words per block. */
    const w: nat
    const uuid: seq<nat>
    /** The disk: log ring, home blocks, journal superblock. */
    var log: seq<Block>
    var home: seq<Block>
    var sbStart: nat
    var sbSequence: nat
    /** struct jbd_journal. */
    var start: nat
    var last: nat
    var transId: nat
    var allocTransId: nat
    var cpQueue: seq<Trans>
    /** Log blocks the transaction being written has taken: alloc_blocks. */
    var allocBlocks: nat
    /** For a commit: what the block cache holds, and the blocks whose block_rec belongs to a
        transaction that is not committed yet. */
    var cache: map<nat, Block>
    var taken: set<nat>
    /** Home blocks when the session began, transactions committed since, how many of them are no
        longer in the log, and the disk after every write, before and since the last commit was begun
        or took effect. */
    ghost var base: seq<Block>
    ghost var hist: seq<Rec>
    ghost var done: nat
    ghost var before: seq<Moment>
    ghost var trace: seq<Moment>
    /** For a commit: how many log blocks it may take, whether there is room for them, and, if so, the
        queue and the home blocks, which then stay as they are. */
    ghost var budget: nat
    ghost var roomy: bool
    ghost var queue0: seq<Trans>
    ghost var home0: seq<Block>
    ghost var done0: nat

    /** Begins a session on a mounted disk: jbd_journal_start. Ids start after the last one on disk,
        so no block of the log may look like a record of a later id. */
    constructor (wide: bool, first: nat, w: nat, uuid: seq<nat>, log: seq<Block>, home: seq<Block>, sequence: nat)
      requires 0 < first < |log| && w >= 16 && w % 2 == 0 && |uuid| == UUID
      requires forall i :: 0 <= i < |log| ==> |log[i]| == w && (first <= i ==> Stale(log[i], sequence + 1))
      ensures AtRest() && hist == [] && base == home && this.home == home && this.log == log
      ensures this.wide == wide && this.first == first && this.w == w
    {
      this.wide, this.first, this.w, this.uuid := wide, first, w, uuid;
      this.log, this.home := log, home;
      this.start, this.last := first, first;
      this.transId, this.allocTransId := sequence + 1, sequence + 1;
      this.cpQueue, this.allocBlocks := [], 0;
      this.cache, this.taken := map[], {};
      this.sbStart, this.sbSequence := first, sequence + 1;
      this.base, this.hist, this.done := home, [], 0;
      this.before, this.trace := [], [Moment(Disk(log, home, first, sequence + 1), 0)];
      new;
      NothingLogged(wide, first, w, Now());
      OkCrash(wide, first, w, Now(), [], home, 0, sequence + 1, []);
      StartPos(first, |log|, first);
    }

    ghost function Now(): Disk
      reads this`log, this`home, this`sbStart, this`sbSequence
    {
      Disk(log, home, sbStart, sbSequence)
    }

    /** Disk and memory agree, and any crash so far was harmless. */
    ghost predicate Ok(ps: seq<Part>)
      reads this`log, this`home, this`sbStart, this`sbSequence, this`start, this`last, this`transId, this`allocTransId,
          this`base, this`hist, this`done, this`before, this`trace
    {
      && w >= 16 && w % 2 == 0 && |uuid| == UUID
      && DiskOk(wide, first, w, Now(), hist, base, done, allocTransId, ps) && DataOnly(ps)
      && start == sbStart && transId == sbSequence && first <= last < |log|
      && 0 < first <= start < |log| && done <= |hist|
      && Safe(wide, first, before, trace, Now(), hist, base)
    }

    ghost function L(): seq<Block>
      requires first <= start < |log|
      reads this`log, this`start
    {
      Unrolled(log, first, start)
    }

    /** Log blocks of the live transactions. */
    ghost function Live(): nat
      requires done <= |hist|
      reads this`hist, this`done
    {
      RecsLen(hist[done..])
    }

    /** Where the part being logged starts, in the unrolled log. */
    ghost function Q(ps: seq<Part>): nat
      requires done <= |hist|
      reads this`hist, this`done
    {
      Live() + PartsLen(ps)
    }

    /** The queue knows what the log holds of the transactions hs. */
    ghost predicate Queued(hs: seq<Rec>)
      reads this`log, this`home, this`start, this`transId, this`cpQueue, this`base, this`done
    {
      && done <= |hs| && first <= start < |log| && RecsLen(hs[done..]) < |log| - first
      && QueueAt(cpQueue, hs[done..], first, |log|, start, transId)
      && QueueOk(cpQueue, hs[done..], home, Put(AllWrites(hs), base))
      && CopiesAt(cpQueue, hs[done..], first, |log|, start) && OnDisk(cpQueue, |home|)
    }

    /** A transaction is being logged: its finished parts are ps, and it has taken x log blocks so far. */
    ghost predicate Busy(ps: seq<Part>, x: nat)
      reads this`log, this`home, this`sbStart, this`sbSequence, this`start, this`last, this`transId, this`allocTransId,
          this`base, this`hist, this`done, this`before, this`trace, this`cpQueue
    {
      && Ok(ps) && Queued(hist) && PartsLen(ps) <= x && Live() + x <= |log| - first
      && last == Pos(first, |log|, start, Live() + x)
    }

    /** Between operations: nothing is half done, and the queue knows what the log holds. */
    ghost predicate AtRest()
      reads this`log, this`home, this`sbStart, this`sbSequence, this`start, this`last, this`transId, this`allocTransId,
          this`base, this`hist, this`done, this`before, this`trace, this`cpQueue
    {
      Busy([], 0) && TagsPer(wide, w) > 0
    }

    /** The first transaction of the queue, if there is one, has buffers to be written. */
    ghost predicate HeadWaits()
      reads this`cpQueue
    {
      cpQueue != [] ==> cpQueue[0].bufs != []
    }

    /** The queue can be flushed to make room. */
    ghost predicate Purgeable()
      reads this`cpQueue, this`hist, this`base, this`cache, this`taken
    {
      HeadWaits() && Cached(cpQueue, Put(AllWrites(hist), base), cache, taken)
    }

    /** The transaction being logged has taken x blocks and will take left more at most. By itself it
        fits into the log. */
    ghost predicate Fitting(ps: seq<Part>, x: nat, left: nat)
      reads this
    {
      && Busy(ps, x) && Live() + x < |log| - first && x + left == budget < |log| - first && allocBlocks == x
      && if roomy then
           Live() + x + left < |log| - first && cpQueue == queue0 && home == home0 && done == done0
         else
           Purgeable()
    }

    // ---- writing home ----

    /** Writes the journal superblock: jbd_write_sb. The first m live transactions leave the log. */
    method WriteSb(ghost m: nat, ghost ps: seq<Part>)
      requires done + m <= |hist|
               && DiskOk(wide, first, w, Disk(log, home, start, transId), hist, base, done + m, allocTransId, ps)
      requires Safe(wide, first, before, trace, Now(), hist, base) && w >= 16 && DataOnly(ps)
      modifies this`sbStart, this`sbSequence, this`trace, this`done
      ensures sbStart == start && sbSequence == transId && done == old(done) + m
      ensures trace == old(trace) + [Moment(Now(), |hist|)] && Safe(wide, first, before, trace, Now(), hist, base)
    {
      hide *;
      sbStart, sbSequence := start, transId;
      trace := trace + [Moment(Disk(log, home, sbStart, sbSequence), |hist|)];
      done := done + m;
      NowIs();
      SafeMore(wide, first, w, before, old(trace), old(Now()), before, Now(), hist, hist, base, done, allocTransId, ps);
    }

    /** The first m transactions of the queue q have left memory but not yet the disk. */
    ghost predicate Popped(q: seq<Trans>, m: nat)
      reads this
    {
      && first <= sbStart < |log| && done <= |hist| && RecsLen(hist[done..]) < |log| - first
      && QueueAt(q, hist[done..], first, |log|, sbStart, sbSequence)
      && m <= |q| && cpQueue == q[m..] && Place(hist[done..], m) < |log| - first
      && start == Pos(first, |log|, sbStart, Place(hist[done..], m)) && transId == sbSequence + m
      && forall j :: 0 <= j < m ==> q[j].bufs == []
    }

    /** Takes the first transaction, all written, off the queue. */
    method Pop(ghost q: seq<Trans>, ghost m: nat)
      requires Popped(q, m) && |cpQueue| > 0 && cpQueue[0].bufs == []
      modifies this`start, this`transId, this`cpQueue
      ensures Popped(q, m + 1)
    {
      hide RecsLen, PartsLen, Pos;
      var trans := cpQueue[0];
      PlaceNext(hist[done..], m);
      PosAdd(first, |log|, sbStart, Place(hist[done..], m), PartsLen(hist[done..][m]) + 1);
      start := Wrap(first, |log|, trans.startIblock + trans.allocBlocks);
      transId := trans.id + 1;
      cpQueue := cpQueue[1..];
    }

    /** Moves the start of the log over transactions that are all written: jbd_journal_purge_cp_trans,
        not flushing. */
    method Purge(ghost q: seq<Trans>, ghost m0: nat) returns (ghost m: nat)
      requires Popped(q, m0)
      modifies this`start, this`transId, this`cpQueue
      ensures Popped(q, m) && m0 <= m && HeadWaits()
    {
      hide RecsLen, PartsLen, Pos;
      m := m0;
      while |cpQueue| > 0
        invariant Popped(q, m) && m0 <= m
        decreases |cpQueue|
      {
        PlaceNext(hist[done..], m);
        var trans := cpQueue[0];
        if trans.dataCnt == trans.writtenCnt {
          Pop(q, m);
          m := m + 1;
        } else {
          start := trans.startIblock;
          transId := trans.id;
          break;
        }
      }
    }

    lemma {:induction false} NothingPopped(ps: seq<Part>, x: nat)
      requires Busy(ps, x)
      ensures Popped(cpQueue, 0)
    {
      StartPos(first, |log|, start);
      assert hist[done..][..0] == [];
    }

    /** What the queue and the log look like from the new start. */
    lemma {:induction false} PoppedRest(q: seq<Trans>, m: nat, x: nat)
      requires Popped(q, m) && QueueOk(q, hist[done..], home, Put(AllWrites(hist), base))
      requires CopiesAt(q, hist[done..], first, |log|, sbStart) && OnDisk(q, |home|)
      requires RecsLen(hist[done..]) + x <= |log| - first
               && last == Pos(first, |log|, sbStart, RecsLen(hist[done..]) + x)
      ensures done + m <= |hist| && RecsLen(hist[done + m..]) < |log| - first && first <= start < |log|
      ensures QueueAt(cpQueue, hist[done + m..], first, |log|, start, transId)
      ensures QueueOk(cpQueue, hist[done + m..], home, Put(AllWrites(hist), base))
      ensures CopiesAt(cpQueue, hist[done + m..], first, |log|, start) && OnDisk(cpQueue, |home|)
      ensures Slid(|log|, first, sbStart, RecsLen(hist[done..]), start, RecsLen(hist[done + m..]))
      ensures m > 0 ==> RecsLen(hist[done + m..]) < RecsLen(hist[done..])
      ensures RecsLen(hist[done + m..]) + x <= |log| - first
      ensures last == Pos(first, |log|, start, RecsLen(hist[done + m..]) + x)
    {
      hide QueueOk, QueueAt, Put, Pos, RecsLen, Place, CopyOf;
      QueueCount(q, hist[done..], home, Put(AllWrites(hist), base));
      assert hist[done..][m..] == hist[done + m..];
      QueueAtTail(q, hist[done..], first, |log|, sbStart, sbSequence, m, start);
      QueueTail(q, hist[done..], home, Put(AllWrites(hist), base), m);
      CopiesTail(q, hist[done..], first, |log|, sbStart, m, start);
      PlaceCut(hist[done..], m);
      SlidPos(|log|, first, sbStart, RecsLen(hist[done..]), start, RecsLen(hist[done + m..]), x);
    }

    /** The first transaction is all written: the log starts behind it and any all-written ones
        that follow, in memory and then on disk. */
    method PopWritten(ghost ps: seq<Part>, ghost x: nat) returns (ghost m: nat)
      requires Busy(ps, x) && |cpQueue| > 0 && cpQueue[0].bufs == []
      modifies this`cpQueue, this`start, this`transId, this`sbStart, this`sbSequence, this`trace, this`done
      ensures Busy(ps, x) && 1 <= m <= |old(cpQueue)| && cpQueue == old(cpQueue)[m..] && HeadWaits()
      ensures Slid(|log|, first, old(start), old(Live()), start, Live()) && Live() < old(Live())
      ensures forall j :: 0 <= j < m ==> old(cpQueue)[j].bufs == []
    {
      hide DiskOk, Safe, RecsLen, PartsLen, Unrolled, Pos, QueueOk, QueueAt, CopiesAt, HomeOk, Put, Place, OnDisk, Slid;
      ghost var q, live := cpQueue, hist[done..];
      NothingPopped(ps, x);
      QueueCount(q, live, home, Put(AllWrites(hist), base));
      Pop(q, 0);
      m := Purge(q, 1);
      OkStart(wide, first, w, Now(), hist, base, done, allocTransId, ps, q, m);
      PoppedRest(q, m, x);
      WriteSb(m, ps);
    }

    /** A buffer has reached its home: jbd_trans_end_write, for the oldest pending copy of a block. */
    method EndWrite(k: nat, lba: nat, firstInQueue: bool, ghost ps: seq<Part>, ghost x: nat) returns (ghost m: nat)
      requires Busy(ps, x) && k < |cpQueue| && Pending(cpQueue[k], lba) && (firstInQueue ==> k == 0)
      requires forall j :: 0 <= j < k ==> !Pending(cpQueue[j], lba)
      requires LoggedFrom(hist[done..], k + 1, lba) || (lba < |home| ==> home[lba] == Put(AllWrites(hist), base)[lba])
      modifies this`cpQueue, this`start, this`transId, this`sbStart, this`sbSequence, this`trace, this`done
      ensures Busy(ps, x) && Slid(|log|, first, old(start), old(Live()), start, Live())
      ensures m <= |old(cpQueue)| && |cpQueue| == |old(cpQueue)| - m && (m > k ==> k == 0)
      ensures forall j :: 0 <= j < m && j != k ==> old(cpQueue)[j].bufs == []
      ensures forall i :: 0 <= i < |cpQueue| && i + m != k ==> cpQueue[i] == old(cpQueue)[i + m]
      ensures m <= k ==> !Pending(cpQueue[k - m], lba) && cpQueue[k - m].id == old(cpQueue)[k].id
                         && cpQueue[k - m].bufs == Without(old(cpQueue)[k].bufs, lba)
      ensures m > 0 ==> HeadWaits() && Live() < old(Live())
      ensures if firstInQueue then m == 0 ==> cpQueue[0].bufs != [] else m == 0
    {
      hide DiskOk, Safe, RecsLen, PartsLen, Unrolled, Pos, QueueOk, QueueAt, CopiesAt, HomeOk, Put, Place, Slid;
      SlidNone(|log|, first, start, Live());
      var trans := cpQueue[k];
      trans := trans.(bufs := Without(trans.bufs, lba), writtenCnt := trans.writtenCnt + 1);
      MarkedAt(cpQueue, hist[done..], first, |log|, start, transId, k, lba, cpQueue[k := trans]);
      QueueWritten(cpQueue, hist[done..], home, Put(AllWrites(hist), base), k, lba, cpQueue[k := trans]);
      CopiesMarked(cpQueue, hist[done..], first, |log|, start, k, lba, cpQueue[k := trans]);
      DiskMarked(cpQueue, |home|, k, lba, cpQueue[k := trans]);
      hide OnDisk;
      cpQueue := cpQueue[k := trans];
      m := 0;
      if trans.writtenCnt == trans.dataCnt && firstInQueue {
        ghost var q1 := cpQueue;
        m := PopWritten(ps, x);
        forall j | 0 <= j < m && j != k
          ensures old(cpQueue)[j].bufs == []
        {
          assert q1[j] == old(cpQueue)[j];
        }
      }
    }

    /** Writes a home block, as one disk write. */
    method WriteHome(lba: nat, b: Block, ghost ps: seq<Part>, ghost x: nat)
      requires Busy(ps, x) && lba < |home|
      requires exists k :: 0 <= k < |cpQueue| && Pending(cpQueue[k], lba)
      modifies this`home, this`trace
      ensures home == old(home)[lba := b] && Busy(ps, x)
    {
      hide LogAt, HomeOk, Safe, RecsLen, PartsLen, Unrolled, Pos, QueueAt, CopiesAt, Put, QueueOk;
      ghost var k :| 0 <= k < |cpQueue| && Pending(cpQueue[k], lba);
      QueueHome(cpQueue, hist[done..], home, Put(AllWrites(hist), base), k, lba, b);
      OkHome(wide, first, w, Now(), hist, base, done, allocTransId, ps, lba, b);
      home := home[lba := b];
      trace := trace + [Moment(Disk(log, home, sbStart, sbSequence), |hist|)];
      SafeMore(wide, first, w, before, old(trace), old(Now()), before, Now(), hist, hist, base, done, allocTransId, ps);
    }

    /** Index of the oldest transaction with a pending copy of the block. */
    method Oldest(lba: nat) returns (j: nat)
      requires exists k :: 0 <= k < |cpQueue| && Pending(cpQueue[k], lba)
      ensures j < |cpQueue| && Pending(cpQueue[j], lba) && forall i :: 0 <= i < j ==> !Pending(cpQueue[i], lba)
    {
      j := 0;
      while !Pending(cpQueue[j], lba)
        invariant 0 <= j < |cpQueue| && exists k :: j <= k < |cpQueue| && Pending(cpQueue[k], lba)
        invariant forall i :: 0 <= i < j ==> !Pending(cpQueue[i], lba)
        decreases |cpQueue| - j
      {
        j := j + 1;
      }
    }

    /** The cache writes a committed block home: ext4_block_flush_buf of the buffer whose owner is
        transaction k of the queue, the last one that logged it. The older copies count as written
        too (jbd_trans_finish_callback). data is what the cache holds, the committed contents. m
        transactions leave the queue; the owner is not among them unless it was the first at the call, so
        that it may be the first afterwards without waiting for anything. */
    method FlushBuf(k: nat, lba: nat, data: Block, ghost ps: seq<Part>, ghost x: nat) returns (ghost m: nat)
      requires Busy(ps, x) && k < |cpQueue| && Pending(cpQueue[k], lba) && lba < |home|
      requires forall j :: k < j < |cpQueue| ==> !Pending(cpQueue[j], lba)
      requires data == Put(AllWrites(hist), base)[lba]
      modifies this`home, this`cpQueue, this`start, this`transId, this`sbStart, this`sbSequence, this`trace, this`done
      ensures Busy(ps, x) && home == old(home)[lba := data]
      ensures forall j :: 0 <= j < |cpQueue| ==> !Pending(cpQueue[j], lba)
      ensures m <= |old(cpQueue)| && LessOne(old(cpQueue), cpQueue, lba, m)
      ensures k > 0 ==> m <= k && (old(HeadWaits()) ==> m == k || HeadWaits())
    {
      hide Busy, Put, AllWrites, LoggedFrom, Pending, Slid, Ending, LessOne;
      ghost var q := cpQueue;
      WriteHome(lba, data, ps, x);
      var firstInQueue, id := k == 0, cpQueue[k].id;
      var j := Oldest(lba);
      ghost var own := k;
      m := 0;
      EndingFirst(q, lba, k);
      while cpQueue[j].id != id
        invariant Busy(ps, x) && home == old(home)[lba := data] && hist == old(hist) && base == old(base)
        invariant 0 <= j < |cpQueue| && Pending(cpQueue[j], lba) && forall i :: 0 <= i < j ==> !Pending(cpQueue[i], lba)
        invariant 0 <= own < |cpQueue| && cpQueue[own].id == id
        invariant Ending(q, cpQueue, lba, own, m) && own + m == k && (firstInQueue ==> own == 0)
        decreases own - j
      {
        ghost var q0 := cpQueue;
        OwnerAhead(ps, x, j, own, lba, q, m);
        ghost var m1 := EndWrite(j, lba, j == 0, ps, x);
        EndingMore(q, q0, cpQueue, lba, j, own, m, m1);
        own, m := own - m1, m + m1;
        j := Oldest(lba);
      }
      OwnerHere(ps, x, j, own);
      ghost var q0 := cpQueue;
      ghost var m1 := EndWrite(j, lba, firstInQueue, ps, x);
      EndingLast(q, q0, cpQueue, lba, own, m, m1);
      m := m + m1;
    }

    /** The transaction found is not the owner, so that the owner has logged the block later. */
    lemma {:induction false} OwnerAhead(ps: seq<Part>, x: nat, j: nat, own: nat, lba: nat, q: seq<Trans>, m: nat)
      requires Busy(ps, x) && Ending(q, cpQueue, lba, own, m)
      requires j < |cpQueue| && Pending(cpQueue[j], lba) && cpQueue[j].id != cpQueue[own].id
      ensures j < own && done <= |hist| && LoggedFrom(hist[done..], j + 1, lba)
    {
      hide Busy, Pending, LoggedFrom, LessSome;
      OwnerLogged(ps, x, j, own, lba);
    }

    lemma {:induction false} OwnerHere(ps: seq<Part>, x: nat, j: nat, own: nat)
      requires Busy(ps, x) && j < |cpQueue| && own < |cpQueue| && cpQueue[j].id == cpQueue[own].id
      ensures j == own
    {
      hide Busy;
      QueueIds(ps, x);
    }

    lemma {:induction false} QueueIds(ps: seq<Part>, x: nat)
      requires Busy(ps, x)
      ensures forall i :: 0 <= i < |cpQueue| ==> cpQueue[i].id == transId + i
    {
      hide DiskOk, Safe, QueueOk, CopiesAt, OnDisk, Put;
    }

    /** A later transaction that has a copy waiting has logged the block. */
    lemma {:induction false} OwnerLogged(ps: seq<Part>, x: nat, j: nat, own: nat, lba: nat)
      requires Busy(ps, x) && j < own < |cpQueue| && Pending(cpQueue[own], lba)
      ensures done <= |hist| && LoggedFrom(hist[done..], j + 1, lba)
    {
      hide DiskOk, Safe, QueueAt, CopiesAt, OnDisk, Put;
      LoggedLater(cpQueue, hist[done..], home, Put(AllWrites(hist), base), j, own, lba);
    }

    /** A waiting copy of the first transaction is written home from the log, not from the cache, as
        jbd_journal_flush_trans does when another transaction has taken the block over. The magic number
        that was taken out of the copy is not put back. */
    method FlushOld(b: Buf, ghost ps: seq<Part>, ghost x: nat) returns (ghost m: nat)
      requires Busy(ps, x) && |cpQueue| > 0 && b in cpQueue[0].bufs
      requires LoggedFrom(hist[done..], 1, b.lba)
               || (b.lba < |home| ==> var want := Put(AllWrites(hist), base)[b.lba]; |want| > 0 && want[0] != MAGIC)
      modifies this`home, this`cpQueue, this`start, this`transId, this`sbStart, this`sbSequence, this`trace, this`done
      ensures b.lba < |home| && b.jbdLba < |log| && home == old(home)[b.lba := log[b.jbdLba]]
      ensures HeadFlushed(ps, x, old(cpQueue), b.lba, m) && Slid(|log|, first, old(start), old(Live()), start, Live())
      ensures m > 0 ==> Live() < old(Live())
    {
      hide LogAt, Safe, RecsLen, PartsLen, Unrolled, Pos, QueueOk, QueueAt, HomeOk, Put, Place, CopyOf, Slid;
      ghost var j :| 0 <= j < |cpQueue[0].bufs| && cpQueue[0].bufs[j] == b;
      CopyThere(0, j);
      if !LoggedFrom(hist[done..], 1, b.lba) {
        CopyIsWant(wide, first, w, Now(), hist, base, done, allocTransId, ps, cpQueue, 0, j);
      }
      m := FlushHead(b, log[b.jbdLba], ps, x);
    }

    /** A buffer of the first transaction, written home with this content. */
    method FlushHead(b: Buf, data: Block, ghost ps: seq<Part>, ghost x: nat) returns (ghost m: nat)
      requires Busy(ps, x) && |cpQueue| > 0 && b in cpQueue[0].bufs && b.lba < |home|
      requires LoggedFrom(hist[done..], 1, b.lba) || data == Put(AllWrites(hist), base)[b.lba]
      modifies this`home, this`cpQueue, this`start, this`transId, this`sbStart, this`sbSequence, this`trace, this`done
      ensures home == old(home)[b.lba := data]
      ensures HeadFlushed(ps, x, old(cpQueue), b.lba, m) && Slid(|log|, first, old(start), old(Live()), start, Live())
      ensures m > 0 ==> Live() < old(Live())
    {
      hide DiskOk, Safe, RecsLen, PartsLen, Unrolled, Pos, QueueOk, QueueAt, CopiesAt, OnDisk, HomeOk, Put, Place,
          AllWrites, LoggedFrom, Slid;
      assert Pending(cpQueue[0], b.lba);
      WriteHome(b.lba, data, ps, x);
      m := EndWrite(0, b.lba, true, ps, x);
    }

    /** A buffer of the first transaction of q was flushed: it is off the transaction, or that one and
        maybe others have left the queue. */
    ghost predicate HeadFlushed(ps: seq<Part>, x: nat, q: seq<Trans>, lba: nat, m: nat)
      reads this
    {
      && Busy(ps, x) && q != [] && m <= |q| && |cpQueue| == |q| - m
      && (forall i :: 0 <= i < |cpQueue| && i + m != 0 ==> cpQueue[i] == q[i + m])
      && (m == 0 ==> cpQueue[0].bufs == Without(q[0].bufs, lba) && cpQueue[0].bufs != [] && cpQueue[0].id == q[0].id)
      && (m > 0 ==> HeadWaits())
    }

    /** The log block a buffer of the queue knows. */
    lemma {:induction false} CopyThere(k: nat, j: nat)
      requires Queued(hist) && k < |cpQueue| && j < |cpQueue[k].bufs|
      ensures cpQueue[k].bufs[j].lba < |home| && first <= cpQueue[k].bufs[j].jbdLba < |log|
    {
      assert CopyOf(cpQueue[k].bufs[j], hist[done..][k], Place(hist[done..], k), first, |log|, start);
    }

    /** Flushes the buffers of the first transaction one by one: jbd_journal_flush_trans. With the last one
        the transaction leaves the queue and the log. */
    method FlushTrans(ghost ps: seq<Part>, ghost x: nat)
      requires Busy(ps, x) && |cpQueue| > 0 && cpQueue[0].bufs != []
      requires Cached(cpQueue, Put(AllWrites(hist), base), cache, taken)
      modifies this`home, this`cpQueue, this`start, this`transId, this`sbStart, this`sbSequence, this`trace, this`done
      ensures Busy(ps, x) && Slid(|log|, first, old(start), old(Live()), start, Live()) && Live() < old(Live())
      ensures Purgeable() && |home| == old(|home|)
    {
      hide DiskOk, Safe, RecsLen, PartsLen, Unrolled, Pos, QueueOk, QueueAt, CopiesAt, OnDisk, HomeOk, Put, Place,
          AllWrites, LoggedFrom, Slid, Cached, Without, HeadFlushed, Queued;
      LiveBelow();
      SlidNone(|log|, first, start, Live());
      var flushed := false;
      while !flushed
        invariant Busy(ps, x) && Cached(cpQueue, Put(AllWrites(hist), base), cache, taken) && |home| == old(|home|)
        invariant Slid(|log|, first, old(start), old(Live()), start, Live())
        invariant !flushed ==> |cpQueue| > 0 && cpQueue[0].bufs != []
        invariant flushed ==> HeadWaits() && Live() < old(Live())
        decreases if flushed then 0 else |cpQueue[0].bufs| + 1
      {
        var b, id := cpQueue[0].bufs[0], cpQueue[0].id;
        ghost var q, start0, live0 := cpQueue, start, Live();
        HeadBuf(ps, x);
        QueueIds(ps, x);
        ghost var m;
        if b.lba in taken || b.lba !in cache || LaterCopy(cpQueue, 0, b.lba) {
          m := FlushOld(b, ps, x);
        } else {
          m := FlushHead(b, cache[b.lba], ps, x);
        }
        FlushedFacts(ps, x, q, b.lba, m);
        CachedLess(q, cpQueue, b.lba, m, Put(AllWrites(hist), base), cache, taken);
        SlidLess(|log|, first, old(start), old(Live()), start0, live0);
        SlidOn(|log|, first, old(start), old(Live()), start0, live0, start, Live());
        assert m > 0 && |cpQueue| > 0 ==> cpQueue[0] == q[m];
        flushed := |cpQueue| == 0 || cpQueue[0].id != id;
      }
    }

    lemma {:induction false} LiveBelow()
      requires Queued(hist)
      ensures first <= start < |log| && done <= |hist| && Live() < |log| - first
    {
    }

    /** What flushing the first buffer of the first transaction relies on. */
    lemma {:induction false} HeadBuf(ps: seq<Part>, x: nat)
      requires Busy(ps, x) && |cpQueue| > 0 && cpQueue[0].bufs != []
      requires Cached(cpQueue, Put(AllWrites(hist), base), cache, taken)
      ensures var b, want := cpQueue[0].bufs[0], Put(AllWrites(hist), base);
              && b.lba < |home| == |want|
              && (LaterCopy(cpQueue, 0, b.lba) || Flushable(b.lba, want, cache, taken))
              && (LaterCopy(cpQueue, 0, b.lba) ==> LoggedFrom(hist[done..], 1, b.lba))
    {
      hide DiskOk, Safe, QueueAt, CopiesAt, Put;
      CopyThere(0, 0);
      WantLength(ps);
      var lba := cpQueue[0].bufs[0].lba;
      if k :| 0 < k < |cpQueue| && Pending(cpQueue[k], lba) {
        LoggedLater(cpQueue, hist[done..], home, Put(AllWrites(hist), base), 0, k, lba);
      }
    }

    lemma {:induction false} WantLength(ps: seq<Part>)
      requires Ok(ps)
      ensures |home| == |Put(AllWrites(hist), base)|
    {
    }

    lemma {:induction false} FlushedFacts(ps: seq<Part>, x: nat, q: seq<Trans>, lba: nat, m: nat)
      requires HeadFlushed(ps, x, q, lba, m) && Pending(q[0], lba)
      requires forall i :: 0 <= i < |q| ==> q[i].id == q[0].id + i
      ensures Busy(ps, x) && m <= |q| && |cpQueue| == |q| - m
      ensures forall i :: 0 <= i < |cpQueue| && i + m != 0 ==> cpQueue[i] == q[i + m]
      ensures m == 0 ==>
              cpQueue[0].bufs == Without(q[0].bufs, lba) && cpQueue[0].bufs != [] && |cpQueue[0].bufs| < |q[0].bufs|
                         && cpQueue[0].id == q[0].id
      ensures m > 0 ==> HeadWaits()
    {
      var i :| 0 <= i < |q[0].bufs| && q[0].bufs[i].lba == lba;
      WithoutShorter(q[0].bufs, lba, i);
    }

    /** A crash after writing this block as the next one recovers everything that is committed. */
    ghost predicate Harmless(b: Block)
      reads this`log, this`home, this`sbStart, this`sbSequence, this`last, this`hist, this`base
    {
      last < |log| && MomentOk(wide, first, Moment(Now().(log := log[last := b]), |hist|), hist, base)
    }

    /** What becomes of a full log when the first block on disk is written over. */
    lemma {:induction false} HeadWritten(ps: seq<Part>, x: nat)
      requires Busy(ps, x) && last == start
      ensures forall b | |b| == w && !IsHeader(b, sbSequence) ::
                Harmless(b) <==> AllHome(cpQueue, home, Put(AllWrites(hist), base))
    {
      hide DiskOk, Safe, QueueOk, QueueAt, CopiesAt, Put, AllHome, MomentOk, IsHeader;
      forall b: Block | |b| == w && !IsHeader(b, sbSequence)
        ensures Harmless(b) <==> AllHome(cpQueue, home, Put(AllWrites(hist), base))
      {
        LostHead(wide, first, w, Now(), hist, base, done, allocTransId, ps, cpQueue, b);
      }
    }

    /** Makes room in a full log: jbd_journal_purge_cp_trans for the first transaction only, flushing it if
        need be. In any case the log is no longer full. But a first transaction that has been waiting for
        nothing only leaves memory; the superblock on disk still has the log start with it. Once the next
        block is written there, a crash is harmless exactly if all blocks that the queue was still waiting
        for have their committed contents at home. */
    method PurgeOnce(ghost ps: seq<Part>, ghost x: nat)
      requires Busy(ps, x) && |cpQueue| > 0 && last == start
      requires cpQueue[0].bufs != [] ==> Purgeable()
      modifies this`home, this`cpQueue, this`start, this`transId, this`sbStart, this`sbSequence, this`trace, this`done
      ensures last != start
      ensures old(cpQueue[0].bufs) != [] ==>
                && Busy(ps, x) && Live() + x < |log| - first && Purgeable() && |home| == old(|home|)
                && Slid(|log|, first, old(start), old(Live()), start, Live())
      ensures old(cpQueue[0].bufs) == [] ==>
                && cpQueue == old(cpQueue)[1..] && transId == old(transId) + 1
                && home == old(home) && trace == old(trace) && done == old(done)
                && last == sbStart == old(sbStart) && sbSequence == old(sbSequence)
                && forall b | |b| == w && !IsHeader(b, sbSequence) ::
                     Harmless(b) <==> old(AllHome(cpQueue, home, Put(AllWrites(hist), base)))
    {
      hide DiskOk, Safe, PartsLen, Unrolled, QueueOk, CopiesAt, OnDisk, HomeOk, Put, AllWrites, Cached, Slid, RecsLen,
          AllHome, Harmless;
      StartAway(ps, x);
      HeadWritten(ps, x);
      var trans := cpQueue[0];
      if trans.dataCnt == trans.writtenCnt {
        NothingPopped(ps, x);
        ghost var q := cpQueue;
        ArcAt(q, hist[done..], first, |log|, start, transId, 0, 0);
        PlaceNext(hist[done..], 0);
        Pop(q, 0);
      } else {
        FlushTrans(ps, x);
        StartAway(ps, x);
      }
    }

    /** The next block is the first one exactly if the ring is full. */
    lemma {:induction false} StartAway(ps: seq<Part>, x: nat)
      requires Busy(ps, x)
      ensures Live() + x > 0 ==> (last == start <==> Live() + x == |log| - first)
      ensures Live() + x == 0 ==> last == start
      ensures |cpQueue| > 0 ==> Live() > 0
    {
      hide DiskOk, Safe, QueueOk, CopiesAt, OnDisk, RecsLen, Put;
      if |cpQueue| > 0 {
        PlaceNext(hist[done..], 0);
      }
    }

    /** The block at the end of the log, and one step around the ring. */
    method TakeBlock(ghost ps: seq<Part>, ghost x: nat) returns (b: nat)
      requires first <= last < |log|
      modifies this`last, this`allocBlocks
      ensures b == old(last) && last == Wrap(first, |log|, b + 1) && allocBlocks == old(allocBlocks) + 1
      ensures old(Busy(ps, x) && Live() + x < |log| - first) ==> Busy(ps, x + 1) && first <= last < |log|
    {
      hide DiskOk, Safe, QueueOk, QueueAt, CopiesAt, OnDisk, RecsLen, Put, Pos;
      if Busy(ps, x) && Live() + x < |log| - first {
        PosNext(first, |log|, start, Live() + x);
      }
      b := last;
      allocBlocks := allocBlocks + 1;
      last := Wrap(first, |log|, last + 1);
    }

    /** The next log block: jbd_journal_alloc_block. It belongs to no transaction of the queue, and when it was
        the last free one, the first transaction is flushed to make room. left blocks are still to be taken. */
    method AllocBlock(ghost ps: seq<Part>, ghost x: nat, ghost left: nat) returns (b: nat)
      requires Fitting(ps, x, left) && left > 0
      modifies this`last, this`allocBlocks, this`home, this`cpQueue, this`start, this`transId, this`sbStart,
          this`sbSequence, this`trace, this`done
      ensures Fitting(ps, x + 1, left - 1) && last != start
      ensures Slid(|log|, first, old(start), old(Live()), start, Live())
      ensures b == old(last) == Pos(first, |log|, start, Live() + x)
      ensures InNoArc(old(cpQueue), first, |log|, b) && InNoArc(cpQueue, first, |log|, b)
      ensures |home| == old(|home|)
    {
      hide DiskOk, Safe, PartsLen, Unrolled, QueueOk, CopiesAt, OnDisk, HomeOk, Put, AllWrites, Cached, Slid, RecsLen,
          Pos, QueueAt;
      ghost var live0 := Live();
      PosNext(first, |log|, start, Live() + x);
      ArcFree(cpQueue, hist[done..], first, |log|, start, transId, Live() + x);
      SlidNone(|log|, first, start, Live());
      b := TakeBlock(ps, x);
      if last == start {
        QueueSome();
        PurgeOnce(ps, x + 1);
        SlidPos(|log|, first, old(start), live0, start, Live(), x);
        ArcFree(cpQueue, hist[done..], first, |log|, start, transId, Live() + x);
      }
      assert last != start;
    }

    /** With an empty queue the log has no live transaction. */
    lemma {:induction false} QueueSome()
      requires Queued(hist)
      ensures |cpQueue| == 0 ==> Live() == 0
    {
    }

    // ---- logging ----

    /** A write to the log through the cache: jbd_block_set of a block with BC_FLUSH. */
    method WriteBlock(pos: nat, b: Block, ghost commits: nat)
      requires pos < |log|
      modifies this`log, this`trace
      ensures log == old(log)[pos := b]
      ensures trace == old(trace) + [Moment(Disk(log, home, sbStart, sbSequence), commits)]
    {
      log := log[pos := b];
      trace := trace + [Moment(Disk(log, home, sbStart, sbSequence), commits)];
    }

    /** The transaction being prepared is logged up to work; there is room for m more buffers and the commit block. */
    ghost predicate Working(work: Work, desc: Block, descBlock: nat, at: nat, m: nat, final: bool)
      reads this
    {
      && |desc| == w && TagsPer(wide, w) > 0
      && var used, per := if descBlock == 0 then 0 else 1 + |work.ws|, TagsPer(wide, w);
      && |work.ws| <= per && NoZero(work.ws)
      && Fitting(work.ps, PartsLen(work.ps) + used, Need(per, if descBlock == 0 then 0 else per - |work.ws|, m) + 1)
      && (if descBlock == 0 then work.cur == [] && work.ws == []
          else
            && descBlock == Pos(first, |log|, start, Q(work.ps)) && work.cur != []
               && work.cur[|work.cur| - 1].last == final
            && Open(wide, L(), Q(work.ps), allocTransId, desc, at, work.cur, work.ws))
    }

    /** Writes a descriptor over data blocks that are in the log already. */
    method WriteDesc(pos: nat, desc: Block, ghost ps: seq<Part>, ghost ws: seq<Write>, ghost left: nat)
      requires Fitting(ps, PartsLen(ps) + 1 + |ws|, left) && pos == Pos(first, |log|, start, Q(ps)) && |desc| == w
      requires IsHeader(desc, allocTransId) && desc[1] == DESCRIPTOR && Q(ps) + 1 + |ws| <= |log| - first
      requires TagsFor(ReadTags(wide, desc, HEADER), L()[Q(ps) + 1..Q(ps) + 1 + |ws|], ws) && NoZero(ws)
      modifies this`log, this`trace
      ensures Fitting(ps + [Data(ws)], PartsLen(ps) + 1 + |ws|, left)
              && PartsLen(ps + [Data(ws)]) == PartsLen(ps) + 1 + |ws|
      ensures |log| == |old(log)| && done <= |hist| && old(done <= |hist|) && Live() == old(Live())
    {
      hide LogAt, HomeOk, TagsFor, ReadTags, Safe, RecsLen, PartsLen, Pos, Unrolled, Cached, QueueAt, QueueOk, CopiesAt,
          OnDisk;
      OkDesc(wide, first, w, Now(), hist, base, done, allocTransId, ps, desc, ws);
      WriteBlock(pos, desc, |hist|);
      SafeMore(wide, first, w, before, old(trace), old(Now()), before, Now(), hist, hist, base, done, allocTransId,
              ps + [Data(ws)]);
    }

    /** Writes the open descriptor: its data blocks are in the log already. */
    method CloseDescriptor(desc: Block, descBlock: nat, at: nat, ghost work0: Work, ghost m: nat, ghost final: bool)
      returns (ghost work: Work)
      requires Working(work0, desc, descBlock, at, m, final) && descBlock != 0
      requires if final then m == 0 else |desc| < at + TagWords(wide)
      modifies this`log, this`trace
      ensures Working(work, desc, 0, at, m, final) && work.ps == work0.ps + [Data(work0.ws)]
      ensures Logged(work) == Logged(work0) && |log| == |old(log)|
      ensures done <= |hist| && old(done <= |hist|) && Live() == old(Live())
    {
      hide Need, Open, TagsFor, ReadTags, RecsLen, PartsLen, Pos, Unrolled, Fitting;
      DescFits(work0, desc, descBlock, at, m, final);
      Closed(wide, L(), Q(work0.ps), allocTransId, desc, at, work0.cur, work0.ws);
      OpenFull(wide, L(), Q(work0.ps), allocTransId, desc, at, work0.cur, work0.ws);
      WriteDesc(descBlock, desc, work0.ps, work0.ws, Need(TagsPer(wide, w), TagsPer(wide, w) - |work0.ws|, m) + 1);
      work := Work(work0.ps + [Data(work0.ws)], [], []);
      WritesMore(work0.ps, work0.ws);
      NeedNone(TagsPer(wide, w), TagsPer(wide, w) - |work0.ws|);
      NeedNone(TagsPer(wide, w), 0);
    }

    /** The descriptor and its data blocks lie behind the records, before the ring is full. */
    lemma {:induction false} DescFits(work: Work, desc: Block, descBlock: nat, at: nat, m: nat, final: bool)
      requires Working(work, desc, descBlock, at, m, final) && descBlock != 0
      ensures done <= |hist| && first <= start < |log| && Q(work.ps) + |work.ws| + 1 < |log| - first
    {
    }

    /** Starts a new descriptor in the next log block. Its buffer may hold anything but the header. */
    method OpenDescriptor(ghost ps: seq<Part>, ghost x: nat, ghost left: nat) returns (desc: array<nat>, descBlock: nat)
      requires Fitting(ps, x, left) && left > 0
      modifies this`last, this`allocBlocks, this`home, this`cpQueue, this`start, this`transId, this`sbStart,
          this`sbSequence, this`trace, this`done
      ensures fresh(desc) && desc.Length == w && w >= HEADER && desc[0] == MAGIC && desc[1] == DESCRIPTOR
              && desc[2] == allocTransId
      ensures Fitting(ps, x + 1, left - 1) && Slid(|log|, first, old(start), old(Live()), start, Live())
              && |home| == old(|home|)
      ensures descBlock == Pos(first, |log|, start, Live() + x)
    {
      hide Fitting, Pos, RecsLen, Slid;
      FittingFacts(ps, x, left);
      descBlock := AllocBlock(ps, x, left);
      FittingFacts(ps, x + 1, left - 1);
      desc := new nat[w];
      desc[0], desc[1], desc[2] := MAGIC, DESCRIPTOR, allocTransId;
    }

    /** The tag t has been written at word at of the descriptor, which was open for work before;
        there is room for its data block, m more buffers, and the commit block. */
    ghost predicate TagReady(work: Work, desc: Block, descBlock: nat, at: nat, m: nat, t: Tag, was: Block)
      reads this
    {
      && |desc| == |was| == w && |work.ws| < TagsPer(wide, w) && NoZero(work.ws)
      && Fitting(work.ps, PartsLen(work.ps) + 1 + |work.ws|,
             1 + Need(TagsPer(wide, w), TagsPer(wide, w) - |work.ws| - 1, m) + 1)
      && descBlock == Pos(first, |log|, start, Q(work.ps))
      && Open(wide, L(), Q(work.ps), allocTransId, was, at, work.cur, work.ws)
      && (work.cur != [] ==> !work.cur[|work.cur| - 1].last)
      && desc[..at] == was[..at] && GetTag(wide, desc, at) == Some(t) && at + TagSize(wide, t) <= w
         && t.uuid == (work.cur == [])
    }

    /** Puts the tag for the next buffer into the open descriptor, or into a new one if there is
        none or it is full. The result describes the descriptor before the tag was added. */
    method PutTag(t0: Tag, desc0: array<nat>, descBlock0: nat, at0: nat, ghost work0: Work, ghost m: nat)
      returns (desc: array<nat>, descBlock: nat, at: nat, t: Tag, ghost work: Work, ghost was: Block)
      requires Working(work0, desc0[..], descBlock0, at0, m + 1, false) && Fits(wide, t0.block) && !t0.uuid
      modifies this`log, this`last, this`allocBlocks, this`trace, this`home, this`cpQueue, this`start, this`transId,
          this`sbStart, this`sbSequence, this`done, desc0
      ensures fresh(desc) || desc == desc0
      ensures t == t0.(uuid := work.cur == []) && SameWork(work, work0) && |log| == |old(log)| && |home| == old(|home|)
      ensures TagReady(work, desc[..], descBlock, at, m, t, was)
              && Slid(|log|, first, old(start), old(Live()), start, Live())
      ensures descBlock0 == 0 ==> work.ps == work0.ps && work.ws == []
    {
      hide Fitting, Need, Open, RecsLen, PartsLen, Pos, Unrolled, Slid;
      desc, descBlock, at, t, work := desc0, descBlock0, at0, t0, work0;
      WorkingFacts(work, desc0[..], descBlock, at, m + 1);
      SlidNone(|log|, first, start, Live());
      if descBlock != 0 {
        was := desc[..];
        OpenFull(wide, L(), Q(work.ps), allocTransId, was, at, work.cur, work.ws);
        RoomForTag(wide, L(), Q(work.ps), allocTransId, was, at, work.cur, work.ws);
        var ok := WriteTag(wide, desc, at, t, uuid);
        if ok {
          NeedUsed(TagsPer(wide, w), TagsPer(wide, w) - |work.ws|, m);
          return;
        }
        work := CloseDescriptor(desc[..], descBlock, at, work, m + 1, false);
      }
      desc, descBlock, at, t, was := FirstTag(t0, work, m);
    }

    /** Puts the tag into a new descriptor. */
    method FirstTag(t0: Tag, ghost work: Work, ghost m: nat)
      returns (desc: array<nat>, descBlock: nat, at: nat, t: Tag, ghost was: Block)
      requires work.cur == [] && work.ws == [] && TagsPer(wide, w) > 0 && Fits(wide, t0.block)
      requires Fitting(work.ps, PartsLen(work.ps), Need(TagsPer(wide, w), 0, m + 1) + 1)
      modifies this`last, this`allocBlocks, this`home, this`cpQueue, this`start, this`transId, this`sbStart,
          this`sbSequence, this`trace, this`done
      ensures fresh(desc) && t == t0.(uuid := true) && |home| == old(|home|)
      ensures TagReady(work, desc[..], descBlock, at, m, t, was)
              && Slid(|log|, first, old(start), old(Live()), start, Live())
    {
      hide Fitting, Need, Open, RecsLen, PartsLen, Pos, Unrolled, Slid;
      FittingFacts(work.ps, PartsLen(work.ps), Need(TagsPer(wide, w), 0, m + 1) + 1);
      NeedNew(TagsPer(wide, w), m);
      desc, descBlock := OpenDescriptor(work.ps, PartsLen(work.ps), Need(TagsPer(wide, w), 0, m + 1) + 1);
      at, t := HEADER, t0.(uuid := true);
      was := desc[..];
      TagFits(work, m);
      OpenNew(wide, L(), Q(work.ps), allocTransId, was);
      var ok := WriteTag(wide, desc, at, t, uuid);
    }

    /** Writes a data block behind everything that has been recorded. */
    method WriteData(pos: nat, b: Block, ghost j: nat, ghost ps: seq<Part>, ghost x: nat, ghost left: nat)
      requires Fitting(ps, x, left) && Q(ps) <= j < |log| - first && pos == Pos(first, |log|, start, j) && |b| == w
               && b[0] != MAGIC
      modifies this`log, this`trace
      ensures Fitting(ps, x, left) && |log| == |old(log)| && L() == old(L())[j := b]
    {
      hide LogAt, HomeOk, Safe, RecsLen, PartsLen, Pos, Unrolled, Cached, QueueAt, QueueOk, CopiesAt, OnDisk;
      OkData(wide, first, w, Now(), hist, base, done, allocTransId, ps, j, b);
      WriteBlock(pos, b, |hist|);
      SafeMore(wide, first, w, before, old(trace), old(Now()), before, Now(), hist, hist, base, done, allocTransId, ps);
    }

    /** The tag and the data block together make one more logged buffer. l0 is the log before the
        data block was written. */
    lemma {:induction false} ItemLogged(work0: Work, desc: Block, descBlock: nat, at: nat, m: nat, t: Tag, was: Block,
                                        x: Write, data: Block, l0: seq<Block>, work: Work)
      requires |desc| == |was| == w && |work0.ws| < TagsPer(wide, w) && NoZero(work0.ws) && x.lba != 0
      requires Fitting(work0.ps, PartsLen(work0.ps) + 2 + |work0.ws|,
                   Need(TagsPer(wide, w), TagsPer(wide, w) - |work0.ws| - 1, m) + 1)
      requires var q := Q(work0.ps);
               && descBlock == Pos(first, |log|, start, q)
               && |l0| == |log| - first && L() == l0[q + 1 + |work0.ws| := data]
               && Open(wide, l0, q, allocTransId, was, at, work0.cur, work0.ws)
      requires work0.cur != [] ==> !work0.cur[|work0.cur| - 1].last
      requires desc[..at] == was[..at] && GetTag(wide, desc, at) == Some(t) && at + TagSize(wide, t) <= w
               && t.uuid == (work0.cur == [])
      requires t.block == x.lba && Unescape(t, data) == x.data
      requires work == Work(work0.ps, work0.cur + [t], work0.ws + [x])
      ensures descBlock != 0 && Working(work, desc, descBlock, at + TagSize(wide, t), m, t.last)
      ensures Logged(work) == Logged(work0) + [x]
    {
      hide DiskOk, Need, Open, Safe, RecsLen, PartsLen, Unrolled, TagsFor, GetTag, Unescape, Writes, Cached, QueueAt,
          QueueOk, CopiesAt, OnDisk;
      OpenMore(wide, l0, Q(work0.ps), allocTransId, was, desc, at, work0.cur, work0.ws, t, x, data);
      WritesGlue(Writes(work0.ps), work0.ws, [x]);
      assert Live() + PartsLen(work0.ps) < |log| - first;
      PosNext(first, |log|, start, Q(work0.ps));
    }

    /** The block b has been taken for the data block of the tag. */
    ghost predicate DataReady(work: Work, desc: Block, descBlock: nat, at: nat, m: nat, t: Tag, was: Block, b: nat)
      reads this
    {
      && |desc| == |was| == w && |work.ws| < TagsPer(wide, w) && NoZero(work.ws)
      && Fitting(work.ps, PartsLen(work.ps) + 2 + |work.ws|,
             Need(TagsPer(wide, w), TagsPer(wide, w) - |work.ws| - 1, m) + 1)
      && Q(work.ps) + 1 + |work.ws| < |log| - first
      && descBlock == Pos(first, |log|, start, Q(work.ps)) && b == Pos(first, |log|, start, Q(work.ps) + 1 + |work.ws|)
      && Open(wide, L(), Q(work.ps), allocTransId, was, at, work.cur, work.ws)
      && (work.cur != [] ==> !work.cur[|work.cur| - 1].last)
      && desc[..at] == was[..at] && GetTag(wide, desc, at) == Some(t) && at + TagSize(wide, t) <= w
         && t.uuid == (work.cur == [])
    }

    /** The log block for the data of the tag that was put last. */
    method AllocData(ghost work: Work, ghost desc: Block, descBlock: nat, at: nat, ghost m: nat, ghost t: Tag,
            ghost was: Block)
      returns (b: nat)
      requires TagReady(work, desc, descBlock, at, m, t, was)
      modifies this`last, this`allocBlocks, this`home, this`cpQueue, this`start, this`transId, this`sbStart,
          this`sbSequence, this`trace, this`done
      ensures DataReady(work, desc, descBlock, at, m, t, was, b) && old(done <= |hist|)
      ensures Slid(|log|, first, old(start), old(Live()), start, Live()) && |home| == old(|home|)
    {
      hide Need, Open, RecsLen, Pos, Unrolled, Slid, PartsLen, Fitting, GetTag, TagSize;
      ghost var need := Need(TagsPer(wide, w), TagsPer(wide, w) - |work.ws| - 1, m) + 1;
      ghost var x := PartsLen(work.ps) + 1 + |work.ws|;
      FittingFacts(work.ps, x, need + 1);
      ghost var start1, live1 := start, Live();
      b := AllocBlock(work.ps, x, need + 1);
      FittingFacts(work.ps, x + 1, need);
      SlidPos(|log|, first, start1, live1, start, Live(), PartsLen(work.ps));
      OpenSlid(wide, log, first, start1, live1, start, Live(), PartsLen(work.ps), allocTransId, was, at, work.cur,
              work.ws);
    }

    /** Writes the data block; with its tag it is one more logged buffer. */
    method WriteItem(ghost work0: Work, ghost desc: Block, descBlock: nat, at: nat, ghost m: nat, ghost t: Tag,
            ghost was: Block, b: nat, data: Block, ghost x: Write) returns (ghost work: Work)
      requires DataReady(work0, desc, descBlock, at, m, t, was, b) && |data| == w && data[0] != MAGIC && x.lba != 0
      requires t.block == x.lba && Unescape(t, data) == x.data
      modifies this`log, this`trace
      ensures descBlock != 0 && Working(work, desc, descBlock, at + TagSize(wide, t), m, t.last)
      ensures work == Work(work0.ps, work0.cur + [t], work0.ws + [x]) && |log| == |old(log)|
      ensures done <= |hist| && old(done <= |hist|) && Live() == old(Live())
      ensures first <= start < |log| && descBlock == Pos(first, |log|, start, Q(work0.ps))
      ensures Q(work0.ps) + 1 + |work0.ws| < |log| - first
              && b == Pos(first, |log|, start, Q(work0.ps) + 1 + |work0.ws|)
    {
      hide Need, Open, RecsLen, Pos, Unrolled, TagsFor, GetTag, TagSize, TagsPer, Unescape, Working, Fitting, NoZero;
      ghost var need := Need(TagsPer(wide, w), TagsPer(wide, w) - |work0.ws| - 1, m) + 1;
      FittingFacts(work0.ps, PartsLen(work0.ps) + 2 + |work0.ws|, need);
      ghost var l0, live0 := L(), Live();
      WriteData(b, data, Q(work0.ps) + |work0.ws| + 1, work0.ps, PartsLen(work0.ps) + 2 + |work0.ws|, need);
      work := Work(work0.ps, work0.cur + [t], work0.ws + [x]);
      ItemLogged(work0, desc, descBlock, at, m, t, was, x, data, l0, work);
    }

    /** Logs one dirty buffer: its tag, and its contents in the next log block, without the magic
        number if they begin with it. */
    method LogItem(x: Item, isLast: bool, desc0: array<nat>, descBlock0: nat, at0: nat, ghost work0: Work, ghost m: nat)
      returns (desc: array<nat>, descBlock: nat, at: nat, buf: Buf, ghost work: Work)
      requires x.dirty && |x.data| == w >= 16 && Fits(wide, x.lba) && x.lba != 0
      requires Working(work0, desc0[..], descBlock0, at0, m + 1, false)
      modifies this`log, this`last, this`allocBlocks, this`trace, this`home, this`cpQueue, this`start, this`transId,
          this`sbStart, this`sbSequence, this`done, desc0
      ensures fresh(desc) || desc == desc0
      ensures first <= start < |log| && done <= |hist| && old(done <= |hist|)
      ensures Logged(work) == Logged(work0) + [Write(x.lba, x.data)] && |log| == |old(log)| && |home| == old(|home|)
      ensures Live() + PlaceIn(work, |Logged(work0)|) < |log| - first
      ensures Slid(|log|, first, old(start), old(Live()), start, Live())
      ensures buf.lba == x.lba && WorkOn(work, work0)
              && buf.jbdLba == Pos(first, |log|, start, Live() + PlaceIn(work, |Logged(work0)|))
      ensures descBlock0 == 0 && work0.ps == [] ==> descBlock == Pos(first, |log|, start, Live())
      ensures descBlock != 0 && Working(work, desc[..], descBlock, at, m, isLast)
    {
      hide *;
      WorkingFacts(work0, desc0[..], descBlock0, at0, m + 1);
      var isEscape := x.data[0] == MAGIC;
      ghost var was: Block;
      ghost var work1: Work;
      var t;
      desc, descBlock, at, t, work1, was := PutTag(Tag(x.lba, isEscape, isLast, false), desc0, descBlock0, at0, work0,
              m);
      ReadyFacts(work1, desc[..], descBlock, at, m, t, was);
      ghost var start1, live1 := start, Live();
      var dataBlock := AllocData(work1, desc[..], descBlock, at, m, t, was);
      ReadyDone(work1, desc[..], descBlock, at, m, t, was, dataBlock);
      SlidOn(|log|, first, old(start), old(Live()), start1, live1, start, Live());
      var data: Block := x.data;
      if isEscape {
        data := data[0 := 0];
      }
      EscapeIs(x.data);
      EscapeBack(x.data, t);
      work := WriteItem(work1, desc[..], descBlock, at, m, t, was, dataBlock, data, Write(x.lba, x.data));
      at := at + TagSize(wide, t);
      buf := Buf(x.lba, dataBlock);
      PlacesOn(work0, work1, work, Write(x.lba, x.data));
      QIs(work1.ps);
      NoPartsLen();
      WorkBound(work, desc[..], descBlock, at, m, isLast, |Logged(work0)|);
    }

    lemma {:induction false} QIs(ps: seq<Part>)
      requires done <= |hist|
      ensures Q(ps) == Live() + PartsLen(ps)
    {
    }

    lemma {:induction false} ReadyFacts(work: Work, desc: Block, descBlock: nat, at: nat, m: nat, t: Tag, was: Block)
      requires TagReady(work, desc, descBlock, at, m, t, was)
      ensures first <= start < |log| && done <= |hist|
    {
    }

    lemma {:induction false} ReadyDone(work: Work, desc: Block, descBlock: nat, at: nat, m: nat, t: Tag, was: Block,
            b: nat)
      requires DataReady(work, desc, descBlock, at, m, t, was, b)
      ensures first <= start < |log| && done <= |hist|
    {
    }

    lemma {:induction false} WorkingFacts(work: Work, desc: Block, descBlock: nat, at: nat, m: nat)
      requires Working(work, desc, descBlock, at, m, false)
      ensures first <= start < |log| && done <= |hist| && Live() < |log| - first && w >= 16 && w % 2 == 0
              && |uuid| == UUID
    {
    }

    /** After its first tag the descriptor lies in the log with room behind it. */
    lemma {:induction false} TagFits(work: Work, m: nat)
      requires TagsPer(wide, w) > 0
               && Fitting(work.ps, PartsLen(work.ps) + 1, 1 + Need(TagsPer(wide, w), TagsPer(wide, w) - 1, m) + 1)
      ensures first <= start < |log| && done <= |hist| && Q(work.ps) + 1 <= |log| - first
    {
    }

    lemma {:induction false} FittingFacts(ps: seq<Part>, x: nat, left: nat)
      requires Fitting(ps, x, left)
      ensures first <= start < |log| && done <= |hist| && PartsLen(ps) <= x && Live() + x < |log| - first
              && allocBlocks == x
      ensures last == Pos(first, |log|, start, Live() + x) && w >= 16 && w % 2 == 0 && |uuid| == UUID
    {
    }

    /** The first k of the n buffers that may be dirty have been looked at, and i of them logged. */
    ghost predicate Preparing(items: seq<Item>, n: nat, k: nat, i: nat, bufs: seq<Buf>, startIblock: nat, work: Work,
                              desc: Block, descBlock: nat, at: nat)
      reads this
    {
      && k <= n <= |items| && |bufs| == i == |Dirty(items[..k])| <= |Dirty(items)| && Dirty(items) == Dirty(items[..n])
      && Working(work, desc, descBlock, at, |Dirty(items)| - i, k == n) && Logged(work) == Dirty(items[..k])
      && first <= start < |log| && done <= |hist| && Live() < |log| - first
      && Filed(bufs, work, |log|, first, start, Live())
      && (if i > 0 then startIblock == Pos(first, |log|, start, Live()) && startIblock != 0
          else startIblock == 0 && descBlock == 0 && work == Work([], [], []))
    }

    /** A clean buffer is passed over. */
    lemma {:induction false} PassOver(items: seq<Item>, n: nat, k: nat, i: nat, bufs: seq<Buf>, startIblock: nat,
            work: Work, desc: Block, descBlock: nat, at: nat)
      requires Preparing(items, n, k, i, bufs, startIblock, work, desc, descBlock, at) && k + 1 < n && !items[k].dirty
      ensures Preparing(items, n, k + 1, i, bufs, startIblock, work, desc, descBlock, at)
    {
      hide Working, Logged, Filed, RecsLen, Pos, Dirty;
      DirtyNext(items, k);
    }

    /** Logs the k-th buffer, which is dirty. */
    method LogNext(items: seq<Item>, ghost n: nat, k: nat, i: nat, isLast: bool, bufs0: seq<Buf>, startIblock0: nat,
                   ghost work0: Work, desc0: array<nat>, descBlock0: nat, at0: nat)
      returns (bufs: seq<Buf>, startIblock: nat, ghost work: Work, desc: array<nat>, descBlock: nat, at: nat)
      requires k < n && Preparing(items, n, k, i, bufs0, startIblock0, work0, desc0[..], descBlock0, at0)
      requires items[k].dirty && |items[k].data| == w >= 16 && Fits(wide, items[k].lba) && items[k].lba != 0
               && (isLast <==> k + 1 == n)
      modifies this`log, this`last, this`allocBlocks, this`trace, this`home, this`cpQueue, this`start, this`transId,
          this`sbStart, this`sbSequence, this`done, desc0
      ensures fresh(desc) || desc == desc0
      ensures Preparing(items, n, k + 1, i + 1, bufs, startIblock, work, desc[..], descBlock, at)
      ensures |log| == |old(log)| && |home| == old(|home|)
    {
      hide Working, Logged, Filed, RecsLen, Pos, Dirty, Slid, PlaceIn, WorkOn, Unrolled;
      DirtyNext(items, k);
      DirtyPrefix(items, k + 1, n);
      ghost var start0, live0 := start, Live();
      var buf;
      desc, descBlock, at, buf, work := LogItem(items[k], isLast, desc0, descBlock0, at0, work0,
              |Dirty(items)| - i - 1);
      WorkBound(work, desc[..], descBlock, at, |Dirty(items)| - i - 1, isLast, i);
      SlidPos(|log|, first, start0, live0, start, Live(), 0);
      FiledMore(bufs0, work0, work, buf, Write(items[k].lba, items[k].data), |log|, first, start0, live0, start,
              Live());
      bufs := bufs0 + [buf];
      startIblock := if startIblock0 == 0 then descBlock else startIblock0;
    }

    /** The log blocks these buffers and the commit block take at most. */
    ghost function Most(items: seq<Item>): nat {
      if TagsPer(wide, w) == 0 then 0 else Need(TagsPer(wide, w), 0, |Dirty(items)|) + 1
    }

    lemma {:induction false} MostIs(items: seq<Item>)
      requires TagsPer(wide, w) > 0
      ensures Most(items) == Need(TagsPer(wide, w), 0, |Dirty(items)|) + 1
    {
    }

    /** Writes the descriptors and data blocks of a transaction: jbd_journal_prepare. Clean buffers
        at the tail are dropped first; that makes the buffer at which i reaches data_cnt - 1 the
        last dirty one, whose tag is marked. */
    method Prepare(items: seq<Item>) returns (bufs: seq<Buf>, startIblock: nat, ghost ps: seq<Part>)
      requires Loggable(items, wide, w, |home|) && TagsPer(wide, w) > 0 && Fitting([], 0, Most(items))
      modifies this`log, this`last, this`allocBlocks, this`trace, this`home, this`cpQueue, this`start, this`transId,
          this`sbStart, this`sbSequence, this`done
      ensures Fitting(ps, PartsLen(ps), 1) && done <= |hist|
              && Filed(bufs, Work(ps, [], []), |log|, first, start, Live())
      ensures Writes(ps) == Dirty(items) && |log| == |old(log)| && |home| == old(|home|)
      ensures bufs != [] ==> startIblock == Pos(first, |log|, start, Live())
      ensures bufs == [] ==> ps == [] && log == old(log) && trace == old(trace) && Fitting([], 0, 1)
    {
      hide *;
      var n := |items|;
      while n > 0 && !items[n - 1].dirty
        invariant 0 <= n <= |items| && forall k :: n <= k < |items| ==> !items[k].dirty
      {
        n := n - 1;
      }
      var dataCnt: int, i, k := n, 0, 0;
      var desc, descBlock: nat, at: nat := new nat[w], 0, 0;
      ghost var work := Work([], [], []);
      bufs, startIblock := [], 0;
      MostIs(items);
      EachLoggable(items, Most(items));
      StartWork(items, n, desc[..], at);
      while k < n
        invariant 0 <= k <= n <= |items| && (n > 0 ==> items[n - 1].dirty)
        invariant |log| == |old(log)| && |home| == old(|home|) && fresh(desc) && 0 <= i && dataCnt == n - (k - i)
        invariant Preparing(items, n, k, i, bufs, startIblock, work, desc[..], descBlock, at)
        invariant i == 0 ==> log == old(log) && trace == old(trace)
      {
        if !items[k].dirty {
          PassOver(items, n, k, i, bufs, startIblock, work, desc[..], descBlock, at);
          dataCnt := dataCnt - 1;
        } else {
          bufs, startIblock, work, desc, descBlock, at :=
            LogNext(items, n, k, i, i == dataCnt - 1, bufs, startIblock, work, desc, descBlock, at);
          i := i + 1;
        }
        k := k + 1;
      }
      bufs, startIblock, ps := Finish(items, n, i, bufs, startIblock, work, desc, descBlock, at);
    }

    /** Writes the last descriptor. */
    method Finish(ghost items: seq<Item>, ghost n: nat, i: nat, bufs0: seq<Buf>, startIblock0: nat, ghost work0: Work,
                  desc: array<nat>, descBlock: nat, at: nat)
      returns (bufs: seq<Buf>, startIblock: nat, ghost ps: seq<Part>)
      requires Preparing(items, n, n, i, bufs0, startIblock0, work0, desc[..], descBlock, at)
      modifies this`log, this`trace
      ensures Fitting(ps, PartsLen(ps), 1) && done <= |hist|
              && Filed(bufs, Work(ps, [], []), |log|, first, start, Live())
      ensures Writes(ps) == Dirty(items) && |log| == |old(log)| && bufs == bufs0 && |bufs| == i
      ensures bufs != [] ==> startIblock == Pos(first, |log|, start, Live())
      ensures bufs == [] ==> ps == [] && log == old(log) && trace == old(trace) && Fitting([], 0, 1)
    {
      hide Working, Logged, Filed, RecsLen, Pos, Dirty, Fitting, Writes, PartsLen;
      bufs, startIblock := bufs0, startIblock0;
      ghost var work := work0;
      if descBlock != 0 {
        work := CloseDescriptor(desc[..], descBlock, at, work0, 0, true);
        NothingOpen(work, desc[..], at, 0, true);
        FiledSame(bufs, work0, work, |log|, first, start, Live());
      }
      WorkDone(work, desc[..], at);
      ps := work.ps;
    }

    lemma {:induction false} WorkBound(work: Work, desc: Block, descBlock: nat, at: nat, m: nat, final: bool, i: nat)
      requires Working(work, desc, descBlock, at, m, final) && i < |Logged(work)|
      ensures first <= start < |log| && done <= |hist| && Live() < |log| - first
              && Live() + PlaceIn(work, i) < |log| - first
    {
      hide Fitting, Need, RecsLen, PartsLen, Open, PlaceIn;
      PlaceBelow(work, i);
      FittingFacts(work.ps, PartsLen(work.ps) + if descBlock == 0 then 0 else 1 + |work.ws|,
                   Need(TagsPer(wide, w), if descBlock == 0 then 0 else TagsPer(wide, w) - |work.ws|, m) + 1);
    }

    lemma {:induction false} NothingOpen(work: Work, desc: Block, at: nat, m: nat, final: bool)
      requires Working(work, desc, 0, at, m, final)
      ensures work.cur == [] && work.ws == []
    {
    }

    lemma {:induction false} WorkDone(work: Work, desc: Block, at: nat)
      requires exists final :: Working(work, desc, 0, at, 0, final)
      ensures Fitting(work.ps, PartsLen(work.ps), 1) && work == Work(work.ps, [], []) && Logged(work) == Writes(work.ps)
      ensures PartsLen([]) == 0
    {
      assert Writes(work.ps) + [] == Writes(work.ps);
    }

    lemma {:induction false} EachLoggable(items: seq<Item>, left: nat)
      requires Loggable(items, wide, w, |home|) && Fitting([], 0, left)
      ensures w >= 16
              && forall k :: 0 <= k < |items| ==> |items[k].data| == w && Fits(wide, items[k].lba) && items[k].lba != 0
    {
    }

    lemma {:induction false} StartWork(items: seq<Item>, n: nat, desc: Block, at: nat)
      requires TagsPer(wide, w) > 0 && |desc| == w && Fitting([], 0, Need(TagsPer(wide, w), 0, |Dirty(items)|) + 1)
      requires n <= |items| && forall k :: n <= k < |items| ==> !items[k].dirty
      ensures Preparing(items, n, 0, 0, [], 0, Work([], [], []), desc, 0, at)
    {
      DirtyCut(items, n);
      assert items[..0] == [] && Dirty([]) == [];
    }

    // ---- committing ----

    /** A block that starts with a header of the current transaction; the rest may be anything. */
    method NewHeader(kind: nat) returns (b: Block)
      requires w >= HEADER
      ensures |b| == w && IsHeader(b, allocTransId) && b[1] == kind
    {
      var header := new nat[w];
      header[0], header[1], header[2] := MAGIC, kind, allocTransId;
      b := header[..];
    }

    /** The one write that commits. */
    method PutCommit(pos: nat, ghost ps: seq<Part>)
      requires Fitting(ps, PartsLen(ps) + 1, 0) && pos == Pos(first, |log|, start, Live() + PartsLen(ps))
      modifies this`log, this`before, this`trace, this`hist
      ensures hist == old(hist) + [ps] && |log| == old(|log|) && Since(old(before), before, |old(hist)|)
      ensures done <= |old(hist)| && DiskOk(wide, first, w, Now(), hist, base, done, allocTransId + 1, [])
      ensures Safe(wide, first, before, trace, Now(), hist, base)
      ensures Queued(old(hist)) && Live() == RecsLen(old(hist)[done..]) + PartsLen(ps) + 1
    {
      hide Safe, RecsLen, PartsLen, Unrolled, Pos, Cached, QueueAt, QueueOk, CopiesAt, OnDisk, LogAt, HomeOk, Put,
          AllWrites;
      CommitDisk(ps);
      hide Fitting, Busy;
      var header := NewHeader(COMMIT);
      ghost var before1, now := before, Now();
      SafeSince(wide, first, before, trace, now, hist, base);
      before := trace;
      OkCommit(wide, first, w, Now(), hist, base, done, allocTransId, ps, header);
      WriteBlock(pos, header, |hist| + 1);
      SafeMore(wide, first, w, before1, before, now, before, Now(), hist, hist + [ps], base, done,
              allocTransId + 1, []);
      hist := hist + [ps];
    }

    lemma {:induction false} CommitDisk(ps: seq<Part>)
      requires Fitting(ps, PartsLen(ps) + 1, 0)
      ensures DiskOk(wide, first, w, Now(), hist, base, done, allocTransId, ps) && DataOnly(ps) && w >= 16
      ensures Safe(wide, first, before, trace, Now(), hist, base) && Queued(hist)
      ensures done <= |hist| && RecsLen(hist[done..]) + PartsLen(ps) + 1 < |log| - first && start == sbStart
    {
      hide DiskOk, Safe, RecsLen, PartsLen, Unrolled, Pos, QueueOk, QueueAt, CopiesAt, OnDisk, Put, AllWrites, Cached;
    }

    lemma {:induction false} CommitReady(ps: seq<Part>)
      requires Fitting(ps, PartsLen(ps) + 1, 0)
      ensures w >= 16 && w % 2 == 0 && |uuid| == UUID && start == sbStart && transId == sbSequence
      ensures 0 < first <= start < |log| && first <= last < |log| && done <= |hist|
      ensures Live() + PartsLen(ps) + 1 < |log| - first && last == Pos(first, |log|, start, Live() + PartsLen(ps) + 1)
      ensures allocBlocks == PartsLen(ps) + 1 == budget
      ensures roomy ==> cpQueue == queue0 && home == home0 && done == done0
    {
      hide DiskOk, Safe, RecsLen, PartsLen, Unrolled, Pos, QueueOk, QueueAt, CopiesAt, OnDisk, Put, AllWrites, Cached;
    }

    /** Writes the commit block: jbd_trans_write_commit_block. From here on the transaction counts; the
        queue does not have it yet. */
    method WriteCommitBlock(ghost ps: seq<Part>)
      requires Fitting(ps, PartsLen(ps), 1)
      modifies this`log, this`last, this`allocBlocks, this`before, this`trace, this`hist, this`allocTransId, this`home,
          this`cpQueue, this`start, this`transId, this`sbStart, this`sbSequence, this`done
      ensures Since(old(before), before, |old(hist)|)
      ensures hist == old(hist) + [ps] && allocTransId == old(allocTransId) + 1 && |log| == old(|log|)
              && |home| == old(|home|)
      ensures Ok([]) && Queued(old(hist)) && done <= |old(hist)| && old(done <= |hist|)
      ensures Live() == RecsLen(old(hist)[done..]) + PartsLen(ps) + 1 < |log| - first
              && last == Pos(first, |log|, start, Live())
      ensures allocBlocks == PartsLen(ps) + 1 == budget
      ensures roomy ==> cpQueue == queue0 && home == home0 && done == done0
      ensures Slid(|log|, first, old(start), old(Live()), start, RecsLen(old(hist)[done..]))
    {
      hide Busy, Fitting, Queued, InNoArc, DiskOk, Safe, Since, RecsLen, PartsLen, Pos, Slid;
      FittingFacts(ps, PartsLen(ps), 1);
      var commitIblock := AllocBlock(ps, PartsLen(ps), 1);
      CommitReady(ps);
      PutCommit(commitIblock, ps);
      allocTransId := allocTransId + 1;
    }

    /** What is known outside of the journal when a commit begins. */
    method Begin(cache0: map<nat, Block>, taken0: set<nat>, ghost left: nat)
      requires AtRest() && left < |log| - first
      requires (HeadWaits() && Cached(cpQueue, Put(AllWrites(hist), base), cache0, taken0))
               || Live() + left < |log| - first
      modifies this`allocBlocks, this`before, this`cache, this`taken, this`budget, this`roomy, this`queue0, this`home0,
          this`done0
      ensures Fitting([], 0, left) && TagsPer(wide, w) > 0 && before == trace
      ensures budget == left && queue0 == cpQueue && home0 == home && done0 == done
      ensures done <= |hist| && (Live() + left < |log| - first ==> roomy)
    {
      hide *;
      LiveIs();
      RestPer();
      SetCache(cache0, taken0, left);
      SetBudget(left);
      BeginFits(left);
    }

    method SetBudget(ghost left: nat)
      requires done <= |hist|
      modifies this`budget, this`roomy, this`queue0, this`home0, this`done0
      ensures budget == left && queue0 == cpQueue && home0 == home && done0 == done
      ensures roomy == (Live() + left < |log| - first)
    {
      hide *;
      budget, roomy, queue0, home0, done0 := left, Live() + left < |log| - first, cpQueue, home, done;
    }

    method SetCache(cache0: map<nat, Block>, taken0: set<nat>, ghost left: nat)
      requires AtRest()
      modifies this`allocBlocks, this`before, this`cache, this`taken
      ensures AtRest() && before == trace && allocBlocks == 0 && cache == cache0 && taken == taken0
    {
      hide DiskOk, Safe, RecsLen, Unrolled, Pos, QueueOk, QueueAt, CopiesAt, OnDisk, Put, AllWrites, Cached;
      SafeFrom(wide, first, before, trace, Now(), hist, base);
      allocBlocks, before, cache, taken := 0, trace, cache0, taken0;
    }

    lemma {:induction false} BeginFits(left: nat)
      requires AtRest() && allocBlocks == 0 && budget == left < |log| - first && done <= |hist|
      requires roomy == (Live() + left < |log| - first)
               && (roomy ==> cpQueue == queue0 && home == home0 && done == done0)
      requires roomy || (HeadWaits() && Cached(cpQueue, Put(AllWrites(hist), base), cache, taken))
      ensures Fitting([], 0, left)
    {
      hide DiskOk, Safe, RecsLen, Unrolled, Pos, QueueOk, QueueAt, CopiesAt, OnDisk, Put, AllWrites, Cached;
    }

    /** Logs and commits a transaction: __jbd_journal_commit_trans. A crash at any write on the way
        loses all of it or, from the commit block on, none of it. The log may fill up on the way, if the
        queue can be flushed then. */
    method CommitTrans(items: seq<Item>, cache0: map<nat, Block>, taken0: set<nat>) returns (committed: bool)
      requires AtRest() && Loggable(items, wide, w, |home|)
      requires forall i, j :: 0 <= i < j < |items| ==> items[i].lba != items[j].lba
      requires Most(items) < |log| - first
      requires || (HeadWaits() && Cached(cpQueue, Put(AllWrites(hist), base), cache0, taken0))
               || Live() + Most(items) < |log| - first
      modifies this
      ensures AtRest()
      ensures committed <==> Dirty(items) != []
      ensures committed ==>
              |hist| == |old(hist)| + 1 && hist[..|old(hist)|] == old(hist) && Writes(hist[|old(hist)|]) == Dirty(items)
      ensures !committed ==> hist == old(hist) && log == old(log) && trace == old(trace)
      ensures base == old(base) && |log| == |old(log)| && |home| == |old(home)|
      ensures committed ==> cpQueue != [] && SameBlocks(cpQueue[|cpQueue| - 1].bufs, Dirty(items))
      ensures committed ==> PartsLen(hist[|old(hist)|]) + 1 == Most(items)
      ensures committed && old(Live()) + Most(items) < |log| - first ==>
                && home == old(home) && done == old(done) && done <= |hist| && cpQueue[..|cpQueue| - 1] == old(cpQueue)
                && Live() == old(Live()) + Most(items)
      ensures Since(old(trace), before, |old(hist)|) && Since(before, trace, |hist|)
    {
      hide *;
      RestPer();
      LiveIs();
      ghost var live1 := Live();
      Begin(cache0, taken0, Most(items));
      var bufs, startIblock;
      ghost var ps;
      bufs, startIblock, ps := Prepare(items);
      if |bufs| == 0 {
        Rested(items, bufs, ps);
        Parted();
        return false;
      }
      CommitPrepared(items, bufs, startIblock, ps);
      Parted();
      committed := true;
    }

    /** The second half of a commit, with everything but the commit block in the log. */
    method CommitPrepared(ghost items: seq<Item>, bufs: seq<Buf>, startIblock: nat, ghost ps: seq<Part>)
      requires Fitting(ps, PartsLen(ps), 1) && TagsPer(wide, w) > 0 && Loggable(items, wide, w, |home|)
      requires forall i, j :: 0 <= i < j < |items| ==> items[i].lba != items[j].lba
      requires done <= |hist| && Filed(bufs, Work(ps, [], []), |log|, first, start, Live())
      requires Writes(ps) == Dirty(items) && bufs != [] && startIblock == Pos(first, |log|, start, Live())
      modifies this`log, this`last, this`allocBlocks, this`before, this`trace, this`hist, this`allocTransId, this`home,
          this`cpQueue, this`start, this`transId, this`sbStart, this`sbSequence, this`done
      ensures AtRest() && hist == old(hist) + [ps] && |log| == |old(log)| && |home| == |old(home)|
      ensures done <= |old(hist)| && Dirty(items) != [] && Since(old(before), before, |old(hist)|)
      ensures cpQueue != [] && SameBlocks(cpQueue[|cpQueue| - 1].bufs, Dirty(items))
      ensures roomy ==> home == home0 && done == done0 && cpQueue[..|cpQueue| - 1] == queue0
      ensures Live() == RecsLen(old(hist)[done..]) + budget && PartsLen(ps) + 1 == budget
    {
      hide *;
      ghost var start0, live0 := start, Live();
      PreparedFacts(items, bufs, ps, start0, live0);
      WriteCommitBlock(ps);
      SlidPos(|log|, first, start0, live0, start, RecsLen(old(hist)[done..]), 0);
      LoggableOn(items, wide, w, |home|);
      BufsFiled(items, bufs, ps, |log|, first, start0, live0, start, RecsLen(old(hist)[done..]), |home|);
      Enqueue(bufs, startIblock, old(hist), ps);
    }

    /** Puts the transaction that was just committed on the checkpoint queue. If it is the only one
        there, the superblock is written. */
    method Enqueue(bufs: seq<Buf>, startIblock: nat, ghost hist0: seq<Rec>, ghost ps: seq<Part>)
      requires Ok([]) && TagsPer(wide, w) > 0 && hist == hist0 + [ps] && done <= |hist0| && Queued(hist0)
      requires Live() < |log| - first && last == Pos(first, |log|, start, Live())
      requires startIblock == Pos(first, |log|, start, RecsLen(hist0[done..])) && allocBlocks == PartsLen(ps) + 1
      requires SameBlocks(bufs, Writes(ps)) && Distinct(bufs)
      requires forall j {:trigger bufs[j]} :: 0 <= j < |bufs| ==>
                 bufs[j].lba < |home| && CopyOf(bufs[j], ps, RecsLen(hist0[done..]), first, |log|, start)
      modifies this`cpQueue, this`sbStart, this`sbSequence, this`start, this`transId, this`done, this`trace
      ensures AtRest() && done == old(done)
      ensures |cpQueue| == |old(cpQueue)| + 1 && cpQueue[..|old(cpQueue)|] == old(cpQueue)
              && cpQueue[|old(cpQueue)|].bufs == bufs
    {
      hide Safe, RecsLen, PartsLen, Unrolled, Pos, QueueOk, QueueAt, CopiesAt, CopyOf, HomeOk, Put, Distinct, AllWrites,
          Writes, DiskOk;
      NextId();
      var trans := Trans(allocTransId - 1, startIblock, allocBlocks, |bufs|, 0, bufs);
      HomeCount();
      QueueMore(cpQueue, hist0, done, home, base, trans, ps);
      assert hist[done..] == hist0[done..] + [ps];
      QueueAtMore(cpQueue, hist0[done..], ps, first, |log|, start, transId, trans);
      CopiesMore(cpQueue, hist0[done..], ps, first, |log|, start, trans);
      QueueCount(cpQueue, hist0[done..], home, Put(AllWrites(hist0), base));
      OnDiskMore(cpQueue, |home|, trans);
      NoPartsLen();
      hide OnDisk;
      if |cpQueue| == 0 {
        StartIs(hist0[done..]);
        start := trans.startIblock;
        transId := trans.id;
        WriteSb(0, []);
      }
      cpQueue := cpQueue + [trans];
    }

    lemma {:induction false} LiveIs()
      requires AtRest()
      ensures done <= |hist| && Live() == RecsLen(hist[done..])
    {
    }

    lemma {:induction false} NowIs()
      ensures Now() == Disk(log, home, sbStart, sbSequence)
    {
    }

    lemma {:induction false} RestPer()
      requires AtRest()
      ensures TagsPer(wide, w) > 0
    {
    }

    lemma {:induction false} Parted()
      requires AtRest()
      ensures Since(before, trace, |hist|)
    {
      hide DiskOk, Queued, Since;
      SafeSince(wide, first, before, trace, Now(), hist, base);
    }

    lemma {:induction false} NextId()
      requires Ok([])
      ensures allocTransId == transId + |hist| - done
    {
    }

    lemma {:induction false} HomeCount()
      requires Ok([])
      ensures |home| == |base|
    {
    }

    lemma {:induction false} StartIs(live: seq<Rec>)
      requires first <= start < |log| && live == []
      ensures RecsLen(live) == 0 && Pos(first, |log|, start, RecsLen(live)) == start
    {
      StartPos(first, |log|, start);
    }

    /** Nothing was dirty. */
    lemma {:induction false} Rested(items: seq<Item>, bufs: seq<Buf>, ps: seq<Part>)
      requires Fitting([], 0, 1) && TagsPer(wide, w) > 0 && bufs == [] && done <= |hist|
      requires Filed(bufs, Work(ps, [], []), |log|, first, start, Live()) && Writes(ps) == Dirty(items)
      ensures AtRest() && Dirty(items) == []
    {
      hide DiskOk, Safe, RecsLen, Pos, QueueOk, QueueAt, CopiesAt, OnDisk, Put, AllWrites, Cached, Dirty, Writes;
    }

    lemma {:induction false} PreparedFacts(items: seq<Item>, bufs: seq<Buf>, ps: seq<Part>, start0: nat, live0: nat)
      requires Fitting(ps, PartsLen(ps), 1) && done <= |hist| && start0 == start && live0 == Live()
               && Writes(ps) == Dirty(items)
      requires Filed(bufs, Work(ps, [], []), |log|, first, start, Live()) && bufs != []
      ensures first <= start0 < |log| && live0 < |log| - first && Dirty(items) != []
    {
      hide DiskOk, Safe, RecsLen, Pos, QueueOk, QueueAt, CopiesAt, OnDisk, Put, AllWrites, Cached, Dirty, Writes;
    }
  }

  /** The buffers hold these writes' blocks, in order. */
  ghost predicate SameBlocks(bufs: seq<Buf>, ws: seq<Write>) {
    |bufs| == |ws| && forall k :: 0 <= k < |bufs| ==> bufs[k].lba == ws[k].lba
  }

  lemma {:induction false} OneMore(bufs: seq<Buf>, ws: seq<Write>, b: Buf, x: Write)
    requires SameBlocks(bufs, ws) && b.lba == x.lba
    ensures SameBlocks(bufs + [b], ws + [x])
  {
  }

  /** A transaction taken off the block's waiters: where the others are afterwards. */
  lemma {:induction false} PendingMoved(q: seq<Trans>, q': seq<Trans>, lba: nat, j: nat, own: nat, m: nat)
    requires j < own < |q| && Pending(q[own], lba) && m <= |q| && |q'| == |q| - m
    requires forall i :: 0 <= i < j || own < i < |q| ==> !Pending(q[i], lba)
    requires forall i :: 0 <= i < m && i != j ==> q[i].bufs == []
    requires forall i :: 0 <= i < |q'| && i + m != j ==> q'[i] == q[i + m]
    requires m <= j ==> !Pending(q'[j - m], lba)
    ensures m <= own && q'[own - m] == q[own]
    ensures forall i :: 0 <= i <= j - m || own - m < i < |q'| ==> !Pending(q'[i], lba)
  {
    assert q[own].bufs != [];
    forall i | 0 <= i <= j - m || own - m < i < |q'|
      ensures !Pending(q'[i], lba)
    {
      if i + m != j {
        assert q'[i] == q[i + m];
      }
    }
  }

  lemma {:induction false} QueueCount(q: seq<Trans>, live: seq<Rec>, home: seq<Block>, want: seq<Block>)
    requires QueueOk(q, live, home, want)
    ensures |q| == |live|
  {
  }

  lemma {:induction false} NoPartsLen()
    ensures PartsLen([]) == 0
  {
  }

  lemma {:induction false} WritesGlue(a: seq<Write>, b: seq<Write>, c: seq<Write>)
    ensures a + (b + c) == (a + b) + c
  {
  }

  lemma {:induction false} WritesMore(ps: seq<Part>, ws: seq<Write>)
    ensures Writes(ps + [Data(ws)]) == Writes(ps) + ws
    decreases |ps|
  {
    if ps == [] {
      assert ([] + [Data(ws)])[1..] == [];
      assert ws + [] == ws && [] + ws == ws;
    } else {
      assert (ps + [Data(ws)])[1..] == ps[1..] + [Data(ws)];
      WritesMore(ps[1..], ws);
      var x := if ps[0].Data? then ps[0].writes else [];
      assert x + (Writes(ps[1..]) + ws) == (x + Writes(ps[1..])) + ws;
    }
  }

  lemma {:induction false} PlaceCut(live: seq<Rec>, m: nat)
    requires m <= |live|
    ensures RecsLen(live) == Place(live, m) + RecsLen(live[m..]) && (m > 0 ==> Place(live, m) > 0)
  {
    RecsSplit(live, m);
    if m > 0 {
      PlaceNext(live, m - 1);
    }
  }

  lemma {:induction false} DiskMarked(q: seq<Trans>, n: nat, k: nat, lba: nat, q': seq<Trans>)
    requires OnDisk(q, n) && MarkedIn(q, k, lba, q')
    ensures OnDisk(q', n)
  {
    forall l, j | 0 <= l < |q'| && 0 <= j < |q'[l].bufs|
      ensures q'[l].bufs[j].lba < n
    {
      if l == k {
        var i := WithoutFrom(q[k].bufs, lba, j);
        assert q'[l].bufs[j] == q[k].bufs[i];
      } else {
        assert q'[l] == q[l];
      }
    }
  }

  /** A later pending copy is in the log. */
  lemma {:induction false} LoggedLater(q: seq<Trans>, live: seq<Rec>, home: seq<Block>, want: seq<Block>, j: nat,
          own: nat, lba: nat)
    requires QueueOk(q, live, home, want) && j < own < |q| && Pending(q[own], lba)
    ensures LoggedFrom(live, j + 1, lba)
  {
    assert Logs(live[own], lba);
  }

  /** The first m transactions are gone, and the others wait for all they waited for but this block. */
  ghost predicate LessOne(q: seq<Trans>, q': seq<Trans>, lba: nat, m: nat)
    requires m <= |q|
  {
    && |q'| == |q| - m
    && forall i :: 0 <= i < |q'| ==> q'[i].id == q[i + m].id && q'[i].bufs == Without(q[i + m].bufs, lba)
  }

  /** The first m transactions are gone, and of the others some wait for this block no longer. */
  ghost predicate LessSome(q: seq<Trans>, q': seq<Trans>, lba: nat, m: nat) {
    && m <= |q| && |q'| == |q| - m
    && forall i :: 0 <= i < |q'| ==>
         q'[i] == q[i + m] || (q'[i].id == q[i + m].id && q'[i].bufs == Without(q[i + m].bufs, lba))
  }

  lemma {:induction false} LessMore(q: seq<Trans>, q0: seq<Trans>, q': seq<Trans>, lba: nat, m: nat, j: nat, m1: nat)
    requires LessSome(q, q0, lba, m) && j < |q0| && m1 <= |q0| && |q'| == |q0| - m1
    requires Pending(q0[j], lba)
    requires forall i :: 0 <= i < |q'| && i + m1 != j ==> q'[i] == q0[i + m1]
    requires m1 <= j ==> q'[j - m1].id == q0[j].id && q'[j - m1].bufs == Without(q0[j].bufs, lba)
    ensures LessSome(q, q', lba, m + m1)
  {
    forall i | 0 <= i < |q'|
      ensures q'[i] == q[i + m + m1]
              || (q'[i].id == q[i + m + m1].id && q'[i].bufs == Without(q[i + m + m1].bufs, lba))
    {
      if i + m1 == j && q0[j] != q[j + m] {
        SamePending(q0[j], q[j + m].(bufs := q0[j].bufs), lba);
        WithoutPending(q[j + m], q[j + m].bufs, lba, lba);
      }
    }
  }

  lemma {:induction false} SamePending(t: Trans, t': Trans, lba: nat)
    requires t.bufs == t'.bufs
    ensures Pending(t, lba) == Pending(t', lba)
  {
  }

  lemma {:induction false} LessAll(q: seq<Trans>, q': seq<Trans>, lba: nat, m: nat)
    requires LessSome(q, q', lba, m) && forall i :: 0 <= i < |q'| ==> !Pending(q'[i], lba)
    ensures LessOne(q, q', lba, m)
  {
    forall i | 0 <= i < |q'|
      ensures q'[i].bufs == Without(q[i + m].bufs, lba)
    {
      if q'[i] == q[i + m] {
        assert !Pending(q'[i], lba);
        WithoutNone(q[i + m].bufs, lba);
      }
    }
  }

  /** The owner, with the last waiting copy, is at own by now. If the first transaction of the queue was
      waiting for something, it still is. */
  ghost predicate Ending(q: seq<Trans>, q': seq<Trans>, lba: nat, own: nat, m: nat) {
    && LessSome(q, q', lba, m) && own < |q'| && Pending(q'[own], lba)
    && (forall i :: own < i < |q'| ==> !Pending(q'[i], lba))
    && (q[0].bufs != [] ==> q'[0].bufs != [])
  }

  lemma {:induction false} EndingFirst(q: seq<Trans>, lba: nat, k: nat)
    requires k < |q| && Pending(q[k], lba) && forall i :: k < i < |q| ==> !Pending(q[i], lba)
    ensures Ending(q, q, lba, k, 0)
  {
  }

  lemma {:induction false} EndingMore(q: seq<Trans>, q0: seq<Trans>, q': seq<Trans>, lba: nat, j: nat, own: nat,
          m: nat, m1: nat)
    requires Ending(q, q0, lba, own, m) && j < own && Pending(q0[j], lba)
    requires forall i :: 0 <= i < j ==> !Pending(q0[i], lba)
    requires m1 <= |q0| && |q'| == |q0| - m1 && forall i :: 0 <= i < m1 && i != j ==> q0[i].bufs == []
    requires forall i :: 0 <= i < |q'| && i + m1 != j ==> q'[i] == q0[i + m1]
    requires m1 <= j ==> q'[j - m1].id == q0[j].id && q'[j - m1].bufs == Without(q0[j].bufs, lba)
    requires m1 <= j ==> !Pending(q'[j - m1], lba)
    requires m1 > 0 || j == 0 ==> q' != [] ==> q'[0].bufs != []
    ensures m1 <= own < m1 + |q'| && q'[own - m1] == q0[own] && Ending(q, q', lba, own - m1, m + m1)
    ensures forall i :: 0 <= i <= j - m1 ==> !Pending(q'[i], lba)
    ensures exists i :: 0 <= i < |q'| && Pending(q'[i], lba)
  {
    hide Pending, Without;
    PendingMoved(q0, q', lba, j, own, m1);
    LessMore(q, q0, q', lba, m, j, m1);
    assert Pending(q'[own - m1], lba);
  }

  lemma {:induction false} EndingLast(q: seq<Trans>, q0: seq<Trans>, q': seq<Trans>, lba: nat, own: nat, m: nat,
          m1: nat)
    requires Ending(q, q0, lba, own, m) && forall i :: 0 <= i < own ==> !Pending(q0[i], lba)
    requires m1 <= |q0| && |q'| == |q0| - m1 && (m1 > 0 ==> own + m == 0)
    requires forall i :: 0 <= i < |q'| && i + m1 != own ==> q'[i] == q0[i + m1]
    requires m1 <= own ==> q'[own - m1].id == q0[own].id && q'[own - m1].bufs == Without(q0[own].bufs, lba)
    requires m1 <= own ==> !Pending(q'[own - m1], lba)
    ensures m + m1 <= |q| && LessOne(q, q', lba, m + m1) && forall i :: 0 <= i < |q'| ==> !Pending(q'[i], lba)
    ensures own + m > 0 && q[0].bufs != [] ==> own == 0 || (q' != [] && q'[0].bufs != [])
  {
    hide Pending, Without;
    NoneLeft(q0, q', lba, own, m1);
    LessMore(q, q0, q', lba, m, own, m1);
    LessAll(q, q', lba, m + m1);
  }

  /** After the last pending copy was taken off, none is left. */
  lemma {:induction false} NoneLeft(q: seq<Trans>, q': seq<Trans>, lba: nat, j: nat, m: nat)
    requires j < |q| && m <= |q| && |q'| == |q| - m
    requires forall i :: 0 <= i < |q| && i != j ==> !Pending(q[i], lba)
    requires forall i :: 0 <= i < |q'| && i + m != j ==> q'[i] == q[i + m]
    requires m <= j ==> !Pending(q'[j - m], lba)
    ensures forall i :: 0 <= i < |q'| ==> !Pending(q'[i], lba)
  {
    forall i | 0 <= i < |q'|
      ensures !Pending(q'[i], lba)
    {
      if i + m != j {
        assert q'[i] == q[i + m];
      }
    }
  }

  lemma {:induction false} WithoutShorter(bufs: seq<Buf>, lba: nat, i: nat)
    requires i < |bufs| && bufs[i].lba == lba
    ensures |Without(bufs, lba)| < |bufs|
    decreases |bufs|
  {
    if i > 0 {
      WithoutShorter(bufs[1..], lba, i - 1);
    }
  }

  /** Fewer buffers wait, none of them anew. */
  lemma {:induction false} CachedLess(q: seq<Trans>, q': seq<Trans>, lba: nat, m: nat, want: seq<Block>,
          cache: map<nat, Block>, taken: set<nat>)
    requires Cached(q, want, cache, taken) && q != [] && m <= |q| && |q'| == |q| - m
    requires forall i :: 0 <= i < |q'| && i + m != 0 ==> q'[i] == q[i + m]
    requires m == 0 ==> q'[0].bufs == Without(q[0].bufs, lba)
    ensures Cached(q', want, cache, taken)
  {
    hide Flushable, Without, Pending;
    forall k, j | 0 <= k < |q'| && 0 <= j < |q'[k].bufs| && q'[k].bufs[j].lba < |want|
      ensures LaterCopy(q', k, q'[k].bufs[j].lba) || Flushable(q'[k].bufs[j].lba, want, cache, taken)
    {
      var b := q'[k].bufs[j];
      if k + m != 0 {
        assert b == q[k + m].bufs[j];
      } else {
        var i := WithoutFrom(q[0].bufs, lba, j);
        assert b == q[0].bufs[i];
      }
      if l :| k + m < l < |q| && Pending(q[l], b.lba) {
        assert q'[l - m] == q[l];
      }
    }
  }

  /** The work has the same writes, with the open descriptor possibly closed. */
  ghost predicate SameWork(work: Work, work0: Work) {
    || (work.ps == work0.ps && work.cur == work0.cur && work.ws == work0.ws)
    || (work.ps == work0.ps + [Data(work0.ws)] && work.cur == [] && work.ws == [])
  }

  /** One more write, with the others where they were. */
  ghost predicate WorkOn(work: Work, work0: Work) {
    |Logged(work)| == |Logged(work0)| + 1 && forall i {:trigger PlaceIn(work0, i)} :: 0 <= i < |Logged(work0)| ==>
      PlaceIn(work, i) == PlaceIn(work0, i)
  }

  lemma {:induction false} CopyAtMore(ps: seq<Part>, ws: seq<Write>, i: nat)
    requires i < |Writes(ps) + ws|
    ensures Writes(ps + [Data(ws)]) == Writes(ps) + ws
    ensures CopyAt(ps + [Data(ws)], i) == if i < |Writes(ps)| then CopyAt(ps, i)
                                          else PartsLen(ps) + 1 + (i - |Writes(ps)|)
    decreases |ps|
  {
    WritesMore(ps, ws);
    var qs := ps + [Data(ws)];
    if ps == [] {
      assert qs[0] == Data(ws);
    } else {
      var n := if ps[0].Data? then |ps[0].writes| else 0;
      assert qs[1..] == ps[1..] + [Data(ws)] && qs[0] == ps[0];
      WritesMore(ps[1..], ws);
      if i >= n {
        CopyAtMore(ps[1..], ws, i - n);
      }
    }
  }

  /** Closing the descriptor moves no copy. */
  lemma {:induction false} PlacesSame(work: Work, work0: Work)
    requires SameWork(work, work0)
    ensures Logged(work) == Logged(work0)
    ensures forall i {:trigger PlaceIn(work0, i)} :: 0 <= i < |Logged(work0)| ==> PlaceIn(work, i) == PlaceIn(work0, i)
  {
    if work.ps != work0.ps {
      WritesMore(work0.ps, work0.ws);
      forall i | 0 <= i < |Logged(work0)|
        ensures PlaceIn(work, i) == PlaceIn(work0, i)
      {
        CopyAtMore(work0.ps, work0.ws, i);
      }
    }
  }

  lemma {:induction false} PlacesOn(work0: Work, work1: Work, work: Work, x: Write)
    requires SameWork(work1, work0) && work.ps == work1.ps && work.ws == work1.ws + [x]
    ensures Logged(work) == Logged(work0) + [x] && WorkOn(work, work0)
    ensures PlaceIn(work, |Logged(work0)|) == PartsLen(work1.ps) + 1 + |work1.ws|
  {
    PlacesSame(work1, work0);
    WritesGlue(Writes(work1.ps), work1.ws, [x]);
    hide Writes, PartsLen, CopyAt;
    forall i | 0 <= i < |Logged(work0)|
      ensures PlaceIn(work, i) == PlaceIn(work0, i)
    {
      assert PlaceIn(work1, i) == PlaceIn(work0, i);
    }
  }

  /** An open descriptor in the ring from a later start. */
  lemma {:induction false} OpenSlid(wide: bool, log: seq<Block>, first: nat, start0: nat, q0: nat, start: nat, q: nat,
          p: nat, next: nat, desc: Block, at: nat, cur: seq<Tag>, ws: seq<Write>)
    requires Slid(|log|, first, start0, q0, start, q) && q0 + p + 1 + |ws| <= |log| - first
    requires Open(wide, Unrolled(log, first, start0), q0 + p, next, desc, at, cur, ws)
    ensures first <= start < |log| && Open(wide, Unrolled(log, first, start), q + p, next, desc, at, cur, ws)
  {
    hide TagsFor, TagsAt, Slid;
    SlidLess(|log|, first, start0, q0, start, q);
    SlidLog(log, first, start0, q0, start, q, q0 + p + 1, q0 + p + 1 + |ws|);
  }

  lemma {:induction false} PlaceBelow(work: Work, i: nat)
    requires i < |Logged(work)|
    ensures PlaceIn(work, i) < PartsLen(work.ps) + if work.ws == [] then 0 else 1 + |work.ws|
  {
    hide CopyAt, Writes, PartsLen;
    if i < |Writes(work.ps)| {
      var c := CopyAt(work.ps, i);
      assert c < PartsLen(work.ps);
    }
  }

  /** The buffers stand for the logged writes, and know where their copies are. */
  ghost predicate Filed(bufs: seq<Buf>, work: Work, maxlen: nat, first: nat, start: nat, live: nat) {
    && first <= start < maxlen && SameBlocks(bufs, Logged(work))
    && forall i {:trigger bufs[i]} :: 0 <= i < |bufs| ==>
         live + PlaceIn(work, i) < maxlen - first
             && bufs[i].jbdLba == Pos(first, maxlen, start, live + PlaceIn(work, i))
  }

  /** One more buffer was logged, while the start of the log may have moved on. */
  lemma {:induction false} FiledMore(bufs: seq<Buf>, work0: Work, work: Work, buf: Buf, x: Write, maxlen: nat,
          first: nat, start0: nat, live0: nat, start: nat, live: nat)
    requires Slid(maxlen, first, start0, live0, start, live) && Filed(bufs, work0, maxlen, first, start0, live0)
    requires Logged(work) == Logged(work0) + [x] && WorkOn(work, work0) && buf.lba == x.lba
    requires first <= start < maxlen && live + PlaceIn(work, |Logged(work0)|) < maxlen - first
    requires buf.jbdLba == Pos(first, maxlen, start, live + PlaceIn(work, |Logged(work0)|))
    ensures Filed(bufs + [buf], work, maxlen, first, start, live)
  {
    hide Logged, PlaceIn, Pos, Slid;
    OneMore(bufs, Logged(work0), buf, x);
    SlidLess(maxlen, first, start0, live0, start, live);
    forall i | 0 <= i < |bufs|
      ensures live + PlaceIn(work, i) < maxlen - first
      ensures bufs[i].jbdLba == Pos(first, maxlen, start, live + PlaceIn(work, i))
    {
      var b := bufs[i];
      SlidPos(maxlen, first, start0, live0, start, live, PlaceIn(work0, i));
      assert PlaceIn(work, i) == PlaceIn(work0, i);
    }
    assert |bufs| == |Logged(work0)|;
  }

  lemma {:induction false} FiledSame(bufs: seq<Buf>, work0: Work, work: Work, maxlen: nat, first: nat, start: nat,
          live: nat)
    requires Filed(bufs, work0, maxlen, first, start, live)
    requires work.ps == work0.ps + [Data(work0.ws)] && work.cur == [] && work.ws == []
    ensures Filed(bufs, work, maxlen, first, start, live)
  {
    hide Logged, PlaceIn, Pos;
    PlacesSame(work, work0);
    forall i | 0 <= i < |bufs|
      ensures live + PlaceIn(work, i) < maxlen - first
              && bufs[i].jbdLba == Pos(first, maxlen, start, live + PlaceIn(work, i))
    {
      var b := bufs[i];
      assert PlaceIn(work, i) == PlaceIn(work0, i);
    }
  }

  lemma {:induction false} OnDiskMore(q: seq<Trans>, n: nat, t: Trans)
    requires OnDisk(q, n) && forall j {:trigger t.bufs[j]} :: 0 <= j < |t.bufs| ==> t.bufs[j].lba < n
    ensures OnDisk(q + [t], n)
  {
    forall k, j | 0 <= k < |q + [t]| && 0 <= j < |(q + [t])[k].bufs|
      ensures (q + [t])[k].bufs[j].lba < n
    {
      if k < |q| {
        assert (q + [t])[k].bufs[j] == q[k].bufs[j];
      } else {
        assert (q + [t])[k].bufs[j] == t.bufs[j];
      }
    }
  }

  /** The buffers of the transaction as the queue wants them, seen from where the log starts by now. */
  lemma {:induction false} BufsFiled(items: seq<Item>, bufs: seq<Buf>, ps: seq<Part>, maxlen: nat, first: nat,
          start0: nat, live0: nat, start: nat, live: nat, n: nat)
    requires Slid(maxlen, first, start0, live0, start, live)
             && Filed(bufs, Work(ps, [], []), maxlen, first, start0, live0)
    requires Writes(ps) == Dirty(items) && forall i, j :: 0 <= i < j < |items| ==> items[i].lba != items[j].lba
    requires forall k :: 0 <= k < |items| ==> items[k].lba < n
    ensures first <= start < maxlen && SameBlocks(bufs, Writes(ps)) && Distinct(bufs)
    ensures forall j {:trigger bufs[j]} :: 0 <= j < |bufs| ==>
              bufs[j].lba < n && CopyOf(bufs[j], ps, live, first, maxlen, start)
  {
    hide Slid, Pos, CopyOf, Dirty, CopyAt, Writes;
    DirtyDistinct(items);
    SlidLess(maxlen, first, start0, live0, start, live);
    var work := Work(ps, [], []);
    assert Logged(work) == Writes(ps);
    forall j | 0 <= j < |bufs|
      ensures bufs[j].lba < n && CopyOf(bufs[j], ps, live, first, maxlen, start)
    {
      var i := DirtyFrom(items, j);
      assert bufs[j].lba == Writes(ps)[j].lba;
      assert live0 + PlaceIn(work, j) < maxlen - first
             && bufs[j].jbdLba == Pos(first, maxlen, start0, live0 + PlaceIn(work, j));
      CopyIs(bufs[j], ps, live0, first, maxlen, start0, j);
      CopySlid(bufs[j], ps, first, maxlen, start0, live0, start, live);
    }
  }

  lemma {:induction false} CopyIs(b: Buf, r: Rec, place: nat, first: nat, maxlen: nat, start: nat, i: nat)
    requires first <= start < maxlen && i < |Writes(r)| && Writes(r)[i].lba == b.lba && LastOne(Writes(r), i)
    requires place + CopyAt(r, i) < maxlen - first && b.jbdLba == Pos(first, maxlen, start, place + CopyAt(r, i))
    ensures CopyOf(b, r, place, first, maxlen, start)
  {
  }

  /** The buffers can be logged: they are whole blocks of the device, not the one with the superblock, which
      is written directly, and their numbers fit into a tag. */
  ghost predicate Loggable(items: seq<Item>, wide: bool, w: nat, n: nat) {
    forall k :: 0 <= k < |items| ==> |items[k].data| == w && Fits(wide, items[k].lba) && 0 < items[k].lba < n
  }

  lemma {:induction false} LoggableOn(items: seq<Item>, wide: bool, w: nat, n: nat)
    requires Loggable(items, wide, w, n)
    ensures forall k :: 0 <= k < |items| ==> items[k].lba < n
  {
  }

  lemma {:induction false} EscapeIs(data: Block)
    requires |data| > 0
    ensures Escape(data) == if data[0] == MAGIC then data[0 := 0] else data
  {
  }
}
