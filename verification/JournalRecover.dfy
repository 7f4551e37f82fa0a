/** Journal recovery as it runs: jbd_recover of lwext4/src/ext4_journal.c. */
module JournalRecover {
  import opened Common
  import opened JournalTags
  import opened JournalLog
  import opened JournalRing

  datatype Action = SCAN | REVOKES | RECOVER

  /** The walk over the headers never leaves the log. */
  ghost predicate InRange(wide: bool, log: seq<Block>, i: nat, id: nat)
    decreases |log| - i
  {
    && i <= |log|
    && (i < |log| && IsHeader(log[i], id) ==>
          && (log[i][1] == DESCRIPTOR ==>
                && (forall k :: 0 <= k < |ReadTags(wide, log[i], HEADER)| ==>
                      ReadTags(wide, log[i], HEADER)[k].block != 0)
                && InRange(wide, log, i + |ReadTags(wide, log[i], HEADER)| + 1, id))
          && (log[i][1] == COMMIT ==> InRange(wide, log, i + 1, id + 1))
          && (log[i][1] == REVOKE ==>
                && 4 + RevokeCount(wide, log[i]) * RecordLen(wide) <= |log[i]|
                && InRange(wide, log, i + 1, id)))
  }

  lemma {:induction false} PartsInRange(wide: bool, log: seq<Block>, i: nat, id: nat, ps: seq<Part>)
    requires PartsAt(wide, log, i, id, ps) && InRange(wide, log, i + PartsLen(ps), id) && NoSuper(ps)
    ensures InRange(wide, log, i, id)
    decreases |ps|
  {
    if ps != [] {
      assert NoSuper(ps[1..]) by {
        assert forall k :: 0 <= k < |ps[1..]| ==> ps[1..][k] == ps[k + 1];
      }
      PartsInRange(wide, log, i + PartLen(ps[0]), id, ps[1..]);
      PartInRange(wide, log, i, id, ps[0]);
    }
  }

  lemma {:induction false} PartInRange(wide: bool, log: seq<Block>, i: nat, id: nat, p: Part)
    requires PartAt(wide, log, i, id, p) && InRange(wide, log, i + PartLen(p), id) && (p.Data? ==> NoZero(p.writes))
    ensures InRange(wide, log, i, id)
  {
  }

  lemma {:induction false} RecsInRange(wide: bool, log: seq<Block>, i: nat, id: nat, rs: seq<Rec>)
    requires RecsAt(wide, log, i, id, rs) && InRange(wide, log, i + RecsLen(rs), id + |rs|)
    requires forall k :: 0 <= k < |rs| ==> NoSuper(rs[k])
    ensures InRange(wide, log, i, id)
    decreases |rs|
  {
    if rs != [] {
      assert forall k :: 0 <= k < |rs[1..]| ==> rs[1..][k] == rs[k + 1];
      RecsInRange(wide, log, i + PartsLen(rs[0]) + 1, id + 1, rs[1..]);
      PartsInRange(wide, log, i, id, rs[0]);
    }
  }

  /** A log the writer left can be walked. */
  lemma {:induction false} HoldsInRange(wide: bool, log: seq<Block>, id: nat, rs: seq<Rec>, ps: seq<Part>)
    requires LogHolds(wide, log, id, rs, ps) && NoSuper(ps) && forall k :: 0 <= k < |rs| ==> NoSuper(rs[k])
    ensures InRange(wide, log, 0, id)
  {
    PartsInRange(wide, log, RecsLen(rs), id + |rs|, ps);
    RecsInRange(wide, log, 0, id, rs);
  }

  lemma {:induction false} ReadStep(wide: bool, b: Block, at: nat)
    ensures var tags := ReadTags(wide, b, at);
            match GetTag(wide, b, at)
            case None => tags == []
            case Some(t) =>
              tags != [] && tags[0] == t
              && tags[1..] == (if t.last then [] else ReadTags(wide, b, at + TagSize(wide, t)))
  {
  }

  lemma {:induction false} ReplayStep(table: map<nat, nat>, id: nat, tags: seq<Tag>, l: seq<Block>, from: nat, n: nat,
          home: seq<Block>)
    requires n < |tags| && from + n < |l|
    ensures ReplayTags(table, id, tags[n..], l[from + n..], home) ==
            ReplayTags(table, id, tags[n + 1..], l[from + n + 1..], ReplayTag(table, id, tags[n], l[from + n], home))
    ensures tags[n] == tags[n..][0] && tags[n + 1..] == tags[n..][1..]
  {
    assert tags[n..][1..] == tags[n + 1..] && l[from + n..][1..] == l[from + n + 1..];
  }

  lemma {:induction false} TailOf(tags: seq<Tag>, n: nat)
    requires n <= |tags|
    ensures tags[n..] == [] <==> n == |tags|
    ensures n < |tags| ==> tags[n..][0] == tags[n] && tags[n..][1..] == tags[n + 1..]
  {
  }

  lemma {:induction false} ReplayNone(table: map<nat, nat>, id: nat, tags: seq<Tag>, bs: seq<Block>, home: seq<Block>)
    requires tags == []
    ensures ReplayTags(table, id, tags, bs, home) == home
  {
  }

  lemma {:induction false} TagsEnd(wide: bool, b: Block, at: nat)
    requires at >= |b| || GetTag(wide, b, at).None?
    ensures ReadTags(wide, b, at) == []
  {
  }

  lemma {:induction false} EntryIn(i: nat, n: nat, len: nat)
    requires i < n && (len == 1 || len == 2)
    ensures i * len + len <= n * len
  {
  }

  /** The walk stops at this block. */
  ghost predicate Ended(l: seq<Block>, i: nat, id: nat, stop: nat) {
    id >= stop || i >= |l| || !IsHeader(l[i], id) || (l[i][1] != DESCRIPTOR && l[i][1] != COMMIT && l[i][1] != REVOKE)
  }

  lemma {:induction false} EndHere(wide: bool, l: seq<Block>, i: nat, id: nat, stop: nat, table: map<nat, nat>,
          home: seq<Block>)
    requires Ended(l, i, id, stop)
    ensures RevokesFrom(wide, l, i, id, stop, table) == table && ReplayFrom(wide, l, i, id, stop, table, home) == home
    ensures ScanFrom(wide, l, i, id) == stop ==> id == stop
    ensures ScanFrom(wide, l, i, id) >= id
  {
    ScanGrows(wide, l, i, id);
  }

  lemma {:induction false} ScanGrows(wide: bool, l: seq<Block>, i: nat, id: nat)
    ensures ScanFrom(wide, l, i, id) >= id
    decreases |l| - i
  {
    if i < |l| && IsHeader(l[i], id) {
      if l[i][1] == DESCRIPTOR {
        ScanGrows(wide, l, i + |ReadTags(wide, l[i], HEADER)| + 1, id);
      } else if l[i][1] == COMMIT {
        ScanGrows(wide, l, i + 1, id + 1);
      } else if l[i][1] == REVOKE {
        ScanGrows(wide, l, i + 1, id);
      }
    }
  }

  /** One header further, in all three passes. */
  lemma {:induction false} StepHere(wide: bool, l: seq<Block>, i: nat, id: nat, stop: nat, table: map<nat, nat>,
          home: seq<Block>)
    requires i < |l| && IsHeader(l[i], id) && InRange(wide, l, i, id)
    ensures l[i][1] == DESCRIPTOR ==>
              var tags := ReadTags(wide, l[i], HEADER);
              && i + |tags| < |l| && (forall k :: 0 <= k < |tags| ==> tags[k].block != 0)
              && InRange(wide, l, i + |tags| + 1, id)
              && ScanFrom(wide, l, i, id) == ScanFrom(wide, l, i + |tags| + 1, id)
              && (id < stop ==>
                    && RevokesFrom(wide, l, i, id, stop, table) == RevokesFrom(wide, l, i + |tags| + 1, id, stop, table)
                    && ReplayFrom(wide, l, i, id, stop, table, home) ==
                       ReplayFrom(wide, l, i + |tags| + 1, id, stop, table,
                                  ReplayTags(table, id, tags, l[i + 1..], home)))
    ensures l[i][1] == COMMIT ==>
              && InRange(wide, l, i + 1, id + 1)
              && ScanFrom(wide, l, i, id) == ScanFrom(wide, l, i + 1, id + 1)
              && (id < stop ==>
                    && RevokesFrom(wide, l, i, id, stop, table) == RevokesFrom(wide, l, i + 1, id + 1, stop, table)
                    && ReplayFrom(wide, l, i, id, stop, table, home) ==
                       ReplayFrom(wide, l, i + 1, id + 1, stop, table, home))
    ensures l[i][1] == REVOKE ==>
              && 4 + RevokeCount(wide, l[i]) * RecordLen(wide) <= |l[i]|
              && InRange(wide, l, i + 1, id)
              && ScanFrom(wide, l, i, id) == ScanFrom(wide, l, i + 1, id)
              && (id < stop ==>
                    && RevokesFrom(wide, l, i, id, stop, table) ==
                       RevokesFrom(wide, l, i + 1, id, stop, AddRevokes(table, RevokeList(wide, l[i]), id))
                    && ReplayFrom(wide, l, i, id, stop, table, home) ==
                       ReplayFrom(wide, l, i + 1, id, stop, table, home))
  {
  }

  /** What is left of a pass from block i on, for transaction id: the table and the home blocks
      will be what a pass over the whole log makes of table0 and home0. */
  ghost predicate PassOk(wide: bool, l: seq<Block>, sequence: nat, stop: nat, action: Action, i: nat, id: nat,
                         table: map<nat, nat>, home: seq<Block>, table0: map<nat, nat>, home0: seq<Block>)
  {
    && i <= |l| && InRange(wide, l, i, id) && sequence <= id && ScanFrom(wide, l, i, id) == stop
    && (if action == REVOKES
        then RevokesFrom(wide, l, i, id, stop, table) == RevokesFrom(wide, l, 0, sequence, stop, table0)
        else table == table0)
    && (if action == RECOVER
        then ReplayFrom(wide, l, i, id, stop, table, home) == ReplayFrom(wide, l, 0, sequence, stop, table, home0)
        else home == home0)
  }

  /** The pass after one header, with the action taken. */
  lemma {:induction false} PassStep(wide: bool, l: seq<Block>, sequence: nat, stop: nat, action: Action, i: nat,
          id: nat, table: map<nat, nat>, home: seq<Block>, table0: map<nat, nat>, home0: seq<Block>)
    requires PassOk(wide, l, sequence, stop, action, i, id, table, home, table0, home0)
    requires i < |l| && IsHeader(l[i], id) && (action != SCAN ==> id < stop)
    ensures l[i][1] == DESCRIPTOR ==>
              var tags := ReadTags(wide, l[i], HEADER);
              && i + |tags| < |l| && (forall k :: 0 <= k < |tags| ==> tags[k].block != 0)
              && PassOk(wide, l, sequence, stop, action, i + |tags| + 1, id, table,
                        if action == RECOVER then ReplayTags(table, id, tags, l[i + 1..], home) else home,
                        table0, home0)
    ensures l[i][1] == COMMIT ==> PassOk(wide, l, sequence, stop, action, i + 1, id + 1, table, home, table0, home0)
    ensures l[i][1] == REVOKE ==>
              && 4 + RevokeCount(wide, l[i]) * RecordLen(wide) <= |l[i]|
              && PassOk(wide, l, sequence, stop, action, i + 1, id,
                        if action == REVOKES then AddRevokes(table, RevokeList(wide, l[i]), id) else table,
                        home, table0, home0)
  {
    hide InRange, ScanFrom, RevokesFrom, ReplayFrom, ReplayTags, ReadTags, RevokeList, AddRevokes;
    StepHere(wide, l, i, id, stop, table, home);
  }

  lemma {:induction false} PassStart(wide: bool, l: seq<Block>, sequence: nat, action: Action, table0: map<nat, nat>,
          home0: seq<Block>)
    requires InRange(wide, l, 0, sequence)
    ensures PassOk(wide, l, sequence, ScanFrom(wide, l, 0, sequence), action, 0, sequence, table0, home0, table0, home0)
    ensures ScanFrom(wide, l, 0, sequence) >= sequence
  {
    ScanGrows(wide, l, 0, sequence);
  }

  /** While a pass goes on, it finds the header it expects; where it stops, its work is done. */
  lemma {:induction false} PassFacts(wide: bool, l: seq<Block>, sequence: nat, stop: nat, action: Action, i: nat,
          id: nat, table: map<nat, nat>, home: seq<Block>, table0: map<nat, nat>, home0: seq<Block>)
    requires PassOk(wide, l, sequence, stop, action, i, id, table, home, table0, home0)
    ensures sequence <= id <= stop && (i < |l| && id < stop ==> IsHeader(l[i], id))
    ensures Ended(l, i, id, stop) ==>
              && id == stop
              && table == (if action == REVOKES then RevokesFrom(wide, l, 0, sequence, stop, table0) else table0)
              && home == (if action == RECOVER then ReplayFrom(wide, l, 0, sequence, stop, table, home0) else home0)
  {
    ScanGrows(wide, l, i, id);
    if Ended(l, i, id, stop) {
      EndHere(wide, l, i, id, stop, table, home);
    }
  }

  lemma {:induction false} PassBound(wide: bool, l: seq<Block>, sequence: nat, stop: nat, action: Action, i: nat,
          id: nat, table: map<nat, nat>, home: seq<Block>, table0: map<nat, nat>, home0: seq<Block>)
    requires PassOk(wide, l, sequence, stop, action, i, id, table, home, table0, home0)
    ensures i <= |l|
  {
  }

  class Recovery {
    /** 64-bit block numbers in tags and revoke records. */
    const wide: bool
    /** Journal superblock: the ring is [first, |log|), the oldest transaction is sequence, at start. */
    const first: nat
    var start: nat
    var sequence: nat
    var log: seq<Block>
    var home: seq<Block>
    /** struct recover_info. */
    var startTransId: nat
    var lastTransId: nat
    var thisTransId: nat
    var transCnt: nat
    var revokeRoot: map<nat, nat>

    /** A journal that has been loaded, before anything is replayed. */
    constructor (wide: bool, first: nat, log: seq<Block>, home: seq<Block>, start: nat, sequence: nat)
      ensures this.wide == wide && this.first == first && this.log == log && this.home == home
      ensures this.start == start && this.sequence == sequence && revokeRoot == map[]
    {
      this.wide, this.first, this.log, this.home := wide, first, log, home;
      this.start, this.sequence, this.revokeRoot := start, sequence, map[];
      this.startTransId, this.lastTransId, this.thisTransId, this.transCnt := 0, 0, 0, 0;
    }

    ghost predicate Ring()
      reads this`log, this`start
    {
      && first <= start < |log|
      && forall i :: 0 <= i < |log| ==> |log[i]| >= 16
    }

    ghost function Log(): seq<Block>
      requires Ring()
      reads this`log, this`start
    {
      Unrolled(log, first, start)
    }

    /** Walks over the tags of a descriptor, only moving the cursor: jbd_iterate_block_table with
        jbd_display_block_tags. */
    method SkipTags(b: Block, thisBlock: nat, ghost i: nat) returns (next: nat)
      requires first <= start < |log| && i + |ReadTags(wide, b, HEADER)| < |log| - first
               && thisBlock == Pos(first, |log|, start, i)
      ensures next == Pos(first, |log|, start, i + |ReadTags(wide, b, HEADER)|)
    {
      hide ReadTags, GetTag, Unrolled, Pos;
      ghost var tags := ReadTags(wide, b, HEADER);
      ghost var n := 0;
      var at := HEADER;
      next := thisBlock;
      while at < |b|
        invariant 0 <= n <= |tags| && HEADER <= at && tags[n..] == ReadTags(wide, b, at)
        invariant next == Pos(first, |log|, start, i + n)
      {
        ReadStep(wide, b, at);
        var t := GetTag(wide, b, at);
        if t.None? {
          break;
        }
        PosNext(first, |log|, start, i + n);
        next := Wrap(first, |log|, next + 1);
        n := n + 1;
        assert tags[n..] == tags[n - 1..][1..];
        if t.value.last {
          return;
        }
        at := at + TagSize(wide, t.value);
      }
      TagsEnd(wide, b, at);
    }

    /** Puts one logged block back, unless it was revoked: jbd_replay_block_tags. */
    method ReplayBlock(t: Tag, thisBlock: nat, id: nat) returns (next: nat)
      requires first < |log| && first <= thisBlock < |log| && t.block != 0
      requires |log[Wrap(first, |log|, thisBlock + 1)]| > 0
      modifies this`home
      ensures next == Wrap(first, |log|, thisBlock + 1)
      ensures home == ReplayTag(revokeRoot, id, t, log[next], old(home))
    {
      next := Wrap(first, |log|, thisBlock + 1);
      if t.block in revokeRoot && id as int - revokeRoot[t.block] <= 0 {
        return;
      }
      var data: Block := log[next];
      if t.block >= |home| {
        return;
      }
      if t.escape {
        data := data[0 := MAGIC];
      }
      home := home[t.block := data];
    }

    lemma {:induction false} LogFacts()
      requires Ring()
      ensures first <= start < |log| && |Log()| == |log| - first
      ensures forall k {:trigger Log()[k]} :: 0 <= k < |Log()| ==> Log()[k] == log[Pos(first, |log|, start, k)]
      ensures forall k :: 0 <= k < |log| ==> |log[k]| >= 16
    {
    }

    /** Puts all blocks of a descriptor back: jbd_iterate_block_table with jbd_replay_block_tags. */
    method ReplayDescriptor(b: Block, thisBlock: nat, id: nat, ghost i: nat) returns (next: nat)
      requires Ring() && i + |ReadTags(wide, b, HEADER)| < |log| - first && thisBlock == Pos(first, |log|, start, i)
      requires forall k :: 0 <= k < |ReadTags(wide, b, HEADER)| ==> ReadTags(wide, b, HEADER)[k].block != 0
      modifies this`home
      ensures next == Pos(first, |log|, start, i + |ReadTags(wide, b, HEADER)|)
      ensures home == ReplayTags(revokeRoot, id, ReadTags(wide, b, HEADER), Log()[i + 1..], old(home))
    {
      hide *;
      LogFacts();
      ghost var tags, l := ReadTags(wide, b, HEADER), Log();
      ghost var goal := ReplayTags(revokeRoot, id, tags, l[i + 1..], home);
      ghost var n := 0;
      assert l[i + 1 + n..] == l[i + 1..] && tags[n..] == tags;
      var at := HEADER;
      next := thisBlock;
      while at < |b|
        invariant 0 <= n <= |tags| && HEADER <= at && tags[n..] == ReadTags(wide, b, at)
        invariant next == Pos(first, |log|, start, i + n)
        invariant ReplayTags(revokeRoot, id, tags[n..], l[i + 1 + n..], home) == goal
      {
        ReadStep(wide, b, at);
        TailOf(tags, n);
        var t := GetTag(wide, b, at);
        if t.None? {
          break;
        }
        PosNext(first, |log|, start, i + n);
        PosNext(first, |log|, start, i + n + 1);
        ReplayStep(revokeRoot, id, tags, l, i + 1, n, home);
        assert l[i + 1 + n] == log[Pos(first, |log|, start, i + 1 + n)];
        next := ReplayBlock(t.value, next, id);
        n := n + 1;
        if t.value.last {
          break;
        }
        at := at + TagSize(wide, t.value);
      }
      if n < |tags| {
        TagsEnd(wide, b, at);
      }
      assert n == |tags|;
      ReplayNone(revokeRoot, id, tags[n..], l[i + 1 + n..], home);
    }

    /** Enters the block numbers of a revoke block into the table: jbd_build_revoke_tree. */
    method BuildRevokeTree(b: Block)
      requires |b| >= 4 && 4 + RevokeCount(wide, b) * RecordLen(wide) <= |b|
      modifies this`revokeRoot
      ensures revokeRoot == AddRevokes(old(revokeRoot), RevokeList(wide, b), thisTransId)
    {
      ghost var lbas := RevokeList(wide, b);
      var recordLen := RecordLen(wide);
      var nrEntries := if b[3] < 16 then 0 else (b[3] - 16) / (4 * recordLen);
      var i := 0;
      assert lbas[0..] == lbas;
      while i < nrEntries
        invariant 0 <= i <= nrEntries == |lbas|
        invariant AddRevokes(revokeRoot, lbas[i..], thisTransId) == AddRevokes(old(revokeRoot), lbas, thisTransId)
      {
        EntryIn(i, nrEntries, recordLen);
        var block := if wide then b[4 + i * recordLen] * WORD + b[4 + i * recordLen + 1] else b[4 + i * recordLen];
        assert lbas[i..][0] == lbas[i] == block && lbas[i..][1..] == lbas[i + 1..];
        revokeRoot := revokeRoot[block := thisTransId];
        i := i + 1;
      }
    }

    ghost predicate PassAt(action: Action, i: nat, id: nat, table0: map<nat, nat>, home0: seq<Block>)
      requires Ring()
      reads this
    {
      && PassOk(wide, Log(), sequence, Stop(), action, i, id, revokeRoot, home, table0, home0)
      && (if action == SCAN then transCnt == id - sequence else ScanDone())
    }

    /** The switch on the type of a header block in jbd_iterate_log. Unless the type is unknown,
        the cursor ends on the last block that belongs to the header, n - 1 blocks on. */
    method OneHeader(action: Action, thisBlock: nat, id: nat, ghost i: nat, ghost table0: map<nat, nat>,
            ghost home0: seq<Block>)
      returns (known: bool, next: nat, nextId: nat, ghost n: nat)
      requires Ring() && PassAt(action, i, id, table0, home0) && i < |Log()| && thisBlock == Pos(first, |log|, start, i)
      requires first <= thisBlock < |log| && Log()[i] == log[thisBlock] && IsHeader(log[thisBlock], id)
               && (action != SCAN ==> id < Stop())
      modifies this`thisTransId, this`transCnt, this`revokeRoot, this`home
      ensures known ==>
                && n > 0 && i + n <= |Log()| && next == Pos(first, |log|, start, i + n - 1)
                && PassAt(action, i + n, nextId, table0, home0)
      ensures !known ==> PassAt(action, i, id, table0, home0) && nextId == id && Ended(Log(), i, id, Stop())
    {
      hide PassOk, InRange, ScanFrom, RevokesFrom, ReplayFrom, ReplayTags, ReadTags, RevokeList, Pos, AddRevokes,
          Unrolled;
      var b := log[thisBlock];
      known, next, nextId, n := true, thisBlock, id, 1;
      PassStep(wide, Log(), sequence, Stop(), action, i, id, revokeRoot, home, table0, home0);
      if b[1] == DESCRIPTOR {
        n := |ReadTags(wide, b, HEADER)| + 1;
        if action == RECOVER {
          next := ReplayDescriptor(b, thisBlock, id, i);
        } else {
          next := SkipTags(b, thisBlock, i);
        }
      } else if b[1] == COMMIT {
        nextId := id + 1;
        if action == SCAN {
          transCnt := transCnt + 1;
        }
      } else if b[1] == REVOKE {
        if action == REVOKES {
          thisTransId := id;
          BuildRevokeTree(b);
        }
      } else {
        known := false;
      }
    }

    /** One turn of the loop in jbd_iterate_log. */
    method OneBlock(action: Action, thisBlock: nat, id: nat, ghost i: nat, ghost table0: map<nat, nat>,
            ghost home0: seq<Block>)
      returns (logEnd: bool, err: bool, next: nat, nextId: nat, ghost j: nat)
      requires Ring() && PassAt(action, i, id, table0, home0) && i < |Log()| && thisBlock == Pos(first, |log|, start, i)
      requires action != SCAN ==> transCnt > 0
      modifies this`thisTransId, this`transCnt, this`revokeRoot, this`home
      ensures !err && i <= j && PassAt(action, j, nextId, table0, home0)
      ensures action != SCAN ==> transCnt > 0
      ensures !logEnd ==> i < j < |Log()| && next == Pos(first, |log|, start, j)
      ensures logEnd ==> Ended(Log(), j, nextId, Stop())
    {
      hide InRange, ScanFrom, RevokesFrom, ReplayFrom, Pos, PassOk, Unrolled;
      logEnd, err, next, nextId, j := false, false, thisBlock, id, i;
      PosNext(first, |log|, start, i);
      LogAt(i);
      PassFacts(wide, Log(), sequence, Stop(), action, i, id, revokeRoot, home, table0, home0);
      if action != SCAN && id > lastTransId {
        logEnd := true;
      } else if log[thisBlock][0] != MAGIC {
        logEnd := true;
      } else if log[thisBlock][2] != id {
        err := action != SCAN;
        logEnd := true;
      } else {
        var known;
        ghost var n;
        known, next, nextId, n := OneHeader(action, thisBlock, id, i, table0, home0);
        if known {
          PosNext(first, |log|, start, i + n - 1);
          j := i + n;
        } else {
          logEnd := true;
        }
        next := Wrap(first, |log|, next + 1);
        if next == start {
          logEnd := true;
        }
      }
    }

    lemma {:induction false} LogAt(i: nat)
      requires Ring() && i < |Log()|
      ensures Log()[i] == log[Pos(first, |log|, start, i)]
    {
    }

    /** One pass over the log: jbd_iterate_log. */
    method IterateLog(action: Action) returns (err: bool)
      requires Ring() && InRange(wide, Log(), 0, sequence)
      requires action != SCAN ==> ScanDone()
      modifies this`startTransId, this`lastTransId, this`thisTransId, this`transCnt, this`revokeRoot, this`home
      ensures !err
      ensures ScanDone()
      ensures revokeRoot == if action == REVOKES then RevokesFrom(wide, Log(), 0, sequence, Stop(), old(revokeRoot))
                            else old(revokeRoot)
      ensures home == if action == RECOVER then ReplayFrom(wide, Log(), 0, sequence, Stop(), revokeRoot, old(home))
                      else old(home)
    {
      hide InRange, ScanFrom, RevokesFrom, ReplayFrom, Pos, PassOk, Unrolled;
      err := false;
      var transId: nat, thisBlock: nat, logEnd := sequence, start, false;
      if action == SCAN {
        transCnt := 0;
      } else if transCnt == 0 {
        logEnd := true;
      }
      ghost var i := 0;
      StartPos(first, |log|, start);
      PassStart(wide, Log(), sequence, action, old(revokeRoot), old(home));
      while !logEnd
        invariant !err && 0 <= i <= |Log()| && PassAt(action, i, transId, old(revokeRoot), old(home))
        invariant action != SCAN && !logEnd ==> transCnt > 0
        invariant !logEnd ==> i < |Log()| && thisBlock == Pos(first, |log|, start, i)
        invariant logEnd ==> Ended(Log(), i, transId, Stop())
        decreases |Log()| - i, !logEnd
      {
        PassBound(wide, Log(), sequence, Stop(), action, i, transId, revokeRoot, home, old(revokeRoot), old(home));
        logEnd, err, thisBlock, transId, i := OneBlock(action, thisBlock, transId, i, old(revokeRoot), old(home));
        PassBound(wide, Log(), sequence, Stop(), action, i, transId, revokeRoot, home, old(revokeRoot), old(home));
      }
      PassFacts(wide, Log(), sequence, Stop(), action, i, transId, revokeRoot, home, old(revokeRoot), old(home));
      if !err && action == SCAN {
        startTransId := sequence;
        if transId > sequence {
          lastTransId := transId - 1;
        } else {
          lastTransId := transId;
        }
      }
    }

    /** The id after the last committed transaction in the log. */
    ghost function Stop(): nat
      requires Ring()
      reads this
    {
      ScanFrom(wide, Log(), 0, sequence)
    }

    /** What the scan leaves in the recover_info. */
    ghost predicate ScanDone()
      requires Ring()
      reads this
    {
      && sequence <= Stop() && startTransId == sequence && transCnt == Stop() - sequence
      && lastTransId == if Stop() > sequence then Stop() - 1 else Stop()
    }

    /** Replays the journal: jbd_recover. start 0 means there is nothing to replay. The home blocks
        end up as the committed transactions rs say; of the unfinished one, ps, nothing is seen. */
    method Recover(ghost rs: seq<Rec>, ghost ps: seq<Part>) returns (err: bool)
      requires start != 0 ==> Ring() && LogHolds(wide, Log(), sequence, rs, ps)
      requires NoSuper(ps) && forall k :: 0 <= k < |rs| ==> NoSuper(rs[k])
      requires revokeRoot == map[]
      modifies this
      ensures !err && log == old(log)
      ensures start == 0 && (old(start) == 0 ==> home == old(home) && sequence == old(sequence))
      ensures old(start) != 0 ==>
                && home == Effect(rs, old(home))
                && sequence == old(sequence) + (if rs == [] then 0 else |rs| - 1)
    {
      hide RevokesFrom, ReplayFrom, InRange, LogHolds, Unrolled;
      err := false;
      if start == 0 {
        return;
      }
      HoldsInRange(wide, Log(), sequence, rs, ps);
      RecoveredEffect(wide, Log(), sequence, rs, ps, home);
      ScanAll(wide, Log(), sequence, rs, ps);
      err := IterateLog(SCAN);
      if err {
        return;
      }
      err := IterateLog(REVOKES);
      if err {
        return;
      }
      err := IterateLog(RECOVER);
      if !err {
        start := 0;
        sequence := lastTransId;
      }
      revokeRoot := map[];
    }
  }
}
