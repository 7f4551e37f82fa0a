/** What a crash may find on disk, and why recovery makes the committed state of it. */
module JournalCrash {
  import opened Common
  import opened JournalTags
  import opened JournalLog
  import opened JournalRing

  /** Everything on disk that matters: log ring, home blocks, and the journal superblock. */
  datatype Disk = Disk(log: seq<Block>, home: seq<Block>, start: nat, sequence: nat)

  /** The home blocks after mounting this disk. */
  ghost function Mounted(wide: bool, first: nat, d: Disk): seq<Block>
    requires d.start == 0 || first <= d.start < |d.log|
  {
    if d.start == 0 then d.home else Recovered(wide, Unrolled(d.log, first, d.start), d.sequence, d.home)
  }

  /** Only data is logged, nothing is revoked. Block 0 is never logged. */
  ghost predicate DataOnly(r: Rec) {
    forall i :: 0 <= i < |r| ==> r[i].Data? && NoZero(r[i].writes)
  }

  ghost predicate AllData(rs: seq<Rec>) {
    forall k :: 0 <= k < |rs| ==> DataOnly(rs[k])
  }

  /** All logged blocks of all transactions, in order. */
  ghost function AllWrites(rs: seq<Rec>): seq<Write> {
    if rs == [] then [] else Writes(rs[0]) + AllWrites(rs[1..])
  }

  ghost function Put(ws: seq<Write>, home: seq<Block>): (r: seq<Block>)
    ensures |r| == |home|
  {
    if ws == [] then home else Put(ws[1..], if ws[0].lba >= |home| then home else home[ws[0].lba := ws[0].data])
  }

  ghost predicate Tagged(ws: seq<Write>, lba: nat) {
    exists i :: 0 <= i < |ws| && ws[i].lba == lba
  }

  lemma {:induction false} NotRevoked(rs: seq<Rec>, lba: nat)
    requires AllData(rs)
    ensures !RevokedBy(rs, lba)
  {
  }

  lemma {:induction false} PutPlain(rs: seq<Rec>, ws: seq<Write>, home: seq<Block>)
    requires AllData(rs)
    ensures PutAll(rs, ws, home) == Put(ws, home)
    decreases |ws|
  {
    if ws != [] {
      NotRevoked(rs, ws[0].lba);
      PutPlain(rs, ws[1..], if ws[0].lba >= |home| then home else home[ws[0].lba := ws[0].data]);
    }
  }

  lemma {:induction false} PutMore(a: seq<Write>, b: seq<Write>, home: seq<Block>)
    ensures Put(a + b, home) == Put(b, Put(a, home))
    decreases |a|
  {
    if a == [] {
      assert a + b == b;
    } else {
      assert (a + b)[1..] == a[1..] + b;
      PutMore(a[1..], b, if a[0].lba >= |home| then home else home[a[0].lba := a[0].data]);
    }
  }

  /** Without revokes the effect of transactions is that of their writes. */
  lemma {:induction false} EffectPut(rs: seq<Rec>, home: seq<Block>)
    requires AllData(rs)
    ensures Effect(rs, home) == Put(AllWrites(rs), home)
    decreases |rs|
  {
    if rs != [] {
      PutPlain(rs, Writes(rs[0]), home);
      assert forall k :: 0 <= k < |rs[1..]| ==> rs[1..][k] == rs[k + 1];
      EffectPut(rs[1..], Put(Writes(rs[0]), home));
      PutMore(Writes(rs[0]), AllWrites(rs[1..]), home);
    }
  }

  lemma {:induction false} AllConcat(a: seq<Rec>, b: seq<Rec>)
    ensures AllWrites(a + b) == AllWrites(a) + AllWrites(b)
    decreases |a|
  {
    if a == [] {
      assert a + b == b;
    } else {
      assert (a + b)[1..] == a[1..] + b;
      AllConcat(a[1..], b);
    }
  }

  lemma {:induction false} TaggedTail(ws: seq<Write>, lba: nat)
    requires ws != []
    ensures Tagged(ws, lba) <==> ws[0].lba == lba || Tagged(ws[1..], lba)
  {
    if i :| 0 <= i < |ws| && ws[i].lba == lba {
      if i > 0 {
        assert ws[1..][i - 1] == ws[i];
      }
    }
    if i :| 0 <= i < |ws[1..]| && ws[1..][i].lba == lba {
      assert ws[i + 1] == ws[1..][i];
    }
  }

  /** A block that is written does not depend on what was there before, any other stays. */
  lemma {:induction false} PutAt(ws: seq<Write>, home: seq<Block>, other: seq<Block>, lba: nat)
    requires |home| == |other| && lba < |home|
    ensures Tagged(ws, lba) ==> Put(ws, home)[lba] == Put(ws, other)[lba]
    ensures !Tagged(ws, lba) ==> Put(ws, home)[lba] == home[lba]
    decreases |ws|
  {
    if ws != [] {
      var x, v := ws[0].lba, ws[0].data;
      var home1, other1 := if x >= |home| then home else home[x := v], if x >= |other| then other else other[x := v];
      PutAt(ws[1..], home1, other1, lba);
      TaggedTail(ws, lba);
      if x == lba && !Tagged(ws[1..], lba) {
        PutAt(ws[1..], other1, home1, lba);
      }
    }
  }

  /** Blocks no live transaction logs are home in their committed state. */
  ghost predicate HomeOk(home: seq<Block>, hist: seq<Rec>, base: seq<Block>, done: nat)
    requires done <= |hist|
  {
    && |home| == |base|
    && forall lba :: 0 <= lba < |home| && !Tagged(AllWrites(hist[done..]), lba) ==>
         home[lba] == Put(AllWrites(hist), base)[lba]
  }

  /** A disk a crash may leave: the log holds the transactions from done on and nothing else
      committed, and what is not in the log is at home. */
  ghost predicate CrashOk(wide: bool, first: nat, d: Disk, hist: seq<Rec>, base: seq<Block>, done: nat, ps: seq<Part>) {
    && 0 < first <= d.start < |d.log| && done <= |hist| && AllData(hist)
    && LogHolds(wide, Unrolled(d.log, first, d.start), d.sequence, hist[done..], ps)
    && HomeOk(d.home, hist, base, done)
  }

  /** Replaying the live transactions over such home blocks gives the committed state. */
  lemma {:induction false} LiveEnough(home: seq<Block>, hist: seq<Rec>, base: seq<Block>, done: nat)
    requires done <= |hist| && HomeOk(home, hist, base, done)
    ensures Put(AllWrites(hist[done..]), home) == Put(AllWrites(hist), base)
  {
    var live, all := AllWrites(hist[done..]), AllWrites(hist);
    var mid := Put(AllWrites(hist[..done]), base);
    assert hist == hist[..done] + hist[done..];
    AllConcat(hist[..done], hist[done..]);
    PutMore(AllWrites(hist[..done]), live, base);
    forall lba | 0 <= lba < |home|
      ensures Put(live, home)[lba] == Put(all, base)[lba]
    {
      PutAt(live, home, mid, lba);
    }
  }

  /** Recovery from such a disk makes exactly the committed state. */
  lemma {:induction false} CrashRecovers(wide: bool, first: nat, d: Disk, hist: seq<Rec>, base: seq<Block>, done: nat,
          ps: seq<Part>)
    requires CrashOk(wide, first, d, hist, base, done, ps)
    ensures Mounted(wide, first, d) == Effect(hist, base)
  {
    var l := Unrolled(d.log, first, d.start);
    assert AllData(hist[done..]) by {
      assert forall k :: 0 <= k < |hist[done..]| ==> hist[done..][k] == hist[done + k];
    }
    RecoveredEffect(wide, l, d.sequence, hist[done..], ps, d.home);
    EffectPut(hist[done..], d.home);
    EffectPut(hist, base);
    LiveEnough(d.home, hist, base, done);
  }
}
