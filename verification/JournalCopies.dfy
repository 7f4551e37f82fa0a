/** Where in the log the transactions of the checkpoint queue and the copies of their blocks lie. */
module JournalCopies {
  import opened Common
  import opened JournalTags
  import opened JournalLog
  import opened JournalRing
  import opened JournalCrash
  import opened JournalGrow
  import opened JournalDisk
  import opened JournalWriter
  import opened JournalQueue

  // ---- the arcs of the ring ----

  /** A log block of a transaction in the queue lies between its start and the next one's. */
  lemma {:induction false} ArcAt(q: seq<Trans>, live: seq<Rec>, first: nat, maxlen: nat, start: nat, id: nat, k: nat,
          i: nat)
    requires first <= start < maxlen && RecsLen(live) < maxlen - first && QueueAt(q, live, first, maxlen, start, id)
    requires k < |q| && i < q[k].allocBlocks
    ensures Place(live, k) <= Place(live, k) + i < Place(live, k) + PartsLen(live[k]) + 1 <= RecsLen(live)
    ensures first <= q[k].startIblock < maxlen && i <= maxlen - first
    ensures Pos(first, maxlen, q[k].startIblock, i) == Pos(first, maxlen, start, Place(live, k) + i)
  {
    PlaceNext(live, k);
    PosTurn(first, maxlen, start, Place(live, k), i);
  }

  /** Two transactions of the queue share no log block. */
  lemma {:induction false} ArcsApart(q: seq<Trans>, live: seq<Rec>, first: nat, maxlen: nat, start: nat, id: nat,
                                     k: nat, i: nat, l: nat, j: nat)
    requires first <= start < maxlen && RecsLen(live) < maxlen - first && QueueAt(q, live, first, maxlen, start, id)
    requires k < l < |q| && i < q[k].allocBlocks && j < q[l].allocBlocks
    ensures first <= q[k].startIblock < maxlen && first <= q[l].startIblock < maxlen && i <= maxlen - first
            && j <= maxlen - first
    ensures Pos(first, maxlen, q[k].startIblock, i) != Pos(first, maxlen, q[l].startIblock, j)
  {
    hide Pos, RecsLen, PartsLen, Place;
    ArcAt(q, live, first, maxlen, start, id, k, i);
    ArcAt(q, live, first, maxlen, start, id, l, j);
    PlaceUp(live, k, l);
    assert q[k].allocBlocks == PartsLen(live[k]) + 1;
    PosDistinct(first, maxlen, start, Place(live, k) + i, Place(live, l) + j);
  }

  lemma {:induction false} PlaceUp(live: seq<Rec>, k: nat, l: nat)
    requires k < l <= |live|
    ensures Place(live, k) + PartsLen(live[k]) + 1 <= Place(live, l)
    decreases l - k
  {
    PlaceNext(live, k);
    if k + 1 < l {
      PlaceUp(live, k + 1, l);
    }
  }

  /** A place behind the transactions of the queue is in none of them. */
  lemma {:induction false} ArcFree(q: seq<Trans>, live: seq<Rec>, first: nat, maxlen: nat, start: nat, id: nat, p: nat)
    requires first <= start < maxlen && RecsLen(live) < maxlen - first && QueueAt(q, live, first, maxlen, start, id)
    requires RecsLen(live) <= p < maxlen - first
    ensures InNoArc(q, first, maxlen, Pos(first, maxlen, start, p))
  {
    hide Pos, RecsLen, PartsLen, Place;
    forall k, i: nat | 0 <= k < |q| && i < q[k].allocBlocks
      ensures OutsideArc(q[k], i, first, maxlen, Pos(first, maxlen, start, p))
    {
      ArcAt(q, live, first, maxlen, start, id, k, i);
      PosDistinct(first, maxlen, start, Place(live, k) + i, p);
    }
  }

  ghost predicate OutsideArc(t: Trans, i: nat, first: nat, maxlen: nat, b: nat) {
    first <= t.startIblock < maxlen && i <= maxlen - first && b != Pos(first, maxlen, t.startIblock, i)
  }

  /** No transaction of the queue has this log block. */
  ghost predicate InNoArc(q: seq<Trans>, first: nat, maxlen: nat, b: nat) {
    forall k, i: nat {:trigger OutsideArc(q[k], i, first, maxlen, b)} :: 0 <= k < |q| && i < q[k].allocBlocks ==>
      OutsideArc(q[k], i, first, maxlen, b)
  }

  /** The log unrolled from a later start. */
  lemma {:induction false} SlidLog(log: seq<Block>, first: nat, start0: nat, q0: nat, start: nat, q: nat, a: nat,
          b: nat)
    requires Slid(|log|, first, start0, q0, start, q) && q0 - q <= a <= b <= |log| - first
    ensures first <= start < |log|
    ensures Unrolled(log, first, start)[a - (q0 - q)..b - (q0 - q)] == Unrolled(log, first, start0)[a..b]
  {
    Turned(log, first, start0, q0 - q);
    SliceShift(Unrolled(log, first, start0), Unrolled(log, first, start), q0 - q, a - (q0 - q), b - a);
  }

  lemma {:induction false} SliceShift(l: seq<Block>, l': seq<Block>, n: nat, a: nat, len: nat)
    requires |l'| == |l| && a + n + len <= |l| && forall j :: 0 <= j < |l| - n ==> l'[j] == l[j + n]
    ensures l'[a..a + len] == l[a + n..a + n + len]
  {
    var x, y := l'[a..a + len], l[a + n..a + n + len];
    forall j | 0 <= j < len
      ensures x[j] == y[j]
    {
      assert l'[a + j] == l[a + j + n];
    }
  }

  // ---- the copies ----

  /** Where in the log blocks of its transaction the copy of the i-th write lies. */
  function CopyAt(r: Rec, i: nat): (c: nat)
    requires i < |Writes(r)|
    ensures 0 < c < PartsLen(r)
  {
    var ws := if r[0].Data? then r[0].writes else [];
    if i < |ws| then 1 + i else PartLen(r[0]) + CopyAt(r[1..], i - |ws|)
  }

  /** No later write of the same transaction goes to the same block. */
  predicate LastOne(ws: seq<Write>, i: nat)
    requires i < |ws|
  {
    forall j :: i < j < |ws| ==> ws[j].lba != ws[i].lba
  }

  /** The buffer stands for a write of the transaction that begins at this place, and knows the log
      block of its copy. */
  ghost predicate CopyOf(b: Buf, r: Rec, place: nat, first: nat, maxlen: nat, start: nat)
    requires first <= start < maxlen
  {
    exists i {:trigger Writes(r)[i]} :: 0 <= i < |Writes(r)| && Writes(r)[i].lba == b.lba && LastOne(Writes(r), i)
      && place + CopyAt(r, i) < maxlen - first && b.jbdLba == Pos(first, maxlen, start, place + CopyAt(r, i))
  }

  ghost predicate CopiesAt(q: seq<Trans>, live: seq<Rec>, first: nat, maxlen: nat, start: nat)
    requires first <= start < maxlen
  {
    && |q| == |live|
    && forall k, j {:trigger q[k].bufs[j]} :: 0 <= k < |q| && 0 <= j < |q[k].bufs| ==>
         CopyOf(q[k].bufs[j], live[k], Place(live, k), first, maxlen, start)
  }

  lemma {:induction false} CopyTurned(b: Buf, r: Rec, place: nat, first: nat, maxlen: nat, start: nat, n: nat)
    requires first <= start < maxlen && n <= place && n < maxlen - first && CopyOf(b, r, place, first, maxlen, start)
    ensures first <= Pos(first, maxlen, start, n) < maxlen
    ensures CopyOf(b, r, place - n, first, maxlen, Pos(first, maxlen, start, n))
  {
    hide CopyAt, LastOne;
    var i :| 0 <= i < |Writes(r)| && Writes(r)[i].lba == b.lba && LastOne(Writes(r), i)
             && place + CopyAt(r, i) < maxlen - first && b.jbdLba == Pos(first, maxlen, start, place + CopyAt(r, i));
    PosTurn(first, maxlen, start, n, place - n + CopyAt(r, i));
    assert Writes(r)[i].lba == b.lba;
  }

  /** The copies seen from a later start. */
  lemma {:induction false} CopiesTail(q: seq<Trans>, live: seq<Rec>, first: nat, maxlen: nat, start: nat, m: nat,
          start': nat)
    requires first <= start < maxlen && m <= |live| && Place(live, m) < maxlen - first
             && CopiesAt(q, live, first, maxlen, start)
    requires start' == Pos(first, maxlen, start, Place(live, m))
    ensures first <= start' < maxlen && CopiesAt(q[m..], live[m..], first, maxlen, start')
  {
    hide CopyOf, Pos, RecsLen;
    PosTurn(first, maxlen, start, Place(live, m), 0);
    hide Place;
    var q', live' := q[m..], live[m..];
    forall k, j | 0 <= k < |q'| && 0 <= j < |q'[k].bufs|
      ensures CopyOf(q'[k].bufs[j], live'[k], Place(live', k), first, maxlen, start')
    {
      PlaceTail(live, m, k);
      assert q'[k] == q[m + k] && live'[k] == live[m + k];
      assert CopyOf(q[m + k].bufs[j], live[m + k], Place(live, m + k), first, maxlen, start);
      CopyTurned(q[m + k].bufs[j], live[m + k], Place(live, m + k), first, maxlen, start, Place(live, m));
    }
  }

  lemma {:induction false} CopySlid(b: Buf, r: Rec, first: nat, maxlen: nat, start0: nat, q0: nat, start: nat, q: nat)
    requires Slid(maxlen, first, start0, q0, start, q) && CopyOf(b, r, q0, first, maxlen, start0)
    ensures first <= start < maxlen && CopyOf(b, r, q, first, maxlen, start)
  {
    CopyTurned(b, r, q0, first, maxlen, start0, q0 - q);
  }

  lemma {:induction false} CopiesMore(q: seq<Trans>, live: seq<Rec>, r: Rec, first: nat, maxlen: nat, start: nat,
          t: Trans)
    requires first <= start < maxlen && CopiesAt(q, live, first, maxlen, start)
    requires forall j {:trigger t.bufs[j]} :: 0 <= j < |t.bufs| ==>
               CopyOf(t.bufs[j], r, RecsLen(live), first, maxlen, start)
    ensures CopiesAt(q + [t], live + [r], first, maxlen, start)
  {
    hide CopyOf, Pos, RecsLen;
    var q', live' := q + [t], live + [r];
    PlaceAll(live);
    forall k, j | 0 <= k < |q'| && 0 <= j < |q'[k].bufs|
      ensures CopyOf(q'[k].bufs[j], live'[k], Place(live', k), first, maxlen, start)
    {
      assert live'[..k] == live[..k];
      if k < |q| {
        assert q'[k] == q[k];
      }
    }
  }

  lemma {:induction false} WithoutFrom(bufs: seq<Buf>, lba: nat, j: nat) returns (i: nat)
    requires j < |Without(bufs, lba)|
    ensures i < |bufs| && bufs[i] == Without(bufs, lba)[j] && bufs[i].lba != lba
    decreases |bufs|
  {
    var head := if bufs[0].lba == lba then [] else [bufs[0]];
    if j < |head| {
      i := 0;
    } else {
      i := WithoutFrom(bufs[1..], lba, j - |head|);
      i := i + 1;
    }
  }

  lemma {:induction false} CopiesMarked(q: seq<Trans>, live: seq<Rec>, first: nat, maxlen: nat, start: nat, k: nat,
          lba: nat, q': seq<Trans>)
    requires first <= start < maxlen && CopiesAt(q, live, first, maxlen, start) && MarkedIn(q, k, lba, q')
    ensures CopiesAt(q', live, first, maxlen, start)
  {
    hide CopyOf, Place;
    forall l, j | 0 <= l < |q'| && 0 <= j < |q'[l].bufs|
      ensures CopyOf(q'[l].bufs[j], live[l], Place(live, l), first, maxlen, start)
    {
      if l == k {
        var i := WithoutFrom(q[k].bufs, lba, j);
        assert q'[l].bufs[j] == q[k].bufs[i];
      } else {
        assert q'[l] == q[l];
      }
    }
  }

  // ---- what a copy holds ----

  lemma {:induction false} PartCopy(wide: bool, l: seq<Block>, at: nat, id: nat, p: Part, i: nat) returns (t: Tag)
    requires PartAt(wide, l, at, id, p) && p.Data? && i < |p.writes|
    ensures at + 1 + i < |l| && Unescape(t, l[at + 1 + i]) == p.writes[i].data
  {
    hide ReadTags, Unescape;
    var tags := ReadTags(wide, l[at], HEADER);
    assert l[at + 1..at + 1 + |p.writes|][i] == l[at + 1 + i];
    t := tags[i];
  }

  lemma {:induction false} PartsCopy(wide: bool, l: seq<Block>, at: nat, id: nat, r: Rec, i: nat) returns (t: Tag)
    requires PartsAt(wide, l, at, id, r) && i < |Writes(r)|
    ensures at + CopyAt(r, i) < |l| && Unescape(t, l[at + CopyAt(r, i)]) == Writes(r)[i].data
    decreases |r|
  {
    hide PartAt, Unescape;
    var ws := if r[0].Data? then r[0].writes else [];
    if i < |ws| {
      t := PartCopy(wide, l, at, id, r[0], i);
    } else {
      t := PartsCopy(wide, l, at + PartLen(r[0]), id, r[1..], i - |ws|);
    }
  }

  lemma {:induction false} FirstParts(wide: bool, l: seq<Block>, at: nat, id: nat, rs: seq<Rec>)
    requires RecsAt(wide, l, at, id, rs) && rs != []
    ensures PartsAt(wide, l, at, id, rs[0])
  {
  }

  /** A copy of a block that does not begin with the magic number is the block itself. */
  lemma {:induction false} RecsCopy(wide: bool, l: seq<Block>, id: nat, live: seq<Rec>, k: nat, i: nat)
    requires RecsAt(wide, l, 0, id, live) && k < |live| && i < |Writes(live[k])|
    ensures var p, d := Place(live, k) + CopyAt(live[k], i), Writes(live[k])[i].data;
            p < |l| && (|d| > 0 && d[0] != MAGIC ==> l[p] == d)
  {
    hide PartsAt, CommitAt, RecsAt, RecsLen, Writes, CopyAt;
    RecsFrom(wide, l, 0, id, live, k);
    assert live[k..][0] == live[k];
    FirstParts(wide, l, Place(live, k), id + k, live[k..]);
    var t := PartsCopy(wide, l, Place(live, k), id + k, live[k], i);
  }

  lemma {:induction false} PutLast(ws: seq<Write>, i: nat, home: seq<Block>)
    requires i < |ws| && LastOne(ws, i) && ws[i].lba < |home|
    ensures Put(ws, home)[ws[i].lba] == ws[i].data
    decreases |ws|
  {
    var home1 := if ws[0].lba >= |home| then home else home[ws[0].lba := ws[0].data];
    if i == 0 {
      assert !Tagged(ws[1..], ws[0].lba) by {
        assert forall j :: 0 <= j < |ws[1..]| ==> ws[1..][j] == ws[j + 1];
      }
      PutAt(ws[1..], home1, home1, ws[0].lba);
    } else {
      assert LastOne(ws[1..], i - 1) by {
        assert forall j :: 0 <= j < |ws[1..]| ==> ws[1..][j] == ws[j + 1];
      }
      PutLast(ws[1..], i - 1, home1);
    }
  }

  /** The committed contents of a block are those of its last logged write. */
  lemma {:induction false} WantIs(hist: seq<Rec>, base: seq<Block>, done: nat, k: nat, i: nat)
    requires done + k < |hist| && i < |Writes(hist[done + k])| && LastOne(Writes(hist[done + k]), i)
    requires Writes(hist[done + k])[i].lba < |base| && !LoggedFrom(hist[done..], k + 1, Writes(hist[done + k])[i].lba)
    ensures Put(AllWrites(hist), base)[Writes(hist[done + k])[i].lba] == Writes(hist[done + k])[i].data
  {
    hide Writes, LastOne;
    var n, lba := done + k, Writes(hist[done + k])[i].lba;
    var r := hist[n];
    var a, b := hist[..n + 1], hist[n + 1..];
    assert hist == a + b && a == hist[..n] + [r];
    AllConcat(a, b);
    AllMore(hist[..n], r);
    PutMore(AllWrites(a), AllWrites(b), base);
    PutMore(AllWrites(hist[..n]), Writes(r), base);
    PutLast(Writes(r), i, Put(AllWrites(hist[..n]), base));
    TaggedAll(b, lba);
    LoggedSuffix(hist[done..], k + 1, lba);
    assert hist[done..][k + 1..] == b;
    PutAt(AllWrites(b), Put(AllWrites(a), base), Put(AllWrites(a), base), lba);
  }

  /** A copy that no later transaction in the log replaces has the committed contents of its block,
      unless these begin with the magic number. */
  lemma {:induction false} CopyIsWant(wide: bool, first: nat, w: nat, d: Disk, hist: seq<Rec>, base: seq<Block>,
          done: nat, next: nat, ps: seq<Part>, q: seq<Trans>, k: nat, j: nat)
    requires DiskOk(wide, first, w, d, hist, base, done, next, ps)
    requires CopiesAt(q, hist[done..], first, |d.log|, d.start) && k < |q| && j < |q[k].bufs|
    requires q[k].bufs[j].lba < |d.home| && !LoggedFrom(hist[done..], k + 1, q[k].bufs[j].lba)
    ensures var want, b := Put(AllWrites(hist), base), q[k].bufs[j];
            b.jbdLba < |d.log| && (|want[b.lba]| > 0 && want[b.lba][0] != MAGIC ==> d.log[b.jbdLba] == want[b.lba])
  {
    hide Put, Stale, PartsAt, Place, CopyAt, LastOne, RecsLen, Pos;
    var live, b := hist[done..], q[k].bufs[j];
    assert CopyOf(b, live[k], Place(live, k), first, |d.log|, d.start);
    var i :| 0 <= i < |Writes(live[k])| && Writes(live[k])[i].lba == b.lba && LastOne(Writes(live[k]), i)
             && Place(live, k) + CopyAt(live[k], i) < |d.log| - first
             && b.jbdLba == Pos(first, |d.log|, d.start, Place(live, k) + CopyAt(live[k], i));
    WantIs(hist, base, done, k, i);
    RecsCopy(wide, Unrolled(d.log, first, d.start), d.sequence, live, k, i);
    PosNext(first, |d.log|, d.start, Place(live, k) + CopyAt(live[k], i));
  }

  /** A block is written home the way its copy lies in the log, and leaves the log. This is right exactly if
      the block does not begin with the magic number. */
  lemma {:induction false} CopyHome(home: seq<Block>, hist: seq<Rec>, base: seq<Block>, done: nat, lba: nat)
    requires done <= |hist| && HomeOk(home, hist, base, done) && lba < |home| && !Tagged(AllWrites(hist[done..]), lba)
    ensures var want := Put(AllWrites(hist), base)[lba];
            HomeOk(home[lba := Escape(want)], hist, base, done) <==> |want| == 0 || want[0] != MAGIC
  {
    hide Tagged, AllWrites, Put;
    var want := Put(AllWrites(hist), base)[lba];
    if |want| > 0 && want[0] == MAGIC {
      assert Escape(want)[0] == 0;
    }
  }

  /** Block 1 was logged once, with contents that begin with the magic number. Another transaction has taken it
      over, so that its copy is written home and the transaction leaves the log: block 1 now begins with 0, and
      the log has nothing to put it right. */
  lemma {:induction false} CopyHomeExample(wide: bool, first: nat, d: Disk)
    requires 0 < first <= d.start < |d.log| && forall i :: 0 <= i < |d.log| ==> |d.log[i]| == 16
    requires forall i :: 0 <= i < |d.log| ==> Stale(d.log[i], d.sequence)
    requires d.home == [seq(16, _ => 0), Escape(seq(16, _ => MAGIC))]
    ensures var zero, want := seq(16, _ => 0), seq(16, _ => MAGIC);
            var hist, base := [[Data([Write(1, want)])]], [zero, zero];
            && HomeOk(base, hist, base, 0) && d.home == base[1 := Escape(want)] && !HomeOk(d.home, hist, base, 1)
            && !MomentOk(wide, first, Moment(d, 1), hist, base)
  {
    var zero, want := seq(16, _ => 0), seq(16, _ => MAGIC);
    var r, base := [Data([Write(1, want)])], [zero, zero];
    var hist := [r];
    assert r[1..] == [] && Writes(r) == [Write(1, want)] + Writes([]) == [Write(1, want)];
    assert hist[1..] == [] && AllWrites(hist) == Writes(r) + AllWrites([]) == [Write(1, want)];
    assert [Write(1, want)][1..] == [] && Put(AllWrites(hist), base) == base[1 := want];
    EscapedHome(hist, base, want, d.home);
    EffectPut(hist, base);
    NothingLogged(wide, first, 16, d);
    OkCrash(wide, first, 16, d, [], d.home, 0, d.sequence, []);
    assert hist[..1] == hist;
  }

  lemma {:induction false} EscapedHome(hist: seq<Rec>, base: seq<Block>, want: Block, home: seq<Block>)
    requires |hist| == 1 && |base| == 2 && AllWrites(hist) == [Write(1, want)] && hist[1..] == []
    requires Put(AllWrites(hist), base) == base[1 := want] && |want| > 0 && want[0] == MAGIC
    requires home == base[1 := Escape(want)]
    ensures HomeOk(base, hist, base, 0) && !HomeOk(home, hist, base, 1)
  {
    assert hist[0..] == hist && AllWrites(hist[1..]) == [];
    assert Tagged(AllWrites(hist), 1) by {
      assert AllWrites(hist)[0].lba == 1;
    }
    assert home[1][0] == 0 && !Tagged(AllWrites(hist[1..]), 1);
  }
}
