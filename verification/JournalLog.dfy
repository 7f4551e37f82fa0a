/** What a log means: the transactions recorded in it, and what replaying them does.
    The log is seen from its start, in ring order. */
module JournalLog {
  import opened Common
  import opened JournalTags

  /** One logged block: its home and its contents. */
  datatype Write = Write(lba: nat, data: Block)

  /** What one descriptor block and the data blocks after it, or one revoke block, record. */
  datatype Part = Data(writes: seq<Write>) | Revoked(lbas: seq<nat>)

  type Rec = seq<Part>

  predicate IsHeader(b: Block, id: nat) {
    |b| >= HEADER && b[0] == MAGIC && b[2] == id
  }

  /** The original contents of a logged block. */
  function Unescape(t: Tag, b: Block): Block {
    if t.escape && |b| > 0 then b[0 := MAGIC] else b
  }

  /** The words of one revoked block number. */
  function RecordLen(wide: bool): nat {
    if wide then 2 else 1
  }

  /** How many block numbers a revoke block holds: its count word is in bytes, header included. */
  function RevokeCount(wide: bool, b: Block): nat {
    if |b| < 4 || b[3] < 16 then 0 else (b[3] - 16) / (4 * RecordLen(wide))
  }

  function RevokeEntry(wide: bool, b: Block, k: nat): nat {
    var at := 4 + k * RecordLen(wide);
    if at + RecordLen(wide) > |b| then 0 else if wide then b[at] * WORD + b[at + 1] else b[at]
  }

  function RevokeList(wide: bool, b: Block): seq<nat> {
    seq(RevokeCount(wide, b), k requires 0 <= k => RevokeEntry(wide, b, k))
  }

  // ---- the three passes, as functions on the log ----

  /** The id the scan has reached when it stops, starting at block i for transaction id. */
  function ScanFrom(wide: bool, log: seq<Block>, i: nat, id: nat): nat
    decreases |log| - i
  {
    if i >= |log| || !IsHeader(log[i], id) then id
    else if log[i][1] == DESCRIPTOR then ScanFrom(wide, log, i + |ReadTags(wide, log[i], HEADER)| + 1, id)
    else if log[i][1] == COMMIT then ScanFrom(wide, log, i + 1, id + 1)
    else if log[i][1] == REVOKE then ScanFrom(wide, log, i + 1, id)
    else id
  }

  function AddRevokes(table: map<nat, nat>, lbas: seq<nat>, id: nat): map<nat, nat>
    decreases |lbas|
  {
    if lbas == [] then table else AddRevokes(table[lbas[0] := id], lbas[1..], id)
  }

  /** The revoke table after the second pass, which ends before transaction stop. */
  function RevokesFrom(wide: bool, log: seq<Block>, i: nat, id: nat, stop: nat, table: map<nat, nat>): map<nat, nat>
    decreases |log| - i
  {
    if id >= stop || i >= |log| || !IsHeader(log[i], id) then table
    else if log[i][1] == DESCRIPTOR then
      RevokesFrom(wide, log, i + |ReadTags(wide, log[i], HEADER)| + 1, id, stop, table)
    else if log[i][1] == COMMIT then RevokesFrom(wide, log, i + 1, id + 1, stop, table)
    else if log[i][1] == REVOKE then
      RevokesFrom(wide, log, i + 1, id, stop, AddRevokes(table, RevokeList(wide, log[i]), id))
    else table
  }

  /** One logged block is put back unless it was revoked by the same or a later transaction. */
  function ReplayTag(table: map<nat, nat>, id: nat, t: Tag, b: Block, home: seq<Block>): seq<Block> {
    if (t.block in table && id <= table[t.block]) || t.block >= |home| then home
    else home[t.block := Unescape(t, b)]
  }

  function ReplayTags(table: map<nat, nat>, id: nat, tags: seq<Tag>, bs: seq<Block>, home: seq<Block>): seq<Block>
  {
    if tags == [] || bs == [] then home
    else ReplayTags(table, id, tags[1..], bs[1..], ReplayTag(table, id, tags[0], bs[0], home))
  }

  /** The home blocks after the third pass. */
  function ReplayFrom(wide: bool, log: seq<Block>, i: nat, id: nat, stop: nat, table: map<nat, nat>,
          home: seq<Block>): seq<Block>
    decreases |log| - i
  {
    if id >= stop || i >= |log| || !IsHeader(log[i], id) then home
    else if log[i][1] == DESCRIPTOR then
      var tags := ReadTags(wide, log[i], HEADER);
      ReplayFrom(wide, log, i + |tags| + 1, id, stop, table, ReplayTags(table, id, tags, log[i + 1..], home))
    else if log[i][1] == COMMIT then ReplayFrom(wide, log, i + 1, id + 1, stop, table, home)
    else if log[i][1] == REVOKE then ReplayFrom(wide, log, i + 1, id, stop, table, home)
    else home
  }

  /** Recovery from a log that starts with transaction id. */
  function Recovered(wide: bool, log: seq<Block>, id: nat, home: seq<Block>): seq<Block> {
    var stop := ScanFrom(wide, log, 0, id);
    ReplayFrom(wide, log, 0, id, stop, RevokesFrom(wide, log, 0, id, stop, map[]), home)
  }

  // ---- what the blocks of a log record ----

  function PartLen(p: Part): nat {
    1 + if p.Data? then |p.writes| else 0
  }

  function PartsLen(ps: seq<Part>): nat {
    if ps == [] then 0 else PartLen(ps[0]) + PartsLen(ps[1..])
  }

  function RecsLen(rs: seq<Rec>): nat {
    if rs == [] then 0 else PartsLen(rs[0]) + 1 + RecsLen(rs[1..])
  }

  /** From block i on there is one descriptor with its data blocks, or one revoke block, of transaction id. */
  ghost predicate PartAt(wide: bool, log: seq<Block>, i: nat, id: nat, p: Part) {
    && i + PartLen(p) <= |log| && IsHeader(log[i], id)
    && match p
       case Data(ws) =>
         && log[i][1] == DESCRIPTOR
         && TagsFor(ReadTags(wide, log[i], HEADER), log[i + 1..i + 1 + |ws|], ws)
       case Revoked(lbas) =>
         && log[i][1] == REVOKE && Revokes(wide, log[i], lbas)
  }

  /** A revoke block lists these block numbers, word by word: behind the header, the bytes it takes with 16 of
      its own, and then every number, of 32 bits or of 64 with the high word first. */
  ghost predicate Revokes(wide: bool, b: Block, lbas: seq<nat>) {
    if wide then
      && 4 + 2 * |lbas| <= |b| && b[3] == 16 + 8 * |lbas|
      && forall k :: 0 <= k < |lbas| ==> lbas[k] == b[4 + 2 * k] * 0x1_0000_0000 + b[5 + 2 * k]
    else
      && 4 + |lbas| <= |b| && b[3] == 16 + 4 * |lbas|
      && forall k :: 0 <= k < |lbas| ==> lbas[k] == b[4 + k]
  }

  /** What is read from a revoke block is what it lists. */
  lemma {:induction false} RevokesRead(wide: bool, b: Block, lbas: seq<nat>)
    requires Revokes(wide, b, lbas)
    ensures RevokeList(wide, b) == lbas && |b| >= 4 && 4 + RevokeCount(wide, b) * RecordLen(wide) <= |b|
  {
    assert RevokeCount(wide, b) == |lbas|;
  }

  /** A revoke block that lists one block. */
  lemma {:induction false} RevokeExample()
    ensures Revokes(false, [MAGIC, REVOKE, 2, 20, 7], [7]) && RevokeList(false, [MAGIC, REVOKE, 2, 20, 7]) == [7]
    ensures Revokes(true, [MAGIC, REVOKE, 2, 24, 1, 7], [WORD + 7])
            && RevokeList(true, [MAGIC, REVOKE, 2, 24, 1, 7]) == [WORD + 7]
  {
    RevokesRead(false, [MAGIC, REVOKE, 2, 20, 7], [7]);
    RevokesRead(true, [MAGIC, REVOKE, 2, 24, 1, 7], [WORD + 7]);
  }

  /** The tags and the logged blocks stand for these writes. */
  ghost predicate TagsFor(tags: seq<Tag>, bs: seq<Block>, ws: seq<Write>) {
    && |tags| == |bs| == |ws|
    && forall k :: 0 <= k < |ws| ==> tags[k].block == ws[k].lba && Unescape(tags[k], bs[k]) == ws[k].data
  }

  ghost predicate PartsAt(wide: bool, log: seq<Block>, i: nat, id: nat, ps: seq<Part>)
    decreases |ps|
  {
    ps != [] ==> PartAt(wide, log, i, id, ps[0]) && PartsAt(wide, log, i + PartLen(ps[0]), id, ps[1..])
  }

  ghost predicate CommitAt(log: seq<Block>, i: nat, id: nat) {
    i < |log| && IsHeader(log[i], id) && log[i][1] == COMMIT
  }

  /** From block i on there are these whole transactions, with ids from id on. */
  ghost predicate RecsAt(wide: bool, log: seq<Block>, i: nat, id: nat, rs: seq<Rec>)
    decreases |rs|
  {
    rs != [] ==>
      && PartsAt(wide, log, i, id, rs[0]) && CommitAt(log, i + PartsLen(rs[0]), id)
      && RecsAt(wide, log, i + PartsLen(rs[0]) + 1, id + 1, rs[1..])
  }

  /** The log holds exactly these transactions; the next one may have been begun, up to ps. */
  ghost predicate LogHolds(wide: bool, log: seq<Block>, id: nat, rs: seq<Rec>, ps: seq<Part>) {
    var e := RecsLen(rs);
    var q := e + PartsLen(ps);
    && RecsAt(wide, log, 0, id, rs) && PartsAt(wide, log, e, id + |rs|, ps)
    && q <= |log| && (q == |log| || !IsHeader(log[q], id + |rs|))
  }

  /** Block 0, with the file system superblock, is not logged. */
  ghost predicate NoSuper(ps: seq<Part>) {
    forall i :: 0 <= i < |ps| && ps[i].Data? ==> NoZero(ps[i].writes)
  }

  ghost predicate NoZero(ws: seq<Write>) {
    forall k :: 0 <= k < |ws| ==> ws[k].lba != 0
  }

  // ---- what replaying transactions should do ----

  predicate RevokedIn(r: Rec, lba: nat) {
    exists p :: p in r && p.Revoked? && lba in p.lbas
  }

  /** Some of these transactions revokes the block. */
  predicate RevokedBy(rs: seq<Rec>, lba: nat) {
    exists k :: 0 <= k < |rs| && RevokedIn(rs[k], lba)
  }

  /** All blocks a transaction logged, in order. */
  function Writes(r: Rec): seq<Write> {
    if r == [] then [] else (if r[0].Data? then r[0].writes else []) + Writes(r[1..])
  }

  /** Writes that none of the transactions rs revokes, put in place one after the other. */
  ghost function PutAll(rs: seq<Rec>, ws: seq<Write>, home: seq<Block>): seq<Block> {
    if ws == [] then home else
      PutAll(rs, ws[1..],
              if RevokedBy(rs, ws[0].lba) || ws[0].lba >= |home| then home else home[ws[0].lba := ws[0].data])
  }

  /** Every transaction in order, leaving out what it or a later one revokes. */
  ghost function Effect(rs: seq<Rec>, home: seq<Block>): seq<Block> {
    if rs == [] then home else Effect(rs[1..], PutAll(rs, Writes(rs[0]), home))
  }

  // ---- the passes read the records ----

  lemma {:induction false} ScanParts(wide: bool, log: seq<Block>, i: nat, id: nat, ps: seq<Part>)
    requires PartsAt(wide, log, i, id, ps)
    ensures ScanFrom(wide, log, i, id) == ScanFrom(wide, log, i + PartsLen(ps), id)
    decreases |ps|
  {
    if ps != [] {
      ScanParts(wide, log, i + PartLen(ps[0]), id, ps[1..]);
    }
  }

  lemma {:induction false} ScanRecs(wide: bool, log: seq<Block>, i: nat, id: nat, rs: seq<Rec>)
    requires RecsAt(wide, log, i, id, rs)
    ensures ScanFrom(wide, log, i, id) == ScanFrom(wide, log, i + RecsLen(rs), id + |rs|)
    decreases |rs|
  {
    if rs != [] {
      ScanParts(wide, log, i, id, rs[0]);
      ScanRecs(wide, log, i + PartsLen(rs[0]) + 1, id + 1, rs[1..]);
    }
  }

  /** The scan counts exactly the committed transactions. */
  lemma {:induction false} ScanAll(wide: bool, log: seq<Block>, id: nat, rs: seq<Rec>, ps: seq<Part>)
    requires LogHolds(wide, log, id, rs, ps)
    ensures ScanFrom(wide, log, 0, id) == id + |rs|
  {
    ScanRecs(wide, log, 0, id, rs);
    ScanParts(wide, log, RecsLen(rs), id + |rs|, ps);
  }

  // ---- the revoke table ----

  function RevokesIn(r: Rec): seq<nat> {
    if r == [] then [] else (if r[0].Revoked? then r[0].lbas else []) + RevokesIn(r[1..])
  }

  function RevokeTable(rs: seq<Rec>, id: nat, table: map<nat, nat>): map<nat, nat> {
    if rs == [] then table else RevokeTable(rs[1..], id + 1, AddRevokes(table, RevokesIn(rs[0]), id))
  }

  lemma {:induction false} AddConcat(table: map<nat, nat>, a: seq<nat>, b: seq<nat>, id: nat)
    ensures AddRevokes(table, a + b, id) == AddRevokes(AddRevokes(table, a, id), b, id)
    decreases |a|
  {
    if a == [] {
      assert a + b == b;
    } else {
      assert (a + b)[1..] == a[1..] + b;
      AddConcat(table[a[0] := id], a[1..], b, id);
    }
  }

  lemma {:induction false} RevokesPart(wide: bool, log: seq<Block>, i: nat, id: nat, stop: nat, p: Part,
          table: map<nat, nat>)
    requires PartAt(wide, log, i, id, p) && id < stop
    ensures RevokesFrom(wide, log, i, id, stop, table) ==
            RevokesFrom(wide, log, i + PartLen(p), id, stop,
                AddRevokes(table, if p.Revoked? then p.lbas else [], id))
  {
    hide ReadTags, TagsFor, Revokes, RevokeList;
    if p.Revoked? {
      RevokesRead(wide, log[i], p.lbas);
    } else {
      TagsCount(ReadTags(wide, log[i], HEADER), log[i + 1..i + 1 + |p.writes|], p.writes);
    }
  }

  lemma {:induction false} RevokesParts(wide: bool, log: seq<Block>, i: nat, id: nat, stop: nat, ps: seq<Part>,
          table: map<nat, nat>)
    requires PartsAt(wide, log, i, id, ps) && id < stop
    ensures RevokesFrom(wide, log, i, id, stop, table) ==
            RevokesFrom(wide, log, i + PartsLen(ps), id, stop, AddRevokes(table, RevokesIn(ps), id))
    decreases |ps|
  {
    hide *;
    if ps == [] {
      RevokesNone(id, table);
    } else {
      PartsFirst(wide, log, i, id, ps);
      var lbas := if ps[0].Revoked? then ps[0].lbas else [];
      RevokesPart(wide, log, i, id, stop, ps[0], table);
      AddConcat(table, lbas, RevokesIn(ps[1..]), id);
      RevokesParts(wide, log, i + PartLen(ps[0]), id, stop, ps[1..], AddRevokes(table, lbas, id));
    }
  }

  lemma {:induction false} RevokesNone(id: nat, table: map<nat, nat>)
    ensures PartsLen([]) == 0 && AddRevokes(table, RevokesIn([]), id) == table
  {
  }

  lemma {:induction false} PartsFirst(wide: bool, log: seq<Block>, i: nat, id: nat, ps: seq<Part>)
    requires PartsAt(wide, log, i, id, ps) && ps != []
    ensures PartAt(wide, log, i, id, ps[0]) && PartsAt(wide, log, i + PartLen(ps[0]), id, ps[1..])
    ensures PartsLen(ps) == PartLen(ps[0]) + PartsLen(ps[1..])
    ensures RevokesIn(ps) == (if ps[0].Revoked? then ps[0].lbas else []) + RevokesIn(ps[1..])
  {
  }

  lemma {:induction false} RevokesRecs(wide: bool, log: seq<Block>, i: nat, id: nat, rs: seq<Rec>, table: map<nat, nat>)
    requires RecsAt(wide, log, i, id, rs)
    ensures RevokesFrom(wide, log, i, id, id + |rs|, table) == RevokeTable(rs, id, table)
    decreases |rs|
  {
    hide PartsAt, PartsLen, RevokesIn, AddRevokes, ReadTags, RevokeList;
    if rs != [] {
      RevokesParts(wide, log, i, id, id + |rs|, rs[0], table);
      RevokesRecs(wide, log, i + PartsLen(rs[0]) + 1, id + 1, rs[1..], AddRevokes(table, RevokesIn(rs[0]), id));
    }
  }

  lemma {:induction false} AddAt(table: map<nat, nat>, lbas: seq<nat>, id: nat, lba: nat)
    ensures var t := AddRevokes(table, lbas, id);
            if lba in lbas then lba in t && t[lba] == id
            else (lba in t <==> lba in table) && (lba in table ==> t[lba] == table[lba])
    decreases |lbas|
  {
    if lbas != [] {
      AddAt(table[lbas[0] := id], lbas[1..], id, lba);
    }
  }

  lemma {:induction false} RevokesInIff(r: Rec, lba: nat)
    ensures lba in RevokesIn(r) <==> RevokedIn(r, lba)
    decreases |r|
  {
    if r != [] {
      RevokesInIff(r[1..], lba);
      if p :| p in r && p.Revoked? && lba in p.lbas {
        if p != r[0] {
          assert p in r[1..];
        }
      }
    }
  }

  /** The table tells for each block which transactions revoke it: one with this or a later id
      does if and only if the table entry is not before the id. */
  lemma {:induction false} TableMeans(rs: seq<Rec>, id: nat, table: map<nat, nat>, lba: nat, k: nat)
    requires k <= |rs|
    requires forall b :: b in table ==> table[b] < id
    ensures var t := RevokeTable(rs, id, table);
            (lba in t && id + k <= t[lba]) <==> RevokedBy(rs[k..], lba)
    decreases |rs|
  {
    if rs == [] {
    } else {
      var table1 := AddRevokes(table, RevokesIn(rs[0]), id);
      forall b | b in table1
        ensures table1[b] <= id
      {
        AddAt(table, RevokesIn(rs[0]), id, b);
      }
      if k > 0 {
        TableMeans(rs[1..], id + 1, table1, lba, k - 1);
        assert rs[1..][k - 1..] == rs[k..];
      } else {
        TableMeans(rs[1..], id + 1, table1, lba, 0);
        assert rs[1..][0..] == rs[1..] && rs[0..] == rs;
        RevokesInIff(rs[0], lba);
        AddAt(table, RevokesIn(rs[0]), id, lba);
        RevokedSplit(rs, lba);
        TableKeeps(rs[1..], id + 1, table1, lba);
      }
    }
  }

  lemma {:induction false} RevokedSplit(rs: seq<Rec>, lba: nat)
    requires rs != []
    ensures RevokedBy(rs, lba) <==> RevokedIn(rs[0], lba) || RevokedBy(rs[1..], lba)
  {
    if k :| 0 <= k < |rs| && RevokedIn(rs[k], lba) {
      if k > 0 {
        assert rs[1..][k - 1] == rs[k];
      }
    }
    if k :| 0 <= k < |rs[1..]| && RevokedIn(rs[1..][k], lba) {
      assert rs[k + 1] == rs[1..][k];
    }
  }

  /** Entries only grow. */
  lemma {:induction false} TableKeeps(rs: seq<Rec>, id: nat, table: map<nat, nat>, lba: nat)
    ensures var t := RevokeTable(rs, id, table);
            && (lba in table ==> lba in t)
            && (lba in t ==> (lba in table && t[lba] == table[lba]) || id <= t[lba])
    decreases |rs|
  {
    if rs != [] {
      AddAt(table, RevokesIn(rs[0]), id, lba);
      TableKeeps(rs[1..], id + 1, AddRevokes(table, RevokesIn(rs[0]), id), lba);
    }
  }

  // ---- the replay ----

  /** The table leaves out exactly what the transactions rs, the first of which is id, revoke. */
  ghost predicate TableFor(table: map<nat, nat>, id: nat, rs: seq<Rec>) {
    forall lba :: (lba in table && id <= table[lba]) <==> RevokedBy(rs, lba)
  }

  lemma {:induction false} PutConcat(rs: seq<Rec>, a: seq<Write>, b: seq<Write>, home: seq<Block>)
    ensures PutAll(rs, a + b, home) == PutAll(rs, b, PutAll(rs, a, home))
    decreases |a|
  {
    if a == [] {
      assert a + b == b;
    } else {
      assert (a + b)[1..] == a[1..] + b;
      PutConcat(rs, a[1..], b,
              if RevokedBy(rs, a[0].lba) || a[0].lba >= |home| then home else home[a[0].lba := a[0].data]);
    }
  }

  lemma {:induction false} ReplayPut(table: map<nat, nat>, id: nat, rs: seq<Rec>, tags: seq<Tag>, bs: seq<Block>,
          ws: seq<Write>, home: seq<Block>)
    requires TableFor(table, id, rs) && |tags| <= |bs| && TagsFor(tags, bs[..|tags|], ws)
    ensures ReplayTags(table, id, tags, bs, home) == PutAll(rs, ws, home)
    decreases |tags|
  {
    if tags != [] {
      var b := bs[..|tags|];
      assert b[0] == bs[0] && b[1..] == bs[1..][..|tags[1..]|];
      assert forall k :: 0 <= k < |ws[1..]| ==>
               tags[1..][k] == tags[k + 1] && b[1..][k] == b[k + 1] && ws[1..][k] == ws[k + 1];
      ReplayPut(table, id, rs, tags[1..], bs[1..], ws[1..], ReplayTag(table, id, tags[0], bs[0], home));
    }
  }

  lemma {:induction false} ReplayPart(wide: bool, log: seq<Block>, i: nat, id: nat, stop: nat, p: Part,
          table: map<nat, nat>, rs: seq<Rec>, home: seq<Block>)
    requires PartAt(wide, log, i, id, p) && id < stop && TableFor(table, id, rs)
    ensures ReplayFrom(wide, log, i, id, stop, table, home) ==
            ReplayFrom(wide, log, i + PartLen(p), id, stop, table, PutAll(rs, if p.Data? then p.writes else [], home))
  {
    hide TableFor, RevokedBy, GetTag, ReadTags, RevokeList, TagsFor, ReplayTags;
    if p.Data? {
      var ws, tags := p.writes, ReadTags(wide, log[i], HEADER);
      assert log[i + 1..][..|ws|] == log[i + 1..i + 1 + |ws|];
      TagsCount(tags, log[i + 1..i + 1 + |ws|], ws);
      ReplayPut(table, id, rs, tags, log[i + 1..], ws, home);
    }
  }

  lemma {:induction false} TagsCount(tags: seq<Tag>, bs: seq<Block>, ws: seq<Write>)
    requires TagsFor(tags, bs, ws)
    ensures |tags| == |bs| == |ws|
  {
  }

  lemma {:induction false} ReplayParts(wide: bool, log: seq<Block>, i: nat, id: nat, stop: nat, ps: seq<Part>,
          table: map<nat, nat>, rs: seq<Rec>, home: seq<Block>)
    requires PartsAt(wide, log, i, id, ps) && id < stop && TableFor(table, id, rs)
    ensures ReplayFrom(wide, log, i, id, stop, table, home) ==
            ReplayFrom(wide, log, i + PartsLen(ps), id, stop, table, PutAll(rs, Writes(ps), home))
    decreases |ps|
  {
    hide TableFor, ReplayFrom, PartAt, PutAll;
    if ps != [] {
      var ws := if ps[0].Data? then ps[0].writes else [];
      ReplayPart(wide, log, i, id, stop, ps[0], table, rs, home);
      PutConcat(rs, ws, Writes(ps[1..]), home);
      ReplayParts(wide, log, i + PartLen(ps[0]), id, stop, ps[1..], table, rs, PutAll(rs, ws, home));
    } else {
      PutNone(rs, home);
    }
  }

  lemma {:induction false} PutNone(rs: seq<Rec>, home: seq<Block>)
    ensures PutAll(rs, [], home) == home
  {
  }

  lemma {:induction false} ReplayCommit(wide: bool, log: seq<Block>, i: nat, id: nat, stop: nat, table: map<nat, nat>,
          home: seq<Block>)
    requires CommitAt(log, i, id) && id < stop
    ensures ReplayFrom(wide, log, i, id, stop, table, home) == ReplayFrom(wide, log, i + 1, id + 1, stop, table, home)
  {
  }

  lemma {:induction false} ReplayStop(wide: bool, log: seq<Block>, i: nat, id: nat, table: map<nat, nat>,
          home: seq<Block>)
    ensures ReplayFrom(wide, log, i, id, id, table, home) == home
  {
  }

  lemma {:induction false} ReplayRecs(wide: bool, log: seq<Block>, i: nat, id: nat, rs: seq<Rec>, table: map<nat, nat>,
          home: seq<Block>)
    requires RecsAt(wide, log, i, id, rs)
    requires forall k {:trigger rs[k..]} :: 0 <= k <= |rs| ==> TableFor(table, id + k, rs[k..])
    ensures ReplayFrom(wide, log, i, id, id + |rs|, table, home) == Effect(rs, home)
    decreases |rs|
  {
    hide TableFor, ReplayFrom, PartsAt, CommitAt, PutAll, Writes;
    if rs == [] {
      ReplayStop(wide, log, i, id, table, home);
    } else {
      assert rs[0..] == rs;
      var home1, c := PutAll(rs, Writes(rs[0]), home), i + PartsLen(rs[0]);
      ReplayParts(wide, log, i, id, id + |rs|, rs[0], table, rs, home);
      ReplayCommit(wide, log, c, id, id + |rs|, table, home1);
      forall k {:trigger rs[1..][k..]} | 0 <= k <= |rs[1..]|
        ensures TableFor(table, id + 1 + k, rs[1..][k..])
      {
        assert rs[1..][k..] == rs[k + 1..];
        assert TableFor(table, id + (k + 1), rs[k + 1..]);
      }
      ReplayRecs(wide, log, c + 1, id + 1, rs[1..], table, home1);
    }
  }

  /** The revoke table is right for every transaction from where it stands in the log. */
  lemma {:induction false} TableForAll(rs: seq<Rec>, id: nat)
    ensures forall k {:trigger rs[k..]} :: 0 <= k <= |rs| ==> TableFor(RevokeTable(rs, id, map[]), id + k, rs[k..])
  {
    hide RevokeTable, RevokedBy;
    var table := RevokeTable(rs, id, map[]);
    forall k {:trigger rs[k..]} | 0 <= k <= |rs|
      ensures TableFor(table, id + k, rs[k..])
    {
      forall lba
        ensures (lba in table && id + k <= table[lba]) <==> RevokedBy(rs[k..], lba)
      {
        TableMeans(rs, id, map[], lba, k);
      }
    }
  }

  /** Recovery does exactly what the committed transactions say, and nothing of the unfinished one. */
  lemma {:induction false} RecoveredEffect(wide: bool, log: seq<Block>, id: nat, rs: seq<Rec>, ps: seq<Part>,
          home: seq<Block>)
    requires LogHolds(wide, log, id, rs, ps)
    ensures Recovered(wide, log, id, home) == Effect(rs, home)
  {
    hide ReplayFrom, RecsAt, PartsAt, RevokeTable, TableFor, Effect;
    ScanAll(wide, log, id, rs, ps);
    RevokesRecs(wide, log, 0, id, rs, map[]);
    var table := RevokeTable(rs, id, map[]);
    TableForAll(rs, id);
    ReplayRecs(wide, log, 0, id, rs, table, home);
  }

  // ---- an example, word by word ----

  /** Two transactions in blocks of 11 words, from id 7 on: the first logs block 5 and, with its first word taken
      out, block 6; the second revokes block 5. */
  function ExampleLog(a: Block, b: Block): seq<Block>
    requires |b| == 11
  {
    [[0xc03b3998, 1, 7, 5, 0, 91, 92, 93, 94, 6, 11], a, b[0 := 0], [0xc03b3998, 2, 7],
     [0xc03b3998, 5, 8, 20, 5], [0xc03b3998, 2, 8], [0]]
  }

  function ExampleRecs(a: Block, b: Block): seq<Rec> {
    [[Data([Write(5, a), Write(6, b)])], [Revoked([5])]]
  }

  lemma {:induction false} ExampleTags()
    ensures ReadTags(false, [0xc03b3998, 1, 7, 5, 0, 91, 92, 93, 94, 6, 11], 3) ==
            [Tag(5, false, false, true), Tag(6, true, true, false)]
  {
    var d := [0xc03b3998, 1, 7, 5, 0, 91, 92, 93, 94, 6, 11];
    assert GetTag(false, d, 3) == Some(Tag(5, false, false, true));
    assert GetTag(false, d, 9) == Some(Tag(6, true, true, false));
  }

  lemma {:induction false} ExampleFirst(a: Block, b: Block)
    requires |b| == 11 && b[0] == 0xc03b3998
    ensures PartsAt(false, ExampleLog(a, b), 0, 7, ExampleRecs(a, b)[0]) && PartsLen(ExampleRecs(a, b)[0]) == 3
    ensures Writes(ExampleRecs(a, b)[0]) == [Write(5, a), Write(6, b)]
  {
    var log, ws := ExampleLog(a, b), [Write(5, a), Write(6, b)];
    ExampleTags();
    assert log[1..3] == [a, b[0 := 0]];
    assert b[0 := 0][0 := 0xc03b3998] == b;
    assert PartAt(false, log, 0, 7, Data(ws));
    assert ExampleRecs(a, b)[0][1..] == [];
  }

  lemma {:induction false} ExampleSecond(a: Block, b: Block)
    requires |b| == 11
    ensures PartsAt(false, ExampleLog(a, b), 4, 8, ExampleRecs(a, b)[1]) && PartsLen(ExampleRecs(a, b)[1]) == 1
    ensures Writes(ExampleRecs(a, b)[1]) == []
  {
    assert Revokes(false, [0xc03b3998, 5, 8, 20, 5], [5]);
    assert PartAt(false, ExampleLog(a, b), 4, 8, Revoked([5]));
    assert ExampleRecs(a, b)[1][1..] == [];
  }

  lemma {:induction false} ExampleEffect(a: Block, b: Block, home: seq<Block>)
    requires |home| == 8
    requires Writes(ExampleRecs(a, b)[0]) == [Write(5, a), Write(6, b)] && Writes(ExampleRecs(a, b)[1]) == []
    ensures Effect(ExampleRecs(a, b), home) == home[6 := b]
  {
    hide Writes;
    var rs, ws := ExampleRecs(a, b), [Write(5, a), Write(6, b)];
    assert RevokedIn(rs[1], 5) by {
      assert Revoked([5]) in rs[1] && 5 in [5];
    }
    assert RevokedBy(rs, 5) && !RevokedBy(rs, 6);
    assert ws[1..] == [Write(6, b)] && ws[1..][1..] == [];
    assert PutAll(rs, ws[1..], home) == PutAll(rs, ws[1..][1..], home[6 := b]) == home[6 := b];
    assert PutAll(rs, ws, home) == PutAll(rs, ws[1..], home);
    assert rs[1..] == [rs[1]] && rs[1..][1..] == [];
    assert Effect(rs[1..], home[6 := b]) == Effect([], home[6 := b]);
  }

  /** Recovery puts block 6 back with its first word, and leaves block 5 as it is. */
  lemma {:induction false} LogExample(a: Block, b: Block, home: seq<Block>)
    requires |b| == 11 && b[0] == 0xc03b3998 && |home| == 8
    ensures LogHolds(false, ExampleLog(a, b), 7, [[Data([Write(5, a), Write(6, b)])], [Revoked([5])]], [])
    ensures ScanFrom(false, ExampleLog(a, b), 0, 7) == 9
    ensures Recovered(false, ExampleLog(a, b), 7, home) == home[6 := b]
  {
    hide PartsAt, PartsLen, Writes, Effect, PutAll, Recovered, ScanFrom;
    var log, rs := ExampleLog(a, b), ExampleRecs(a, b);
    ExampleFirst(a, b);
    ExampleSecond(a, b);
    NoParts(log, 6, 9);
    assert rs[1..] == [rs[1]] && rs[1..][1..] == [];
    assert RecsAt(false, log, 4, 8, rs[1..]) && RecsAt(false, log, 0, 7, rs);
    assert RecsLen(rs[1..]) == 2 && RecsLen(rs) == 6;
    ScanAll(false, log, 7, rs, []);
    RecoveredEffect(false, log, 7, rs, [], home);
    ExampleEffect(a, b, home);
  }

  lemma {:induction false} NoParts(log: seq<Block>, i: nat, id: nat)
    ensures PartsAt(false, log, i, id, []) && PartsLen([]) == 0
  {
  }
}
