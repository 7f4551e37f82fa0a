/** One directory block as a chain of records: lwext4/src/ext4_dir.c. */
module DirBlock {

  /** A record: inode 0 means unused. The checksum tail looks like an unused record that may not
      be taken. */
  datatype DirRec = DirRec(inode: nat, name: string, recLen: nat, tail: bool)

  /** A directory entry, as the user sees it. */
  datatype DirEnt = DirEnt(name: string, inode: nat)

  /** Bytes a record for the name takes: header and name, rounded up to 4. */
  function Required(name: string): (r: nat)
    ensures |name| + 8 <= r < |name| + 12 && r % 4 == 0
  {
    (8 + |name| + 3) / 4 * 4
  }

  predicate RecOk(r: DirRec) {
    && r.recLen % 4 == 0 && r.recLen > 0
    && (r.inode != 0 ==> 0 < |r.name| <= 255 && Required(r.name) <= r.recLen && !r.tail)
  }

  function Total(rs: seq<DirRec>): nat {
    if rs == [] then 0 else Total(rs[..|rs| - 1]) + rs[|rs| - 1].recLen
  }

  /** The records are well formed and cover the block. */
  predicate Tiled(rs: seq<DirRec>, size: nat) {
    Total(rs) == size && forall i :: 0 <= i < |rs| ==> RecOk(rs[i])
  }

  predicate Holds(r: DirRec, e: DirEnt) {
    r.inode != 0 && r.name == e.name && r.inode == e.inode
  }

  /** How many live records hold the entry. */
  function Live(rs: seq<DirRec>, e: DirEnt): nat {
    if rs == [] then 0 else Live(rs[..|rs| - 1], e) + if Holds(rs[|rs| - 1], e) then 1 else 0
  }

  /** One entry more than before, and nothing else changed. */
  ghost predicate Added(rs: seq<DirRec>, rs': seq<DirRec>, e: DirEnt) {
    && LiveSize(rs') == LiveSize(rs) + Required(e.name)
    && forall x :: Live(rs', x) == Live(rs, x) + if x == e then 1 else 0
  }

  /** Bytes the live records need. */
  function LiveSize(rs: seq<DirRec>): nat {
    if rs == [] then 0 else
      LiveSize(rs[..|rs| - 1]) + var r := rs[|rs| - 1]; if r.inode != 0 then Required(r.name) else 0
  }

  lemma {:induction false} Concat(a: seq<DirRec>, b: seq<DirRec>)
    ensures Total(a + b) == Total(a) + Total(b) && LiveSize(a + b) == LiveSize(a) + LiveSize(b)
    decreases |b|
  {
    if b == [] {
      assert a + b == a;
    } else {
      var c := b[..|b| - 1];
      assert (a + b)[..|a + b| - 1] == a + c;
      Concat(a, c);
    }
  }

  lemma {:induction false} LiveConcat(a: seq<DirRec>, b: seq<DirRec>, e: DirEnt)
    ensures Live(a + b, e) == Live(a, e) + Live(b, e)
    decreases |b|
  {
    if b == [] {
      assert a + b == a;
    } else {
      var c := b[..|b| - 1];
      assert (a + b)[..|a + b| - 1] == a + c;
      LiveConcat(a, c, e);
    }
  }

  function Size(r: DirRec): nat {
    if r.inode != 0 then Required(r.name) else 0
  }

  /** The chain around its i-th record. */
  lemma {:induction false} Around(rs: seq<DirRec>, i: nat)
    requires i < |rs|
    ensures Total(rs) == Total(rs[..i]) + rs[i].recLen + Total(rs[i + 1..])
    ensures LiveSize(rs) == LiveSize(rs[..i]) + Size(rs[i]) + LiveSize(rs[i + 1..])
    ensures Total(rs[..i + 1]) == Total(rs[..i]) + rs[i].recLen
  {
    assert rs == rs[..i + 1] + rs[i + 1..];
    Concat(rs[..i + 1], rs[i + 1..]);
    assert rs[..i + 1][..i] == rs[..i];
  }

  lemma {:induction false} LiveAround(rs: seq<DirRec>, i: nat, e: DirEnt)
    requires i < |rs|
    ensures Live(rs, e) == Live(rs[..i], e) + (if Holds(rs[i], e) then 1 else 0) + Live(rs[i + 1..], e)
  {
    assert rs == rs[..i + 1] + rs[i + 1..];
    LiveConcat(rs[..i + 1], rs[i + 1..], e);
    assert rs[..i + 1][..i] == rs[..i];
  }

  /** Room for a new record in this one: an unused record that is large enough, or the end of a live one. */
  predicate HasRoom(r: DirRec, need: nat) {
    if r.inode == 0 then !r.tail && need <= r.recLen else Required(r.name) + need <= r.recLen
  }

  /** Some record has room. */
  predicate RoomIn(rs: seq<DirRec>, need: nat) {
    exists i :: 0 <= i < |rs| && HasRoom(rs[i], need)
  }

  /** Behind the first record no unused one is left, but for the checksum tail: freed space belongs to the
      record before it. */
  predicate NoGaps(rs: seq<DirRec>) {
    forall i :: 0 < i < |rs| && rs[i].inode == 0 ==> rs[i].tail
  }

  /** Bytes of a record that a new entry could take. */
  function Spare(r: DirRec): nat
    requires RecOk(r)
  {
    if r.inode != 0 then r.recLen - Required(r.name) else if r.tail then 0 else r.recLen
  }

  /** Record k is the first with room, and the entry is put into it: in its place if it is unused, else behind
      what it needs itself. */
  predicate FirstFit(rs: seq<DirRec>, rs': seq<DirRec>, e: DirEnt, k: nat) {
    && k < |rs| && HasRoom(rs[k], Required(e.name))
    && (forall j :: 0 <= j < k ==> !HasRoom(rs[j], Required(e.name)))
    && rs' == if rs[k].inode == 0 then
         rs[k := DirRec(e.inode, e.name, rs[k].recLen, false)]
       else
         rs[..k] + [rs[k].(recLen := Required(rs[k].name)),
                    DirRec(e.inode, e.name, rs[k].recLen - Required(rs[k].name), false)] + rs[k + 1..]
  }

  lemma {:induction false} FitGaps(rs: seq<DirRec>, rs': seq<DirRec>, e: DirEnt, k: nat)
    requires FirstFit(rs, rs', e, k) && e.inode != 0
    ensures NoGaps(rs) ==> NoGaps(rs')
  {
    hide HasRoom, Required;
    if NoGaps(rs) && rs[k].inode != 0 {
      forall i | 0 < i < |rs'| && rs'[i].inode == 0
        ensures rs'[i].tail
      {
        assert i < k || i > k + 1;
        assert rs'[i] == if i < k then rs[i] else rs[i - 1];
      }
    }
  }

  /** Puts an entry into the first record with room: ext4_dir_try_insert_entry. It fails only if no
      record has room, and then changes nothing. */
  method TryInsert(rs: seq<DirRec>, size: nat, e: DirEnt) returns (ok: bool, rs': seq<DirRec>)
    requires Tiled(rs, size) && 0 < |e.name| <= 255 && e.inode != 0
    ensures ok <==> RoomIn(rs, Required(e.name))
    ensures Tiled(rs', size)
    ensures ok ==> Added(rs, rs', e)
    ensures ok ==> exists k :: FirstFit(rs, rs', e, k)
    ensures NoGaps(rs) ==> NoGaps(rs')
    ensures !ok ==> rs' == rs
  {
    hide Total, Live, LiveSize;
    var requiredLen := 8 + |e.name|;
    if requiredLen % 4 != 0 {
      requiredLen := requiredLen + 4 - requiredLen % 4;
    }
    var i := 0;
    while i < |rs|
      invariant 0 <= i <= |rs|
      invariant forall k :: 0 <= k < i ==> !HasRoom(rs[k], requiredLen)
    {
      var r := rs[i];
      if r.inode == 0 && !r.tail && r.recLen >= requiredLen {
        rs' := rs[i := DirRec(e.inode, e.name, r.recLen, false)];
        Reused(rs, size, i, e, rs');
        FitGaps(rs, rs', e, i);
        return true, rs';
      }
      if r.inode != 0 {
        var sz := 8 + |r.name|;
        if |r.name| % 4 != 0 {
          sz := sz + 4 - |r.name| % 4;
        }
        var freeSpace := r.recLen - sz;
        if freeSpace >= requiredLen {
          rs' := rs[..i] + [r.(recLen := sz), DirRec(e.inode, e.name, freeSpace, false)] + rs[i + 1..];
          Divided(rs, size, i, e, sz, rs');
          FitGaps(rs, rs', e, i);
          return true, rs';
        }
      }
      i := i + 1;
    }
    return false, rs;
  }

  lemma {:induction false} Reused(rs: seq<DirRec>, size: nat, i: nat, e: DirEnt, rs': seq<DirRec>)
    requires Tiled(rs, size) && i < |rs| && rs[i].inode == 0 && Required(e.name) <= rs[i].recLen
    requires 0 < |e.name| <= 255 && e.inode != 0
    requires rs' == rs[i := DirRec(e.inode, e.name, rs[i].recLen, false)]
    ensures Tiled(rs', size) && Added(rs, rs', e)
  {
    Around(rs, i);
    Around(rs', i);
    assert rs'[..i] == rs[..i] && rs'[i + 1..] == rs[i + 1..];
    forall x
      ensures Live(rs', x) == Live(rs, x) + if x == e then 1 else 0
    {
      LiveAround(rs, i, x);
      LiveAround(rs', i, x);
    }
  }

  lemma {:induction false} Divided(rs: seq<DirRec>, size: nat, i: nat, e: DirEnt, sz: nat, rs': seq<DirRec>)
    requires Tiled(rs, size) && i < |rs| && rs[i].inode != 0 && sz == Required(rs[i].name)
             && sz + Required(e.name) <= rs[i].recLen
    requires 0 < |e.name| <= 255 && e.inode != 0
    requires rs' == rs[..i] + [rs[i].(recLen := sz), DirRec(e.inode, e.name, rs[i].recLen - sz, false)] + rs[i + 1..]
    ensures Tiled(rs', size) && Added(rs, rs', e)
  {
    var mid := rs[i := rs[i].(recLen := sz)];
    Around(rs, i);
    Around(mid, i);
    Around(rs', i + 1);
    assert mid[..i] == rs[..i] && mid[i + 1..] == rs[i + 1..];
    assert rs'[..i + 1] == mid[..i + 1] && rs'[i + 2..] == rs[i + 1..];
    MidSize(mid, i);
    forall x
      ensures Live(rs', x) == Live(rs, x) + if x == e then 1 else 0
    {
      LiveAround(rs, i, x);
      LiveAround(rs', i + 1, x);
      LiveAround(rs'[..i + 1], i, x);
      assert rs'[..i + 1][..i] == rs[..i] && rs'[..i + 1][i + 1..] == [];
    }
    DividedOk(rs, i, e, sz, rs');
  }

  lemma {:induction false} MidSize(rs: seq<DirRec>, i: nat)
    requires i < |rs|
    ensures LiveSize(rs[..i + 1]) == LiveSize(rs[..i]) + Size(rs[i])
  {
    assert rs[..i + 1][..i] == rs[..i];
  }

  lemma {:induction false} DividedOk(rs: seq<DirRec>, i: nat, e: DirEnt, sz: nat, rs': seq<DirRec>)
    requires (forall k :: 0 <= k < |rs| ==> RecOk(rs[k])) && i < |rs| && rs[i].inode != 0
    requires sz == Required(rs[i].name) && sz + Required(e.name) <= rs[i].recLen && 0 < |e.name| <= 255 && e.inode != 0
    requires rs' == rs[..i] + [rs[i].(recLen := sz), DirRec(e.inode, e.name, rs[i].recLen - sz, false)] + rs[i + 1..]
    ensures forall k :: 0 <= k < |rs'| ==> RecOk(rs'[k])
  {
    forall k | 0 <= k < |rs'|
      ensures RecOk(rs'[k])
    {
      if k < i {
        assert rs'[k] == rs[k];
      } else if k > i + 1 {
        assert rs'[k] == rs[k - 1];
      }
    }
  }

  predicate IsLive(r: DirRec, name: string) {
    r.inode != 0 && r.name == name
  }

  lemma {:induction false} LiveIff(rs: seq<DirRec>, e: DirEnt)
    ensures Live(rs, e) > 0 <==> exists i :: 0 <= i < |rs| && Holds(rs[i], e)
    decreases |rs|
  {
    if rs != [] {
      var c := rs[..|rs| - 1];
      LiveIff(c, e);
      if i :| 0 <= i < |rs| && Holds(rs[i], e) {
        if i < |c| {
          assert c[i] == rs[i];
        }
      }
      if i :| 0 <= i < |c| && Holds(c[i], e) {
        assert rs[i] == c[i];
      }
    }
  }

  /** Looks for a name: ext4_dir_find_in_block. Walking stops early only where no record with the
      name could fit. */
  method FindInBlock(rs: seq<DirRec>, size: nat, name: string) returns (found: bool, at: nat)
    requires Tiled(rs, size)
    ensures found ==> at < |rs| && IsLive(rs[at], name)
    ensures !found ==> forall i :: 0 <= i < |rs| ==> !IsLive(rs[i], name)
  {
    at := 0;
    var off := 0;
    while at < |rs|
      invariant 0 <= at <= |rs| && off == Total(rs[..at])
      invariant forall i :: 0 <= i < at ==> !IsLive(rs[i], name)
    {
      Around(rs, at);
      if off + |name| > size {
        forall i | at <= i < |rs|
          ensures !IsLive(rs[i], name)
        {
          Around(rs, i);
          TotalGrows(rs, at, i);
        }
        return false, at;
      }
      if rs[at].inode != 0 && |rs[at].name| == |name| && rs[at].name == name {
        return true, at;
      }
      off := off + rs[at].recLen;
      at := at + 1;
    }
    found := false;
  }

  lemma {:induction false} TotalGrows(rs: seq<DirRec>, i: nat, j: nat)
    requires i <= j <= |rs|
    ensures Total(rs[..i]) <= Total(rs[..j])
  {
    assert rs[..j] == rs[..i] + rs[i..j];
    Concat(rs[..i], rs[i..j]);
  }

  /** Removes the entry of record at: the rest of ext4_dir_remove_entry. The record is marked unused
      and, unless it is the first, joined to the one before it, which is found by walking the chain. */
  method Remove(rs: seq<DirRec>, size: nat, at: nat) returns (rs': seq<DirRec>)
    requires Tiled(rs, size) && at < |rs| && rs[at].inode != 0
    ensures Tiled(rs', size)
    ensures Added(rs', rs, DirEnt(rs[at].name, rs[at].inode))
    ensures Freed(rs, rs', at) && (NoGaps(rs) ==> NoGaps(rs'))
    ensures at == 0 || !rs[at - 1].tail ==>
              forall need: nat :: RoomIn(rs', need) <==> RoomIn(rs, need) || need <= FreedRoom(rs, at)
  {
    rs' := rs[at := rs[at].(inode := 0)];
    var pos := Offset(rs, at);
    if pos != 0 {
      var k, offset := 0, 0;
      PredOf(rs, at);
      while offset + rs[k].recLen < pos
        invariant 0 <= k < at && offset == Total(rs[..k])
        decreases at - k
      {
        Step(rs, k, at);
        offset := offset + rs[k].recLen;
        k := k + 1;
      }
      Step(rs, k, at);
      assert offset + rs[k].recLen == pos;
      ghost var rs1 := rs';
      Cleared(rs, size, at, rs1);
      rs' := rs'[..k] + [rs'[k].(recLen := rs'[k].recLen + rs'[k + 1].recLen)] + rs'[k + 2..];
      Joined(rs1, size, at, rs');
    } else {
      FirstOnly(rs, at);
      Cleared(rs, size, at, rs');
    }
    FreedGaps(rs, rs', at);
    FreedFits(rs, rs', at);
  }

  /** The first record is marked unused; any other one goes, and its bytes to the record before it. */
  predicate Freed(rs: seq<DirRec>, rs': seq<DirRec>, at: nat)
    requires at < |rs|
  {
    rs' == if at == 0 then rs[0 := rs[0].(inode := 0)]
           else rs[..at - 1] + [rs[at - 1].(recLen := rs[at - 1].recLen + rs[at].recLen)] + rs[at + 1..]
  }

  /** The largest entry that fits where a record was removed. */
  function FreedRoom(rs: seq<DirRec>, at: nat): nat
    requires at < |rs| && forall i :: 0 <= i < |rs| ==> RecOk(rs[i])
  {
    rs[at].recLen + if at == 0 then 0 else Spare(rs[at - 1])
  }

  lemma {:induction false} FreedGaps(rs: seq<DirRec>, rs': seq<DirRec>, at: nat)
    requires at < |rs| && Freed(rs, rs', at)
    ensures NoGaps(rs) ==> NoGaps(rs')
  {
    if NoGaps(rs) && at > 0 {
      forall i | 0 < i < |rs'| && rs'[i].inode == 0
        ensures rs'[i].tail
      {
        assert i != at - 1 ==> rs'[i] == if i < at then rs[i] else rs[i + 1];
        assert i == at - 1 ==> rs'[i].inode == rs[i].inode && rs'[i].tail == rs[i].tail;
      }
    }
  }

  /** Where there was room there still is, and the freed bytes are in one piece with what the record before had
      to spare. */
  lemma {:induction false} FreedFits(rs: seq<DirRec>, rs': seq<DirRec>, at: nat)
    requires at < |rs| && Freed(rs, rs', at) && rs[at].inode != 0 && forall i :: 0 <= i < |rs| ==> RecOk(rs[i])
    ensures at == 0 || !rs[at - 1].tail ==>
              forall need: nat :: RoomIn(rs', need) <==> RoomIn(rs, need) || need <= FreedRoom(rs, at)
  {
    hide Required;
    var p := if at == 0 then 0 else at - 1;
    if at == 0 || !rs[at - 1].tail {
      forall need: nat
        ensures RoomIn(rs', need) <==> RoomIn(rs, need) || need <= FreedRoom(rs, at)
      {
        assert HasRoom(rs'[p], need) <==> need <= FreedRoom(rs, at);
        if i :| 0 <= i < |rs| && HasRoom(rs[i], need) {
          if i < p {
            assert rs'[i] == rs[i];
          } else if i > at {
            assert rs'[if at == 0 then i else i - 1] == rs[i];
          }
        }
        if i :| 0 <= i < |rs'| && HasRoom(rs'[i], need) && i != p {
          assert rs'[i] == rs[if i < p || at == 0 then i else i + 1];
        }
      }
    }
  }

  /** Where a record starts, in bytes. */
  function Offset(rs: seq<DirRec>, at: nat): nat
    requires at <= |rs|
  {
    Total(rs[..at])
  }

  lemma {:induction false} PredOf(rs: seq<DirRec>, at: nat)
    requires at < |rs| && Total(rs[..at]) != 0
    ensures at > 0 && Total(rs[..0]) == 0
  {
    assert rs[..0] == [];
  }

  lemma {:induction false} FirstOnly(rs: seq<DirRec>, at: nat)
    requires at < |rs| && forall i :: 0 <= i < |rs| ==> RecOk(rs[i])
    ensures Total(rs[..at]) == 0 <==> at == 0
  {
    if at > 0 {
      assert rs[..at][..at - 1] == rs[..at - 1];
    }
  }

  lemma {:induction false} Step(rs: seq<DirRec>, k: nat, at: nat)
    requires k < at < |rs| && forall i :: 0 <= i < |rs| ==> RecOk(rs[i])
    ensures Total(rs[..k + 1]) == Total(rs[..k]) + rs[k].recLen
    ensures Total(rs[..k + 1]) <= Total(rs[..at])
    ensures Total(rs[..k + 1]) == Total(rs[..at]) <==> k + 1 == at
  {
    Around(rs, k);
    TotalGrows(rs, k + 1, at);
    if k + 1 < at {
      Around(rs, k + 1);
      TotalGrows(rs, k + 2, at);
    }
  }

  lemma {:induction false} Cleared(rs: seq<DirRec>, size: nat, at: nat, rs': seq<DirRec>)
    requires Tiled(rs, size) && at < |rs| && rs[at].inode != 0 && rs' == rs[at := rs[at].(inode := 0)]
    ensures Tiled(rs', size) && Added(rs', rs, DirEnt(rs[at].name, rs[at].inode))
  {
    Around(rs, at);
    Around(rs', at);
    assert rs'[..at] == rs[..at] && rs'[at + 1..] == rs[at + 1..];
    forall x
      ensures Live(rs, x) == Live(rs', x) + if x == DirEnt(rs[at].name, rs[at].inode) then 1 else 0
    {
      LiveAround(rs, at, x);
      LiveAround(rs', at, x);
    }
  }

  /** Joining an unused record to the one before it changes no entry. */
  lemma {:induction false} Joined(rs: seq<DirRec>, size: nat, at: nat, rs': seq<DirRec>)
    requires Tiled(rs, size) && 0 < at < |rs| && rs[at].inode == 0
    requires rs' == rs[..at - 1] + [rs[at - 1].(recLen := rs[at - 1].recLen + rs[at].recLen)] + rs[at + 1..]
    ensures Tiled(rs', size) && LiveSize(rs') == LiveSize(rs) && forall x :: Live(rs', x) == Live(rs, x)
  {
    hide Total, LiveSize, Live, RecOk;
    JoinedSize(rs, at, rs');
    JoinedOk(rs, at, rs');
    forall x
      ensures Live(rs', x) == Live(rs, x)
    {
      JoinedLive(rs, at, rs', x);
    }
  }

  lemma {:induction false} JoinedSize(rs: seq<DirRec>, at: nat, rs': seq<DirRec>)
    requires 0 < at < |rs| && rs[at].inode == 0
    requires rs' == rs[..at - 1] + [rs[at - 1].(recLen := rs[at - 1].recLen + rs[at].recLen)] + rs[at + 1..]
    ensures Total(rs') == Total(rs) && LiveSize(rs') == LiveSize(rs)
  {
    hide Total, LiveSize;
    Around(rs, at);
    Around(rs, at - 1);
    Around(rs', at - 1);
    assert rs'[..at - 1] == rs[..at - 1] && rs'[at..] == rs[at + 1..];
    MidSize(rs, at - 1);
  }

  lemma {:induction false} JoinedOk(rs: seq<DirRec>, at: nat, rs': seq<DirRec>)
    requires (forall k :: 0 <= k < |rs| ==> RecOk(rs[k])) && 0 < at < |rs|
    requires rs' == rs[..at - 1] + [rs[at - 1].(recLen := rs[at - 1].recLen + rs[at].recLen)] + rs[at + 1..]
    ensures forall k :: 0 <= k < |rs'| ==> RecOk(rs'[k])
  {
    forall k | 0 <= k < |rs'|
      ensures RecOk(rs'[k])
    {
      if k >= at {
        assert rs'[k] == rs[k + 1];
      } else if k < at - 1 {
        assert rs'[k] == rs[k];
      } else {
        assert RecOk(rs[at - 1]) && RecOk(rs[at]);
      }
    }
  }

  lemma {:induction false} JoinedLive(rs: seq<DirRec>, at: nat, rs': seq<DirRec>, x: DirEnt)
    requires 0 < at < |rs| && rs[at].inode == 0
    requires rs' == rs[..at - 1] + [rs[at - 1].(recLen := rs[at - 1].recLen + rs[at].recLen)] + rs[at + 1..]
    ensures Live(rs', x) == Live(rs, x)
  {
    LiveAround(rs, at, x);
    LiveAround(rs[..at], at - 1, x);
    assert rs[..at][..at - 1] == rs[..at - 1] && rs[..at][at..] == [];
    LiveAround(rs', at - 1, x);
    assert rs'[..at - 1] == rs[..at - 1] && rs'[at..] == rs[at + 1..];
  }
}
