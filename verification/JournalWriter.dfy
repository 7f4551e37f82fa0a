/** Descriptors while they are being filled, and how many log blocks a transaction takes. */
module JournalWriter {
  import opened Common
  import opened JournalTags
  import opened JournalLog

  /** A buffer of the transaction: dirty unless it was cleaned again since it was added. */
  datatype Item = Item(lba: nat, data: Block, dirty: bool)

  /** The dirty buffers are what is logged. */
  function Dirty(items: seq<Item>): seq<Write> {
    if items == [] then []
    else Dirty(items[..|items| - 1]) + var x := items[|items| - 1]; if x.dirty then [Write(x.lba, x.data)] else []
  }

  lemma {:induction false} DirtyIff(items: seq<Item>, w: Write)
    ensures w in Dirty(items) <==>
            exists j :: 0 <= j < |items| && items[j].dirty && w == Write(items[j].lba, items[j].data)
    decreases |items|
  {
    if items != [] {
      var n := |items| - 1;
      DirtyIff(items[..n], w);
      if j :| 0 <= j < |items| && items[j].dirty && w == Write(items[j].lba, items[j].data) {
        if j < n {
          assert items[..n][j] == items[j];
        }
      }
    }
  }

  lemma {:induction false} DirtyNext(items: seq<Item>, k: nat)
    requires k < |items|
    ensures Dirty(items[..k + 1]) ==
            Dirty(items[..k]) + if items[k].dirty then [Write(items[k].lba, items[k].data)] else []
    ensures |Dirty(items[..k])| <= k
    decreases k
  {
    assert items[..k + 1][..k] == items[..k];
    if k > 0 {
      DirtyNext(items, k - 1);
    }
  }

  lemma {:induction false} DirtyPrefix(items: seq<Item>, k: nat, n: nat)
    requires k <= n <= |items|
    ensures |Dirty(items[..k])| <= |Dirty(items[..n])|
    decreases n - k
  {
    if k < n {
      DirtyNext(items, k);
      DirtyPrefix(items, k + 1, n);
    }
  }

  lemma {:induction false} DirtyCut(items: seq<Item>, n: nat)
    requires n <= |items| && forall k :: n <= k < |items| ==> !items[k].dirty
    ensures Dirty(items) == Dirty(items[..n])
    decreases |items| - n
  {
    if n < |items| {
      DirtyNext(items, n);
      DirtyCut(items, n + 1);
    } else {
      assert items[..n] == items;
    }
  }

  /** Tags that fit into a descriptor of w words, the first of them with a UUID. */
  function TagsPer(wide: bool, w: nat): nat {
    if w < HEADER + UUID then 0 else if wide then (w - 7) / 3 else (w - 7) / 2
  }

  /** Log blocks for n more buffers when free tags still fit into the open descriptor. */
  function Need(per: nat, free: nat, n: nat): nat
    requires per > 0
    decreases n
  {
    if n == 0 then 0 else if free > 0 then 1 + Need(per, free - 1, n - 1) else 2 + Need(per, per - 1, n - 1)
  }

  /** One block for each buffer, and one for each descriptor begun. */
  lemma {:induction false} NeedIs(per: nat, free: nat, n: nat, d: nat)
    requires per > 0 && free < per
    requires free + d * per >= n && (d > 0 ==> free + (d - 1) * per < n)
    ensures Need(per, free, n) == n + d
    decreases n
  {
    if n == 0 {
      assert d > 0 ==> (d - 1) * per >= 0;
    } else if free > 0 {
      NeedIs(per, free - 1, n - 1, d);
    } else {
      assert d > 0 && d * per == (d - 1) * per + per;
      NeedIs(per, per - 1, n - 1, d - 1);
    }
  }

  lemma {:induction false} NeedNone(per: nat, free: nat)
    requires per > 0
    ensures Need(per, free, 0) == 0
  {
  }

  /** A descriptor that has been filled up to word at with these tags, the data blocks for which
      are in the log behind its place q. */
  ghost predicate Open(wide: bool, l: seq<Block>, q: nat, next: nat, desc: Block, at: nat, cur: seq<Tag>,
          ws: seq<Write>)
  {
    && IsHeader(desc, next) && desc[1] == DESCRIPTOR && HEADER <= at <= |desc|
    && TagsAt(wide, desc, HEADER, cur, at)
    && at == HEADER + (if cur == [] then 0 else UUID + TagWords(wide) * |cur|)
    && (forall k :: 0 <= k < |cur| - 1 ==> !cur[k].last)
    && q + 1 + |ws| <= |l| && TagsFor(cur, l[q + 1..q + 1 + |ws|], ws)
  }

  lemma {:induction false} OpenFull(wide: bool, l: seq<Block>, q: nat, next: nat, desc: Block, at: nat, cur: seq<Tag>,
          ws: seq<Write>)
    requires Open(wide, l, q, next, desc, at, cur, ws)
    ensures |cur| == |ws|
    ensures cur != [] ==> (at + TagWords(wide) <= |desc| <==> |cur| < TagsPer(wide, |desc|))
    ensures cur == [] && |desc| >= 10 ==> at + TagWords(wide) + UUID <= |desc|
    ensures cur != [] ==> |cur| <= TagsPer(wide, |desc|)
  {
  }

  /** One more tag in the descriptor, one more data block behind it. */
  lemma {:induction false} OpenMore(wide: bool, l: seq<Block>, q: nat, next: nat, desc: Block, desc': Block, at: nat,
          cur: seq<Tag>, ws: seq<Write>, t: Tag, x: Write, b: Block)
    requires Open(wide, l, q, next, desc, at, cur, ws) && (cur != [] ==> !cur[|cur| - 1].last)
    requires |desc'| == |desc| && desc'[..at] == desc[..at] && GetTag(wide, desc', at) == Some(t)
             && t.uuid == (cur == [])
    requires at + TagSize(wide, t) <= |desc|
    requires q + 1 + |ws| < |l| && t.block == x.lba && Unescape(t, b) == x.data
    ensures Open(wide, l[q + 1 + |ws| := b], q, next, desc', at + TagSize(wide, t), cur + [t], ws + [x])
  {
    assert desc'[..at][0] == desc[..at][0] && desc'[..at][1] == desc[..at][1] && desc'[..at][2] == desc[..at][2];
    TagsAtSame(wide, desc, desc', HEADER, cur, at);
    TagsAtMore(wide, desc', HEADER, cur, at, t);
    TagsForMore(cur, l, q + 1, ws, t, x, b);
  }

  lemma {:induction false} TagsForMore(cur: seq<Tag>, l: seq<Block>, from: nat, ws: seq<Write>, t: Tag, x: Write,
          b: Block)
    requires from + |ws| < |l| && TagsFor(cur, l[from..from + |ws|], ws)
    requires t.block == x.lba && Unescape(t, b) == x.data
    ensures TagsFor(cur + [t], l[from + |ws| := b][from..from + |ws + [x]|], ws + [x])
  {
    assert l[from + |ws| := b][from..from + |ws + [x]|] == l[from..from + |ws|] + [b];
  }

  /** Any part of the log behind the data blocks does not matter. */
  lemma {:induction false} Closed(wide: bool, l: seq<Block>, q: nat, next: nat, desc: Block, at: nat, cur: seq<Tag>,
          ws: seq<Write>)
    requires Open(wide, l, q, next, desc, at, cur, ws) && cur != []
    requires cur[|cur| - 1].last || |desc| < at + TagWords(wide)
    ensures q + 1 + |ws| <= |l| && TagsFor(ReadTags(wide, desc, HEADER), l[q + 1..q + 1 + |ws|], ws)
    ensures IsHeader(desc, next) && desc[1] == DESCRIPTOR
  {
    ReadBack(wide, desc, HEADER, cur, at);
  }

  /** What the log keeps of a block, and what comes back of it. */
  function Escape(data: Block): Block {
    if |data| > 0 && data[0] == MAGIC then data[0 := 0] else data
  }

  lemma {:induction false} EscapeBack(data: Block, t: Tag)
    requires |data| > 0 && t.escape == (data[0] == MAGIC)
    ensures Unescape(t, Escape(data)) == data && Escape(data)[0] != MAGIC && |Escape(data)| == |data|
  {
  }

  lemma {:induction false} NeedUsed(per: nat, free: nat, m: nat)
    requires per > 0
    ensures free > 0 ==> Need(per, free, m + 1) == 1 + Need(per, free - 1, m)
  {
  }

  lemma {:induction false} NeedNew(per: nat, m: nat)
    requires per > 0
    ensures Need(per, 0, m + 1) == 2 + Need(per, per - 1, m)
  {
  }

  /** A descriptor with only its header is open. */
  lemma {:induction false} OpenNew(wide: bool, l: seq<Block>, q: nat, next: nat, desc: Block)
    requires |desc| >= HEADER && IsHeader(desc, next) && desc[1] == DESCRIPTOR && q + 1 <= |l|
    ensures Open(wide, l, q, next, desc, HEADER, [], [])
  {
    assert l[q + 1..q + 1] == [];
  }

  /** Clearing the fixed part of a tag stays inside a block of an even number of words. */
  lemma {:induction false} RoomForTag(wide: bool, l: seq<Block>, q: nat, next: nat, desc: Block, at: nat, cur: seq<Tag>,
          ws: seq<Write>)
    requires Open(wide, l, q, next, desc, at, cur, ws) && cur != [] && |desc| % 2 == 0
    ensures at <= |desc| && (at + TagWords(wide) <= |desc| ==> at + 3 <= |desc|)
  {
  }

  /** Different buffers log different blocks. */
  lemma {:induction false} DirtyDistinct(items: seq<Item>)
    requires forall i, j :: 0 <= i < j < |items| ==> items[i].lba != items[j].lba
    ensures forall i, j :: 0 <= i < j < |Dirty(items)| ==> Dirty(items)[i].lba != Dirty(items)[j].lba
    decreases |items|
  {
    if items != [] {
      var rest, x := items[..|items| - 1], items[|items| - 1];
      assert forall i :: 0 <= i < |rest| ==> rest[i] == items[i];
      DirtyDistinct(rest);
      forall i | 0 <= i < |Dirty(rest)|
        ensures Dirty(rest)[i].lba != x.lba
      {
        var j := DirtyFrom(rest, i);
        assert items[j].lba != items[|items| - 1].lba;
      }
      assert forall i :: 0 <= i < |Dirty(rest)| ==> Dirty(items)[i] == Dirty(rest)[i];
    }
  }

  lemma {:induction false} DirtyFrom(items: seq<Item>, i: nat) returns (j: nat)
    requires i < |Dirty(items)|
    ensures j < |items| && items[j].lba == Dirty(items)[i].lba
    decreases |items|
  {
    var rest := items[..|items| - 1];
    if i < |Dirty(rest)| {
      j := DirtyFrom(rest, i);
    } else {
      j := |items| - 1;
    }
  }
}
