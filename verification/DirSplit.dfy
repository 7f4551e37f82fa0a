/** Splitting a full leaf of a hashed directory in two: ext4_dir_dx_split_data of
    lwext4/src/ext4_dir_idx.c. */
module DirSplit {
  import opened DirBlock

  /** Live records, each as long as it needs to be. */
  predicate Tight(rs: seq<DirRec>) {
    forall i :: 0 <= i < |rs| ==> RecOk(rs[i]) && rs[i].inode != 0 && rs[i].recLen == Required(rs[i].name)
  }

  predicate HashSorted(h: string -> nat, rs: seq<DirRec>) {
    forall i, j :: 0 <= i < j < |rs| ==> h(rs[i].name) <= h(rs[j].name)
  }

  lemma {:induction false} TightSize(rs: seq<DirRec>)
    requires Tight(rs)
    ensures Total(rs) == LiveSize(rs)
    decreases |rs|
  {
    if rs != [] {
      TightSize(rs[..|rs| - 1]);
    }
  }

  /** The same entries with the same sizes. */
  ghost predicate SameEntries(rs: seq<DirRec>, rs': seq<DirRec>) {
    LiveSize(rs') == LiveSize(rs) && forall x :: Live(rs', x) == Live(rs, x)
  }

  /** Collects the live records, with their sizes cut to what they need. */
  method LoadEntries(rs: seq<DirRec>, size: nat) returns (items: seq<DirRec>)
    requires Tiled(rs, size)
    ensures Tight(items) && SameEntries(rs, items)
  {
    hide Total, Live, LiveSize, SameEntries;
    items := [];
    var i := 0;
    NoneYet(rs);
    while i < |rs|
      invariant 0 <= i <= |rs| && Tight(items) && SameEntries(rs[..i], items)
    {
      var r := rs[i];
      Loaded(rs, i, items);
      if r.inode != 0 && |r.name| > 0 {
        var recLen := 8 + |r.name|;
        if recLen % 4 != 0 {
          recLen := recLen + 4 - recLen % 4;
        }
        items := items + [r.(recLen := recLen)];
      }
      i := i + 1;
    }
    assert rs[..i] == rs;
  }

  lemma {:induction false} NoneYet(rs: seq<DirRec>)
    ensures SameEntries(rs[..0], [])
  {
  }

  lemma {:induction false} Loaded(rs: seq<DirRec>, i: nat, items: seq<DirRec>)
    requires i < |rs| && RecOk(rs[i]) && SameEntries(rs[..i], items)
    ensures SameEntries(rs[..i + 1],
                if rs[i].inode != 0 then items + [rs[i].(recLen := Required(rs[i].name))] else items)
  {
    var r := rs[i];
    var x := r.(recLen := Required(r.name));
    assert rs[..i + 1][..i] == rs[..i];
    assert (items + [x])[..|items|] == items;
    forall e
      ensures Live(rs[..i + 1], e) == Live(rs[..i], e) + if Holds(r, e) then 1 else 0
      ensures Live(items + [x], e) == Live(items, e) + if Holds(x, e) then 1 else 0
    {
    }
  }

  lemma {:induction false} Inserted(items: seq<DirRec>, k: nat, r: DirRec, e: DirEnt)
    requires k <= |items|
    ensures Live(items[..k] + [r] + items[k..], e) == Live(items, e) + if Holds(r, e) then 1 else 0
    ensures LiveSize(items[..k] + [r] + items[k..]) == LiveSize(items) + Size(r)
  {
    var s := items[..k] + [r] + items[k..];
    LiveAround(s, k, e);
    Around(s, k);
    assert s[..k] == items[..k] && s[k + 1..] == items[k..];
    assert items == items[..k] + items[k..];
    LiveConcat(items[..k], items[k..], e);
    Concat(items[..k], items[k..]);
  }

  /** Sorts by hash, as the C library's qsort does with the comparator of the source; how it does
      that, and the order of equal hashes, is not fixed by the source. */
  method Sort(h: string -> nat, items: seq<DirRec>) returns (s: seq<DirRec>)
    requires Tight(items)
    ensures Tight(s) && HashSorted(h, s) && SameEntries(items, s) && |s| == |items|
  {
    hide Tight, HashSorted, SameEntries;
    s := [];
    var i := 0;
    SortStart(h, items);
    while i < |items|
      invariant 0 <= i <= |items| == |items| && |s| == i
      invariant Tight(s) && HashSorted(h, s) && SameEntries(items[..i], s)
    {
      var k := i;
      while k > 0 && h(s[k - 1].name) > h(items[i].name)
        invariant 0 <= k <= i
        invariant forall j :: k <= j < i ==> h(items[i].name) <= h(s[j].name)
      {
        k := k - 1;
      }
      OneTight(items, i);
      Placed(h, s, k, items[i]);
      MoreEntries(items, i, s, k);
      s := s[..k] + [items[i]] + s[k..];
      i := i + 1;
    }
    assert items[..i] == items;
  }

  lemma {:induction false} SortStart(h: string -> nat, items: seq<DirRec>)
    ensures Tight([]) && HashSorted(h, []) && SameEntries(items[..0], [])
  {
  }

  lemma {:induction false} OneTight(items: seq<DirRec>, i: nat)
    requires Tight(items) && i < |items|
    ensures Tight([items[i]])
  {
  }

  lemma {:induction false} Placed(h: string -> nat, s: seq<DirRec>, k: nat, r: DirRec)
    requires k <= |s| && Tight(s) && HashSorted(h, s) && Tight([r])
    requires k > 0 ==> h(s[k - 1].name) <= h(r.name)
    requires forall j :: k <= j < |s| ==> h(r.name) <= h(s[j].name)
    ensures var t := s[..k] + [r] + s[k..]; Tight(t) && HashSorted(h, t)
  {
    var t := s[..k] + [r] + s[k..];
    forall i | 0 <= i < |t|
      ensures t[i] == if i < k then s[i] else if i == k then r else s[i - 1]
    {
    }
    assert Tight([r]) ==> RecOk([r][0]) && [r][0].inode != 0 && [r][0].recLen == Required([r][0].name);
  }

  lemma {:induction false} MoreEntries(items: seq<DirRec>, i: nat, s: seq<DirRec>, k: nat)
    requires i < |items| && k <= |s| && SameEntries(items[..i], s)
    ensures SameEntries(items[..i + 1], s[..k] + [items[i]] + s[k..])
  {
    assert items[..i + 1][..i] == items[..i];
    forall x
      ensures Live(s[..k] + [items[i]] + s[k..], x) == Live(items[..i + 1], x)
    {
      Inserted(s, k, items[i], x);
    }
    Inserted(s, k, items[i], DirEnt("", 0));
  }

  /** The first record that would take the first part beyond half a block. */
  predicate IsMid(items: seq<DirRec>, size: nat, mid: nat) {
    mid < |items| && Total(items[..mid]) <= size / 2 < Total(items[..mid]) + items[mid].recLen
  }

  /** There is a place to split if and only if the live records take more than half a block. A leaf
      may have no room for a name and yet less than that; the source then reads in front of its
      array, leaves the old block as it is and copies all entries to the new one. */
  lemma {:induction false} MidExists(items: seq<DirRec>, size: nat)
    requires Tight(items)
    ensures (exists mid :: IsMid(items, size, mid)) <==> Total(items) > size / 2
  {
    if Total(items) > size / 2 {
      assert items[..|items|] == items;
      var mid := MidFrom(items, size, |items|);
      assert IsMid(items, size, mid);
    }
    if mid: nat :| IsMid(items, size, mid) {
      Around(items, mid);
      TotalGrows(items, mid + 1, |items|);
      assert items[..|items|] == items;
    }
  }

  lemma {:induction false} MidFrom(items: seq<DirRec>, size: nat, n: nat) returns (mid: nat)
    requires Tight(items) && n <= |items| && Total(items[..n]) > size / 2
    ensures IsMid(items, size, mid) && mid < n
    decreases n
  {
    assert items[..0] == [];
    assert items[..n][..n - 1] == items[..n - 1];
    if Total(items[..n - 1]) > size / 2 {
      mid := MidFrom(items, size, n - 1);
    } else {
      mid := n - 1;
    }
  }

  /** Four short names, each followed by a gap, leave no room for a long one, and cannot be split. */
  lemma {:induction false} Fragmented(name: string)
    requires |name| == 255
    ensures var r := DirRec(1, "abcd", 256, false); var rs := [r, r, r, r];
            Tiled(rs, 1024) && !RoomIn(rs, Required(name)) && LiveSize(rs) == 48
  {
    var r := DirRec(1, "abcd", 256, false);
    assert [r][..0] == [] && Total([r]) == 256 && LiveSize([r]) == 12;
    assert [r, r] == [r] + [r] && [r, r, r, r] == [r, r] + [r, r];
    Concat([r], [r]);
    Concat([r, r], [r, r]);
  }

  /** Finds the place to split. */
  method FindMid(items: seq<DirRec>, size: nat) returns (mid: nat)
    requires Tight(items) && Total(items) > size / 2 && size >= 1024
    ensures IsMid(items, size, mid) && mid > 0
  {
    mid := 0;
    var currentSize, i := 0, 0;
    assert items[..0] == [] && items[..|items|] == items;
    while i < |items|
      invariant 0 <= i <= |items| && currentSize == Total(items[..i]) <= size / 2
    {
      if currentSize + items[i].recLen > size / 2 {
        mid := i;
        return;
      }
      assert items[..i + 1][..i] == items[..i];
      currentSize := currentSize + items[i].recLen;
      i := i + 1;
    }
  }

  /** Lays records out one after the other; the last one gets the rest of the block. */
  function Packed(items: seq<DirRec>, size: nat): seq<DirRec>
    requires items != [] && Total(items) <= size
  {
    var n := |items| - 1;
    PackedRoomLeft(items);
    items[..n] + [items[n].(recLen := size - Total(items[..n]))]
  }

  lemma {:induction false} PackedRoomLeft(items: seq<DirRec>)
    requires items != []
    ensures Total(items[..|items| - 1]) + items[|items| - 1].recLen == Total(items)
  {
  }

  /** The copying loop for one of the two blocks. */
  method Pack(items: seq<DirRec>, size: nat) returns (rs: seq<DirRec>)
    requires Tight(items) && items != [] && Total(items) <= size && size % 4 == 0
    ensures rs == Packed(items, size)
  {
    hide LiveSize, Size, Required, RecOk;
    rs := [];
    var off, i := 0, 0;
    assert items[..0] == [] && Total([]) == 0;
    hide Total, Tight;
    while i < |items|
      invariant 0 <= i <= |items| && off == Total(items[..i])
      invariant rs == if i < |items| then items[..i] else Packed(items, size)
    {
      var t := items[i];
      Around(items, i);
      TotalGrows(items, i + 1, |items|);
      assert items[..|items|] == items;
      if i < |items| - 1 {
        rs := rs + [t.(recLen := items[i].recLen)];
      } else {
        rs := rs + [t.(recLen := size - off)];
      }
      off := off + items[i].recLen;
      i := i + 1;
    }
  }

  lemma {:induction false} PackedOk(items: seq<DirRec>, size: nat)
    requires Tight(items) && items != [] && Total(items) <= size && size % 4 == 0
    ensures Tiled(Packed(items, size), size) && SameEntries(items, Packed(items, size))
  {
    hide Total, Live, LiveSize;
    var n := |items| - 1;
    var p := Packed(items, size);
    Around(items, n);
    Around(p, n);
    assert p[..n] == items[..n] && p[n + 1..] == [] && items[n + 1..] == [];
    assert p == items[..n] + [p[n]];
    Empty();
    TightAligned(items[..n]);
    assert RecOk(p[n]);
    forall i | 0 <= i < |p|
      ensures RecOk(p[i])
    {
      if i < n {
        assert p[i] == items[i];
      }
    }
    forall x
      ensures Live(p, x) == Live(items, x)
    {
      LiveAround(items, n, x);
      LiveAround(p, n, x);
    }
  }

  lemma {:induction false} Empty()
    ensures Total([]) == 0 && LiveSize([]) == 0
  {
  }

  /** After packing only the last record has room, all that is left of the block. */
  lemma {:induction false} PackedRoom(items: seq<DirRec>, size: nat, need: nat)
    requires Tight(items) && items != [] && Total(items) <= size && size % 4 == 0 && need > 0
    ensures RoomIn(Packed(items, size), need) <==> LiveSize(items) + need <= size
  {
    var n := |items| - 1;
    var p := Packed(items, size);
    TightSize(items);
    forall i | 0 <= i < n
      ensures !HasRoom(p[i], need)
    {
      assert p[i] == items[i];
    }
    if LiveSize(items) + need <= size {
      assert HasRoom(p[n], need);
    }
  }

  lemma {:induction false} TightAligned(items: seq<DirRec>)
    requires forall i :: 0 <= i < |items| ==> RecOk(items[i])
    ensures Total(items) % 4 == 0
    decreases |items|
  {
    if items != [] {
      TightAligned(items[..|items| - 1]);
    }
  }
}
