/** Where blocks lie in the block groups, and what the counters of a volume should be:
    lwext4/include/ext4_fs.h, lwext4/src/ext4_super.c and the conversions of
    lwext4/src/ext4_balloc.c. */
module BlockGroups {
  import opened Bitmap
  import opened Common

  // ---- addresses ----

  /** The group of a block. firstData is first_data_block: with it, blocks count from 1. */
  function GroupOf(firstData: nat, per: nat, addr: nat): nat
    requires per > 0
  {
    (if firstData != 0 && addr != 0 then addr - 1 else addr) / per
  }

  function IdxOf(firstData: nat, per: nat, addr: nat): (i: nat)
    requires per > 0
    ensures i < per
  {
    (if firstData != 0 && addr != 0 then addr - 1 else addr) % per
  }

  function AddrOf(firstData: nat, per: nat, idx: nat, group: nat): nat {
    per * group + if firstData != 0 then idx + 1 else idx
  }

  /** Group and index give the block back, except for block 0 of a volume that counts from 1. */
  lemma {:induction false} AddrRoundTrip(firstData: nat, per: nat, addr: nat)
    requires per > 0
    ensures AddrOf(firstData, per, IdxOf(firstData, per, addr), GroupOf(firstData, per, addr)) == addr
            <==> firstData == 0 || addr != 0
  {
    DivMod(if firstData != 0 && addr != 0 then addr - 1 else addr, per);
  }

  lemma {:induction false} IdxRoundTrip(firstData: nat, per: nat, idx: nat, group: nat)
    requires idx < per
    ensures var a := AddrOf(firstData, per, idx, group);
            GroupOf(firstData, per, a) == group && IdxOf(firstData, per, a) == idx
  {
    DivIs(per * group + idx, per, group, idx);
  }

  // ---- groups of a volume ----

  function GroupCnt(total: nat, per: nat): nat
    requires per > 0
  {
    total / per + if total % per != 0 then 1 else 0
  }

  /** Items in a group, the last one having what is left: ext4_blocks_in_group_cnt and
      ext4_inodes_in_group_cnt. */
  function InGroup(total: nat, per: nat, group: nat): int
    requires per > 0
  {
    if group < GroupCnt(total, per) - 1 then per else total - (GroupCnt(total, per) - 1) * per
  }

  lemma {:induction false} LastGroup(total: nat, per: nat)
    requires per > 0 && total > 0
    ensures var c := GroupCnt(total, per); c > 0 && (c - 1) * per < total <= (c - 1) * per + per
  {
    DivMod(total, per);
    var q := total / per;
    assert per * q == q * per;
    if total % per == 0 {
      assert q > 0 && (q - 1) * per == q * per - per;
    }
  }

  lemma {:induction false} InGroupFits(total: nat, per: nat, group: nat)
    requires per > 0 && total > 0
    ensures 0 < InGroup(total, per, group) <= per
  {
    LastGroup(total, per);
  }

  /** Every item of the volume, counted from 0, lies in a group, at an index the group has ... */
  lemma {:induction false} Located(total: nat, per: nat, a: nat)
    requires per > 0 && a < total
    ensures GroupOf(0, per, a) < GroupCnt(total, per) && IdxOf(0, per, a) < InGroup(total, per, GroupOf(0, per, a))
  {
    LastGroup(total, per);
    DivMod(a, per);
    var c, g := GroupCnt(total, per), a / per;
    assert (c - 1) * per == per * (c - 1);
    Up(per, c - 1, g);
    if g == c - 1 {
      assert per * g == (c - 1) * per;
    }
  }

  /** ... and the other way round. */
  lemma {:induction false} Inside(total: nat, per: nat, g: nat, i: nat)
    requires per > 0 && total > 0 && g < GroupCnt(total, per) && i < InGroup(total, per, g)
    ensures i < per && AddrOf(0, per, i, g) < total
    ensures GroupOf(0, per, AddrOf(0, per, i, g)) == g && IdxOf(0, per, AddrOf(0, per, i, g)) == i
  {
    LastGroup(total, per);
    InGroupFits(total, per, g);
    IdxRoundTrip(0, per, i, g);
    var c := GroupCnt(total, per);
    assert (c - 1) * per == per * (c - 1);
    Up(per, g, c - 1);
  }

  lemma {:induction false} SameSlot(per: nat, a: nat, x: nat)
    requires per > 0
    ensures x == a <==> GroupOf(0, per, x) == GroupOf(0, per, a) && IdxOf(0, per, x) == IdxOf(0, per, a)
  {
    AddrRoundTrip(0, per, a);
    AddrRoundTrip(0, per, x);
  }

  // ---- sums ----

  ghost function Sum(s: seq<nat>): nat {
    if s == [] then 0 else Sum(s[..|s| - 1]) + s[|s| - 1]
  }

  lemma {:induction false} SumPut(s: seq<nat>, i: nat, v: nat)
    requires i < |s|
    ensures Sum(s[i := v]) == Sum(s) - s[i] + v
    decreases |s|
  {
    var n := |s| - 1;
    if i == n {
      assert s[i := v][..n] == s[..n];
    } else {
      assert s[i := v][..n] == s[..n][i := v];
      SumPut(s[..n], i, v);
    }
  }

  lemma {:induction false} SumZero(s: seq<nat>)
    ensures Sum(s) == 0 <==> forall i :: 0 <= i < |s| ==> s[i] == 0
    decreases |s|
  {
    if s != [] {
      SumZero(s[..|s| - 1]);
      assert forall i :: 0 <= i < |s| - 1 ==> s[..|s| - 1][i] == s[i];
    }
  }

  // ---- counters that match the bitmaps ----

  /** Each group has its bitmap, and its counter says how many bits are clear there. */
  ghost predicate Counted(bitmaps: seq<seq<bool>>, free: seq<nat>, total: nat, per: nat)
    requires per > 0
  {
    && total > 0 && |bitmaps| == |free| == GroupCnt(total, per)
    && forall g :: 0 <= g < |bitmaps| ==>
         |bitmaps[g]| >= per >= InGroup(total, per, g) >= 0 && free[g] == Zeros(bitmaps[g], InGroup(total, per, g))
  }

  predicate HasBit(bitmaps: seq<seq<bool>>, per: nat, a: nat)
    requires per > 0
  {
    GroupOf(0, per, a) < |bitmaps| && IdxOf(0, per, a) < |bitmaps[GroupOf(0, per, a)]|
  }

  /** Whether item a of the volume, counting from 0, is in use. */
  predicate Used(bitmaps: seq<seq<bool>>, per: nat, a: nat)
    requires per > 0 && HasBit(bitmaps, per, a)
  {
    bitmaps[GroupOf(0, per, a)][IdxOf(0, per, a)]
  }

  /** The bitmaps with one bit of one group changed. */
  function WithBit(bitmaps: seq<seq<bool>>, g: nat, i: nat, v: bool): seq<seq<bool>>
    requires g < |bitmaps| && i < |bitmaps[g]|
  {
    bitmaps[g := bitmaps[g][i := v]]
  }

  lemma {:induction false} HasBits(bitmaps: seq<seq<bool>>, free: seq<nat>, total: nat, per: nat, a: nat)
    requires per > 0 && Counted(bitmaps, free, total, per) && a < total
    ensures HasBit(bitmaps, per, a) && GroupOf(0, per, a) < |bitmaps|
            && IdxOf(0, per, a) < InGroup(total, per, GroupOf(0, per, a)) <= |bitmaps[GroupOf(0, per, a)]|
  {
    hide GroupOf, IdxOf, InGroup, GroupCnt, Zeros;
    Located(total, per, a);
  }

  /** Changing the bit of item a changes the state of a and of nothing else. */
  lemma {:induction false} UsedWith(bitmaps: seq<seq<bool>>, free: seq<nat>, total: nat, per: nat, a: nat, v: bool,
          x: nat)
    requires per > 0 && Counted(bitmaps, free, total, per) && a < total && x < total
    ensures HasBit(bitmaps, per, a) && HasBit(bitmaps, per, x)
    ensures var b := WithBit(bitmaps, GroupOf(0, per, a), IdxOf(0, per, a), v);
            HasBit(b, per, x) && Used(b, per, x) == if x == a then v else Used(bitmaps, per, x)
  {
    hide GroupOf, IdxOf, InGroup, GroupCnt, Counted, Zeros;
    HasBits(bitmaps, free, total, per, a);
    HasBits(bitmaps, free, total, per, x);
    SameSlot(per, a, x);
  }

  /** A bit set or cleared, with the counter moved along, keeps the counters right if and only if
      the bit really changed. */
  lemma {:induction false} BitCounted(bitmaps: seq<seq<bool>>, free: seq<nat>, total: nat, per: nat, g: nat, i: nat,
          v: bool)
    requires per > 0 && Counted(bitmaps, free, total, per) && g < |bitmaps| && i < InGroup(total, per, g)
             && (v ==> free[g] > 0)
    ensures i < |bitmaps[g]|
    ensures var free' := free[g := if v then free[g] - 1 else free[g] + 1];
            Counted(WithBit(bitmaps, g, i, v), free', total, per) <==> bitmaps[g][i] != v
  {
    hide InGroup, GroupCnt, Zeros;
    ZerosPut(bitmaps[g], InGroup(total, per, g), i, v);
    var free' := free[g := if v then free[g] - 1 else free[g] + 1];
    var bitmaps' := WithBit(bitmaps, g, i, v);
    forall k | 0 <= k < |bitmaps| && k != g
      ensures free'[k] == Zeros(bitmaps'[k], InGroup(total, per, k)) && |bitmaps'[k]| >= per
    {
    }
    if Counted(bitmaps', free', total, per) {
      assert free'[g] == Zeros(bitmaps'[g], InGroup(total, per, g));
    }
  }

  /** A group without free items is full. */
  lemma {:induction false} FullGroup(bitmaps: seq<seq<bool>>, free: seq<nat>, total: nat, per: nat, g: nat)
    requires per > 0 && Counted(bitmaps, free, total, per) && g < |bitmaps|
    ensures 0 <= InGroup(total, per, g) <= |bitmaps[g]|
            && (free[g] == 0 <==> AllSet(bitmaps[g], 0, InGroup(total, per, g)))
  {
    ZerosNone(bitmaps[g], InGroup(total, per, g));
  }

  /** The groups from a up to b have nothing free. */
  ghost predicate NoneIn(bitmaps: seq<seq<bool>>, total: nat, per: nat, a: nat, b: nat) {
    && per > 0 && b <= |bitmaps|
    && forall g {:trigger bitmaps[g]} :: a <= g < b ==>
         0 <= InGroup(total, per, g) <= |bitmaps[g]| && AllSet(bitmaps[g], 0, InGroup(total, per, g))
  }

  lemma {:induction false} ZeroGroups(bitmaps: seq<seq<bool>>, free: seq<nat>, total: nat, per: nat, a: nat, b: nat)
    requires per > 0 && Counted(bitmaps, free, total, per) && b <= |bitmaps| == |free|
    requires forall g :: a <= g < b ==> free[g] == 0
    ensures NoneIn(bitmaps, total, per, a, b)
  {
    hide Zeros;
    forall g {:trigger bitmaps[g]} | a <= g < b
      ensures 0 <= InGroup(total, per, g) <= |bitmaps[g]| && AllSet(bitmaps[g], 0, InGroup(total, per, g))
    {
      FullGroup(bitmaps, free, total, per, g);
    }
  }

  /** No counter above zero: everything is in use, and the other way round. */
  lemma {:induction false} FullVolume(bitmaps: seq<seq<bool>>, free: seq<nat>, total: nat, per: nat)
    requires per > 0 && Counted(bitmaps, free, total, per)
    ensures forall a :: 0 <= a < total ==> HasBit(bitmaps, per, a)
    ensures Sum(free) == 0 <==> forall a :: 0 <= a < total ==> Used(bitmaps, per, a)
  {
    hide GroupOf, IdxOf, AddrOf, InGroup, GroupCnt, Zeros;
    forall a | 0 <= a < total
      ensures HasBit(bitmaps, per, a) && IdxOf(0, per, a) < InGroup(total, per, GroupOf(0, per, a))
    {
      HasBits(bitmaps, free, total, per, a);
    }
    SumZero(free);
    if Sum(free) == 0 {
      forall a | 0 <= a < total
        ensures Used(bitmaps, per, a)
      {
        FullGroup(bitmaps, free, total, per, GroupOf(0, per, a));
      }
    } else {
      var g :| 0 <= g < |free| && free[g] != 0;
      FullGroup(bitmaps, free, total, per, g);
      var i :| 0 <= i < InGroup(total, per, g) && !bitmaps[g][i];
      Inside(total, per, g, i);
      assert !Used(bitmaps, per, AddrOf(0, per, i, g));
    }
  }

  // ---- runs of items ----

  /** A run that stays within the group of its first item takes consecutive bits there. */
  lemma {:induction false} InRun(per: nat, first: nat, count: nat, a: nat)
    requires per > 0 && IdxOf(0, per, first) + count <= per
    ensures first <= a < first + count <==>
            GroupOf(0, per, a) == GroupOf(0, per, first)
                && IdxOf(0, per, first) <= IdxOf(0, per, a) < IdxOf(0, per, first) + count
  {
    hide GroupOf, IdxOf;
    AddrRoundTrip(0, per, first);
    AddrRoundTrip(0, per, a);
    if first <= a < first + count {
      IdxRoundTrip(0, per, IdxOf(0, per, first) + (a - first), GroupOf(0, per, first));
    }
  }

  /** Cutting a run where its first group ends. */
  lemma {:induction false} RunCut(per: nat, first: nat, count: nat, cut: nat)
    requires per > 0 && count > 0
             && cut == if count > per - IdxOf(0, per, first) then per - IdxOf(0, per, first) else count
    ensures cut > 0 && IdxOf(0, per, first) + cut <= per
    ensures GroupOf(0, per, first) <= GroupOf(0, per, first + count - 1)
    ensures cut == count ==> GroupOf(0, per, first + count - 1) == GroupOf(0, per, first)
    ensures cut < count ==>
            GroupOf(0, per, first + cut) == GroupOf(0, per, first) + 1 <= GroupOf(0, per, first + count - 1)
  {
    hide GroupOf, IdxOf;
    var g, i := GroupOf(0, per, first), IdxOf(0, per, first);
    AddrRoundTrip(0, per, first);
    if cut == count {
      IdxRoundTrip(0, per, i + count - 1, g);
    } else {
      assert per * (g + 1) == per * g + per;
      IdxRoundTrip(0, per, 0, g + 1);
      GroupUp(per, first + cut, first + count - 1);
    }
  }

  lemma {:induction false} GroupUp(per: nat, a: nat, b: nat)
    requires per > 0 && a <= b
    ensures GroupOf(0, per, a) <= GroupOf(0, per, b)
  {
    hide GroupOf, IdxOf;
    AddrRoundTrip(0, per, a);
    AddrRoundTrip(0, per, b);
    Up(per, GroupOf(0, per, b), GroupOf(0, per, a));
  }

  /** A run of used items cleared within one group: the counter goes up by the length of the run, and
      the items of the run are free and no others. */
  lemma {:induction false} RunCleared(bitmaps: seq<seq<bool>>, free: seq<nat>, total: nat, per: nat, first: nat,
          count: nat)
    requires per > 0 && Counted(bitmaps, free, total, per) && 0 < count && first + count <= total
             && IdxOf(0, per, first) + count <= per
    requires forall a :: first <= a < first + count ==> HasBit(bitmaps, per, a) && Used(bitmaps, per, a)
    ensures var g, i := GroupOf(0, per, first), IdxOf(0, per, first);
            && g < |bitmaps| && i + count <= |bitmaps[g]|
            && var bitmaps' := bitmaps[g := Cleared(bitmaps[g], i, count)];
            && Counted(bitmaps', free[g := free[g] + count], total, per)
            && forall a :: 0 <= a < total ==>
                 HasBit(bitmaps, per, a) && HasBit(bitmaps', per, a)
                     && Used(bitmaps', per, a) == (Used(bitmaps, per, a) && !(first <= a < first + count))
  {
    hide GroupOf, IdxOf, AddrOf, InGroup, GroupCnt, Zeros;
    var g, i := GroupOf(0, per, first), IdxOf(0, per, first);
    AddrRoundTrip(0, per, first);
    HasBits(bitmaps, free, total, per, first);
    InRun(per, first, count, first + count - 1);
    RunBits(bitmaps, free, total, per, first, count);
    var bitmaps' := bitmaps[g := Cleared(bitmaps[g], i, count)];
    ZerosCleared(bitmaps[g], InGroup(total, per, g), i, count);
    forall a | 0 <= a < total
      ensures HasBit(bitmaps, per, a) && HasBit(bitmaps', per, a)
      ensures Used(bitmaps', per, a) == (Used(bitmaps, per, a) && !(first <= a < first + count))
    {
      HasBits(bitmaps, free, total, per, a);
      InRun(per, first, count, a);
    }
  }

  lemma {:induction false} RunBits(bitmaps: seq<seq<bool>>, free: seq<nat>, total: nat, per: nat, first: nat,
          count: nat)
    requires per > 0 && Counted(bitmaps, free, total, per) && 0 < count && first + count <= total
             && IdxOf(0, per, first) + count <= per
    requires forall a :: first <= a < first + count ==> HasBit(bitmaps, per, a) && Used(bitmaps, per, a)
    ensures var g, i := GroupOf(0, per, first), IdxOf(0, per, first);
            g < |bitmaps| && i + count <= InGroup(total, per, g) <= |bitmaps[g]| && AllSet(bitmaps[g], i, i + count)
  {
    hide GroupOf, IdxOf, AddrOf, InGroup, GroupCnt, Zeros;
    var g, i := GroupOf(0, per, first), IdxOf(0, per, first);
    HasBits(bitmaps, free, total, per, first);
    RunAt(per, first, count - 1);
    HasBits(bitmaps, free, total, per, first + count - 1);
    forall k | i <= k < i + count
      ensures k < InGroup(total, per, g) && bitmaps[g][k]
    {
      var a := first + (k - i);
      AddrRoundTrip(0, per, first);
      RunAt(per, first, k - i);
      HasBits(bitmaps, free, total, per, a);
      assert Used(bitmaps, per, a);
    }
  }

  lemma {:induction false} RunAt(per: nat, first: nat, k: nat)
    requires per > 0 && IdxOf(0, per, first) + k < per
    ensures GroupOf(0, per, first + k) == GroupOf(0, per, first) && IdxOf(0, per, first + k) == IdxOf(0, per, first) + k
  {
    hide GroupOf, IdxOf;
    AddrRoundTrip(0, per, first);
    IdxRoundTrip(0, per, IdxOf(0, per, first) + k, GroupOf(0, per, first));
  }
}
