/** The inode allocator: lwext4/src/ext4_ialloc.c, for as many block groups as the inodes fill.
    Inode numbers count from 1. */
module InodeAlloc {
  import opened Bitmap
  import opened BlockGroups
  import opened Common

  datatype Err = EOK | ENOSPC

  /** Where the search for a group stands: the group, the one to stop at, and whether the search has
      begun again at group 0. */
  datatype Scan = Scan(bgid: nat, bgCount: nat, rewind: bool)

  /** What one turn of the loop in ext4_ialloc_alloc_inode does. */
  datatype Turn = Next(scan: Scan) | Found(idx: nat) | GiveUp

  function TurnOf(bitmaps: seq<seq<bool>>, free: seq<nat>, total: nat, per: nat, last: nat, s: Scan): Turn
    requires per > 0 && s.bgid <= s.bgCount <= |bitmaps| == |free|
    requires s.bgid < s.bgCount ==> 0 <= InGroup(total, per, s.bgid) <= |bitmaps[s.bgid]|
  {
    if s.bgid == s.bgCount then
      if s.rewind then GiveUp else Next(Scan(0, last, true))
    else if free[s.bgid] > 0 then
      match Answer(bitmaps[s.bgid], 0, InGroup(total, per, s.bgid))
      case None => Next(s)
      case Some(i) => Found(i)
    else
      Next(Scan(s.bgid + 1, s.bgCount, s.rewind))
  }

  /** A turn that goes on makes progress, so that the loop ends, if and only if the group does not
      claim free inodes that its bitmap does not have. If it does the loop never ends. */
  lemma {:induction false} TurnMoves(bitmaps: seq<seq<bool>>, free: seq<nat>, total: nat, per: nat, last: nat, s: Scan)
    requires per > 0 && s.bgid <= s.bgCount <= |bitmaps| == |free| && last < |bitmaps|
    requires s.bgid < s.bgCount ==> 0 <= InGroup(total, per, s.bgid) <= |bitmaps[s.bgid]|
    requires TurnOf(bitmaps, free, total, per, last, s).Next?
    ensures var n := TurnOf(bitmaps, free, total, per, last, s).scan;
            && (n == s || (!s.rewind && n.rewind) || (s.rewind == n.rewind && n.bgCount - n.bgid < s.bgCount - s.bgid))
            && n.bgid <= n.bgCount
            && (n == s
                <==> s.bgid < s.bgCount && free[s.bgid] > 0 && AllSet(bitmaps[s.bgid], 0, InGroup(total, per, s.bgid)))
  {
    if s.bgid < s.bgCount {
      AnswerClear(bitmaps[s.bgid], 0, InGroup(total, per, s.bgid));
    }
  }

  /** A group that claims one free inode with all four in use: the turn leads back to itself. */
  lemma {:induction false} StuckTurn()
    ensures var s := Scan(0, 1, false); TurnOf([[true, true, true, true]], [1], 4, 4, 0, s) == Next(s)
  {
    var bits := [true, true, true, true];
    AnswerClear(bits, 0, 4);
    assert GroupCnt(4, 4) == 1 && InGroup(4, 4, 0) == 4;
  }

  class Inodes {
    const per: nat
    const total: nat
    var bitmaps: seq<seq<bool>>
    var free: seq<nat>
    var usedDirs: seq<nat>
    /** Inodes at the end of each group's table that were never used. */
    var unused: seq<nat>
    var sbFree: nat
    var lastGroup: nat

    /** The counters match the bitmaps, and the never used tails are free. The counters of used
        directories are not part of this. */
    ghost predicate Valid()
      reads this
    {
      && per > 0 && Counted(bitmaps, free, total, per) && sbFree == Sum(free)
      && |usedDirs| == |unused| == |bitmaps| && lastGroup < |bitmaps|
      && forall g :: 0 <= g < |bitmaps| ==> TailFree(bitmaps[g], InGroup(total, per, g), unused[g])
    }

    /** Whether an inode is in use. */
    predicate InUse(inode: nat)
      requires per > 0 && inode > 0 && HasBit(bitmaps, per, inode - 1)
      reads this
    {
      Used(bitmaps, per, inode - 1)
    }

    /** No more than n inodes at the end of group g are left that were never used. */
    function Untouched(unused: seq<nat>, g: nat, n: nat): (r: seq<nat>)
      requires g < |unused|
      ensures |r| == |unused| && r[g] <= n && r[g] <= unused[g] && (r[g] == n || r[g] == unused[g])
      ensures forall k :: 0 <= k < |r| && k != g ==> r[k] == unused[k]
    {
      if n < unused[g] then unused[g := n] else unused
    }

    /** Gives the first free inode of a group out. */
    method TakeInode(bgid: nat, isDir: bool) returns (inode: nat, ghost idx: nat)
      requires Valid() && bgid < |bitmaps| && free[bgid] > 0
      requires 0 <= InGroup(total, per, bgid) <= |bitmaps[bgid]|
               && Answer(bitmaps[bgid], 0, InGroup(total, per, bgid)).Some?
      modifies this`bitmaps, this`free, this`usedDirs, this`unused, this`sbFree, this`lastGroup
      ensures Valid() && old(sbFree) > 0 && 1 <= inode <= total && HasBit(old(bitmaps), per, inode - 1)
              && !old(InUse(inode))
      ensures GroupOf(0, per, inode - 1) == bgid
              && bitmaps == WithBit(old(bitmaps), bgid, IdxOf(0, per, inode - 1), true)
      ensures sbFree == old(sbFree) - 1 && lastGroup == bgid
      ensures |old(usedDirs)| == |old(bitmaps)|
              && usedDirs == if isDir then old(usedDirs)[bgid := old(usedDirs)[bgid] + 1] else old(usedDirs)
      ensures Answer(old(bitmaps)[bgid], 0, InGroup(total, per, bgid)) == Some(idx)
      ensures AllSet(old(bitmaps)[bgid], 0, IdxOf(0, per, inode - 1))
      ensures IdxOf(0, per, inode - 1) < InGroup(total, per, bgid) && |old(unused)| == |old(bitmaps)|
              && unused == Untouched(old(unused), bgid, InGroup(total, per, bgid) - (IdxOf(0, per, inode - 1) + 1))
    {
      hide InGroup, GroupCnt, Zeros, Sum, GroupOf, IdxOf, AddrOf, AllSet, Answer, TailFree;
      HasFree(bgid);
      var inodesInBg := InGroup(total, per, bgid);
      var bits := bitmaps[bgid];
      var b := new bool[|bits|](i requires 0 <= i < |bits| => bits[i]);
      assert b[..] == bits;
      var r := BitFindClr(b, 0, inodesInBg);
      var idxInBg := r.value;
      idx := idxInBg;
      Taken(bgid, idxInBg);
      b[idxInBg] := true;
      bitmaps := bitmaps[bgid := b[..]];
      free := free[bgid := free[bgid] - 1];
      if isDir {
        usedDirs := usedDirs[bgid := usedDirs[bgid] + 1];
      }
      var first := inodesInBg - unused[bgid];
      if idxInBg >= first {
        unused := unused[bgid := inodesInBg - (idxInBg + 1)];
      }
      sbFree := sbFree - 1;
      inode := AddrOf(0, per, idxInBg, bgid) + 1;
      lastGroup := bgid;
    }

    /** Of all free inodes, this one comes first in the order of the search: from group last on, and then
        from group 0 on. */
    ghost predicate Nearest(was: seq<seq<bool>>, last: nat, inode: nat) {
      && per > 0 && inode > 0 && HasBit(was, per, inode - 1)
      && var g := GroupOf(0, per, inode - 1);
         && AllSet(was[g], 0, IdxOf(0, per, inode - 1))
         && if last <= g then NoneIn(was, total, per, last, g)
            else NoneIn(was, total, per, last, |was|) && NoneIn(was, total, per, 0, g)
    }

    lemma {:induction false} NearestIs(bitmaps: seq<seq<bool>>, free: seq<nat>, last: nat, g: nat, inode: nat)
      requires per > 0 && Counted(bitmaps, free, total, per) && |free| == |bitmaps|
      requires g < |bitmaps| && inode > 0 && GroupOf(0, per, inode - 1) == g
      requires HasBit(bitmaps, per, inode - 1) && AllSet(bitmaps[g], 0, IdxOf(0, per, inode - 1))
      requires forall k :: 0 <= k < |free| && (if last <= g then last <= k < g else last <= k || k < g) ==> free[k] == 0
      ensures Nearest(bitmaps, last, inode)
    {
      hide NoneIn, AllSet, GroupOf, IdxOf;
      if last <= g {
        ZeroGroups(bitmaps, free, total, per, last, g);
      } else {
        ZeroGroups(bitmaps, free, total, per, last, |bitmaps|);
        ZeroGroups(bitmaps, free, total, per, 0, g);
      }
    }

    /** Gives a free inode out, from the group used last or the next one that has one:
        ext4_ialloc_alloc_inode. It fails only if all inodes are in use. */
    method AllocInode(isDir: bool) returns (err: Err, inode: nat)
      requires Valid()
      modifies this`bitmaps, this`free, this`usedDirs, this`unused, this`sbFree, this`lastGroup
      ensures Valid() && (err == ENOSPC <==> old(sbFree) == 0)
      ensures err == EOK ==> 1 <= inode <= total && HasBit(old(bitmaps), per, inode - 1) && !old(InUse(inode))
      ensures err == EOK ==> Nearest(old(bitmaps), old(lastGroup), inode)
      ensures err == EOK ==>
                var g := GroupOf(0, per, inode - 1);
                && g < |old(bitmaps)| == |old(usedDirs)|
                && bitmaps == WithBit(old(bitmaps), g, IdxOf(0, per, inode - 1), true)
                && sbFree == old(sbFree) - 1 && lastGroup == g
                && (usedDirs == if isDir then old(usedDirs)[g := old(usedDirs)[g] + 1] else old(usedDirs))
                && IdxOf(0, per, inode - 1) < InGroup(total, per, g) && g < |old(unused)|
                && unused == Untouched(old(unused), g, InGroup(total, per, g) - (IdxOf(0, per, inode - 1) + 1))
      ensures err == ENOSPC ==>
              bitmaps == old(bitmaps) && free == old(free) && usedDirs == old(usedDirs) && unused == old(unused)
    {
      hide InGroup, GroupCnt, Zeros, Sum, GroupOf, IdxOf, AddrOf, AllSet, Answer, TailFree, Nearest;
      var bgid, bgCount, rewind := lastGroup, |bitmaps|, false;
      SumZero(free);
      while bgid <= bgCount
        invariant Valid() && bitmaps == old(bitmaps) && free == old(free) && usedDirs == old(usedDirs)
                  && unused == old(unused)
        invariant sbFree == old(sbFree) && lastGroup == old(lastGroup)
        invariant 0 <= bgid <= bgCount && bgCount == if rewind then lastGroup else |bitmaps|
        invariant forall g :: (if rewind then 0 else lastGroup) <= g < bgid ==> free[g] == 0
        invariant rewind ==> forall g :: lastGroup <= g < |bitmaps| ==> free[g] == 0
        decreases if rewind then 0 else 1, bgCount - bgid
      {
        ghost var turn := TurnNow(bgid, bgCount, rewind);
        if bgid == bgCount {
          if rewind {
            assert turn == GiveUp;
            break;
          }
          bgCount := lastGroup;
          bgid := 0;
          rewind := true;
          assert turn == Next(Scan(bgid, bgCount, rewind));
          continue;
        }
        if free[bgid] > 0 {
          HasFree(bgid);
          ghost var idx;
          ghost var was, free0, last := bitmaps, free, lastGroup;
          inode, idx := TakeInode(bgid, isDir);
          NearestIs(was, free0, last, bgid, inode);
          assert turn == Found(idx);
          return EOK, inode;
        }
        bgid := bgid + 1;
        assert turn == Next(Scan(bgid, bgCount, rewind));
      }
      return ENOSPC, 0;
    }

    lemma {:induction false} TurnNow(bgid: nat, bgCount: nat, rewind: bool) returns (turn: Turn)
      requires Valid() && bgid <= bgCount <= |bitmaps|
      ensures |free| == |bitmaps| && (bgid < bgCount ==> 0 <= InGroup(total, per, bgid) <= |bitmaps[bgid]|)
      ensures turn == TurnOf(bitmaps, free, total, per, lastGroup, Scan(bgid, bgCount, rewind))
    {
      turn := TurnOf(bitmaps, free, total, per, lastGroup, Scan(bgid, bgCount, rewind));
    }

    /** A group whose counter says so has a free inode, and the search finds it. */
    lemma {:induction false} HasFree(g: nat)
      requires Valid() && g < |bitmaps| && free[g] > 0
      ensures 0 <= InGroup(total, per, g) <= |bitmaps[g]|
      ensures var r := Answer(bitmaps[g], 0, InGroup(total, per, g));
              r.Some? && r.value < InGroup(total, per, g) && !bitmaps[g][r.value] && AllSet(bitmaps[g], 0, r.value)
    {
      FullGroup(bitmaps, free, total, per, g);
      AnswerClear(bitmaps[g], 0, InGroup(total, per, g));
    }

    /** Everything that follows from setting a clear bit. */
    lemma {:induction false} Taken(g: nat, i: nat)
      requires Valid() && g < |bitmaps| && i < InGroup(total, per, g) && i < |bitmaps[g]| && !bitmaps[g][i]
               && free[g] > 0
      ensures var bits := WithBit(bitmaps, g, i, true);
              && Counted(bits, free[g := free[g] - 1], total, per) && sbFree > 0
                 && sbFree - 1 == Sum(free[g := free[g] - 1])
              && unused[g] <= InGroup(total, per, g)
              && (forall k :: 0 <= k < |bits| && k != g ==> TailFree(bits[k], InGroup(total, per, k), unused[k]))
              && TailFree(bits[g], InGroup(total, per, g),
                     if i >= InGroup(total, per, g) - unused[g] then InGroup(total, per, g) - (i + 1) else unused[g])
      ensures AddrOf(0, per, i, g) < total && GroupOf(0, per, AddrOf(0, per, i, g)) == g
              && IdxOf(0, per, AddrOf(0, per, i, g)) == i
    {
      hide InGroup, GroupCnt, Zeros, Sum, GroupOf, IdxOf, AddrOf;
      BitCounted(bitmaps, free, total, per, g, i, true);
      SumPut(free, g, free[g] - 1);
      SumZero(free);
      Inside(total, per, g, i);
      assert TailFree(bitmaps[g], InGroup(total, per, g), unused[g]);
    }

    /** Takes an inode back: ext4_ialloc_free_inode. The counters stay right if and only if the inode was
        in use; the source does not look. */
    method FreeInode(inode: nat, isDir: bool)
      requires Valid() && 1 <= inode <= total
      requires isDir ==> GroupOf(0, per, inode - 1) < |usedDirs| && usedDirs[GroupOf(0, per, inode - 1)] > 0
      modifies this`bitmaps, this`free, this`usedDirs, this`sbFree
      ensures HasBit(old(bitmaps), per, inode - 1) && (Valid() <==> old(InUse(inode))) && sbFree == old(sbFree) + 1
      ensures var g := GroupOf(0, per, inode - 1);
              && g < |old(usedDirs)|
              && bitmaps == WithBit(old(bitmaps), g, IdxOf(0, per, inode - 1), false)
              && usedDirs == if isDir then old(usedDirs)[g := old(usedDirs)[g] - 1] else old(usedDirs)
    {
      hide InGroup, GroupCnt, Zeros, Sum, GroupOf, IdxOf, AddrOf, TailFree;
      HasBits(bitmaps, free, total, per, inode - 1);
      var blockGroup, indexInGroup := GroupOf(0, per, inode - 1), IdxOf(0, per, inode - 1);
      BitCounted(bitmaps, free, total, per, blockGroup, indexInGroup, false);
      SumPut(free, blockGroup, free[blockGroup] + 1);
      TailStays(bitmaps[blockGroup], InGroup(total, per, blockGroup), unused[blockGroup], indexInGroup);
      bitmaps := bitmaps[blockGroup := bitmaps[blockGroup][indexInGroup := false]];
      if isDir {
        usedDirs := usedDirs[blockGroup := usedDirs[blockGroup] - 1];
      }
      free := free[blockGroup := free[blockGroup] + 1];
      sbFree := sbFree + 1;
    }
  }

  /** The last inodes of a group are free. */
  ghost predicate TailFree(bits: seq<bool>, n: int, unused: nat) {
    unused <= n <= |bits| && forall k :: n - unused <= k < n ==> !bits[k]
  }

  lemma {:induction false} TailStays(bits: seq<bool>, n: int, unused: nat, i: nat)
    requires TailFree(bits, n, unused) && i < |bits|
    ensures TailFree(bits[i := false], n, unused)
  {
  }

  /** Freeing inode 3, which is free, makes the group of eight claim nine free inodes. */
  lemma {:induction false} FreedAgain()
    ensures var bits := seq(8, _ => false);
            && Counted([bits], [8], 8, 8) && !Used([bits], 8, 3 - 1)
            && !Counted(WithBit([bits], GroupOf(0, 8, 3 - 1), IdxOf(0, 8, 3 - 1), false), [9], 8, 8)
  {
    var bits := seq(8, _ => false);
    ZerosAll(bits, 8);
    assert GroupCnt(8, 8) == 1 && InGroup(8, 8, 0) == 8;
    BitCounted([bits], [8], 8, 8, 0, 2, false);
  }
}
